/** The commit record and the header line of the `git log -L` output
    format (ev.go): the framing constants, the `Commit` record, the error
    kinds, and `readHeader`, which decodes the seven `|`-separated fields
    that follow the start marker. */
module Commits {
  import opened Wrappers
  import opened Text

  /** Marker that opens every record's header line. */
  const StartMarker: string := "HEADER:"

  /** Line that ends a record's message and starts its diff. */
  const EndMarker: string := "EV_BODY_END"

  /** Separator between the header fields. */
  const Separator: char := '|'

  /** The git placeholders of the seven header fields, in order: hash,
      author name, author email, author date, committer name, committer
      email, committer date. */
  const HeaderPlaceholders: seq<string> := ["%H", "%an", "%ae", "%ad", "%cn", "%ce", "%cd"]

  /** The `--pretty=format:` argument handed to git. It puts a second `:`
      after the start marker (see `GitHeaderLine`). */
  const PrettyFormat: string :=
    StartMarker + ":" + Join(HeaderPlaceholders, Separator) + "%n%s%n" + EndMarker

  /** The format string opens with the start marker, and its header part
      splits at the separator into the seven placeholders, in order. */
  lemma PrettyFormatFields()
    ensures HasPrefix(PrettyFormat, StartMarker)
    ensures Split(Join(HeaderPlaceholders, Separator), Separator) == HeaderPlaceholders
  {
    assert PrettyFormat[..|StartMarker|] == StartMarker;
    SplitJoin(HeaderPlaceholders, Separator);
  }

  /** A parsed timestamp: the instant and the zone offset it was written in. */
  datatype Date = Date(unixSeconds: int, offsetSeconds: int)

  /** Go's `time.Parse` with the layout `Mon, _2 Jan 2006 15:04:05 -0700`,
      left abstract: `None` when the text does not parse. */
  type DateParser = string -> Option<Date>

  /** The seven fields `readHeader` stores into the record. */
  datatype Header = Header(
    sha: string,
    authorName: string,
    authorEmail: string,
    authorDate: Date,
    committerName: string,
    committerEmail: string,
    committerDate: Date)

  /** One history entry. */
  datatype Commit = Commit(
    sha: string,
    authorName: string,
    authorEmail: string,
    authorDate: Date,
    committerName: string,
    committerEmail: string,
    committerDate: Date,
    msg: string,
    diff: string,
    changes: nat)

  /** Why a run of `Log` failed. Each kind stands for one `fmt.Errorf` of the
      source; the message texts themselves are not modelled. */
  datatype LogError =
    | ExecFailed(stderr: string)       // git could not be run or exited non-zero
    | BadHeader(text: string)          // a header without exactly seven fields
    | BadAuthorDate(text: string)      // the author date does not parse
    | BadCommitterDate(text: string)   // the committer date does not parse
    | ScanFailed                       // the line scanner reported an error

  predicate IsHeaderError(e: LogError) {
    e.BadHeader? || e.BadAuthorDate? || e.BadCommitterDate?
  }

  /** A line that opens a record. */
  predicate IsHeaderLine(line: string) {
    HasPrefix(line, StartMarker)
  }

  /** The end marker does not open a record. */
  lemma MarkerIsNoHeader()
    ensures !IsHeaderLine(EndMarker)
  {
    assert EndMarker[0] != StartMarker[0];
  }

  /** The text `Log` hands to `readHeader`: the line minus the start marker. */
  function HeaderText(line: string): (text: string)
    requires IsHeaderLine(line)
    ensures StartMarker + text == line
  {
    line[|StartMarker|..]
  }

  /** A freshly allocated record after `readHeader` filled it in: message and
      diff empty, no changes counted yet. */
  function FromHeader(h: Header): (c: Commit)
    ensures Header(c.sha, c.authorName, c.authorEmail, c.authorDate,
                   c.committerName, c.committerEmail, c.committerDate) == h
    ensures c.msg == "" && c.diff == "" && c.changes == 0
  {
    Commit(h.sha, h.authorName, h.authorEmail, h.authorDate,
           h.committerName, h.committerEmail, h.committerDate, "", "", 0)
  }

  /** `readHeader`: split on `|`, demand exactly seven fields, parse the
      author date and then the committer date, and copy the other five
      fields verbatim. What it promises is `ReadHeaderSpec`. */
  function ReadHeader(text: string, parseDate: DateParser): (r: Result<Header, LogError>)
    ensures r.Err? ==> IsHeaderError(r.error)
  {
    var p := Split(text, Separator);
    if |p| != 7 then Err(BadHeader(text))
    else
      match parseDate(p[3])
      case None => Err(BadAuthorDate(p[3]))
      case Some(aDate) =>
        match parseDate(p[6])
        case None => Err(BadCommitterDate(p[6]))
        case Some(cDate) => Ok(Header(p[0], p[1], p[2], aDate, p[4], p[5], cDate))
  }

  /** Exactly six separators are needed; the five text fields are copied
      verbatim and the two dates are the parser's; all or nothing, and the
      author date is checked before the committer date. */
  lemma ReadHeaderSpec(text: string, parseDate: DateParser)
    ensures CountChar(text, Separator) != 6 ==> ReadHeader(text, parseDate) == Err(BadHeader(text))
    ensures ReadHeader(text, parseDate).Ok? ==>
      && CountChar(text, Separator) == 6
      && var h, p := ReadHeader(text, parseDate).value, Split(text, Separator);
      && |p| == 7
      && h.sha == p[0] && h.authorName == p[1] && h.authorEmail == p[2]
      && h.committerName == p[4] && h.committerEmail == p[5]
      && parseDate(p[3]) == Some(h.authorDate)
      && parseDate(p[6]) == Some(h.committerDate)
    ensures CountChar(text, Separator) == 6 ==>
      var p := Split(text, Separator);
      && (parseDate(p[3]).None? ==> ReadHeader(text, parseDate) == Err(BadAuthorDate(p[3])))
      && (parseDate(p[3]).Some? && parseDate(p[6]).None? ==>
            ReadHeader(text, parseDate) == Err(BadCommitterDate(p[6])))
  {
    var p := Split(text, Separator);
    var r := ReadHeader(text, parseDate);
    if |p| != 7 {
      assert r == Err(BadHeader(text));
    } else if parseDate(p[3]).None? {
      assert r == Err(BadAuthorDate(p[3]));
    } else if parseDate(p[6]).None? {
      assert r == Err(BadCommitterDate(p[6]));
    } else {
      assert r == Ok(Header(p[0], p[1], p[2], parseDate(p[3]).value, p[4], p[5], parseDate(p[6]).value));
    }
  }

  predicate NoSeparator(s: string) {
    Separator !in s
  }

  /** Decoding seven separator-free fields joined by `|` gives them back
      verbatim (untrimmed), with the two dates parsed. */
  lemma ReadHeaderOfFields(sha: string, an: string, ae: string, ad: string,
                           cn: string, ce: string, cd: string, parseDate: DateParser)
    requires NoSeparator(sha) && NoSeparator(an) && NoSeparator(ae) && NoSeparator(ad)
    requires NoSeparator(cn) && NoSeparator(ce) && NoSeparator(cd)
    requires parseDate(ad).Some? && parseDate(cd).Some?
    ensures ReadHeader(Join([sha, an, ae, ad, cn, ce, cd], Separator), parseDate)
         == Ok(Header(sha, an, ae, parseDate(ad).value, cn, ce, parseDate(cd).value))
  {
    var fields := [sha, an, ae, ad, cn, ce, cd];
    SplitJoin(fields, Separator);
    ReadHeaderSpec(Join(fields, Separator), parseDate);
  }

  /** The first line git prints for `PrettyFormat`, for a commit with the
      given field texts: the start marker, the extra `:`, then the fields. */
  function GitHeaderLine(sha: string, an: string, ae: string, ad: string,
                         cn: string, ce: string, cd: string): (line: string)
    ensures IsHeaderLine(line)
  {
    StartMarker + ":" + Join([sha, an, ae, ad, cn, ce, cd], Separator)
  }

  /** As written: since `Log` strips only `HEADER:` from the line git prints,
      the stored SHA keeps the second colon of the format string. */
  lemma GitHeaderShaHasColon(sha: string, an: string, ae: string, ad: string,
                             cn: string, ce: string, cd: string, parseDate: DateParser)
    requires NoSeparator(sha) && NoSeparator(an) && NoSeparator(ae) && NoSeparator(ad)
    requires NoSeparator(cn) && NoSeparator(ce) && NoSeparator(cd)
    requires parseDate(ad).Some? && parseDate(cd).Some?
    ensures var r := ReadHeader(HeaderText(GitHeaderLine(sha, an, ae, ad, cn, ce, cd)), parseDate);
      r.Ok? && r.value.sha == ":" + sha && r.value.sha != sha
  {
    var line := GitHeaderLine(sha, an, ae, ad, cn, ce, cd);
    var fields := [":" + sha, an, ae, ad, cn, ce, cd];
    assert Join(fields, Separator) == ":" + Join([sha, an, ae, ad, cn, ce, cd], Separator);
    assert HeaderText(line) == Join(fields, Separator);
    ReadHeaderOfFields(":" + sha, an, ae, ad, cn, ce, cd, parseDate);
  }

  /** The header line as evidently intended: the start marker directly
      followed by the fields. */
  function HeaderLine(sha: string, an: string, ae: string, ad: string,
                      cn: string, ce: string, cd: string): (line: string)
    ensures IsHeaderLine(line)
  {
    StartMarker + Join([sha, an, ae, ad, cn, ce, cd], Separator)
  }

  /** With the intended line, the SHA and the other text fields come back
      exactly as git printed them. */
  lemma HeaderLineRoundTrip(sha: string, an: string, ae: string, ad: string,
                            cn: string, ce: string, cd: string, parseDate: DateParser)
    requires NoSeparator(sha) && NoSeparator(an) && NoSeparator(ae) && NoSeparator(ad)
    requires NoSeparator(cn) && NoSeparator(ce) && NoSeparator(cd)
    requires parseDate(ad).Some? && parseDate(cd).Some?
    ensures ReadHeader(HeaderText(HeaderLine(sha, an, ae, ad, cn, ce, cd)), parseDate)
         == Ok(Header(sha, an, ae, parseDate(ad).value, cn, ce, parseDate(cd).value))
  {
    var line := HeaderLine(sha, an, ae, ad, cn, ce, cd);
    assert HeaderText(line) == Join([sha, an, ae, ad, cn, ce, cd], Separator);
    ReadHeaderOfFields(sha, an, ae, ad, cn, ce, cd, parseDate);
  }
}
