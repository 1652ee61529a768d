/** What a run of the scanner promises, read off `LogSpec`: one record per
    header line in stream order, the first bad header deciding the error,
    the panic before any header, and the scanner error after a clean scan. */
module Outcomes {
  import opened Wrappers
  import opened Commits
  import opened Sections
  import opened Scanner

  /** A header line whose fields decode. */
  predicate Decodes(line: string, parseDate: DateParser) {
    IsHeaderLine(line) && ReadHeader(HeaderText(line), parseDate).Ok?
  }

  /** Decoding succeeds exactly when every header decodes; it then yields
      one record per group, in order, each finished from its own group. */
  lemma DecodeOk(gs: seq<Group>, parseDate: DateParser)
    requires AllHeaderLines(gs)
    ensures Decode(gs, parseDate).Ok? <==> forall k :: 0 <= k < |gs| ==> Decodes(gs[k].header, parseDate)
    ensures Decode(gs, parseDate).Ok? ==>
      var cs := Decode(gs, parseDate).value;
      && |cs| == |gs|
      && forall k :: 0 <= k < |gs| ==>
           cs[k] == Finish(ReadHeader(HeaderText(gs[k].header), parseDate).value, gs[k].body)
  {
    var read := ReadLine(parseDate);
    DecodeAsWith(gs, parseDate);
    assert forall k :: 0 <= k < |gs| ==> read(gs[k].header) == ReadHeader(HeaderText(gs[k].header), parseDate);
    if DecodeWith(gs, read).Ok? {
      DecodeWithNeedsHeaders(gs, read);
    }
    if forall k :: 0 <= k < |gs| ==> read(gs[k].header).Ok? {
      DecodeWithValues(gs, read);
    }
  }

  /** When the headers before the `j`-th decode and the `j`-th fails with
      `e`, decoding fails with `e`: the first bad header decides. */
  lemma DecodeFirstError(gs: seq<Group>, j: nat, e: LogError, parseDate: DateParser)
    requires AllHeaderLines(gs) && j < |gs|
    requires forall k :: 0 <= k < j ==> Decodes(gs[k].header, parseDate)
    requires ReadHeader(HeaderText(gs[j].header), parseDate) == Err(e)
    ensures Decode(gs, parseDate) == Err(e)
  {
    var read := ReadLine(parseDate);
    DecodeAsWith(gs, parseDate);
    assert forall k :: 0 <= k < |gs| ==> read(gs[k].header) == ReadHeader(HeaderText(gs[k].header), parseDate);
    DecodeWithFirstError(gs, j, e, read);
  }

  // ----- decoding with an arbitrary header reader -----

  // `DecodeWith` repeats the recursion of `Scanner.Decode` with the header
  // reader passed in as a function value. The inductions below run over this
  // form, so `ReadHeader`'s body never enters them; `DecodeAsWith` shows that
  // the two definitions agree, and `DecodeOk` and `DecodeFirstError` carry the
  // results back to `Decode`.

  /** `readHeader` applied to the text after the start marker. */
  function ReadLine(parseDate: DateParser): (read: string -> Result<Header, LogError>)
    ensures forall line :: IsHeaderLine(line) ==> read(line) == ReadHeader(HeaderText(line), parseDate)
  {
    line => if IsHeaderLine(line) then ReadHeader(HeaderText(line), parseDate) else Err(BadHeader(line))
  }

  /** `Decode` with the header reader passed in. */
  function DecodeWith(gs: seq<Group>, read: string -> Result<Header, LogError>): Result<seq<Commit>, LogError>
    decreases |gs|
  {
    if gs == [] then Ok([])
    else
      var g := gs[|gs| - 1];
      match DecodeWith(gs[..|gs| - 1], read)
      case Err(e) => Err(e)
      case Ok(cs) =>
        match read(g.header)
        case Err(e) => Err(e)
        case Ok(h) => Ok(cs + [Finish(h, g.body)])
  }

  lemma {:induction false} DecodeAsWith(gs: seq<Group>, parseDate: DateParser)
    requires AllHeaderLines(gs)
    ensures Decode(gs, parseDate) == DecodeWith(gs, ReadLine(parseDate))
    decreases |gs|
  {
    if gs != [] {
      var init := gs[..|gs| - 1];
      assert AllHeaderLines(init) by {
        assert forall k :: 0 <= k < |init| ==> init[k] == gs[k];
      }
      DecodeAsWith(init, parseDate);
    }
  }

  /** Decoding succeeds only when every header decodes. */
  lemma {:induction false} DecodeWithNeedsHeaders(gs: seq<Group>, read: string -> Result<Header, LogError>)
    requires DecodeWith(gs, read).Ok?
    ensures forall k :: 0 <= k < |gs| ==> read(gs[k].header).Ok?
    decreases |gs|
  {
    if gs != [] {
      var n := |gs|;
      var init := gs[..n - 1];
      DecodeWithNeedsHeaders(init, read);
      forall k | 0 <= k < n
        ensures read(gs[k].header).Ok?
      {
        if k < n - 1 {
          assert init[k] == gs[k];
        }
      }
    }
  }

  /** When every header decodes, decoding succeeds with one record per
      group, in order, each finished from its own group. */
  lemma {:induction false} DecodeWithValues(gs: seq<Group>, read: string -> Result<Header, LogError>)
    requires forall k :: 0 <= k < |gs| ==> read(gs[k].header).Ok?
    ensures DecodeWith(gs, read).Ok?
    ensures var cs := DecodeWith(gs, read).value;
      && |cs| == |gs|
      && forall k :: 0 <= k < |gs| ==> cs[k] == Finish(read(gs[k].header).value, gs[k].body)
    decreases |gs|
  {
    if gs != [] {
      var n := |gs|;
      var init, g := gs[..n - 1], gs[n - 1];
      assert forall k :: 0 <= k < n - 1 ==> init[k] == gs[k];
      DecodeWithValues(init, read);
      var cs := DecodeWith(init, read).value;
      var cs' := cs + [Finish(read(g.header).value, g.body)];
      assert DecodeWith(gs, read) == Ok(cs');
      forall k | 0 <= k < n
        ensures cs'[k] == Finish(read(gs[k].header).value, gs[k].body)
      {
        if k < n - 1 {
          assert init[k] == gs[k] && cs'[k] == cs[k];
        }
      }
    }
  }

  /** The first header that fails decides the error. */
  lemma {:induction false} DecodeWithFirstError(gs: seq<Group>, j: nat, e: LogError,
                                                read: string -> Result<Header, LogError>)
    requires j < |gs|
    requires forall k :: 0 <= k < j ==> read(gs[k].header).Ok?
    requires read(gs[j].header) == Err(e)
    ensures DecodeWith(gs, read) == Err(e)
    decreases |gs|
  {
    var n := |gs|;
    var init := gs[..n - 1];
    assert forall k :: 0 <= k < n - 1 ==> init[k] == gs[k];
    if j == n - 1 {
      DecodeWithValues(init, read);
    } else {
      DecodeWithFirstError(init, j, e, read);
    }
  }

  /** The outcome of a whole stream. A panic exactly when a change line
      follows an end marker before any header. Otherwise a list exactly when
      the scanner reported no error and every header line decodes; that
      list holds one record per header line, in stream order, whose fields
      come from that header and whose message, diff and change count come
      from the lines up to the next header. */
  lemma LogOutcomes(lines: seq<string>, scanFailed: bool, parseDate: DateParser)
    ensures LogSpec(lines, scanFailed, parseDate) == NilDereference <==> Panics(lines)
    ensures LogSpec(lines, scanFailed, parseDate).Parsed? <==>
      && !Panics(lines) && !scanFailed
      && forall k :: 0 <= k < |HeaderLines(lines)| ==> Decodes(HeaderLines(lines)[k], parseDate)
    ensures LogSpec(lines, scanFailed, parseDate).Parsed? ==>
      var cs, hs, gs := LogSpec(lines, scanFailed, parseDate).commits, HeaderLines(lines), Groups(lines);
      && |cs| == |hs| == |gs|
      && forall k :: 0 <= k < |cs| ==>
           && gs[k].header == hs[k]
           && cs[k] == Finish(ReadHeader(HeaderText(hs[k]), parseDate).value, gs[k].body)
  {
    var gs := Groups(lines);
    GroupsShape(lines);
    GroupsHeaders(lines);
    assert forall k :: 0 <= k < |gs| ==> Headers(gs)[k] == gs[k].header;
    DecodeOk(gs, parseDate);
  }

  /** The stream fails with the error of its first header line that does
      not decode, unless it panics first; later lines cannot change that. */
  lemma LogFirstBadHeader(lines: seq<string>, scanFailed: bool, j: nat, e: LogError,
                          parseDate: DateParser)
    requires !Panics(lines)
    requires j < |HeaderLines(lines)|
    requires forall k :: 0 <= k < j ==> Decodes(HeaderLines(lines)[k], parseDate)
    requires IsHeaderLine(HeaderLines(lines)[j])
    requires ReadHeader(HeaderText(HeaderLines(lines)[j]), parseDate) == Err(e)
    ensures LogSpec(lines, scanFailed, parseDate) == Failed(e)
  {
    var gs := Groups(lines);
    GroupsShape(lines);
    GroupsHeaders(lines);
    assert forall k :: 0 <= k < |gs| ==> Headers(gs)[k] == gs[k].header;
    DecodeFirstError(gs, j, e, parseDate);
  }

  /** Without a header line there is no record: the stream panics, fails
      with the scanner's error, or gives the empty list, never nil. */
  lemma NoHeaderNoCommits(lines: seq<string>, scanFailed: bool, parseDate: DateParser)
    requires HeaderLines(lines) == []
    ensures LogSpec(lines, scanFailed, parseDate) ==
      if Panics(lines) then NilDereference
      else if scanFailed then Failed(ScanFailed)
      else Parsed([])
  {
    GroupsHeaders(lines);
    assert |Headers(Groups(lines))| == 0;
  }

  /** The finished record's buffers give back the message and diff lines
      (the scanner never sees a line feed inside a line), no end marker is
      among them, and the change count is that of the diff's lines. */
  lemma FinishBuffers(h: Header, body: seq<string>)
    requires forall line :: line in body ==> '\n' !in line
    ensures var c := Finish(h, body);
      && Unrender(c.msg) == MsgLines(body)
      && Unrender(c.diff) == DiffLines(body)
      && EndMarker !in Unrender(c.msg) && EndMarker !in Unrender(c.diff)
      && c.changes == CountChanges(Unrender(c.diff))
  {
    var m, d := MsgLines(body), DiffLines(body);
    var i := MarkerIndex(body);
    assert forall line :: line in m ==> line in body;
    assert forall line :: line in d ==> line in body[i + 1..];
    UnrenderRender(m);
    UnrenderRender(d);
  }
}
