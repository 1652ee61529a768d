/** The record scanner of `Log` (ev.go:97-147): a loop over the output
    lines that keeps the open record, the message and diff buffers, the
    "reading the diff" flag and the finished list. `ScanLog` is proved to
    compute `LogSpec`, the whole-stream description built from the groups
    of module Sections; the lemmas after it say what `LogSpec` promises. */
module Scanner {
  import opened Wrappers
  import opened Text
  import opened Commits
  import opened Sections

  /** How a run of `Log` ends. `NilDereference` is the Go panic when a
      `+`/`-` line follows an end marker before any header line (the open
      record is still nil); `Diverged` is the retry recursion of `logReader`
      not ending within the fuel it was given (module Recovery). */
  datatype LogOutcome =
    | Parsed(commits: seq<Commit>)
    | Failed(error: LogError)
    | NilDereference
    | Diverged

  /** The finished record of a group whose header decoded to `h`. */
  function Finish(h: Header, body: seq<string>): (c: Commit)
    ensures c.sha == h.sha && c.authorName == h.authorName && c.authorEmail == h.authorEmail
    ensures c.authorDate == h.authorDate && c.committerDate == h.committerDate
    ensures c.committerName == h.committerName && c.committerEmail == h.committerEmail
  {
    var diff := DiffLines(body);
    FromHeader(h).(msg := Render(MsgLines(body)), diff := Render(diff), changes := CountChanges(diff))
  }

  predicate AllHeaderLines(gs: seq<Group>) {
    forall k :: 0 <= k < |gs| ==> IsHeaderLine(gs[k].header)
  }

  /** Decodes the groups in order; the first header that fails decides the
      error and no record is returned with it. */
  function Decode(gs: seq<Group>, parseDate: DateParser): (r: Result<seq<Commit>, LogError>)
    requires AllHeaderLines(gs)
    ensures r.Ok? ==> |r.value| == |gs|
    ensures r.Err? ==> IsHeaderError(r.error)
    decreases |gs|
  {
    if gs == [] then Ok([])
    else
      var g := gs[|gs| - 1];
      match Decode(gs[..|gs| - 1], parseDate)
      case Err(e) => Err(e)
      case Ok(cs) =>
        match ReadHeader(HeaderText(g.header), parseDate)
        case Err(e) => Err(e)
        case Ok(h) => Ok(cs + [Finish(h, g.body)])
  }

  /** A change line after an end marker, before any header line: there is
      no record yet whose counter could be bumped. */
  predicate Panics(lines: seq<string>)
    ensures Panics(lines) ==> EndMarker in Preamble(lines)
  {
    CountChanges(DiffLines(Preamble(lines))) > 0
  }

  /** The outcome of scanning `lines`, followed by the scanner's own error
      flag: the panic comes first (it happens before any header is read),
      then the first bad header, then the scanner error. */
  function LogSpec(lines: seq<string>, scanFailed: bool, parseDate: DateParser): (r: LogOutcome)
    ensures r != Diverged
    ensures r.NilDereference? <==> Panics(lines)
    ensures r.Parsed? ==> !scanFailed && |r.commits| == |HeaderLines(lines)|
  {
    GroupsShape(lines);
    GroupsHeaders(lines);
    assert |Headers(Groups(lines))| == |Groups(lines)|;
    if Panics(lines) then NilDereference
    else
      match Decode(Groups(lines), parseDate)
      case Err(e) => Failed(e)
      case Ok(cs) => if scanFailed then Failed(ScanFailed) else Parsed(cs)
  }

  // ----- the scanner -----

  /** The lines the scanner is accumulating: the preamble before any header,
      afterwards the body of the last group. */
  function CurrentBody(lines: seq<string>): seq<string> {
    var gs := Groups(lines);
    if gs == [] then lines else gs[|gs| - 1].body
  }

  /** The finished list and the open record agree with the groups read so
      far: every group but the last is decoded into `list`, and the last one
      is open in `c` with its header decoded (its counter is kept apart). */
  ghost predicate Records(gs: seq<Group>, list: seq<Commit>, c: Option<Commit>, parseDate: DateParser) {
    && AllHeaderLines(gs)
    && (gs == [] ==> c.None? && list == [])
    && (gs != [] ==>
          var h := ReadHeader(HeaderText(gs[|gs| - 1].header), parseDate);
          && Decode(gs[..|gs| - 1], parseDate) == Ok(list)
          && h.Ok?
          && c.Some? && c.value.(changes := 0) == FromHeader(h.value))
  }

  /** The message and diff buffers and the flag agree with the body read so far. */
  predicate Buffers(body: seq<string>, msg: string, diff: string, readingDiff: bool) {
    && msg == Render(MsgLines(body))
    && diff == Render(DiffLines(body))
    && readingDiff == (EndMarker in body)
  }

  /** The scanner's variables after it has read `prefix`. */
  ghost predicate ScanState(prefix: seq<string>, list: seq<Commit>, c: Option<Commit>,
                            msg: string, diff: string, readingDiff: bool, parseDate: DateParser)
  {
    var body := CurrentBody(prefix);
    && !Panics(prefix)
    && Buffers(body, msg, diff, readingDiff)
    && Records(Groups(prefix), list, c, parseDate)
    && (c.Some? ==> c.value.changes == CountChanges(DiffLines(body)))
  }

  /** Lines that only extend the last group's body keep the records. */
  lemma RecordsKept(gs: seq<Group>, gs': seq<Group>, list: seq<Commit>, c: Option<Commit>,
                    c': Option<Commit>, parseDate: DateParser)
    requires Records(gs, list, c, parseDate) && AllHeaderLines(gs')
    requires |gs'| == |gs| && (gs != [] ==> gs'[..|gs| - 1] == gs[..|gs| - 1])
    requires gs != [] ==> gs'[|gs| - 1].header == gs[|gs| - 1].header
    requires c'.Some? == c.Some? && (c.Some? ==> c'.value.(changes := 0) == c.value.(changes := 0))
    ensures Records(gs', list, c', parseDate)
  {
  }

  /** `Log`'s scanning loop over the lines of git's output; `scanFailed` is
      what `scn.Err()` reports once the lines run out. */
  method ScanLog(lines: seq<string>, scanFailed: bool, parseDate: DateParser) returns (r: LogOutcome)
    ensures r == LogSpec(lines, scanFailed, parseDate)
  {
    var list: seq<Commit> := [];
    var c: Option<Commit> := None;
    var msg, diff := "", "";
    var readingDiff := false;
    var i := 0;
    ghost var prefix: seq<string> := [];
    StartState(parseDate);
    while i < |lines|
      invariant 0 <= i <= |lines| && prefix == lines[..i]
      invariant ScanState(prefix, list, c, msg, diff, readingDiff, parseDate)
    {
      var halt;
      halt, list, c, msg, diff, readingDiff :=
        ScanLine(lines, i, prefix, scanFailed, list, c, msg, diff, readingDiff, parseDate);
      if halt.Some? {
        return halt.value;
      }
      TakeOneMore(lines, i);
      prefix := prefix + [lines[i]];
      i := i + 1;
    }
    EndState(prefix, list, c, msg, diff, readingDiff, parseDate);
    assert prefix == lines;
    if scanFailed {
      return Failed(ScanFailed);
    }
    if c.Some? {
      list := list + [c.value.(diff := diff, msg := msg)];
    }
    return Parsed(list);
  }

  /** One turn of `Log`'s loop, on line `i`: either the scanner stops with
      what the whole stream gives (`halt`), or it goes on in the state that
      describes the lines up to and including `i`. */
  method ScanLine(lines: seq<string>, i: nat, ghost p: seq<string>, scanFailed: bool,
                  list: seq<Commit>, c: Option<Commit>,
                  msg: string, diff: string, readingDiff: bool, parseDate: DateParser)
    returns (halt: Option<LogOutcome>, list': seq<Commit>, c': Option<Commit>,
             msg': string, diff': string, readingDiff': bool)
    requires i < |lines| && p == lines[..i]
    requires ScanState(p, list, c, msg, diff, readingDiff, parseDate)
    ensures halt.Some? ==> halt.value == LogSpec(lines, scanFailed, parseDate)
    ensures halt.None? ==> ScanState(p + [lines[i]], list', c', msg', diff', readingDiff', parseDate)
  {
    var line := lines[i];
    list', c', msg', diff', readingDiff' := list, c, msg, diff, readingDiff;
    halt := None;
    if IsHeaderLine(line) {
      var h := ReadHeader(HeaderText(line), parseDate);
      if h.Err? {
        StepBadHeader(p, line, list, c, msg, diff, readingDiff, parseDate);
        Around(lines, i);
        HeaderErrorSticks(p + [line], lines[i + 1..], parseDate);
        return Some(Failed(h.error)), list', c', msg', diff', readingDiff';
      }
      StepHeader(p, line, list, c, msg, diff, readingDiff, parseDate);
      readingDiff' := false;
      if c.Some? {
        list' := list + [c.value.(diff := diff, msg := msg)];
      }
      c' := Some(FromHeader(h.value));
      diff', msg' := "", "";
    } else if line == EndMarker {
      StepMarker(p, line, list, c, msg, diff, readingDiff, parseDate);
      readingDiff' := true;
    } else if readingDiff {
      if IsChange(line) && c.None? {
        StepPanic(p, line, list, c, msg, diff, readingDiff, parseDate);
        Around(lines, i);
        PanicSticks(p + [line], lines[i + 1..]);
        return Some(NilDereference), list', c', msg', diff', readingDiff';
      }
      StepDiff(p, line, list, c, msg, diff, readingDiff, parseDate);
      if IsChange(line) {
        c' := Some(c.value.(changes := c.value.changes + 1));
      }
      diff' := diff + line + CRLF;
    } else {
      StepMsg(p, line, list, c, msg, diff, readingDiff, parseDate);
      msg' := msg + line + CRLF;
    }
  }

  // ----- the scanner's steps against the specification -----

  lemma StartState(parseDate: DateParser)
    ensures ScanState([], [], None, "", "", false, parseDate)
  {
    assert Preamble([]) == [];
  }

  /** A header line: the open record (if any) is closed with the buffers,
      and a new one opens with empty buffers. */
  lemma StepHeader(p: seq<string>, line: string, list: seq<Commit>, c: Option<Commit>,
                   msg: string, diff: string, readingDiff: bool, parseDate: DateParser)
    requires ScanState(p, list, c, msg, diff, readingDiff, parseDate)
    requires IsHeaderLine(line) && ReadHeader(HeaderText(line), parseDate).Ok?
    ensures ScanState(p + [line],
                      if c.Some? then list + [c.value.(diff := diff, msg := msg)] else list,
                      Some(FromHeader(ReadHeader(HeaderText(line), parseDate).value)),
                      "", "", false, parseDate)
  {
    AppendFacts(p, line);
    var gs := Groups(p);
    var list' := if c.Some? then list + [c.value.(diff := diff, msg := msg)] else list;
    if gs != [] {
      CloseRecord(gs, list, c, msg, diff, readingDiff, parseDate);
    }
    OpenRecord(gs, Group(line, []), list', parseDate);
    assert MsgLines([]) == [] && DiffLines([]) == [];
  }

  /** The open record, finished with the buffers, is the last group's. */
  lemma CloseRecord(gs: seq<Group>, list: seq<Commit>, c: Option<Commit>,
                    msg: string, diff: string, readingDiff: bool, parseDate: DateParser)
    requires gs != [] && Records(gs, list, c, parseDate)
    requires Buffers(gs[|gs| - 1].body, msg, diff, readingDiff)
    requires c.Some? ==> c.value.changes == CountChanges(DiffLines(gs[|gs| - 1].body))
    ensures Decode(gs, parseDate) == Ok(list + [c.value.(diff := diff, msg := msg)])
  {
    FrontLast(gs);
  }

  /** A header that decodes opens a new record after the finished ones. */
  lemma OpenRecord(gs: seq<Group>, g: Group, list: seq<Commit>, parseDate: DateParser)
    requires AllHeaderLines(gs) && IsHeaderLine(g.header) && Decode(gs, parseDate) == Ok(list)
    requires ReadHeader(HeaderText(g.header), parseDate).Ok?
    ensures Records(gs + [g], list, Some(FromHeader(ReadHeader(HeaderText(g.header), parseDate).value)), parseDate)
  {
    AppendGroup(gs, g);
    var c := FromHeader(ReadHeader(HeaderText(g.header), parseDate).value);
    assert c.(changes := 0) == c;
  }

  /** One more record with a header line: the old records are its prefix. */
  lemma AppendGroup(gs: seq<Group>, g: Group)
    requires AllHeaderLines(gs) && IsHeaderLine(g.header)
    ensures AllHeaderLines(gs + [g])
    ensures (gs + [g])[..|gs|] == gs && (gs + [g])[|gs|] == g
  {
    var gs' := gs + [g];
    assert forall k :: 0 <= k < |gs| ==> gs'[k] == gs[k];
    assert gs'[..|gs|] == gs;
  }

  /** A header line that does not decode: the stream read so far already
      fails with that header's error. */
  lemma StepBadHeader(p: seq<string>, line: string, list: seq<Commit>, c: Option<Commit>,
                      msg: string, diff: string, readingDiff: bool, parseDate: DateParser)
    requires ScanState(p, list, c, msg, diff, readingDiff, parseDate)
    requires IsHeaderLine(line) && ReadHeader(HeaderText(line), parseDate).Err?
    ensures Groups(p + [line]) != [] && !Panics(p + [line])
    ensures AllHeaderLines(Groups(p + [line]))
    ensures Decode(Groups(p + [line]), parseDate) == Err(ReadHeader(HeaderText(line), parseDate).error)
  {
    AppendFacts(p, line);
    var gs := Groups(p);
    var gs' := Groups(p + [line]);
    assert gs'[..|gs'| - 1] == gs;
  }

  /** An end marker line: the buffers stay, the diff section begins. */
  lemma StepMarker(p: seq<string>, line: string, list: seq<Commit>, c: Option<Commit>,
                   msg: string, diff: string, readingDiff: bool, parseDate: DateParser)
    requires ScanState(p, list, c, msg, diff, readingDiff, parseDate)
    requires line == EndMarker
    ensures ScanState(p + [line], list, c, msg, diff, true, parseDate)
  {
    MarkerIsNoHeader();
    AppendFacts(p, line);
    BodyAppend(CurrentBody(p), line);
    RecordsKept(Groups(p), Groups(p + [line]), list, c, c, parseDate);
  }

  /** A line of the diff section: it joins the diff buffer and, when it is a
      change, bumps the open record's counter. */
  lemma StepDiff(p: seq<string>, line: string, list: seq<Commit>, c: Option<Commit>,
                 msg: string, diff: string, readingDiff: bool, parseDate: DateParser)
    requires ScanState(p, list, c, msg, diff, readingDiff, parseDate)
    requires !IsHeaderLine(line) && line != EndMarker && readingDiff
    requires IsChange(line) ==> c.Some?
    ensures ScanState(p + [line], list,
                      if IsChange(line) then Some(c.value.(changes := c.value.changes + 1)) else c,
                      msg, diff + line + CRLF, readingDiff, parseDate)
  {
    var c' := if IsChange(line) then Some(c.value.(changes := c.value.changes + 1)) else c;
    RecordsStep(p, line, list, c, c', parseDate);
    DiffNoPanic(p, line);
    OtherLine(p, line);
    DiffStep(CurrentBody(p), line, msg, diff);
  }

  /** A line that is no header keeps the records; only the open record's
      counter may change. */
  lemma RecordsStep(p: seq<string>, line: string, list: seq<Commit>, c: Option<Commit>,
                    c': Option<Commit>, parseDate: DateParser)
    requires Records(Groups(p), list, c, parseDate) && !IsHeaderLine(line)
    requires c'.Some? == c.Some? && (c.Some? ==> c'.value.(changes := 0) == c.value.(changes := 0))
    ensures Records(Groups(p + [line]), list, c', parseDate)
  {
    AppendFacts(p, line);
    RecordsKept(Groups(p), Groups(p + [line]), list, c, c', parseDate);
  }

  /** A diff line before any header panics only if it is a change. */
  lemma DiffNoPanic(p: seq<string>, line: string)
    requires !Panics(p) && !IsHeaderLine(line) && line != EndMarker
    requires IsChange(line) ==> Groups(p) != []
    ensures !Panics(p + [line])
  {
    OtherLine(p, line);
    if Groups(p) == [] {
      BodyAppend(p, line);
      CountChangesConcat(DiffLines(p), [line]);
    }
  }

  /** A diff line extends the diff buffer and counts when it is a change. */
  lemma DiffStep(body: seq<string>, line: string, msg: string, diff: string)
    requires Buffers(body, msg, diff, true) && line != EndMarker
    ensures Buffers(body + [line], msg, diff + line + CRLF, true)
    ensures CountChanges(DiffLines(body + [line])) ==
      CountChanges(DiffLines(body)) + if IsChange(line) then 1 else 0
  {
    BodyAppend(body, line);
    CountChangesConcat(DiffLines(body), [line]);
    RenderAppend(DiffLines(body), line);
  }

  /** A message line extends the message buffer and leaves the diff alone. */
  lemma MsgStep(body: seq<string>, line: string, msg: string, diff: string)
    requires Buffers(body, msg, diff, false) && line != EndMarker
    ensures Buffers(body + [line], msg + line + CRLF, diff, false)
    ensures DiffLines(body + [line]) == DiffLines(body)
  {
    BodyAppend(body, line);
    RenderAppend(MsgLines(body), line);
  }

  /** A change line in the diff section before any header: the panic. */
  lemma StepPanic(p: seq<string>, line: string, list: seq<Commit>, c: Option<Commit>,
                  msg: string, diff: string, readingDiff: bool, parseDate: DateParser)
    requires ScanState(p, list, c, msg, diff, readingDiff, parseDate)
    requires !IsHeaderLine(line) && line != EndMarker && readingDiff
    requires IsChange(line) && c.None?
    ensures Panics(p + [line])
  {
    AppendFacts(p, line);
    BodyAppend(p, line);
    CountChangesConcat(DiffLines(p), [line]);
  }

  /** A line of the message section: it joins the message buffer. */
  lemma StepMsg(p: seq<string>, line: string, list: seq<Commit>, c: Option<Commit>,
                msg: string, diff: string, readingDiff: bool, parseDate: DateParser)
    requires ScanState(p, list, c, msg, diff, readingDiff, parseDate)
    requires !IsHeaderLine(line) && line != EndMarker && !readingDiff
    ensures ScanState(p + [line], list, c, msg + line + CRLF, diff, readingDiff, parseDate)
  {
    RecordsStep(p, line, list, c, c, parseDate);
    OtherLine(p, line);
    MsgStep(CurrentBody(p), line, msg, diff);
  }

  /** At the end of the stream the open record is the last group's. */
  lemma EndState(lines: seq<string>, list: seq<Commit>, c: Option<Commit>,
                 msg: string, diff: string, readingDiff: bool, parseDate: DateParser)
    requires ScanState(lines, list, c, msg, diff, readingDiff, parseDate)
    ensures forall sf :: (LogSpec(lines, sf, parseDate) ==
      if sf then Failed(ScanFailed)
      else Parsed(if c.Some? then list + [c.value.(diff := diff, msg := msg)] else list))
  {
    var gs := Groups(lines);
    if gs != [] {
      FrontLast(gs);
    }
  }

  // ----- one more line -----

  /** How the groups, the current body and the preamble change when one
      line is appended to the stream. */
  lemma AppendFacts(p: seq<string>, line: string)
    ensures AllHeaderLines(Groups(p)) && AllHeaderLines(Groups(p + [line]))
    ensures IsHeaderLine(line) ==>
      && Groups(p + [line]) == Groups(p) + [Group(line, [])]
      && CurrentBody(p + [line]) == []
      && Preamble(p + [line]) == Preamble(p)
    ensures !IsHeaderLine(line) ==>
      && CurrentBody(p + [line]) == CurrentBody(p) + [line]
      && (Groups(p + [line]) == [] <==> Groups(p) == [])
    ensures !IsHeaderLine(line) && Groups(p) != [] ==>
      var gs, gs' := Groups(p), Groups(p + [line]);
      && Preamble(p + [line]) == Preamble(p)
      && |gs'| == |gs|
      && gs'[..|gs| - 1] == gs[..|gs| - 1]
      && gs'[|gs| - 1].header == gs[|gs| - 1].header
    ensures !IsHeaderLine(line) && Groups(p) == [] ==>
      Preamble(p) == p && Preamble(p + [line]) == p + [line]
  {
    var s := p + [line];
    assert s[..|s| - 1] == p;
    GroupsShape(p);
    GroupsShape(s);
    GroupsEmpty(p);
    GroupsEmpty(s);
    FirstHeaderAppend(p, line);
    assert s[..|p|] == p;
  }

  /** A line that is no header joins the current body; before the first
      header the body is the preamble. */
  lemma OtherLine(p: seq<string>, line: string)
    requires !IsHeaderLine(line)
    ensures CurrentBody(p + [line]) == CurrentBody(p) + [line]
    ensures Groups(p) == [] ==> Preamble(p + [line]) == CurrentBody(p + [line]) && Preamble(p) == CurrentBody(p)
    ensures Groups(p) != [] ==> Preamble(p + [line]) == Preamble(p) && Groups(p + [line]) != []
  {
    AppendFacts(p, line);
  }

  /** Where the first header of `p + q` is. */
  lemma {:induction false} FirstHeaderConcat(p: seq<string>, q: seq<string>)
    ensures FirstHeader(p + q) ==
      if FirstHeader(p) < |p| then FirstHeader(p) else |p| + FirstHeader(q)
  {
    if p != [] {
      assert (p + q)[0] == p[0];
      assert (p + q)[1..] == p[1..] + q;
      FirstHeaderConcat(p[1..], q);
    } else {
      assert p + q == q;
    }
  }

  /** More lines after the end marker can only add diff lines. */
  lemma {:induction false} DiffChangesGrow(a: seq<string>, b: seq<string>)
    ensures CountChanges(DiffLines(a)) <= CountChanges(DiffLines(a + b))
    decreases |b|
  {
    if b == [] {
      assert a + b == a;
    } else {
      var b', line := b[..|b| - 1], b[|b| - 1];
      assert a + b == (a + b') + [line];
      DiffChangesGrow(a, b');
      BodyAppend(a + b', line);
      CountChangesConcat(DiffLines(a + b'), [line]);
    }
  }

  /** Once the preamble panics, no later line can prevent it. */
  lemma PanicSticks(p: seq<string>, q: seq<string>)
    requires Panics(p)
    ensures Panics(p + q)
  {
    FirstHeaderConcat(p, q);
    var pre := Preamble(p);
    if FirstHeader(p) < |p| {
      assert Preamble(p + q) == pre;
    } else {
      assert pre == p;
      assert Preamble(p + q) == p + Preamble(q);
      DiffChangesGrow(p, Preamble(q));
    }
  }

  /** Lines after a header leave the preamble as it is. */
  lemma PreambleFixed(p: seq<string>, q: seq<string>)
    requires Groups(p) != []
    ensures Preamble(p + q) == Preamble(p)
  {
    GroupsEmpty(p);
    FirstHeaderConcat(p, q);
    assert (p + q)[..FirstHeader(p)] == p[..FirstHeader(p)];
  }

  /** A decoding error of the groups read so far is the decoding error of
      every longer stream. */
  lemma {:induction false} DecodeErrorSticks(p: seq<string>, q: seq<string>, parseDate: DateParser)
    requires AllHeaderLines(Groups(p)) && AllHeaderLines(Groups(p + q))
    requires Decode(Groups(p), parseDate).Err?
    ensures Decode(Groups(p + q), parseDate) == Decode(Groups(p), parseDate)
    decreases |q|
  {
    if q == [] {
      assert p + q == p;
    } else {
      var x, line := p + q[..|q| - 1], q[|q| - 1];
      assert p + q == x + [line];
      AppendFacts(x, line);
      DecodeErrorSticks(p, q[..|q| - 1], parseDate);
      var gs, gs' := Groups(x), Groups(x + [line]);
      if IsHeaderLine(line) {
        DecodeAppendError(gs, Group(line, []), parseDate);
      } else {
        DecodeExtendError(gs, gs', parseDate);
      }
    }
  }

  /** A failed decoding stays failed when a group is appended. */
  lemma DecodeAppendError(gs: seq<Group>, g: Group, parseDate: DateParser)
    requires AllHeaderLines(gs) && AllHeaderLines(gs + [g]) && Decode(gs, parseDate).Err?
    ensures Decode(gs + [g], parseDate) == Decode(gs, parseDate)
  {
    assert forall k :: 0 <= k < |gs| ==> gs[k] == (gs + [g])[k];
    assert (gs + [g])[..|gs|] == gs;
  }

  /** A failed decoding stays failed when only the last group's body grows. */
  lemma DecodeExtendError(gs: seq<Group>, gs': seq<Group>, parseDate: DateParser)
    requires AllHeaderLines(gs) && AllHeaderLines(gs') && Decode(gs, parseDate).Err?
    requires |gs'| == |gs| && gs != []
    requires gs'[..|gs| - 1] == gs[..|gs| - 1] && gs'[|gs| - 1].header == gs[|gs| - 1].header
    ensures Decode(gs', parseDate) == Decode(gs, parseDate)
  {
    var n := |gs|;
    var h := gs[n - 1].header;
    assert gs'[n - 1].header == h;
    var before := Decode(gs[..n - 1], parseDate);
    assert Decode(gs'[..n - 1], parseDate) == before;
    if before.Ok? {
      assert ReadHeader(HeaderText(h), parseDate).Err?;
    }
  }

  /** The first `i + 1` lines are the first `i` and line `i`. */
  lemma TakeOneMore(lines: seq<string>, i: nat)
    requires i < |lines|
    ensures lines[..i + 1] == lines[..i] + [lines[i]]
  {
  }

  /** A bad header ends the stream's decoding whatever follows it. */
  lemma HeaderErrorSticks(p: seq<string>, q: seq<string>, parseDate: DateParser)
    requires Groups(p) != [] && !Panics(p)
    requires AllHeaderLines(Groups(p)) && Decode(Groups(p), parseDate).Err?
    ensures forall sf :: LogSpec(p + q, sf, parseDate) == Failed(Decode(Groups(p), parseDate).error)
  {
    GroupsShape(p + q);
    PreambleFixed(p, q);
    DecodeErrorSticks(p, q, parseDate);
  }
}
