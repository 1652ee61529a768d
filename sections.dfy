/** What the scanner in `Log` (ev.go) is meant to compute, stated on the
    whole line stream rather than line by line: the stream is cut into a
    preamble and one group per header line; each group's body is cut at its
    first end marker into message lines and diff lines; those lines are
    rendered CRLF-terminated, and the diff's `+`/`-` lines are counted. */
module Sections {
  import opened Text
  import opened Commits

  /** One record of the stream: its header line and the lines after it, up
      to the next header line or the end of the stream. */
  datatype Group = Group(header: string, body: seq<string>)

  predicate NoHeaderLine(lines: seq<string>) {
    forall k :: 0 <= k < |lines| ==> !IsHeaderLine(lines[k])
  }

  /** A group as the stream produces it: it opens with a header line and
      its body holds none. */
  predicate GroupShape(g: Group) {
    IsHeaderLine(g.header) && NoHeaderLine(g.body)
  }

  /** The groups of a stream, built from its last line backwards: a header
      line opens a new group, any other line joins the last group, and lines
      before the first header belong to no group. */
  function Groups(lines: seq<string>): seq<Group>
    decreases |lines|
  {
    if lines == [] then []
    else
      var init := Groups(lines[..|lines| - 1]);
      var line := lines[|lines| - 1];
      if IsHeaderLine(line) then init + [Group(line, [])]
      else if init == [] then []
      else init[..|init| - 1] + [Group(init[|init| - 1].header, init[|init| - 1].body + [line])]
  }

  /** Index of the first header line, or `|lines|` when there is none. */
  function FirstHeader(lines: seq<string>): (i: nat)
    ensures i <= |lines|
    ensures i < |lines| ==> IsHeaderLine(lines[i])
    ensures NoHeaderLine(lines[..i])
  {
    if lines == [] then 0
    else if IsHeaderLine(lines[0]) then 0
    else
      var i := 1 + FirstHeader(lines[1..]);
      assert lines[..i] == [lines[0]] + lines[1..][..i - 1];
      i
  }

  /** The lines before the first header line. */
  function Preamble(lines: seq<string>): seq<string> {
    lines[..FirstHeader(lines)]
  }

  /** The lines of the groups, each header followed by its body. */
  function Flatten(gs: seq<Group>): seq<string> {
    if gs == [] then [] else [gs[0].header] + gs[0].body + Flatten(gs[1..])
  }

  /** The header lines of a stream, in stream order. */
  function HeaderLines(lines: seq<string>): seq<string> {
    if lines == [] then []
    else (if IsHeaderLine(lines[0]) then [lines[0]] else []) + HeaderLines(lines[1..])
  }

  function Headers(gs: seq<Group>): seq<string> {
    seq(|gs|, k requires 0 <= k < |gs| => gs[k].header)
  }

  lemma {:induction false} FlattenAppend(gs: seq<Group>, g: Group)
    ensures Flatten(gs + [g]) == Flatten(gs) + [g.header] + g.body
  {
    if gs != [] {
      assert (gs + [g])[1..] == gs[1..] + [g];
      FlattenAppend(gs[1..], g);
    }
  }

  lemma {:induction false} HeaderLinesAppend(lines: seq<string>, line: string)
    ensures HeaderLines(lines + [line])
         == HeaderLines(lines) + (if IsHeaderLine(line) then [line] else [])
  {
    if lines != [] {
      assert (lines + [line])[1..] == lines[1..] + [line];
      HeaderLinesAppend(lines[1..], line);
    }
  }

  /** Where the first header line of `lines + [line]` is. */
  lemma {:induction false} FirstHeaderAppend(lines: seq<string>, line: string)
    ensures FirstHeader(lines + [line]) ==
      if FirstHeader(lines) < |lines| || IsHeaderLine(line) then FirstHeader(lines) else |lines| + 1
  {
    if lines != [] {
      assert (lines + [line])[0] == lines[0];
      assert (lines + [line])[1..] == lines[1..] + [line];
      FirstHeaderAppend(lines[1..], line);
    }
  }

  /** There is a group exactly when the stream has a header line. */
  lemma {:induction false} GroupsEmpty(lines: seq<string>)
    ensures Groups(lines) == [] <==> FirstHeader(lines) == |lines|
    decreases |lines|
  {
    if lines != [] {
      var init, line := lines[..|lines| - 1], lines[|lines| - 1];
      assert lines == init + [line];
      GroupsEmpty(init);
      FirstHeaderAppend(init, line);
    }
  }

  /** Each group opens with a header line and holds no other. */
  lemma {:induction false} GroupsShape(lines: seq<string>)
    ensures forall k :: 0 <= k < |Groups(lines)| ==> GroupShape(Groups(lines)[k])
    decreases |lines|
  {
    if lines != [] {
      var init, line := lines[..|lines| - 1], lines[|lines| - 1];
      GroupsShape(init);
      var gs := Groups(init);
      if !IsHeaderLine(line) && gs != [] {
        var n := |gs|;
        assert GroupShape(gs[n - 1]);
        assert Groups(lines)[..n - 1] == gs[..n - 1];
      }
    }
  }

  /** The groups' headers are the stream's header lines, in stream order:
      one group per header line. */
  lemma {:induction false} GroupsHeaders(lines: seq<string>)
    ensures Headers(Groups(lines)) == HeaderLines(lines)
    decreases |lines|
  {
    if lines != [] {
      var init, line := lines[..|lines| - 1], lines[|lines| - 1];
      assert lines == init + [line];
      GroupsHeaders(init);
      HeaderLinesAppend(init, line);
      var gs := Groups(init);
      if IsHeaderLine(line) {
        assert Headers(gs + [Group(line, [])]) == Headers(gs) + [line];
      } else if gs != [] {
        assert Headers(Groups(lines)) == Headers(gs);
      }
    }
  }

  /** A line added to the last group's body comes last in the flattening. */
  lemma FlattenExtendLast(init: seq<Group>, g: Group, line: string)
    ensures Flatten(init + [Group(g.header, g.body + [line])]) == Flatten(init + [g]) + [line]
  {
    FlattenAppend(init, g);
    FlattenAppend(init, Group(g.header, g.body + [line]));
    var f := Flatten(init);
    assert f + [g.header] + (g.body + [line]) == (f + [g.header] + g.body) + [line];
  }

  /** No line is lost or invented: the preamble followed by every group's
      header and body is the stream itself. */
  lemma {:induction false} GroupsFlatten(lines: seq<string>)
    ensures Preamble(lines) + Flatten(Groups(lines)) == lines
    decreases |lines|
  {
    if lines != [] {
      var init, line := lines[..|lines| - 1], lines[|lines| - 1];
      assert lines == init + [line];
      GroupsFlatten(init);
      GroupsEmpty(init);
      FirstHeaderAppend(init, line);
      var gs := Groups(init);
      var pre := Preamble(init);
      assert pre + Flatten(gs) == init;
      if IsHeaderLine(line) || gs != [] {
        assert FirstHeader(lines) == FirstHeader(init) <= |init|;
        assert Preamble(lines) == pre by {
          assert lines[..FirstHeader(init)] == init[..FirstHeader(init)];
        }
      }
      if IsHeaderLine(line) {
        assert Groups(lines) == gs + [Group(line, [])];
        FlattenAppend(gs, Group(line, []));
        assert pre + Flatten(Groups(lines)) == (pre + Flatten(gs)) + [line];
      } else if gs != [] {
        FrontLast(gs);
        FlattenExtendLast(gs[..|gs| - 1], gs[|gs| - 1], line);
        assert pre + Flatten(Groups(lines)) == (pre + Flatten(gs)) + [line];
      } else {
        assert Preamble(lines) == lines;
      }
    }
  }

  // ----- the body of a group: message, end marker, diff -----

  /** Index of the first end marker in `body`, or `|body|`. */
  function MarkerIndex(body: seq<string>): (i: nat)
    ensures i <= |body|
    ensures i < |body| ==> body[i] == EndMarker
    ensures forall k :: 0 <= k < i ==> body[k] != EndMarker
  {
    if body == [] then 0
    else if body[0] == EndMarker then 0
    else 1 + MarkerIndex(body[1..])
  }

  /** The message lines: everything before the first end marker. */
  function MsgLines(body: seq<string>): seq<string> {
    body[..MarkerIndex(body)]
  }

  /** Drops every end-marker line. */
  function WithoutMarkers(lines: seq<string>): (r: seq<string>)
    ensures forall x :: x in r <==> x in lines && x != EndMarker
  {
    if lines == [] then []
    else (if lines[0] == EndMarker then [] else [lines[0]]) + WithoutMarkers(lines[1..])
  }

  /** The diff lines: everything after the first end marker except further
      end markers; nothing when there is no end marker. */
  function DiffLines(body: seq<string>): seq<string> {
    var i := MarkerIndex(body);
    if i == |body| then [] else WithoutMarkers(body[i + 1..])
  }

  /** With an end marker, the body minus its markers is the message lines
      followed by the diff lines; without one, it is all message. */
  lemma BodyPartition(body: seq<string>)
    ensures EndMarker !in body ==> MsgLines(body) == body && DiffLines(body) == []
    ensures EndMarker in body ==> WithoutMarkers(body) == MsgLines(body) + DiffLines(body)
  {
    if EndMarker in body {
      MarkedBody(body);
    } else {
      assert body[..MarkerIndex(body)] == body;
    }
  }

  lemma MarkedBody(body: seq<string>)
    requires EndMarker in body
    ensures WithoutMarkers(body) == MsgLines(body) + DiffLines(body)
  {
    var i := MarkerIndex(body);
    var msg, rest := body[..i], body[i + 1..];
    Around(body, i);
    assert EndMarker !in msg;
    WithoutMarkersSkip(msg, rest);
  }

  /** Marker-free lines, one marker, then the rest: the marker goes. */
  lemma {:induction false} WithoutMarkersSkip(msg: seq<string>, rest: seq<string>)
    requires EndMarker !in msg
    ensures WithoutMarkers(msg + [EndMarker] + rest) == msg + WithoutMarkers(rest)
  {
    var s := msg + [EndMarker] + rest;
    if msg == [] {
      assert s[1..] == rest;
    } else {
      assert s[0] == msg[0];
      assert s[1..] == msg[1..] + [EndMarker] + rest;
      WithoutMarkersSkip(msg[1..], rest);
      FrontRest(msg);
    }
  }

  lemma {:induction false} WithoutMarkersAppend(lines: seq<string>, line: string)
    ensures WithoutMarkers(lines + [line])
         == WithoutMarkers(lines) + (if line == EndMarker then [] else [line])
  {
    if lines != [] {
      assert (lines + [line])[1..] == lines[1..] + [line];
      WithoutMarkersAppend(lines[1..], line);
    }
  }

  lemma {:induction false} MarkerIndexAppend(body: seq<string>, line: string)
    ensures MarkerIndex(body + [line]) ==
      if MarkerIndex(body) < |body| || line == EndMarker then MarkerIndex(body) else |body| + 1
  {
    if body != [] {
      assert (body + [line])[0] == body[0];
      assert (body + [line])[1..] == body[1..] + [line];
      MarkerIndexAppend(body[1..], line);
    }
  }

  /** One more body line: before the first end marker it joins the message,
      after it the diff; the first end marker itself joins neither. */
  lemma BodyAppend(body: seq<string>, line: string)
    ensures (EndMarker in body + [line]) == (EndMarker in body || line == EndMarker)
    ensures MsgLines(body + [line]) ==
      if EndMarker in body || line == EndMarker then MsgLines(body) else MsgLines(body) + [line]
    ensures DiffLines(body + [line]) ==
      if EndMarker in body && line != EndMarker then DiffLines(body) + [line] else DiffLines(body)
  {
    var b := body + [line];
    var i := MarkerIndex(body);
    MarkerIndexAppend(body, line);
    assert EndMarker in body <==> i < |body|;
    assert b[..|body|] == body;
    if i < |body| {
      assert b[..i] == body[..i];
      assert b[i + 1..] == body[i + 1..] + [line];
      WithoutMarkersAppend(body[i + 1..], line);
    }
  }

  // ----- rendering and counting -----

  const CRLF: string := "\r\n"

  /** The buffer text: every line followed by CR LF. */
  function Render(lines: seq<string>): (r: string)
    ensures |r| >= |CRLF| * |lines|
    ensures lines != [] ==> r[|r| - |CRLF|..] == CRLF
  {
    if lines == [] then "" else lines[0] + CRLF + Render(lines[1..])
  }

  lemma {:induction false} RenderAppend(lines: seq<string>, line: string)
    ensures Render(lines + [line]) == Render(lines) + line + CRLF
  {
    if lines != [] {
      assert (lines + [line])[1..] == lines[1..] + [line];
      RenderAppend(lines[1..], line);
    }
  }

  /** A diff line that counts as a change: non-empty, starting with `-` or `+`. */
  predicate IsChange(line: string)
    ensures IsChange(line) ==> !IsHeaderLine(line) && line != EndMarker
  {
    |line| >= 1 && (line[0] == '-' || line[0] == '+')
  }

  /** Number of change lines. */
  function CountChanges(lines: seq<string>): (n: nat)
    ensures n <= |lines|
  {
    if lines == [] then 0
    else (if IsChange(lines[0]) then 1 else 0) + CountChanges(lines[1..])
  }

  /** Counting is additive over concatenation. */
  lemma {:induction false} CountChangesConcat(a: seq<string>, b: seq<string>)
    ensures CountChanges(a + b) == CountChanges(a) + CountChanges(b)
  {
    if a == [] {
      assert a + b == b;
    } else {
      assert (a + b)[0] == a[0];
      assert (a + b)[1..] == a[1..] + b;
      CountChangesConcat(a[1..], b);
    }
  }

  // ----- reading a rendered buffer back -----

  /** Drops one trailing carriage return. */
  function StripCR(s: string): string {
    if |s| > 0 && s[|s| - 1] == '\r' then s[..|s| - 1] else s
  }

  /** Strips one carriage return from each part. */
  function StripCRs(parts: seq<string>): (r: seq<string>)
    ensures |r| == |parts|
  {
    if parts == [] then [] else [StripCR(parts[0])] + StripCRs(parts[1..])
  }

  /** Reads a buffer back into its lines: split at line feeds, drop the empty
      text after the last one, and strip each line's carriage return. */
  function Unrender(text: string): seq<string> {
    var parts := Split(text, '\n');
    StripCRs(parts[..|parts| - 1])
  }

  /** Each line followed by a carriage return. */
  function WithCR(lines: seq<string>): (r: seq<string>)
    ensures |r| == |lines|
    ensures forall k :: 0 <= k < |lines| ==> r[k] == lines[k] + "\r"
  {
    if lines == [] then [] else [lines[0] + "\r"] + WithCR(lines[1..])
  }

  lemma {:induction false} StripWithCR(lines: seq<string>)
    ensures StripCRs(WithCR(lines)) == lines
  {
    if lines != [] {
      assert StripCR(lines[0] + "\r") == lines[0];
      StripWithCR(lines[1..]);
    }
  }

  lemma {:induction false} RenderAsJoin(lines: seq<string>)
    ensures Render(lines) == Join(WithCR(lines) + [""], '\n')
  {
    if lines != [] {
      RenderAsJoin(lines[1..]);
      assert WithCR(lines) + [""] == [lines[0] + "\r"] + (WithCR(lines[1..]) + [""]);
    }
  }

  lemma {:induction false} WithCRNoLF(lines: seq<string>)
    requires forall line :: line in lines ==> '\n' !in line
    ensures forall part :: part in WithCR(lines) ==> '\n' !in part
  {
    if lines != [] {
      WithCRNoLF(lines[1..]);
      assert WithCR(lines) == [lines[0] + "\r"] + WithCR(lines[1..]);
      assert lines[0] in lines;
    }
  }

  /** Splitting a buffer at line feeds gives its lines, each with its
      carriage return, and an empty last part. */
  lemma SplitRender(lines: seq<string>)
    requires forall line :: line in lines ==> '\n' !in line
    ensures Split(Render(lines), '\n') == WithCR(lines) + [""]
  {
    RenderAsJoin(lines);
    WithCRNoLF(lines);
    SplitJoin(WithCR(lines) + [""], '\n');
  }

  /** The scanner never yields a line with a line feed in it; for such
      lines the buffer text determines them: reading it back gives them. */
  lemma UnrenderRender(lines: seq<string>)
    requires forall line :: line in lines ==> '\n' !in line
    ensures Unrender(Render(lines)) == lines
  {
    SplitRender(lines);
    var parts := WithCR(lines) + [""];
    assert parts[..|parts| - 1] == WithCR(lines);
    StripWithCR(lines);
  }
}
