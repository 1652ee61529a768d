/** Recovery from git's "range past the end of the file" failure
    (ev.go:50-86, ev.go:172-180): `recoverError` finds the line count in
    git's error text, the range is rewritten to end there, and `logReader`
    runs git again with the new range. */
module Recovery {
  import opened Wrappers
  import opened Text

  predicate IsDigit(ch: char) {
    '0' <= ch <= '9'
  }

  predicate AllDigits(s: string) {
    forall k :: 0 <= k < |s| ==> IsDigit(s[k])
  }

  /** Length of the run of digits that starts `s`. */
  function DigitRun(s: string): (n: nat)
    ensures n <= |s|
    ensures AllDigits(s[..n])
    ensures n < |s| ==> !IsDigit(s[n])
  {
    if s == [] || !IsDigit(s[0]) then 0
    else
      var n := 1 + DigitRun(s[1..]);
      assert s[..n] == [s[0]] + s[1..][..n - 1];
      n
  }

  /** The fixed text around the number in `has only (\d+) lines`. */
  const Lead: string := "has only "
  const Trail: string := " lines"

  /** The pattern `has only (\d+) lines` matches `e` from index `i`. The
      greedy `\d+` can only end where the run of digits ends, since the
      next character must be a space; so a match is the lead text, a
      non-empty maximal digit run, and the trail text. */
  predicate MatchAt(e: string, i: nat) {
    && i <= |e|
    && HasPrefix(e[i..], Lead)
    && var d := DigitRun(e[i + |Lead|..]);
    && d >= 1
    && HasPrefix(e[i + |Lead| + d..], Trail)
  }

  /** The digits the pattern captures at a match. */
  function Captured(e: string, i: nat): (digits: string)
    requires MatchAt(e, i)
    ensures |digits| >= 1 && AllDigits(digits)
  {
    var rest := e[i + |Lead|..];
    rest[..DigitRun(rest)]
  }

  /** The leftmost match starting at or after `from`. */
  function FirstMatch(e: string, from: nat): (m: Option<nat>)
    ensures m.Some? ==> from <= m.value && MatchAt(e, m.value)
    ensures m.Some? ==> forall i :: from <= i < m.value ==> !MatchAt(e, i)
    ensures m.None? ==> forall i :: from <= i ==> !MatchAt(e, i)
    decreases |e| + 1 - from
  {
    if from > |e| then None
    else if MatchAt(e, from) then Some(from)
    else FirstMatch(e, from + 1)
  }

  /** `recoverError`: the digits of the leftmost `has only <N> lines` in
      git's error text, or "" when there is none. */
  function RecoverError(e: string): (rows: string)
    ensures AllDigits(rows)
  {
    match FirstMatch(e, 0)
    case None => ""
    case Some(i) => Captured(e, i)
  }

  /** The result is "" exactly when nothing matches, and otherwise the
      digits of the leftmost match. */
  lemma RecoverErrorLeftmost(e: string)
    ensures RecoverError(e) == "" <==> forall i :: !MatchAt(e, i)
    ensures forall i: nat :: MatchAt(e, i) && (forall j :: 0 <= j < i ==> !MatchAt(e, j)) ==>
      RecoverError(e) == Captured(e, i)
  {
    var m := FirstMatch(e, 0);
    forall i: nat | MatchAt(e, i) && (forall j :: 0 <= j < i ==> !MatchAt(e, j))
      ensures m == Some(i)
    {
    }
  }

  /** git's message for a range past the end of the file: the count is
      recovered whatever follows it, and whatever comes before it as long as
      no `has only ` starts there already (a file path may hold any text). */
  lemma RecoverErrorOfMessage(prefix: string, digits: string, suffix: string)
    requires forall j :: 0 <= j < |prefix| ==> !HasPrefix((prefix + Lead)[j..], Lead)
    requires |digits| >= 1 && AllDigits(digits)
    ensures RecoverError(prefix + Lead + digits + Trail + suffix) == digits
  {
    var e := prefix + Lead + digits + Trail + suffix;
    MatchAfter(prefix, digits, suffix);
    forall j | 0 <= j < |prefix|
      ensures !MatchAt(e, j)
    {
      assert e[j..][..|Lead|] == (prefix + Lead)[j..][..|Lead|];
    }
    RecoverErrorLeftmost(e);
  }

  /** The message matches right after the prefix, capturing the digits. */
  lemma MatchAfter(prefix: string, digits: string, suffix: string)
    requires |digits| >= 1 && AllDigits(digits)
    ensures var e := prefix + Lead + digits + Trail + suffix;
      MatchAt(e, |prefix|) && Captured(e, |prefix|) == digits
  {
    var e := prefix + Lead + digits + Trail + suffix;
    var i := |prefix|;
    assert e[i..] == Lead + digits + Trail + suffix;
    assert e[i + |Lead|..] == digits + (Trail + suffix);
    DigitRunOf(digits, Trail + suffix);
    assert e[i + |Lead| + |digits|..] == Trail + suffix;
  }

  /** A digit run followed by a non-digit is exactly that run. */
  lemma {:induction false} DigitRunOf(digits: string, rest: string)
    requires AllDigits(digits)
    requires rest != [] && !IsDigit(rest[0])
    ensures DigitRun(digits + rest) == |digits|
    ensures (digits + rest)[..|digits|] == digits
  {
    if digits != [] {
      assert (digits + rest)[1..] == digits[1..] + rest;
      DigitRunOf(digits[1..], rest);
    } else {
      assert digits + rest == rest;
    }
  }

  /** The range-rewrite decision of `logReader` after git failed with
      `stderr`: only a `start,end` range is retried, and only when the
      error text holds a line count; the new range keeps the text before
      the first comma and ends at that count. */
  function NextRange(re: string, stderr: string): (r: Option<string>)
    ensures r.Some? ==> ',' in re && ',' in r.value
  {
    if ',' in re then
      var rows := RecoverError(stderr);
      if rows != "" then Some(Split(re, ',')[0] + "," + rows) else None
    else None
  }

  /** A retry happens exactly when the range holds a comma and a count is
      recovered; the retried range splits on commas into the original
      start and the recovered count, and anything after the first comma is
      gone. */
  lemma NextRangeSpec(re: string, stderr: string)
    ensures NextRange(re, stderr).Some? <==> ',' in re && RecoverError(stderr) != ""
    ensures NextRange(re, stderr).Some? ==>
      Split(NextRange(re, stderr).value, ',') == [Split(re, ',')[0], RecoverError(stderr)]
  {
    if NextRange(re, stderr).Some? {
      var start, rows := Split(re, ',')[0], RecoverError(stderr);
      assert ',' !in rows;
      assert Join([start, rows], ',') == start + "," + rows;
      SplitJoin([start, rows], ',');
    }
  }

  /** The retried range still holds a comma, so the same error text leads
      to the same retry again: nothing bounds the recursion. */
  lemma NextRangeFixpoint(re: string, stderr: string)
    requires NextRange(re, stderr).Some?
    ensures NextRange(NextRange(re, stderr).value, stderr) == NextRange(re, stderr)
  {
    var r := NextRange(re, stderr).value;
    NextRangeSpec(re, stderr);
    assert r[|Split(re, ',')[0]|] == ',';
    assert ',' in r;
    assert Split(r, ',')[0] == Split(re, ',')[0];
  }

  // ----- logReader -----

  /** One run of `git log -L <range>:<file>` for a given range: either its
      output lines together with the line scanner's error flag for them,
      or a non-zero exit with git's error text. */
  datatype RunResult =
    | Ran(lines: seq<string>, scanFailed: bool)
    | ExitError(stderr: string)

  /** The git invocation for a file, as a function of the range. */
  type Runner = string -> RunResult

  /** How `logReader` ends: the output to scan, git's error, or (only in
      this model) the retry recursion not ending within the fuel. */
  datatype ReaderOutcome =
    | Output(lines: seq<string>, scanFailed: bool)
    | RunError(stderr: string)
    | OutOfFuel

  /** A rewrite decision: the range to retry with after git failed on a
      range with an error text, if any. */
  type Retry = (string, string) -> Option<string>

  /** The recursion of `logReader` for a given rewrite decision: run git;
      on a failure retry with the rewritten range as long as there is one.
      Go places no bound on the recursion; `fuel` bounds the number of
      retries the model follows. */
  function ReadWith(retry: Retry, run: Runner, re: string, fuel: nat): (r: ReaderOutcome)
    ensures r.OutOfFuel? ==> run(re).ExitError? && retry(re, run(re).stderr).Some?
    decreases fuel
  {
    match run(re)
    case Ran(lines, scanFailed) => Output(lines, scanFailed)
    case ExitError(stderr) =>
      match retry(re, stderr)
      case None => RunError(stderr)
      case Some(re') => if fuel == 0 then OutOfFuel else ReadWith(retry, run, re', fuel - 1)
  }

  /** `logReader` as written. */
  function LogReader(run: Runner, re: string, fuel: nat): (r: ReaderOutcome)
    ensures r.OutOfFuel? ==> ',' in re
  {
    ReadWith(NextRange, run, re, fuel)
  }

  /** More fuel changes nothing once the reader has ended. */
  lemma {:induction false} ReadWithFuel(retry: Retry, run: Runner, re: string, fuel: nat, more: nat)
    requires !ReadWith(retry, run, re, fuel).OutOfFuel?
    ensures ReadWith(retry, run, re, fuel + more) == ReadWith(retry, run, re, fuel)
    decreases fuel
  {
    if run(re).ExitError? {
      var next := retry(re, run(re).stderr);
      if next.Some? {
        ReadWithFuel(retry, run, next.value, fuel - 1, more);
      }
    }
  }

  /** When git keeps failing with the same text, a range whose rewrite the
      rewrite maps to itself is retried without end. */
  lemma {:induction false} ReadWithLoops(retry: Retry, run: Runner, re: string, stderr: string, fuel: nat)
    requires forall r :: run(r) == ExitError(stderr)
    requires retry(re, stderr).Some?
    requires retry(retry(re, stderr).value, stderr) == retry(re, stderr)
    ensures ReadWith(retry, run, re, fuel) == OutOfFuel
    decreases fuel
  {
    var re' := retry(re, stderr).value;
    assert run(re) == ExitError(stderr);
    if fuel > 0 {
      ReadWithLoops(retry, run, re', stderr, fuel - 1);
    }
  }

  /** A range without a comma is run once: its output or its error is the
      result, whatever git said. */
  lemma LogReaderNoComma(run: Runner, re: string, fuel: nat)
    requires ',' !in re
    ensures LogReader(run, re, fuel) ==
      match run(re)
      case Ran(lines, scanFailed) => Output(lines, scanFailed)
      case ExitError(stderr) => RunError(stderr)
  {
    if run(re).ExitError? {
      assert NextRange(re, run(re).stderr).None?;
    }
  }

  /** As written: when git keeps failing with a recoverable error text on
      a `start,end` range, no amount of fuel lets the reader end. */
  lemma LogReaderDiverges(run: Runner, re: string, stderr: string, fuel: nat)
    requires forall r :: run(r) == ExitError(stderr)
    requires NextRange(re, stderr).Some?
    ensures LogReader(run, re, fuel) == OutOfFuel
  {
    NextRangeFixpoint(re, stderr);
    ReadWithLoops(NextRange, run, re, stderr, fuel);
  }

  /** The reader as evidently intended: at most one retry, after which a
      second failure is git's error. */
  function LogReaderOnce(run: Runner, re: string): (r: ReaderOutcome)
    ensures !r.OutOfFuel?
  {
    match run(re)
    case Ran(lines, scanFailed) => Output(lines, scanFailed)
    case ExitError(stderr) =>
      match NextRange(re, stderr)
      case None => RunError(stderr)
      case Some(re') =>
        match run(re')
        case Ran(lines, scanFailed) => Output(lines, scanFailed)
        case ExitError(stderr') => RunError(stderr')
  }

  /** The single-retry reader agrees with the reader as written whenever
      that one ends within one retry; where the written one would retry a
      second time, it reports the second failure instead. */
  lemma LogReaderOnceAgrees(run: Runner, re: string)
    ensures !LogReader(run, re, 1).OutOfFuel? ==> LogReaderOnce(run, re) == LogReader(run, re, 1)
    ensures LogReader(run, re, 1).OutOfFuel? ==>
      && run(re).ExitError?
      && NextRange(re, run(re).stderr).Some?
      && var re' := NextRange(re, run(re).stderr).value;
      && run(re').ExitError?
      && LogReaderOnce(run, re) == RunError(run(re').stderr)
  {
    if run(re).ExitError? {
      var next := NextRange(re, run(re).stderr);
      if next.Some? {
        assert LogReader(run, re, 1) == ReadWith(NextRange, run, next.value, 0);
      }
    }
  }
}
