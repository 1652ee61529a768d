/** `Log` (ev.go:92-96 with the scanner of module Scanner): get git's
    output from `logReader`, then scan it. */
module Ev {
  import opened Commits
  import opened Scanner
  import opened Recovery

  /** A whole run: git's error becomes the execution failure, the reader
      not ending within the fuel becomes `Diverged`, and otherwise the
      output is scanned. */
  method Log(run: Runner, re: string, fuel: nat, parseDate: DateParser) returns (r: LogOutcome)
    ensures r == match LogReader(run, re, fuel)
                 case Output(lines, scanFailed) => LogSpec(lines, scanFailed, parseDate)
                 case RunError(stderr) => Failed(ExecFailed(stderr))
                 case OutOfFuel => Diverged
  {
    var out := LogReader(run, re, fuel);
    match out
    case OutOfFuel =>
      r := Diverged;
    case RunError(stderr) =>
      r := Failed(ExecFailed(stderr));
    case Output(lines, scanFailed) =>
      r := ScanLog(lines, scanFailed, parseDate);
  }

  /** `Log` with the reader as evidently intended (at most one retry): it
      always ends, and it agrees with `Log` whenever that one ends within
      one retry. */
  method LogIntended(run: Runner, re: string, parseDate: DateParser) returns (r: LogOutcome)
    ensures r != Diverged
    ensures r == match LogReaderOnce(run, re)
                 case Output(lines, scanFailed) => LogSpec(lines, scanFailed, parseDate)
                 case RunError(stderr) => Failed(ExecFailed(stderr))
                 case OutOfFuel => Diverged
  {
    var out := LogReaderOnce(run, re);
    match out
    case RunError(stderr) =>
      r := Failed(ExecFailed(stderr));
    case Output(lines, scanFailed) =>
      r := ScanLog(lines, scanFailed, parseDate);
  }
}
