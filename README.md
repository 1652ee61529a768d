# ev: a verified model of the `git log -L` output parser

`ev` shows the history of one function or line range of a file. It runs
`git log -L <range>:<file>` with a custom `--pretty=format:` string and
parses git's output into a list of commits (`ev.go`). This project models
that parser in Dafny and proves what it computes:

- the header line: the `HEADER:` start marker and seven `|`-separated
  fields, decoded by `readHeader`;
- the scanner loop of `Log`. It closes the open record at each header
  line, switches from the message to the diff at the `EV_BODY_END` marker,
  appends every line to the message or the diff buffer with CR LF, and
  counts the `+`/`-` lines of the diff;
- `recoverError`, which finds the line count in git's "has only N lines"
  error;
- the range rewrite and the recursive retry of `logReader`.

Modules, one file each:

| file | module | what it holds |
|---|---|---|
| `wrappers.dfy` | `Wrappers` | `Option` and `Result` |
| `text.dfy` | `Text` | the `strings` functions the parser uses: `HasPrefix`, `Split` on one character, and its inverse `Join` |
| `commits.dfy` | `Commits` | the constants, the `Commit` record, the error kinds, `ReadHeader`, and the header line git prints for the format string |
| `sections.dfy` | `Sections` | the line stream described as a whole: a preamble, then one group per header line; each body cut at its first end marker into message and diff lines; the CR LF rendering and the change count |
| `scanner.dfy` | `Scanner` | `LogSpec`, the outcome of a whole stream, and `ScanLog`, the scanning loop, proved to compute it |
| `outcomes.dfy` | `Outcomes` | what `LogSpec` promises: one record per header line in order, the first bad header decides, no header gives no record |
| `recovery.dfy` | `Recovery` | `RecoverError`, the range rewrite `NextRange`, and `logReader`'s recursion |
| `ev.dfy` | `Ev` | `Log`: read git's output, then scan it |

The scanning loop, `Scanner.ScanLog`, is an imperative method. A ghost
prefix of the lines it has read and the invariant `ScanState` tie its
variables to `LogSpec` of that prefix. Each kind of line has one step lemma
that re-establishes the invariant. `ReadHeader`, `RecoverError` and the
range rewrite are functions, as in the source.

The retry in `logReader` (ev.go:65-75) is evidently meant to happen once:
it shortens a `start,end` range to the number of lines git says the file
has, and a second failure should be reported. As written, it calls itself
with no bound, and the rewritten range still holds a comma. So a git that
keeps failing with the same error text makes it recurse for ever. The model
follows the code; this is the first finding below.

## Model

| member | source | states |
|---|---|---|
| Commits.PrettyFormatFields | ev.go:55 | the format string starts with the start marker, and its header part splits at `\|` into the seven placeholders, in order |
| Commits.IsHeaderLine | ev.go:107 | the header test: the line starts with `HEADER:` (a definition, no contract) |
| Commits.MarkerIsNoHeader | ev.go:15-27 | the end marker `EV_BODY_END` is not a header line, so the header test can never take it |
| Commits.HeaderText | ev.go:115 | the text handed to `readHeader` is the rest of the line: the start marker followed by it gives the line back |
| Commits.FromHeader | ev.go:114-115 | a new record holds the header's seven fields, which read back as that header, and an empty message, an empty diff and no changes |
| Commits.ReadHeader | ev.go:151-170 | every error it returns is one of the three header errors |
| Commits.ReadHeaderSpec | ev.go:151-170 | any number of `\|` other than six gives "bad header" with the whole text. On success: exactly six separators, seven parts, SHA, names and e-mails copied verbatim from parts 0, 1, 2, 4, 5, and the dates from parts 3 and 6. All or nothing. A bad author date is reported even when the committer date is bad too |
| Commits.ReadHeaderOfFields | ev.go:151-170 | seven separator-free fields joined by `\|`, with parsable dates, decode back to exactly those fields (untrimmed) |
| Commits.GitHeaderLine | ev.go:55 | the first line git prints for the format string starts with the start marker |
| Commits.GitHeaderShaHasColon | ev.go:55 | as written: the header `Log` decodes from that line (after stripping only `HEADER:`, ev.go:115) carries a SHA of `:` followed by the real hash, never the hash itself |
| Commits.HeaderLineRoundTrip | ev.go:151-170 | with the format string as intended (no second `:`), every field comes back exactly as git printed it |
| Text.Split | ev.go:152 | `strings.Split` on one character gives one part more than the number of separators |
| Text.SplitNoSeparator | ev.go:152 | no part contains the separator |
| Text.JoinSplit | ev.go:152 | joining the parts with the separator gives the text back: no character is lost |
| Text.SplitJoin | ev.go:152 | splitting separator-free parts joined by the separator gives back the same parts |
| Sections.FirstHeader | ev.go:107 | the index of the first header line: every line before it fails the header test |
| Sections.GroupsEmpty | ev.go:107-114 | there is an open record exactly when a header line has been seen |
| Sections.GroupsShape | ev.go:107-122 | each record starts with a header line and holds no other header line |
| Sections.GroupsHeaders | ev.go:107-114 | the records' header lines are the stream's header lines, one record per header line, in stream order |
| Sections.GroupsFlatten | ev.go:105-137 | the lines before the first header, then every record's header and body, make up the stream: no line is lost, duplicated or reordered |
| Sections.MarkerIndex | ev.go:123-126 | the position of the first end marker of a body; no end marker comes before it |
| Sections.WithoutMarkers | ev.go:123-126 | a line survives exactly when it is not the end marker (later markers are dropped, not added to the diff) |
| Sections.BodyPartition | ev.go:123-136 | without an end marker, the whole body is message and there is no diff. With one, the body minus its markers is the message lines followed by the diff lines |
| Sections.BodyAppend | ev.go:123-136 | one more body line: before the first marker it joins the message; after it, the diff; a marker joins neither |
| Sections.RenderAppend | ev.go:131-135 | appending a line to a buffer appends the line and CR LF |
| Sections.Render | ev.go:131-135 | the buffer of a run of lines: each line adds at least its CR LF, and a non-empty buffer ends in CR LF |
| Sections.IsChange | ev.go:128 | a change line (first byte `+` or `-`) is never a header line nor the end marker |
| Sections.CountChanges | ev.go:128-130 | the change count is at most the number of diff lines |
| Sections.CountChangesConcat | ev.go:128-130 | the count over two runs of lines is the sum of their counts |
| Sections.UnrenderRender | ev.go:131-135 | for lines without a line feed (as the scanner yields them), splitting the buffer at LF and stripping the CRs gives back the lines |
| Scanner.Decode | ev.go:107-121 | the records of the groups, read header by header in order: on success one record per group; any failure is one of the header errors |
| Scanner.Panics | ev.go:127-130 | the nil dereference: a change line after an end marker before any header; it needs an end marker before the first header |
| Scanner.LogSpec | ev.go:97-147 | the outcome of the whole stream never diverges. It is the nil dereference exactly when the stream panics; a list comes back only without a scanner error, with one record per header line |
| Scanner.Finish | ev.go:109-113 | a closed record keeps the seven header fields `readHeader` stored |
| Scanner.ScanLog | ev.go:97-147 | the scanning loop returns `LogSpec` of its input: the panic, the first header error, the scanner's error, or the list of records |
| Scanner.ScanLine | ev.go:106-136 | one loop iteration either stops with the final outcome of the whole stream or keeps the invariant on one more line |
| Scanner.StartState | ev.go:98-104 | the initial variables (empty list, no record, empty buffers, not reading the diff) describe the empty stream |
| Scanner.StepHeader | ev.go:107-121 | a header that decodes closes the open record (if any) with the buffers, appends it, and opens a fresh record with empty buffers |
| Scanner.CloseRecord | ev.go:109-113 | the record closed with the buffers is the next record of the stream's decoding |
| Scanner.OpenRecord | ev.go:114-118 | the new record holds the decoded header with no message, diff or changes |
| Scanner.StepBadHeader | ev.go:115-118 | a header that does not decode makes the stream read so far fail with that header's error |
| Scanner.StepMarker | ev.go:123-126 | an end marker only switches to the diff; both buffers keep their contents |
| Scanner.StepDiff | ev.go:127-132 | a diff line joins the diff buffer and bumps the counter exactly when it is a change |
| Scanner.DiffStep | ev.go:127-132 | the diff buffer stays the rendering of the diff lines, and the count grows by one exactly for a change line |
| Scanner.MsgStep | ev.go:133-135 | the message buffer stays the rendering of the message lines; the diff does not change |
| Scanner.DiffNoPanic | ev.go:127-130 | a diff line that is not a change never dereferences the missing record |
| Scanner.StepPanic | ev.go:127-130 | a change line in the diff section before any header is the nil dereference |
| Scanner.StepMsg | ev.go:133-135 | a message line joins the message buffer |
| Scanner.EndState | ev.go:138-147 | after the last line: the scanner's error wins, else the last record is flushed and the list returned |
| Scanner.PanicSticks | ev.go:127-130 | once the lines before the first header panic, no later line prevents it |
| Scanner.DecodeErrorSticks | ev.go:115-118 | a header error of the lines read so far is the error of every longer stream |
| Scanner.HeaderErrorSticks | ev.go:115-118 | after a bad header, the outcome is that header's error whatever follows, including a scanner error |
| Outcomes.DecodeOk | ev.go:107-121 | decoding succeeds exactly when every header decodes. It then gives one record per header, in order, each built from its own header and the lines up to the next header |
| Outcomes.DecodeFirstError | ev.go:115-118 | when all headers before the j-th decode and the j-th fails, that failure is the result |
| Outcomes.LogOutcomes | ev.go:97-147 | the nil dereference happens exactly when a change follows an end marker before any header. A list comes back exactly when there is no panic, no scanner error and every header line decodes. It then has one record per header line, in stream order, with that header's fields and the message, diff and count from the lines up to the next header |
| Outcomes.LogFirstBadHeader | ev.go:115-118 | without a panic, the first header line that does not decode decides the error, whatever the later lines and the scanner's flag |
| Outcomes.NoHeaderNoCommits | ev.go:138-147 | a stream with no header line gives the panic, the scanner error or the empty list (never nil) |
| Outcomes.FinishBuffers | ev.go:128-135 | a record's message and diff read back into the message and diff lines. Neither holds an end marker. The change count is the number of `+`/`-` lines of the diff |
| Recovery.DigitRun | ev.go:174 | the `\d+` run at the start of a text: all digits, and the next character is not one |
| Recovery.Captured | ev.go:174-177 | the captured group is a non-empty run of digits |
| Recovery.FirstMatch | ev.go:174-175 | the leftmost position where `has only (\d+) lines` matches, or none |
| Recovery.RecoverError | ev.go:173-180 | the result is all digits |
| Recovery.RecoverErrorLeftmost | ev.go:173-180 | the result is "" exactly when the pattern matches nowhere; otherwise it is the digits of the leftmost match |
| Recovery.RecoverErrorOfMessage | ev.go:172-180 | git's `... has only N lines ...` message gives back N, whatever follows it and whatever precedes it, as long as no `has only ` starts earlier |
| Recovery.NextRange | ev.go:68-74 | the range rewrite: a new range only for a range with a comma, and the new range holds a comma again, so it can be rewritten again |
| Recovery.NextRangeSpec | ev.go:68-74 | a retry happens exactly when the range holds a comma and a count is recovered. The new range splits on commas into the text before the old range's first comma and the count |
| Recovery.NextRangeFixpoint | ev.go:68-74 | rewriting an already rewritten range with the same error text gives the same range again |
| Recovery.ReadWith | ev.go:65-86 | the recursion with the rewrite passed in: it runs out of fuel only when git failed on the first range and a retry was asked for |
| Recovery.LogReader | ev.go:50-87 | `logReader` with at most `fuel` retries: it can only run out of fuel on a range holding a comma |
| Recovery.ReadWithFuel | ev.go:65-86 | once the recursion has ended, more fuel changes nothing |
| Recovery.ReadWithLoops | ev.go:65-74 | when git keeps failing and the rewrite maps the range to itself, the recursion never ends |
| Recovery.LogReaderNoComma | ev.go:65-86 | a range without a comma runs git once: its output or its error is the result |
| Recovery.LogReaderDiverges | ev.go:65-74 | as written: a git that keeps failing with a recoverable message on a `start,end` range makes `logReader` recurse without end |
| Recovery.LogReaderOnce | ev.go:65-86 | the intended reader always ends |
| Recovery.LogReaderOnceAgrees | ev.go:65-86 | the intended reader agrees with `logReader` whenever that one ends within one retry. Where `logReader` would retry a second time, it reports the second failure |
| Ev.Log | ev.go:92-96 | `Log` returns git's failure as the execution error, and otherwise the scan of git's output |
| Ev.LogIntended | ev.go:92-96 | with the single-retry reader, `Log` always ends, with git's failure or the scan of git's output |

## Left out

- Running git (ev.go:52-64, ev.go:86): the invocation is a function parameter `Runner` from the range to git's output lines or its error text. The command line, the working directory and the file argument are not modelled. `Commits.PrettyFormat` only records the format string.
- `bufio.Scanner` (ev.go:97, ev.go:105-106, ev.go:138): the output is the sequence of lines the scanner yields, plus the flag `scn.Err()` reports at the end. Line splitting and the token-size limit are not modelled.
- `time.Parse` with the layout `Mon, _2 Jan 2006 15:04:05 -0700` (ev.go:31, ev.go:157, ev.go:161): a parameter `DateParser`. The model stores whatever date it returns.
- The regular-expression engine (ev.go:174-175): `has only (\d+) lines` is written out directly as `MatchAt` and `FirstMatch`.
- The texts of the `fmt.Errorf` messages (ev.go:77-84, ev.go:139, ev.go:154-163): each error is a `LogError` kind that carries the offending text. The message wording is not modelled.
- Pointers: the records are values. The Go code appends the `*Commit` and never writes to it after a new header, so no aliasing shows.
- Recovery.LogReader: Go's recursion is unbounded. The model follows at most `fuel` retries and reports `OutOfFuel` (and `Ev.Log` reports `Diverged`) past that bound. `Recovery.LogReaderDiverges` shows that no bound suffices.
- The command-line program cmd/ev/ev.go is not part of this model.

## Findings

| source | as written | input that shows it | evidently intended | confidence | as-written member | corrected member |
|---|---|---|---|---|---|---|
| ev.go:65-74 | on failure, `logReader` calls itself with the rewritten range, with no bound; the rewritten range `start,N` again holds a comma | a git that fails on every range with `fatal: file f has only 5 lines`, for the range `1,10`: the rewrite gives `1,5`, which fails the same way and is rewritten to `1,5` again, for ever | at most one retry; a second failure is reported as git's error | not executed | Recovery.LogReaderDiverges | Recovery.LogReaderOnce |
| ev.go:55, ev.go:115 | the format string puts a second `:` after `HEADER:`, and `Log` strips only `HEADER:` | a commit with hash `abc`: git prints `HEADER::abc\|…` and the stored SHA is `:abc` | the SHA is the hash git printed | not executed | Commits.GitHeaderShaHasColon | Commits.HeaderLineRoundTrip |
