/**
 `mutool.prototype.exec` of lib/pdftools.js. The child process is abstracted
 as the function from the command line to what the process callback receives:
 a launch error, the captured standard output and the captured standard error.
 The callback's decision is then a pure function, and the promise settles with
 exactly one outcome.
 */
module Mutool {
  import opened Wrappers
  import opened JsText
  import opened Metadata

  /** What `child_process.exec` hands its callback. */
  datatype ProcessResult = ProcessResult(err: Option<string>, stdout: string, stderr: string)

  /** Why the returned promise rejects. */
  datatype Rejection =
    | LaunchError(cause: string)    // the `err` of the callback, passed on as it is
    | ToolError(message: string)    // `new Error(stderr)`

  /** What the returned promise resolves with. */
  datatype Resolution =
    | RawText(text: string)         // non-empty standard error without the marker
    | Parsed(record: Record)        // `parse(stdout)`
    | NoOutput                      // `null`: nothing on either stream

  /** How one call of `exec` ends. */
  datatype Outcome =
    | Thrown(message: string)       // synchronously, before anything is spawned
    | Rejected(reason: Rejection)
    | Resolved(resolution: Resolution)

  /** The marker that makes standard-error text a tool error. */
  const ErrorMarker: string := "error:"

  const MissingCommand: string := "Missing command"

  /** The shell command line: the executable path, one space, the command;
      an empty command throws. */
  function CommandLine(execPath: string, command: string): (r: Result<string, string>)
    ensures r.Failure? <==> command == []
    ensures r.Failure? ==> r.error == MissingCommand
    ensures r.Success? ==>
      && |r.value| == |execPath| + 1 + |command|
      && r.value[..|execPath|] == execPath
      && r.value[|execPath|] == ' '
      && r.value[|execPath| + 1..] == command
  {
    if command == [] then Failure(MissingCommand) else Success(execPath + " " + command)
  }

  /** The completion callback, in priority order: a launch error rejects;
      standard error with the marker rejects with that text; other non-empty
      standard error resolves to the raw text; non-empty standard output
      resolves to its parse; otherwise `null`. */
  function Classify(p: ProcessResult): (r: Outcome)
    ensures !r.Thrown?
    ensures r.Rejected? && r.reason.LaunchError? <==> p.err.Some?
    ensures r.Rejected? && r.reason.LaunchError? ==> r.reason.cause == p.err.value
    ensures r == Rejected(ToolError(p.stderr)) <==> p.err.None? && Contains(p.stderr, ErrorMarker)
    ensures r == Resolved(RawText(p.stderr))
        <==> p.err.None? && p.stderr != [] && !Contains(p.stderr, ErrorMarker)
    ensures r.Resolved? && r.resolution.Parsed?
        <==> p.err.None? && p.stderr == [] && p.stdout != []
    ensures r.Resolved? && r.resolution.Parsed? ==> Parse(p.stdout) == Some(r.resolution.record)
    ensures r == Resolved(NoOutput) <==> p.err.None? && p.stderr == [] && p.stdout == []
  {
    if p.err.Some? then Rejected(LaunchError(p.err.value))
    else if p.stderr != [] && Contains(p.stderr, ErrorMarker) then Rejected(ToolError(p.stderr))
    else if p.stderr != [] then Resolved(RawText(p.stderr))
    else if p.stdout != [] then Resolved(Parsed(Parse(p.stdout).value))
    else Resolved(NoOutput)
  }

  /** `exec(command)`, with the child process given as `run`: it maps the
      command line to what the process callback receives. */
  function Exec(execPath: string, command: string, run: string -> ProcessResult): (r: Outcome)
    ensures r.Thrown? <==> command == []
    ensures r.Thrown? ==> r.message == MissingCommand
    ensures command != [] ==> r == Classify(run(execPath + " " + command))
  {
    match CommandLine(execPath, command)
    case Failure(message) => Thrown(message)
    case Success(line) => Classify(run(line))
  }

  /** Standard output is not looked at once there is a launch error or any
      standard-error text. */
  lemma StdoutIgnored(err: Option<string>, stderr: string, out1: string, out2: string)
    requires err.Some? || stderr != []
    ensures Classify(ProcessResult(err, out1, stderr)) == Classify(ProcessResult(err, out2, stderr))
  {
  }

  /** A marker anywhere in standard error rejects with the whole text,
      whatever standard output holds. */
  lemma MarkerRejects(before: string, after: string, stdout: string)
    ensures var stderr := before + ErrorMarker + after;
      Classify(ProcessResult(None, stdout, stderr)) == Rejected(ToolError(stderr))
  {
    var stderr := before + ErrorMarker + after;
    assert stderr[|before|..|before| + |ErrorMarker|] == ErrorMarker;
    assert OccursAt(stderr, ErrorMarker, |before|);
    ContainsIff(stderr, ErrorMarker);
  }

  /** The promise never resolves with `undefined`: whenever standard output
      is parsed, it is non-empty, so `parse` returns a record. */
  lemma ParsedIsRecord(p: ProcessResult)
    requires p.err.None? && p.stderr == [] && p.stdout != []
    ensures Parse(p.stdout).Some?
    ensures Classify(p) == Resolved(Parsed(Parse(p.stdout).value))
  {
  }
}
