/**
 What the program writes besides its results: the usage statement carried by
 the Usage exception, how the top level routes it to a stream, and the
 verbosity-gated diagnostic lines.
 */
module Report {
  import opened Text
  import opened Options

  /** What one run leaves behind: the bytes written to standard output and to
      standard error, and the exit status. */
  datatype Outcome = Outcome(stdout: string, stderr: string, status: int)

  /** The usage statement; `prog` is the base name of the invoked program. */
  function UsageMessage(prog: string): (m: string)
    ensures |m| > 0
  {
    "Usage: " + prog + " [-hv] [-t tag] [-u user]\n"
    + "\t-t tag  monitor given tag\n"
    + "\t-u user monitor given user\n"
    + "\t-h      print this message and exit\n"
    + "\t-v      be more verbose\n"
  }

  /** The top-level handler of Usage: the statement goes to standard error
      exactly when the code is EXIT_ERROR, to standard output otherwise, and
      the process exits with the carried code. */
  function Dispatch(u: Usage, prog: string): (r: Outcome)
    ensures r.status == u.code
    ensures r.stdout + r.stderr == UsageMessage(prog)
    ensures r.stderr != "" <==> u.code == EXIT_ERROR
    ensures r.stdout != "" <==> u.code != EXIT_ERROR
  {
    if u.code == EXIT_ERROR then Outcome("", UsageMessage(prog), u.code)
    else Outcome(UsageMessage(prog), "", u.code)
  }

  /** The '=' characters that prefix a diagnostic, `'=' * level`: Python
      repeats a string a negative or zero number of times as the empty string. */
  function Marks(level: int): (r: string)
    ensures |r| == if level > 0 then level else 0
    ensures forall i :: 0 <= i < |r| ==> r[i] == '='
  {
    if level > 0 then Repeat('=', level) else ""
  }

  /** verbose(msg, level): with the given verbosity, the line written to
      standard error, or nothing. A written line is `level` marks, "> ", the
      message and a newline. */
  function VerboseLine(verbosity: nat, msg: string, level: int): (r: string)
    ensures r != "" <==> verbosity >= level
    ensures r != "" ==>
      var m := if level > 0 then level else 0;
      && |r| == m + |msg| + 3
      && (forall i :: 0 <= i < m ==> r[i] == '=')
      && r[m..m + 2] == "> "
      && r[m + 2..|r| - 1] == msg
      && r[|r| - 1] == '\n'
  {
    if verbosity >= level then Marks(level) + "> " + msg + "\n" else ""
  }

  /** Raising the verbosity never silences a message and never changes it. */
  lemma VerboseMonotone(v: nat, w: nat, msg: string, level: int)
    requires v <= w
    requires VerboseLine(v, msg, level) != ""
    ensures VerboseLine(w, msg, level) == VerboseLine(v, msg, level)
  {
  }

  /** At the default verbosity of zero nothing of level one or above is written. */
  lemma QuietByDefault(msg: string, level: int)
    requires level >= 1
    ensures VerboseLine(0, msg, level) == ""
  {
  }
}
