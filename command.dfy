/** `has_command` and `require_command`: whether an external program can be run. Starting the
    process is not modelled; the caller passes `run`, which gives the outcome of running an
    argument vector (program name first) in the current directory with the 5 second limit. */
module Command {
  import opened Wrappers

  /** How an attempt to run a program ends. */
  datatype Outcome =
    | Completed(returncode: int)  // the process ran to its end with this exit status
    | OsError(cause: string)      // the run raised OSError, e.g. the program does not exist
    | TimedOut                    // the run raised subprocess.TimeoutExpired

  /** The arguments `has_command` passes when the caller gives none. */
  const DefaultArgs: seq<string> := ["help"]

  /** Python's `repr` of a string, as used by `%r` and `!r`. */
  function Repr(s: string): (r: string)
    ensures |r| == |s| + 2 && r[1..|s| + 1] == s
    ensures r[0] == '\'' && r[|s| + 1] == '\''
  {
    "'" + s + "'"
  }

  /** The message of the "not found" warning and of the error `require_command` raises;
      it names the command. */
  function NotFoundMessage(name: string): (msg: string)
    ensures |msg| == |name| + 16 && msg[1..|name| + 1] == name
    ensures msg[0] == '\'' && msg[|name| + 1] == '\''
    ensures msg[|name| + 2..] == " was not found"
  {
    Repr(name) + " was not found"
  }

  /** `has_command(name, args, warn)`: the command is available exactly when running it
      completed with exit status 0. A nonzero status (negative ones included), an OSError
      and a timeout all give false, and none of them raises. One RuntimeWarning naming the
      command is issued when the result is false and `warn` is set, none otherwise; the
      result itself does not depend on `warn`. */
  method HasCommand(name: string, args: seq<string>, warn: bool, run: seq<string> -> Outcome)
    returns (res: bool, warnings: seq<string>)
    ensures res <==> run([name] + args) == Completed(0)
    ensures !res && warn ==> warnings == [NotFoundMessage(name)]
    ensures res || !warn ==> warnings == []
  {
    var p := run([name] + args);
    match p {
      case OsError(_) =>
        res := false;
      case TimedOut =>
        res := false;
      case Completed(returncode) =>
        res := returncode == 0;
    }
    warnings := [];
    if !res && warn {
      warnings := warnings + [NotFoundMessage(name)];
    }
  }

  /** `require_command(name)`: probes with the default arguments and warnings off, and raises
      OSError naming the command exactly when the probe says it is unavailable; it never
      issues the warning. */
  method RequireCommand(name: string, run: seq<string> -> Outcome)
    returns (warnings: seq<string>, raised: Option<string>)
    ensures raised.Some? <==> run([name] + DefaultArgs) != Completed(0)
    ensures raised.Some? ==> raised.value == NotFoundMessage(name)
    ensures warnings == []
  {
    var available;
    available, warnings := HasCommand(name, DefaultArgs, false, run);
    if !available {
      raised := Some(NotFoundMessage(name));
    } else {
      raised := None;
    }
  }
}
