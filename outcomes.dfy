/**
 * The ways the launcher stops early. The script ends the process with
 * `sys.exit` from inside its helpers, and some inputs make Python raise an
 * uncaught exception; here both become values returned to the top level.
 */
module Outcomes {

  datatype Option<T> = None | Some(value: T)

  /** Why the script stopped before finishing. */
  datatype Failure =
    | UsageError     // argparse refused the service argument
    | NoAmis         // "No AMIs found"
    | ManyAmis       // "More than one AMI present in the list"
    | ManyInstances  // "More than one instance is running"
    | Crash          // an uncaught IndexError or KeyError

  /** The process exit status each failure produces. */
  function ExitCode(f: Failure): (code: int)
    ensures code != 0
    ensures f == NoAmis ==> code == 2
    ensures f == ManyAmis ==> code == 3
    ensures f == ManyInstances ==> code == 4
  {
    match f
    case UsageError => 2     // argparse exits with status 2 on a bad argument
    case NoAmis => 2
    case ManyAmis => 3
    case ManyInstances => 4
    case Crash => 1          // Python's status for an uncaught exception
  }

  datatype Result<T> = Ok(value: T) | Fail(failure: Failure)
}
