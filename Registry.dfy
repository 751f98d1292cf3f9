/**
 * The collaborators the secret commands talk to, seen from the commands: the secret view
 * the adapter hands out, and a trace of the calls a command makes on the runtime. What the
 * runtime does inside those calls is not modelled; its replies are inputs of each command.
 */
module Registry {

  import opened Wrappers
  import LibpodSecret

  /**
   * The secret as the adapter layer returns it: the libpod record plus the driver options
   * that `Options()` exposes.
   */
  datatype AdapterSecret = AdapterSecret(secret: LibpodSecret.Secret, options: map<string, string>)

  /** One call a command makes on the runtime, in the order it makes them. */
  datatype Call =
    | GetRuntime
    | Shutdown
    | ListSecrets
    | CreateSecret(args: seq<string>, driver: string, labels: map<string, string>, options: map<string, string>)
    | RemoveSecrets(args: seq<string>, all: bool, force: bool)
    | InspectSecrets(args: seq<string>, all: bool)
    | RenderInspected(secrets: seq<AdapterSecret>, format: string)

  /** What a command leaves behind: the text it printed, the error it returned, the calls it made. */
  datatype Outcome = Outcome(stdout: string, err: Option<string>, calls: seq<Call>)

  /** The error every command returns when the runtime cannot be acquired. */
  function RuntimeError(cause: string): string
  {
    Wrap("error creating libpod runtime", cause)
  }

  /**
   * The runtime is used in scope: either no call was made, or the first call acquired the
   * runtime and, when that succeeded, the last call shut it down and nothing came after.
   */
  ghost predicate Scoped(calls: seq<Call>, acquired: bool)
  {
    || calls == []
    || (&& calls[0] == GetRuntime
        && (if acquired
            then |calls| >= 2 && calls[|calls| - 1] == Shutdown
                 && (forall k :: 1 <= k < |calls| - 1 ==> calls[k] != GetRuntime && calls[k] != Shutdown)
            else calls == [GetRuntime]))
  }
}
