/**
 * `podman secret inspect`: the check that names and `--all` exclude each other, the
 * inspection call, and handing its result to the volume renderer (which is not part of
 * this model; its error is an input).
 */
module SecretInspect {

  import opened Wrappers
  import opened Registry

  /** The format used when `--format` is not given. */
  const DefaultFormat: string := "json"

  /** The error for a bad combination of names and `--all`. */
  const ArgsError: string := "provide one or more secret names or use --all"

  /** The flags of the command. */
  datatype InspectFlags = InspectFlags(all: bool, format: string)

  /**
   * The command. Names together with `--all`, or neither, is refused before the runtime is
   * acquired; after that an inspection error is returned as it is and nothing is rendered;
   * otherwise the inspected secrets are rendered in the requested format and the renderer's
   * error is the command's.
   */
  function Inspect(args: seq<string>, flags: InspectFlags, runtimeErr: Option<string>,
                   inspected: Result<seq<AdapterSecret>, string>, renderErr: Option<string>): (out: Outcome)
    ensures Scoped(out.calls, runtimeErr.None?)
    ensures out.stdout == ""
    ensures out.calls == [] <==> (|args| > 0) == flags.all
    ensures out.calls == [] ==> out.err == Some(ArgsError)
    ensures (|args| > 0) != flags.all && runtimeErr.Some? ==>
      out.err == Some(RuntimeError(runtimeErr.value)) && out.calls == [GetRuntime]
    ensures (|args| > 0) != flags.all && runtimeErr.None? && inspected.Err? ==>
      out.err == Some(inspected.error) && out.calls == [GetRuntime, InspectSecrets(args, flags.all), Shutdown]
    ensures (forall c :: c in out.calls ==> !c.RenderInspected?) <==>
      !((|args| > 0) != flags.all && runtimeErr.None? && inspected.Ok?)
    ensures (|args| > 0) != flags.all && runtimeErr.None? && inspected.Ok? ==>
      && out.calls == [GetRuntime, InspectSecrets(args, flags.all), RenderInspected(inspected.value, flags.format), Shutdown]
      && out.err == renderErr
  {
    if (flags.all && |args| > 0) || (!flags.all && |args| < 1) then
      Outcome("", Some(ArgsError), [])
    else if runtimeErr.Some? then
      Outcome("", Some(RuntimeError(runtimeErr.value)), [GetRuntime])
    else if inspected.Err? then
      Outcome("", Some(inspected.error), [GetRuntime, InspectSecrets(args, flags.all), Shutdown])
    else
      var calls := [GetRuntime, InspectSecrets(args, flags.all), RenderInspected(inspected.value, flags.format), Shutdown];
      assert calls[2] in calls;
      Outcome("", renderErr, calls)
  }

  /**
   * Without `--format`, a valid request renders the inspected secrets as JSON, between the
   * inspection call and the shutdown.
   */
  lemma DefaultFormatRendersJson(args: seq<string>, all: bool, secrets: seq<AdapterSecret>, renderErr: Option<string>)
    requires (|args| > 0) != all
    ensures Inspect(args, InspectFlags(all, DefaultFormat), None, Ok(secrets), renderErr).calls
      == [GetRuntime, InspectSecrets(args, all), RenderInspected(secrets, "json"), Shutdown]
  {
  }
}
