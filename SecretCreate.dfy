/**
 * `podman secret create`: acquire the runtime, allow at most one name, turn the `--label`
 * and `--opt` flags into maps, create the secret and print its name when that succeeded.
 */
module SecretCreate {

  import opened Wrappers
  import opened Registry

  /** The error for more than one positional argument. */
  const TooManyArgs: string := "too many arguments, create takes at most 1 argument"

  /** The flags of the command: the driver name and the raw `--label` and `--opt` entries. */
  datatype CreateFlags = CreateFlags(driver: string, labelEntries: seq<string>, optEntries: seq<string>)

  /** The reply of the creation call: the name the secret was given and the error it returned. */
  datatype CreateReply = CreateReply(name: string, err: Option<string>)

  /**
   * The parser that turns `key=value` entries into a map (the shared label parser of the
   * command line, which is not part of this model), given as a total function.
   */
  type EntryParser = seq<string> -> Result<map<string, string>, string>

  /**
   * The command. A failure to acquire the runtime is reported first, before the argument
   * count is looked at; then more than one argument, a label that does not parse and an
   * option that does not parse each stop the command before anything is created. Otherwise
   * the one creation call is made with the parsed maps; the name is printed exactly when it
   * succeeded, and its error is returned unchanged.
   */
  function Create(args: seq<string>, flags: CreateFlags, runtimeErr: Option<string>,
                  parse: EntryParser, reply: CreateReply): (out: Outcome)
    ensures Scoped(out.calls, runtimeErr.None?)
    ensures runtimeErr.Some? ==> out == Outcome("", Some(RuntimeError(runtimeErr.value)), [GetRuntime])
    ensures runtimeErr.None? && |args| > 1 ==> out == Outcome("", Some(TooManyArgs), [GetRuntime, Shutdown])
    ensures runtimeErr.None? && |args| <= 1 && parse(flags.labelEntries).Err? ==>
      out == Outcome("", Some(Wrap("unable to process labels", parse(flags.labelEntries).error)), [GetRuntime, Shutdown])
    ensures runtimeErr.None? && |args| <= 1 && parse(flags.labelEntries).Ok? && parse(flags.optEntries).Err? ==>
      out == Outcome("", Some(Wrap("unable to process options", parse(flags.optEntries).error)), [GetRuntime, Shutdown])
    ensures runtimeErr.None? && |args| <= 1 && parse(flags.labelEntries).Ok? && parse(flags.optEntries).Ok? ==>
      && out.calls == [GetRuntime, CreateSecret(args, flags.driver, parse(flags.labelEntries).value,
                                                parse(flags.optEntries).value), Shutdown]
      && out.err == reply.err
    ensures (forall c :: c in out.calls ==> !c.CreateSecret?) <==>
      !(runtimeErr.None? && |args| <= 1 && parse(flags.labelEntries).Ok? && parse(flags.optEntries).Ok?)
    ensures out.err.None? <==> out.stdout == reply.name + "\n"
    ensures out.err.Some? ==> out.stdout == ""
  {
    if runtimeErr.Some? then
      Outcome("", Some(RuntimeError(runtimeErr.value)), [GetRuntime])
    else if |args| > 1 then
      Outcome("", Some(TooManyArgs), [GetRuntime, Shutdown])
    else
      var labels := parse(flags.labelEntries);
      if labels.Err? then
        Outcome("", Some(Wrap("unable to process labels", labels.error)), [GetRuntime, Shutdown])
      else
        var opts := parse(flags.optEntries);
        if opts.Err? then
          Outcome("", Some(Wrap("unable to process options", opts.error)), [GetRuntime, Shutdown])
        else
          var calls := [GetRuntime, CreateSecret(args, flags.driver, labels.value, opts.value), Shutdown];
          assert calls[1] in calls;
          if reply.err.None? then Outcome(reply.name + "\n", None, calls) else Outcome("", reply.err, calls)
  }
}
