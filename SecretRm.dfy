/**
 * `podman secret rm`: the check that names and `--all` exclude each other, the removal
 * call, and the printing of the removed names, which happens even when the removal also
 * reports an error.
 */
module SecretRm {

  import opened Wrappers
  import opened Text
  import opened Registry

  /** The error for a bad combination of names and `--all`. */
  const ArgsError: string := "choose either one or more secrets or all"

  /**
   * The argument check: names together with `--all`, or neither of them, is refused.
   * Put the other way round, the command goes ahead exactly when names are given or `--all`
   * is set, but not both.
   */
  function ArgsRejected(args: seq<string>, all: bool): (rejected: bool)
    ensures rejected <==> ((|args| > 0) == all)
    ensures !rejected ==> (all <==> args == [])
  {
    (|args| > 0 && all) || (|args| < 1 && !all)
  }

  /** The reply of the removal call: the names it removed and the error it returned. */
  datatype RemoveReply = RemoveReply(removed: seq<string>, err: Option<string>)

  /**
   * Prints each removed name on its own line, in order. As long as no name holds a
   * newline, splitting the text on newlines gives the names back, then the empty text
   * after the last newline.
   */
  method PrintDeleted(names: seq<string>) returns (text: string)
    ensures text == JoinLines(names)
    ensures (forall k :: 0 <= k < |names| ==> '\n' !in names[k]) ==> Split(text, '\n') == names + [""]
  {
    text := "";
    for i := 0 to |names|
      invariant text == JoinLines(names[..i])
    {
      assert names[..i + 1][..i] == names[..i];
      text := text + names[i] + "\n";
    }
    assert names[..|names|] == names;
    if forall k :: 0 <= k < |names| ==> '\n' !in names[k] {
      SplitJoinLines(names);
    }
  }

  /**
   * The command. The argument check comes before the runtime is acquired; after that the
   * one removal call is made, the names it removed are printed whether or not it failed,
   * and its error is returned unchanged. The runtime is shut down last.
   */
  method Remove(args: seq<string>, all: bool, force: bool, runtimeErr: Option<string>, reply: RemoveReply)
    returns (out: Outcome)
    ensures Scoped(out.calls, runtimeErr.None?)
    ensures ArgsRejected(args, all) ==> out == Outcome("", Some(ArgsError), [])
    ensures !ArgsRejected(args, all) && runtimeErr.Some? ==>
      out == Outcome("", Some(RuntimeError(runtimeErr.value)), [GetRuntime])
    ensures !ArgsRejected(args, all) && runtimeErr.None? ==>
      && out.calls == [GetRuntime, RemoveSecrets(args, all, force), Shutdown]
      && out.stdout == JoinLines(reply.removed)
      && out.err == reply.err
  {
    if ArgsRejected(args, all) {
      return Outcome("", Some(ArgsError), []);
    }
    if runtimeErr.Some? {
      return Outcome("", Some(RuntimeError(runtimeErr.value)), [GetRuntime]);
    }
    var calls := [GetRuntime, RemoveSecrets(args, all, force), Shutdown];
    var printed;
    if reply.err.Some? {
      if |reply.removed| > 0 {
        printed := PrintDeleted(reply.removed);
        return Outcome(printed, reply.err, calls);
      }
    }
    printed := PrintDeleted(reply.removed);
    return Outcome(printed, reply.err, calls);
  }

  /**
   * What a removal that fails part-way prints: with `A` and `B` removed, two lines in that
   * order; with nothing removed, nothing.
   */
  lemma RemovedNamesPrintAsLines()
    ensures JoinLines(["A", "B"]) == "A\nB\n"
    ensures JoinLines([]) == ""
  {
    assert ["A", "B"][..1] == ["A"];
    assert ["A"][..0] == [];
  }
}
