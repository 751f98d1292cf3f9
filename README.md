# podman secret commands, modelled in Dafny

This project models the secret commands of podman's command line (`podman secret ls`, `rm`,
`create` and `inspect`) and the libpod secret record they read. It proves properties of the
model.

- `LibpodSecret.dfy`: the stored configuration of a secret, its read-only views, the label copy
  and the host mount point.
- `SecretLs.dfy`: the listing pipeline. It compiles the `--filter` flag into predicates and
  keeps the secrets that satisfy all of them, in order. It resolves the output template (quiet
  mode, backslash-t to tab). It builds what the output writer receives: JSON records, or
  template rows with a static header table. A listing that comes out empty prints nothing unless
  the format is JSON.
- `SecretRm.dfy`: the names-XOR-`--all` check, the removal call, and printing of the removed
  names. The names are printed even when the removal also fails.
- `SecretCreate.dfy`: the runtime failure, the argument count, label and option parse
  failures, and print-on-success.
- `SecretInspect.dfy`: the names-XOR-`--all` check and error propagation.
- `Registry.dfy`: the adapter's view of a secret (the libpod record plus its driver options)
  and a trace of the calls each command makes on the runtime.
- `Text.dfy`: the Go `strings` operations the commands rely on (`Split`, `SplitN` with limit 2,
  `Contains`, `Replace` of backslash-t), and the text `fmt.Println` writes for a list of names.
- `Wrappers.dfy`: `Option`, `Result`, and the message shape of `errors.Wrapf`.

The runtime is an oracle. Its replies are inputs of each command: whether acquiring it failed,
the listing, the removed names and error, the created name and error, the inspection result.
So is the shared `key=value` parser used by `create`, and the writer's error. Each command
returns what it printed, its error, and the sequence of runtime calls. `Registry.Scoped` states
that the runtime is acquired first and, once acquired, shut down last.

The model follows the code, including two behaviours a reader may not expect:

- A filter clause is split on every `=`, and only the second field is passed on
  (`cmd/podman/secret_ls.go:91-95`). So `label=foo=bar` compiles to "has label `foo`, any
  value", not to "label `foo` equals `bar`". `SecretLs.LabelValueAfterSecondEqualsIgnored`
  proves this.
- An empty expected value in a `label` or `opt` clause matches any value of the key
  (`cmd/podman/secret_ls.go:269`, `:285`).

A description of the command that says `label=foo=bar` matches only label `foo` with value
`bar` disagrees with this code. The model follows the code.

## Model

| member | source | states |
|---|---|---|
| LibpodSecret.Secret.Labels | libpod/secret.go:30-36 | The returned map has exactly the configuration's keys, each with the configuration's value. |
| LibpodSecret.Secret.MountPoint | libpod/secret.go:39-41 | The mount point starts with `/secrets/`, then the driver, then `/`, and ends with the name; its length is the sum of the parts. |
| LibpodSecret.MountPointIdentifies | libpod/secret.go:39-41 | Two secrets whose drivers hold no `/` share a mount point only if they share both driver and name. |
| LibpodSecret.AccessorsReadConfig | libpod/secret.go:24-58 | `Name`, `Driver`, `Scope` and `IsCtrSpecific` return their configuration field; the mount point is `/secrets/` + driver + `/` + name. |
| Text.SplitHead | cmd/podman/secret_ls.go:89-91 | A split has exactly one piece iff the separator is absent, and its first piece is the text before the first separator. |
| Text.SplitJoin | cmd/podman/secret_ls.go:89-91 | Splitting the join of pieces that hold no separator gives the pieces back. |
| Text.JoinSplit | cmd/podman/secret_ls.go:89-91 | Joining the pieces of a split with the separator gives the original text back. |
| Text.SplitPiecesLackSeparator | cmd/podman/secret_ls.go:89-91 | No piece of a split holds the separator. |
| Text.SplitN2 | cmd/podman/secret_ls.go:260 | One or two pieces, two iff the separator occurs; the text is the first piece, the separator and the second piece, so the second piece may still hold separators. |
| Text.ContainsIffOccurs | cmd/podman/secret_ls.go:249 | `Contains` holds iff the part occurs at some position of the text. |
| Text.ReplaceTabsLeavesNoEscape | cmd/podman/secret_ls.go:128 | After the replacement no backslash-t is left. |
| Text.ReplaceTabsIdentity | cmd/podman/secret_ls.go:128 | A format without backslash-t is left unchanged. |
| Text.ReplaceTabsIdempotent | cmd/podman/secret_ls.go:128 | Replacing twice equals replacing once. |
| Text.ReplaceTabsAppend | cmd/podman/secret_ls.go:128 | The replacement distributes over a concatenation unless the cut separates a backslash from its `t`, so text apart from backslash-t is copied unchanged. |
| Text.ReplaceTabsEscape | cmd/podman/secret_ls.go:126-128 | Each backslash-t becomes exactly one tab character, wherever it stands; the text on either side is replaced on its own. |
| Text.ReplaceTabsCopies | cmd/podman/secret_ls.go:126-128 | A character that does not open a backslash-t is copied as it is, and the replacement continues after it. |
| Text.SplitJoinLines | cmd/podman/secret_rm.go:66-70 | Splitting the printed names on newlines gives the names back, then an empty piece, when no name holds a newline. |
| SecretLs.GenerateFilter | cmd/podman/secret_ls.go:245-292 | Compilation fails iff the key is not `name`, `driver`, `scope`, `label` or `opt`, with the message "<key> is an invalid filter". |
| SecretLs.NameFilterIsSubstring | cmd/podman/secret_ls.go:247-250 | `name=v` holds of a secret iff `v` occurs somewhere in its name. |
| SecretLs.EmptyNameFilterKeepsAll | cmd/podman/secret_ls.go:247-250 | An empty `name` value keeps every secret. |
| SecretLs.SubPairFilter | cmd/podman/secret_ls.go:259-290 | For `label` and `opt`, the value is cut at its first `=`. The predicate holds iff the map has the key and the expected value is empty or equal to the mapped value. Without `=`, any value of the key matches. |
| SecretLs.HasEntry | cmd/podman/secret_ls.go:267-273 | The scan over the map's entries finds a match iff the key is present and the expected value is empty or equal. |
| SecretLs.Evaluate | cmd/podman/secret_ls.go:245-290 | Applying a compiled filter to a secret, through its views and the label copy, gives exactly what the filter means. |
| SecretLs.ParseFilters | cmd/podman/secret_ls.go:86-101 | The loop's result is the compilation of the flag: no predicates for an empty flag, else the comma-separated clauses compiled in order, stopping at the first error. |
| SecretLs.CompileClausesResult | cmd/podman/secret_ls.go:88-101 | Compilation succeeds iff every clause compiles, and then gives one predicate per clause, in order. |
| SecretLs.CompileClausesFirstError | cmd/podman/secret_ls.go:90-98 | A failed compilation returns the error of the first failing clause; every clause before it compiles. |
| SecretLs.ClauseWithoutEquals | cmd/podman/secret_ls.go:91-94 | A clause without `=` fails with "filter input must be in the form of filter=value: <clause> is invalid". |
| SecretLs.ClauseUsesSecondField | cmd/podman/secret_ls.go:91-98 | A clause compiles from the text before its first `=` and only the text between the first and second `=`. A key error is wrapped with "invalid filter". |
| SecretLs.UnknownKeyRejected | cmd/podman/secret_ls.go:95-98 | A clause with an unknown key fails with "invalid filter: <key> is an invalid filter", whatever the value. |
| SecretLs.LabelValueAfterSecondEqualsIgnored | cmd/podman/secret_ls.go:91-95 | `label=k=v` compiles to "has label k, any value": it keeps exactly the secrets that have label `k`. |
| SecretLs.TrailingCommaRejected | cmd/podman/secret_ls.go:89-94 | A trailing comma leaves an empty clause, which is rejected with the empty clause quoted. |
| SecretLs.FilterSecrets | cmd/podman/secret_ls.go:107-118 | The nested loop keeps exactly the secrets that every filter holds of, in input order. |
| SecretLs.SelectCharacterised | cmd/podman/secret_ls.go:108-118 | The kept secrets are an order-preserving subsequence of the input. A secret is kept iff it is in the input and every filter holds of it, so a dropped secret fails some filter. |
| SecretLs.SelectCounts | cmd/podman/secret_ls.go:108-118 | Each secret is kept as many times as it occurs in the input when every filter holds of it, and not at all otherwise. |
| SecretLs.SelectWithoutFilters | cmd/podman/secret_ls.go:108-118 | With no filters the output equals the input. |
| SecretLs.SelectConjoins | cmd/podman/secret_ls.go:109-113 | Filtering by two lists of clauses at once is filtering by the first and then by the second. |
| SecretLs.ResolveFormat | cmd/podman/secret_ls.go:123-134 | Quiet mode gives `{{.Name}}` whatever the format. Otherwise the result is the format with each backslash-t replaced by a tab (characterised by the `ReplaceTabs` lemmas): no backslash-t is left, a format without one is unchanged, and an empty format stays empty. |
| SecretLs.DefaultFormatKept | cmd/podman/secret_ls.go:70 | The default format, a driver column and a name column separated by a real tab, passes through format resolution unchanged. |
| SecretLs.JsonParamsOf | cmd/podman/secret_ls.go:205-221 | One JSON record per secret, in order, with name, labels, mount point, driver, options and scope read from the secret. |
| SecretLs.Flatten | cmd/podman/secret_ls.go:176-189 | The map's entries (`k`, or `k=v` when the value is non-empty) are concatenated with no separator, each key exactly once, in the map's own order. |
| SecretLs.FlattenEmpty | cmd/podman/secret_ls.go:176-182 | An empty map flattens to the empty text, and only to it. |
| SecretLs.FlattenSingle | cmd/podman/secret_ls.go:176-182 | A one-entry map flattens to that entry alone: the key, plus `=value` when the value is non-empty. |
| SecretLs.FlatteningHoldsEveryEntry | cmd/podman/secret_ls.go:176-189 | Whatever order the map yields, every entry appears in the flattened text. |
| SecretLs.TemplateRows | cmd/podman/secret_ls.go:167-202 | One row per record, in order, with name, driver, mount point and scope copied and both maps flattened. The step cannot fail. |
| SecretLs.HeadersCoverFields | cmd/podman/secret_ls.go:151-164 | The header table, built from each field's source word, has a key for exactly the six row fields. `Name` is headed by the text of `SecretName` ("SECRET NAME"), and every other field by the text of its own name. |
| SecretLs.GenerateOutput | cmd/podman/secret_ls.go:224-242 | An empty list outside JSON mode hands nothing to the writer. JSON mode hands one record per secret. Otherwise it hands a non-empty list of rows, the template and the header table, so the first row always exists. |
| SecretLs.List | cmd/podman/secret_ls.go:74-120 | The runtime is acquired first and shut down last. A runtime error is wrapped "error creating libpod runtime"; a filter or listing error is returned before any output. Otherwise the kept secrets are rendered with the resolved format, and the writer's error is returned. |
| SecretLs.QuietListsNames | cmd/podman/secret_ls.go:123-134 | In quiet mode, a listing with kept secrets hands the writer the names-only template with one row per kept secret carrying its name. With none kept it prints nothing and succeeds. |
| SecretRm.ArgsRejected | cmd/podman/secret_rm.go:46-47 | The arguments are refused iff names are given exactly when `--all` is set (both, or neither). |
| SecretRm.PrintDeleted | cmd/podman/secret_rm.go:66-70 | The removed names are printed one per line, in order, and split back into the names. |
| SecretRm.Remove | cmd/podman/secret_rm.go:43-64 | Refused arguments fail with "choose either one or more secrets or all" before any runtime call. Otherwise one removal call is made. Its removed names are printed even when it also fails, and its error is returned unchanged. |
| SecretRm.RemovedNamesPrintAsLines | cmd/podman/secret_rm.go:56-62 | Two removed names print as two lines in order; none prints nothing. |
| SecretCreate.Create | cmd/podman/secret_create.go:44-70 | The checks run in order: runtime failure, then more than one argument, then a label and then an option parse failure (wrapped "unable to process labels"/"options"). None of these creates a secret. Otherwise one creation call is made with the parsed maps. The name is printed iff it succeeded, and its error is returned. |
| SecretInspect.DefaultFormatRendersJson | cmd/podman/secret_inspect.go:37 | Without `--format`, a valid request renders the inspected secrets as `json`, between the inspection call and the shutdown. |
| SecretInspect.Inspect | cmd/podman/secret_inspect.go:41-57 | Names with `--all`, or neither, fail with "provide one or more secret names or use --all" before any runtime call. An inspection error is returned unchanged and nothing is rendered. Otherwise the inspected secrets are rendered in the requested format, and the renderer's error is returned. |

## Left out

- Command construction, flag registration, help and usage templates, and the `secret` parent
  command: wiring with no decisions in it.
- The runtime's internals (acquisition, shutdown, and listing, creating, removing and
  inspecting secrets). Their replies are inputs.
- The output writer: executing Go templates and serialising JSON. The model stops at what is
  handed to the writer; its error is an input.
- The shared `key=value` parser used by `create` is not part of this model. It is a function
  parameter returning a map or an error.
- The volume renderer that `inspect` calls is not part of this model. Its call is recorded and
  its error is an input.
- The adapter layer's secret type is not part of this model. It is the libpod record plus an
  options map, as `ls` reads it.
- SecretLs.HeadersCoverFields: `splitCamelCase` is not part of this model. Its upper-cased
  result for each of the six source words is a given table (`HeaderWords`), and the reflective
  field walk is replaced by the fixed field list. The header table is built from that table
  through each field's source word, but the word splitting itself is not proved.
- The boxing of rows into `interface{}` values before they reach the writer: a type
  conversion with no effect on content.
- The record's `valid` flag and runtime back-pointer: no view reads them.
- LibpodSecret.Secret.Labels: maps are values here, so the caller's copy cannot alias the
  configuration. That independence holds by construction; no separate statement is needed.
- SecretLs.Flatten: Go's map iteration order is unspecified. The method picks keys in an
  arbitrary order, and its contract holds for every order.
