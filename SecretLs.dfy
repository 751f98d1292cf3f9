/**
 * `podman secret ls`: compile the `--filter` flag into predicates, keep the secrets that
 * satisfy all of them, resolve the output format, and turn the kept secrets into what the
 * output writer receives (a JSON array of records, or rows for a Go template with their
 * column headers). Executing the template and serialising JSON belong to the writer and are
 * not modelled; `Rendering` is what is handed to it.
 */
module SecretLs {

  import opened Wrappers
  import opened Text
  import opened Registry

  /** The flags of `ls`. */
  datatype LsFlags = LsFlags(filter: string, format: string, quiet: bool)

  /** Default of `--format`: a table of driver and name separated by a tab. */
  const DefaultFormat: string := "table {{.Driver}}\t{{.Name}}"

  /** The template quiet mode uses: names only. */
  const QuietFormat: string := "{{.Name}}"

  /** The format value that selects JSON output in the writer library. */
  const JsonString: string := "json"

  // ---------------------------------------------------------------------------
  // Filter predicates
  // ---------------------------------------------------------------------------

  /** A compiled filter clause: the closure the source builds, as a value. */
  datatype SecretFilter =
    | NameContains(part: string)
    | DriverIs(driver: string)
    | ScopeIs(scope: string)
    | LabelHas(key: string, value: string)
    | OptHas(key: string, value: string)

  /** The filter keys `ls` understands. */
  predicate IsFilterKey(key: string)
  {
    key == "name" || key == "driver" || key == "scope" || key == "label" || key == "opt"
  }

  /**
   * Compile one key and its value. For `label` and `opt` the value is itself cut at its
   * first `=` into a key and an expected value; without `=` the expected value is empty.
   */
  function GenerateFilter(filter: string, filterValue: string): (r: Result<SecretFilter, string>)
    ensures r.Err? <==> !IsFilterKey(filter)
    ensures r.Err? ==> r.error == filter + " is an invalid filter"
  {
    if filter == "name" then Ok(NameContains(filterValue))
    else if filter == "driver" then Ok(DriverIs(filterValue))
    else if filter == "scope" then Ok(ScopeIs(filterValue))
    else if filter == "label" || filter == "opt" then
      var pair := SplitN2(filterValue, '=');
      var want := if |pair| > 1 then pair[1] else "";
      Ok(if filter == "label" then LabelHas(pair[0], want) else OptHas(pair[0], want))
    else Err(filter + " is an invalid filter")
  }

  /** A map entry matches when the key is present and the expected value is empty or equal. */
  predicate EntryMatches(m: map<string, string>, key: string, want: string)
  {
    key in m && (want == "" || m[key] == want)
  }

  /** What a compiled filter says of a secret. */
  predicate Holds(f: SecretFilter, s: AdapterSecret)
  {
    match f
    case NameContains(part) => Contains(s.secret.Name(), part)
    case DriverIs(driver) => s.secret.Driver() == driver
    case ScopeIs(scope) => s.secret.Scope() == scope
    case LabelHas(key, want) => EntryMatches(s.secret.config.labels, key, want)
    case OptHas(key, want) => EntryMatches(s.options, key, want)
  }

  /** Scan the entries of `m` in no particular order for one that matches. */
  method HasEntry(m: map<string, string>, key: string, want: string) returns (found: bool)
    ensures found == EntryMatches(m, key, want)
  {
    var todo := m.Keys;
    while todo != {}
      invariant todo <= m.Keys
      invariant key in m && key !in todo ==> !(want == "" || m[key] == want)
      decreases todo
    {
      var k :| k in todo;
      if k == key && (want == "" || m[k] == want) {
        return true;
      }
      todo := todo - {k};
    }
    return false;
  }

  /** Apply a compiled filter to a secret, reading its views as the source does. */
  method Evaluate(f: SecretFilter, s: AdapterSecret) returns (b: bool)
    ensures b == Holds(f, s)
  {
    match f {
      case NameContains(part) => b := Contains(s.secret.Name(), part);
      case DriverIs(driver) => b := s.secret.Driver() == driver;
      case ScopeIs(scope) => b := s.secret.Scope() == scope;
      case LabelHas(key, want) =>
        var labels := s.secret.Labels();
        assert labels == s.secret.config.labels;
        b := HasEntry(labels, key, want);
      case OptHas(key, want) => b := HasEntry(s.options, key, want);
    }
  }

  /** `name=v` keeps exactly the secrets whose name has `v` somewhere in it. */
  lemma NameFilterIsSubstring(v: string, s: AdapterSecret)
    ensures GenerateFilter("name", v) == Ok(NameContains(v))
    ensures Holds(NameContains(v), s) <==> exists i :: OccursAt(s.secret.Name(), v, i)
  {
    ContainsIffOccurs(s.secret.Name(), v);
  }

  /** An empty name filter keeps every secret. */
  lemma EmptyNameFilterKeepsAll(s: AdapterSecret)
    ensures Holds(NameContains(""), s)
  {
    ContainsEmpty(s.secret.Name());
  }

  /**
   * `label=v` (and `opt=v`, against the options): when `v` holds `=`, the part before the
   * first `=` names the key and the rest is the expected value (all of it, further `=`
   * included); otherwise any value of key `v` matches.
   */
  lemma {:induction false} SubPairFilter(filter: string, v: string, s: AdapterSecret)
    requires filter == "label" || filter == "opt"
    ensures GenerateFilter(filter, v).Ok?
    ensures var m := if filter == "label" then s.secret.config.labels else s.options;
      Holds(GenerateFilter(filter, v).value, s) <==>
        if '=' in v then
          var i := IndexOf(v, '=');
          v[..i] in m && (i == |v| - 1 || m[v[..i]] == v[i + 1..])
        else v in m
  {
    var pair := SplitN2(v, '=');
    if '=' in v {
      var i := IndexOf(v, '=');
      assert pair == [v[..i], v[i + 1..]];
      assert v[i + 1..] == "" <==> i == |v| - 1;
    } else {
      assert pair == [v];
    }
  }

  // ---------------------------------------------------------------------------
  // The --filter flag
  // ---------------------------------------------------------------------------

  /** The error for a clause without `=`. */
  function ClauseError(clause: string): string
  {
    "filter input must be in the form of filter=value: " + clause + " is invalid"
  }

  /**
   * Compile one comma-separated clause: split it at every `=`, reject it if there is no
   * `=`, then hand the first field as the key and only the second field as the value.
   */
  function CompileClause(clause: string): Result<SecretFilter, string>
  {
    var fields := Split(clause, '=');
    if |fields| < 2 then Err(ClauseError(clause))
    else match GenerateFilter(fields[0], fields[1])
      case Ok(f) => Ok(f)
      case Err(e) => Err(Wrap("invalid filter", e))
  }

  /** Put `acc` in front of a successful result; pass an error through. */
  function Prepend(acc: seq<SecretFilter>, r: Result<seq<SecretFilter>, string>): Result<seq<SecretFilter>, string>
  {
    match r
    case Ok(fs) => Ok(acc + fs)
    case Err(e) => Err(e)
  }

  /** Prepending nothing changes nothing. */
  lemma PrependNothing(r: Result<seq<SecretFilter>, string>)
    ensures Prepend([], r) == r
  {
    if r.Ok? {
      assert [] + r.value == r.value;
    }
  }

  /** Prepending twice is prepending the concatenation. */
  lemma PrependTwice(a: seq<SecretFilter>, b: seq<SecretFilter>, r: Result<seq<SecretFilter>, string>)
    ensures Prepend(a, Prepend(b, r)) == Prepend(a + b, r)
  {
    if r.Ok? {
      assert a + (b + r.value) == (a + b) + r.value;
    }
  }

  /** Compile the clauses in order, stopping at the first that fails. */
  function CompileClauses(clauses: seq<string>): Result<seq<SecretFilter>, string>
  {
    if clauses == [] then Ok([])
    else match CompileClause(clauses[0])
      case Err(e) => Err(e)
      case Ok(f) => Prepend([f], CompileClauses(clauses[1..]))
  }

  /** What the `--filter` flag compiles to: nothing when it is empty, else its clauses. */
  function FilterSpec(filter: string): Result<seq<SecretFilter>, string>
  {
    if filter == "" then Ok([]) else CompileClauses(Split(filter, ','))
  }

  /** Build the predicate list clause by clause, returning at the first bad clause. */
  method ParseFilters(filter: string) returns (r: Result<seq<SecretFilter>, string>)
    ensures r == FilterSpec(filter)
  {
    var filters: seq<SecretFilter> := [];
    if filter != "" {
      var clauses := Split(filter, ',');
      assert clauses[0..] == clauses;
      PrependNothing(CompileClauses(clauses));
      for i := 0 to |clauses|
        invariant CompileClauses(clauses) == Prepend(filters, CompileClauses(clauses[i..]))
      {
        ghost var tail := clauses[i..];
        assert tail[0] == clauses[i] && tail[1..] == clauses[i + 1..];
        var fields := Split(clauses[i], '=');
        if |fields| < 2 {
          assert CompileClauses(tail) == Err(ClauseError(clauses[i]));
          return Err(ClauseError(clauses[i]));
        }
        var generated := GenerateFilter(fields[0], fields[1]);
        if generated.Err? {
          assert CompileClauses(tail) == Err(Wrap("invalid filter", generated.error));
          return Err(Wrap("invalid filter", generated.error));
        }
        assert CompileClauses(tail) == Prepend([generated.value], CompileClauses(clauses[i + 1..]));
        PrependTwice(filters, [generated.value], CompileClauses(clauses[i + 1..]));
        filters := filters + [generated.value];
      }
      assert clauses[|clauses|..] == [];
      assert filters + [] == filters;
    }
    return Ok(filters);
  }

  /**
   * The clauses compile when each of them does; the predicates are then the clauses'
   * own, one per clause, in order.
   */
  lemma {:induction false} CompileClausesResult(clauses: seq<string>)
    ensures CompileClauses(clauses).Ok? <==> forall k :: 0 <= k < |clauses| ==> CompileClause(clauses[k]).Ok?
    ensures CompileClauses(clauses).Ok? ==>
      |CompileClauses(clauses).value| == |clauses| &&
      forall k :: 0 <= k < |clauses| ==> CompileClauses(clauses).value[k] == CompileClause(clauses[k]).value
  {
    if clauses != [] {
      var rest := clauses[1..];
      CompileClausesResult(rest);
      assert forall k :: 1 <= k < |clauses| ==> clauses[k] == rest[k - 1];
    }
  }

  /** A flag that does not compile fails with the error of its first failing clause. */
  lemma {:induction false} CompileClausesFirstError(clauses: seq<string>)
    requires CompileClauses(clauses).Err?
    ensures exists j ::
              && 0 <= j < |clauses| && CompileClause(clauses[j]).Err?
              && CompileClauses(clauses).error == CompileClause(clauses[j]).error
              && forall k :: 0 <= k < j ==> CompileClause(clauses[k]).Ok?
  {
    var rest := clauses[1..];
    if CompileClause(clauses[0]).Ok? {
      assert CompileClauses(rest).Err?;
      CompileClausesFirstError(rest);
      var j :| 0 <= j < |rest| && CompileClause(rest[j]).Err?
        && CompileClauses(rest).error == CompileClause(rest[j]).error
        && forall k :: 0 <= k < j ==> CompileClause(rest[k]).Ok?;
      assert clauses[j + 1] == rest[j];
      assert forall k :: 1 <= k < j + 1 ==> clauses[k] == rest[k - 1];
    }
  }

  /** A clause with no `=` is rejected with the clause quoted in the message. */
  lemma ClauseWithoutEquals(clause: string)
    requires '=' !in clause
    ensures CompileClause(clause) == Err(ClauseError(clause))
  {
  }

  /**
   * A clause with `=` is compiled from the text before the first `=` and only the text
   * between the first and the second `=`; anything after a second `=` is dropped.
   */
  lemma ClauseUsesSecondField(clause: string)
    requires '=' in clause
    ensures var i := IndexOf(clause, '=');
      var value := TakeUntil(clause[i + 1..], '=');
      CompileClause(clause) == match GenerateFilter(clause[..i], value)
        case Ok(f) => Ok(f)
        case Err(e) => Err(Wrap("invalid filter", e))
  {
    var i := IndexOf(clause, '=');
    var fields := Split(clause, '=');
    assert fields == [clause[..i]] + Split(clause[i + 1..], '=');
    assert fields[1] == Split(clause[i + 1..], '=')[0];
  }

  /** Any key other than the five known ones is an error, whatever its value. */
  lemma UnknownKeyRejected(key: string, value: string)
    requires '=' !in key && !IsFilterKey(key)
    ensures CompileClause(key + "=" + value) == Err(Wrap("invalid filter", key + " is an invalid filter"))
  {
    var clause := key + "=" + value;
    assert clause[|key|] == '=' && clause[..|key|] == key;
    IndexOfAt(clause, '=', |key|);
    ClauseUsesSecondField(clause);
  }

  /**
   * As written, `label=k=v` compiles to "has label k, any value": the expected value `v`
   * never reaches the label predicate, so `label=foo=bar` also keeps a secret labelled
   * `foo=baz`.
   */
  lemma LabelValueAfterSecondEqualsIgnored(key: string, want: string)
    requires '=' !in key
    ensures CompileClause("label=" + key + "=" + want) == Ok(LabelHas(key, ""))
    ensures forall s: AdapterSecret :: Holds(LabelHas(key, ""), s) <==> key in s.secret.config.labels
  {
    var clause := "label=" + key + "=" + want;
    var rest := key + "=" + want;
    assert clause[..5] == "label" && clause[5] == '=' && clause[6..] == rest;
    IndexOfAt(clause, '=', 5);
    assert rest[..|key|] == key && rest[|key|] == '=';
    IndexOfAt(rest, '=', |key|);
    assert TakeUntil(rest, '=') == key;
    assert GenerateFilter("label", key) == Ok(LabelHas(key, "")) by {
      assert SplitN2(key, '=') == [key];
    }
    ClauseUsesSecondField(clause);
  }

  /** A trailing comma leaves an empty clause, which has no `=` and is rejected. */
  lemma TrailingCommaRejected(clause: string)
    requires ',' !in clause && CompileClause(clause).Ok?
    ensures FilterSpec(clause + ",") == Err(ClauseError(""))
  {
    var filter := clause + ",";
    assert filter[..|clause|] == clause;
    IndexOfAt(filter, ',', |clause|);
    assert filter[|clause| + 1..] == "";
    var clauses := Split(filter, ',');
    assert clauses == [clause] + Split("", ',');
    assert clauses == [clause, ""];
    assert clauses[1..] == [""];
    assert CompileClause("") == Err(ClauseError(""));
    assert CompileClauses([""]) == Err(ClauseError(""));
  }

  // ---------------------------------------------------------------------------
  // Keeping the secrets that pass every filter
  // ---------------------------------------------------------------------------

  /** Every filter holds of the secret. */
  predicate AllHold(filters: seq<SecretFilter>, s: AdapterSecret)
  {
    forall k :: 0 <= k < |filters| ==> Holds(filters[k], s)
  }

  /** The secrets that pass every filter, in their original order. */
  function Select(secrets: seq<AdapterSecret>, filters: seq<SecretFilter>): seq<AdapterSecret>
    decreases |secrets|
  {
    if secrets == [] then []
    else
      var last := secrets[|secrets| - 1];
      Select(secrets[..|secrets| - 1], filters) + (if AllHold(filters, last) then [last] else [])
  }

  /** The nested loop of the source: conjoin the filters for each secret, append if kept. */
  method FilterSecrets(secrets: seq<AdapterSecret>, filters: seq<SecretFilter>) returns (kept: seq<AdapterSecret>)
    ensures kept == Select(secrets, filters)
  {
    kept := [];
    for i := 0 to |secrets|
      invariant kept == Select(secrets[..i], filters)
    {
      var sec := secrets[i];
      var keep := true;
      for j := 0 to |filters|
        invariant keep == AllHold(filters[..j], sec)
      {
        if keep {
          keep := Evaluate(filters[j], sec);
        }
      }
      assert filters[..|filters|] == filters;
      if keep {
        kept := kept + [sec];
      }
      assert secrets[..i + 1][..i] == secrets[..i];
    }
    assert secrets[..|secrets|] == secrets;
  }

  /** `a` is `b` with some elements deleted, the rest in the same order. */
  ghost predicate IsSubsequence<T>(a: seq<T>, b: seq<T>)
    decreases |b|
  {
    if b == [] then a == []
    else
      || (a != [] && a[|a| - 1] == b[|b| - 1] && IsSubsequence(a[..|a| - 1], b[..|b| - 1]))
      || IsSubsequence(a, b[..|b| - 1])
  }

  /**
   * Filtering keeps an order-preserving subsequence, and a secret is in the result exactly
   * when it is in the input and every filter holds of it.
   */
  lemma {:induction false} SelectCharacterised(secrets: seq<AdapterSecret>, filters: seq<SecretFilter>)
    ensures IsSubsequence(Select(secrets, filters), secrets)
    ensures forall s :: s in Select(secrets, filters) <==> s in secrets && AllHold(filters, s)
    ensures |Select(secrets, filters)| <= |secrets|
    decreases |secrets|
  {
    if secrets != [] {
      var init := secrets[..|secrets| - 1];
      var last := secrets[|secrets| - 1];
      SelectCharacterised(init, filters);
      var kept := Select(secrets, filters);
      assert secrets == init + [last];
      if AllHold(filters, last) {
        assert kept[..|kept| - 1] == Select(init, filters);
      } else {
        assert kept == Select(init, filters);
      }
    }
  }

  /**
   * Filtering keeps every copy of a passing secret and no copy of a failing one, so each
   * dropped position holds a secret that fails some filter.
   */
  lemma {:induction false} SelectCounts(secrets: seq<AdapterSecret>, filters: seq<SecretFilter>)
    ensures forall s :: multiset(Select(secrets, filters))[s] == if AllHold(filters, s) then multiset(secrets)[s] else 0
    decreases |secrets|
  {
    if secrets != [] {
      var init := secrets[..|secrets| - 1];
      var last := secrets[|secrets| - 1];
      SelectCounts(init, filters);
      assert secrets == init + [last];
      assert multiset(secrets) == multiset(init) + multiset{last};
      if AllHold(filters, last) {
        assert multiset(Select(secrets, filters)) == multiset(Select(init, filters)) + multiset{last};
      } else {
        assert Select(secrets, filters) == Select(init, filters);
      }
    }
  }

  /** With no filters every secret is kept. */
  lemma {:induction false} SelectWithoutFilters(secrets: seq<AdapterSecret>)
    ensures Select(secrets, []) == secrets
    decreases |secrets|
  {
    if secrets != [] {
      SelectWithoutFilters(secrets[..|secrets| - 1]);
      assert secrets[..|secrets| - 1] + [secrets[|secrets| - 1]] == secrets;
    }
  }

  /**
   * Clauses combine by conjunction, each on its own: filtering by two lists at once is
   * filtering by the first and then by the second, even when both constrain the same key.
   */
  lemma {:induction false} SelectConjoins(secrets: seq<AdapterSecret>, first: seq<SecretFilter>, second: seq<SecretFilter>)
    ensures Select(secrets, first + second) == Select(Select(secrets, first), second)
    decreases |secrets|
  {
    if secrets != [] {
      var init := secrets[..|secrets| - 1];
      var last := secrets[|secrets| - 1];
      SelectConjoins(init, first, second);
      assert AllHold(first + second, last) <==> AllHold(first, last) && AllHold(second, last) by {
        assert forall k :: 0 <= k < |first| ==> (first + second)[k] == first[k];
        assert forall k :: 0 <= k < |second| ==> (first + second)[|first| + k] == second[k];
      }
      var mid := Select(secrets, first);
      if AllHold(first, last) {
        assert mid[..|mid| - 1] == Select(init, first);
      } else {
        assert mid == Select(init, first);
      }
    }
  }

  // ---------------------------------------------------------------------------
  // Format resolution
  // ---------------------------------------------------------------------------

  /**
   * The template `ls` uses: names only in quiet mode whatever `--format` says; otherwise
   * `--format` with each backslash-t turned into a tab.
   */
  function ResolveFormat(format: string, quiet: bool): (r: string)
    ensures quiet ==> r == QuietFormat
    ensures !quiet ==> r == ReplaceTabs(format)
    ensures !quiet ==> !HasEscapedTab(r)
    ensures !quiet && !HasEscapedTab(format) ==> r == format
    ensures !quiet && format == "" ==> r == ""
  {
    ReplaceTabsLeavesNoEscape(format);
    ReplaceTabsIdentity(format);
    var replaced := if format != "" then ReplaceTabs(format) else "";
    if quiet then QuietFormat else replaced
  }

  /**
   * The default `--format` already holds a real tab and no backslash, so outside quiet
   * mode it is used as it is.
   */
  lemma DefaultFormatKept()
    ensures ResolveFormat(DefaultFormat, false) == DefaultFormat
  {
    assert forall i :: 0 <= i < |DefaultFormat| ==> DefaultFormat[i] != '\\';
  }

  // ---------------------------------------------------------------------------
  // Records handed to the writer
  // ---------------------------------------------------------------------------

  /** A secret as a JSON record. */
  datatype JsonParams = JsonParams(
    name: string,
    labels: map<string, string>,
    mountPoint: string,
    driver: string,
    options: map<string, string>,
    scope: string)

  /** The six column names of the template rows, in declaration order. */
  const Fields: seq<string> := ["Name", "Labels", "MountPoint", "Driver", "Options", "Scope"]

  /**
   * The header text of each source word: the word split at its camel-case humps and
   * upper-cased. The splitter itself is not part of this model, so its results for the six
   * words are given here.
   */
  const HeaderWords: map<string, string> := map[
    "SecretName" := "SECRET NAME",
    "Labels" := "LABELS",
    "MountPoint" := "MOUNT POINT",
    "Driver" := "DRIVER",
    "Options" := "OPTIONS",
    "Scope" := "SCOPE"]

  /** The text a field's header is derived from: `Name` gets the entity word in front. */
  function HeaderSource(field: string): string
  {
    if field == "Name" then "Secret" + field else field
  }

  /** The column headers: for each row field, the header text of its source word. */
  const Headers: map<string, string> :=
    map f | f in Fields && HeaderSource(f) in HeaderWords :: HeaderWords[HeaderSource(f)]

  /** A secret as a template row: label and option maps flattened to one string each. */
  datatype TemplateParams = TemplateParams(
    name: string,
    labels: string,
    mountPoint: string,
    driver: string,
    options: string,
    scope: string)
  {
    /** The header table; the same for every row, since it depends only on the field names. */
    function HeaderMap(): map<string, string>
    {
      Headers
    }
  }

  /** What is handed to the writer. */
  datatype Rendering =
    | JsonArray(records: seq<JsonParams>)
    | TemplateArray(rows: seq<TemplateParams>, template: string, fields: map<string, string>)

  /** The JSON record of a secret, read through its views. */
  function JsonOf(s: AdapterSecret): JsonParams
  {
    JsonParams(s.secret.Name(), s.secret.config.labels, s.secret.MountPoint(),
               s.secret.Driver(), s.options, s.secret.Scope())
  }

  /** One JSON record per secret, in order. */
  method JsonParamsOf(secrets: seq<AdapterSecret>) returns (out: seq<JsonParams>)
    ensures |out| == |secrets|
    ensures forall i :: 0 <= i < |secrets| ==> out[i] == JsonOf(secrets[i])
  {
    out := [];
    for i := 0 to |secrets|
      invariant |out| == i
      invariant forall j :: 0 <= j < i ==> out[j] == JsonOf(secrets[j])
    {
      var sec := secrets[i];
      var labels := sec.secret.Labels();
      assert labels == sec.secret.config.labels;
      out := out + [JsonParams(sec.secret.Name(), labels, sec.secret.MountPoint(),
                               sec.secret.Driver(), sec.options, sec.secret.Scope())];
    }
  }

  /** One flattened entry: the key alone when the value is empty, else `key=value`. */
  function Entry(key: string, value: string): string
  {
    if value == "" then key else key + "=" + value
  }

  /** `order` lists each key of `keys` exactly once. */
  ghost predicate Enumerates(order: seq<string>, keys: set<string>)
  {
    && (forall i, j :: 0 <= i < j < |order| ==> order[i] != order[j])
    && (forall k :: k in order <==> k in keys)
  }

  /** The entries of `m` for the keys in `order`, concatenated with no separator. */
  function FlattenIn(order: seq<string>, m: map<string, string>): string
    requires forall k :: k in order ==> k in m
    decreases |order|
  {
    if order == [] then ""
    else
      var last := order[|order| - 1];
      FlattenIn(order[..|order| - 1], m) + Entry(last, m[last])
  }

  /** `s` is the entries of `m` concatenated in some order, each once. */
  ghost predicate IsFlattening(s: string, m: map<string, string>)
  {
    exists order :: Enumerates(order, m.Keys) && s == FlattenIn(order, m)
  }

  /** Concatenate the entries of a map in whatever order the map yields them. */
  method Flatten(m: map<string, string>) returns (s: string, ghost order: seq<string>)
    ensures Enumerates(order, m.Keys)
    ensures s == FlattenIn(order, m)
    ensures IsFlattening(s, m)
  {
    s, order := "", [];
    var todo := m.Keys;
    while todo != {}
      invariant todo <= m.Keys
      invariant forall i, j :: 0 <= i < j < |order| ==> order[i] != order[j]
      invariant forall k :: k in order <==> k in m.Keys && k !in todo
      invariant s == FlattenIn(order, m)
      decreases todo
    {
      var k :| k in todo;
      var entry := k;
      if m[k] != "" {
        entry := entry + "=" + m[k];
      }
      s := s + entry;
      ghost var prev := order;
      order := order + [k];
      assert order[..|order| - 1] == prev;
      todo := todo - {k};
    }
  }

  /** A row is the record's: scalar fields copied, each map flattened in some order. */
  ghost predicate RowFrom(p: JsonParams, row: TemplateParams)
  {
    && row.name == p.name
    && row.driver == p.driver
    && row.mountPoint == p.mountPoint
    && row.scope == p.scope
    && IsFlattening(row.labels, p.labels)
    && IsFlattening(row.options, p.options)
  }

  /** One template row per JSON record, in order. */
  method TemplateRows(records: seq<JsonParams>) returns (rows: seq<TemplateParams>)
    ensures |rows| == |records|
    ensures forall i :: 0 <= i < |records| ==> RowFrom(records[i], rows[i])
  {
    rows := [];
    for i := 0 to |records|
      invariant |rows| == i
      invariant forall j :: 0 <= j < i ==> RowFrom(records[j], rows[j])
    {
      var record := records[i];
      var labels, labelOrder := Flatten(record.labels);
      var options, optionOrder := Flatten(record.options);
      var row := TemplateParams(record.name, labels, record.mountPoint, record.driver, options, record.scope);
      assert RowFrom(record, row);
      rows := rows + [row];
    }
  }

  /** An enumeration lists as many keys as the set holds. */
  lemma {:induction false} EnumerationLength(order: seq<string>, keys: set<string>)
    requires Enumerates(order, keys)
    ensures |order| == |keys|
    decreases |order|
  {
    if order == [] {
      assert keys == {};
    } else {
      var init := order[..|order| - 1];
      var last := order[|order| - 1];
      assert order == init + [last];
      forall k ensures k in init <==> k in keys - {last} {
        if k in init {
          var i :| 0 <= i < |init| && init[i] == k;
          assert order[i] == k;
        }
        if k in keys - {last} {
          assert k in order;
          var i :| 0 <= i < |order| && order[i] == k;
          assert i < |order| - 1;
          assert init[i] == k;
        }
      }
      assert Enumerates(init, keys - {last});
      EnumerationLength(init, keys - {last});
    }
  }

  /** Flattening an empty map gives the empty string, and nothing else does. */
  lemma FlattenEmpty(s: string)
    ensures IsFlattening(s, map[]) <==> s == ""
  {
    var m: map<string, string> := map[];
    assert Enumerates([], m.Keys);
    forall order | Enumerates(order, m.Keys) ensures order == [] {
      EnumerationLength(order, m.Keys);
    }
  }

  /** A map with one entry flattens to that entry alone. */
  lemma FlattenSingle(s: string, key: string, value: string)
    ensures IsFlattening(s, map[key := value]) <==> s == Entry(key, value)
  {
    var m := map[key := value];
    assert Enumerates([key], m.Keys);
    assert FlattenIn([key], m) == Entry(key, value);
    forall order | Enumerates(order, m.Keys) ensures order == [key] {
      EnumerationLength(order, m.Keys);
      assert order[0] in order;
    }
  }

  /** An occurrence in a prefix is an occurrence in the whole. */
  lemma OccursInPrefix(a: string, b: string, sub: string, i: int)
    requires OccursAt(a, sub, i)
    ensures OccursAt(a + b, sub, i)
  {
    assert (a + b)[i..i + |sub|] == a[i..i + |sub|];
  }

  /** Every entry of the map appears in its flattening, whatever the order. */
  lemma {:induction false} FlattenHoldsEveryEntry(order: seq<string>, m: map<string, string>, key: string)
    requires forall k :: k in order ==> k in m
    requires key in order
    ensures exists i :: OccursAt(FlattenIn(order, m), Entry(key, m[key]), i)
    decreases |order|
  {
    var init := order[..|order| - 1];
    var last := order[|order| - 1];
    var entry := Entry(key, m[key]);
    var front := FlattenIn(init, m);
    assert FlattenIn(order, m) == front + Entry(last, m[last]);
    if key == last {
      assert OccursAt(front + entry, entry, |front|) by {
        assert (front + entry)[|front|..|front| + |entry|] == entry;
      }
    } else {
      assert key in init by {
        assert order == init + [last];
      }
      FlattenHoldsEveryEntry(init, m, key);
      var i :| OccursAt(front, entry, i);
      OccursInPrefix(front, Entry(last, m[last]), entry, i);
    }
  }

  /** Every entry of the map appears in any flattening of it. */
  lemma FlatteningHoldsEveryEntry(s: string, m: map<string, string>)
    requires IsFlattening(s, m)
    ensures forall key :: key in m ==> Contains(s, Entry(key, m[key]))
  {
    var order :| Enumerates(order, m.Keys) && s == FlattenIn(order, m);
    forall key | key in m ensures Contains(s, Entry(key, m[key])) {
      FlattenHoldsEveryEntry(order, m, key);
      ContainsIffOccurs(s, Entry(key, m[key]));
    }
  }

  /**
   * The header table has a column for exactly the six row fields; `Name` is headed by the
   * text of SecretName, and every other field by the text of its own name.
   */
  lemma HeadersCoverFields()
    ensures forall f :: f in Headers <==> f in Fields
    ensures "Name" in Headers && Headers["Name"] == HeaderWords["SecretName"] == "SECRET NAME"
    ensures forall f :: f in Fields && f != "Name" ==> f in Headers && Headers[f] == HeaderWords[f]
  {
    assert HeaderSource("Name") == "SecretName";
    forall f | f in Fields && f != "Name" ensures HeaderSource(f) == f && f in HeaderWords {
    }
  }

  // ---------------------------------------------------------------------------
  // Output
  // ---------------------------------------------------------------------------

  /**
   * What the writer receives for `secrets` and the resolved `format`: nothing for an empty
   * list outside JSON mode; the JSON records in JSON mode (an empty array for no secrets);
   * otherwise one row per secret, at least one, with the static headers.
   */
  ghost predicate RenderedFrom(secrets: seq<AdapterSecret>, format: string, r: Option<Rendering>)
  {
    && (r.None? <==> |secrets| == 0 && format != JsonString)
    && (format == JsonString ==>
          r.Some? && r.value.JsonArray? && |r.value.records| == |secrets|
          && forall i :: 0 <= i < |secrets| ==> r.value.records[i] == JsonOf(secrets[i]))
    && (r.Some? && format != JsonString ==>
          && r.value.TemplateArray?
          && r.value.template == format
          && r.value.fields == Headers
          && |r.value.rows| == |secrets| > 0
          && forall i :: 0 <= i < |secrets| ==> RowFrom(JsonOf(secrets[i]), r.value.rows[i]))
  }

  /** Decide the mode and build its records; the header table is read from the first row. */
  method GenerateOutput(secrets: seq<AdapterSecret>, format: string) returns (r: Option<Rendering>)
    ensures RenderedFrom(secrets, format, r)
  {
    if |secrets| == 0 && format != JsonString {
      return None;
    }
    var lsOutput := JsonParamsOf(secrets);
    if format == JsonString {
      return Some(JsonArray(lsOutput));
    }
    var rows := TemplateRows(lsOutput);
    return Some(TemplateArray(rows, format, rows[0].HeaderMap()));
  }

  /** What `ls` leaves behind: what it handed to the writer, its error, its runtime calls. */
  datatype LsOutcome = LsOutcome(rendered: Option<Rendering>, err: Option<string>, calls: seq<Call>)

  /**
   * `podman secret ls`. `runtimeErr` is the failure of acquiring the runtime, `fetched` the
   * registry's reply to the listing, and `writeErr` the writer's failure, if any.
   */
  method List(flags: LsFlags, runtimeErr: Option<string>, fetched: Result<seq<AdapterSecret>, string>,
              writeErr: Option<string>)
    returns (out: LsOutcome)
    ensures Scoped(out.calls, runtimeErr.None?)
    ensures out.err.Some? ==> out.rendered.None? || out.err == writeErr
    ensures runtimeErr.Some? ==>
      out == LsOutcome(None, Some(RuntimeError(runtimeErr.value)), [GetRuntime])
    ensures runtimeErr.None? && FilterSpec(flags.filter).Err? ==>
      out == LsOutcome(None, Some(FilterSpec(flags.filter).error), [GetRuntime, Shutdown])
    ensures runtimeErr.None? && FilterSpec(flags.filter).Ok? && fetched.Err? ==>
      out == LsOutcome(None, Some(fetched.error), [GetRuntime, ListSecrets, Shutdown])
    ensures runtimeErr.None? && FilterSpec(flags.filter).Ok? && fetched.Ok? ==>
      && out.calls == [GetRuntime, ListSecrets, Shutdown]
      && RenderedFrom(Select(fetched.value, FilterSpec(flags.filter).value),
                      ResolveFormat(flags.format, flags.quiet), out.rendered)
      && out.err == (if out.rendered.Some? then writeErr else None)
  {
    if runtimeErr.Some? {
      return LsOutcome(None, Some(RuntimeError(runtimeErr.value)), [GetRuntime]);
    }
    var format := ResolveFormat(flags.format, flags.quiet);
    var filterFuncs := ParseFilters(flags.filter);
    if filterFuncs.Err? {
      return LsOutcome(None, Some(filterFuncs.error), [GetRuntime, Shutdown]);
    }
    if fetched.Err? {
      return LsOutcome(None, Some(fetched.error), [GetRuntime, ListSecrets, Shutdown]);
    }
    var secsFiltered := FilterSecrets(fetched.value, filterFuncs.value);
    var rendered := GenerateOutput(secsFiltered, format);
    var err := if rendered.Some? then writeErr else None;
    return LsOutcome(rendered, err, [GetRuntime, ListSecrets, Shutdown]);
  }

  /**
   * Quiet mode hands the writer the names-only template, one row per kept secret carrying
   * its name, whatever `--format` says; with nothing kept it prints nothing and succeeds.
   */
  lemma QuietListsNames(flags: LsFlags, fetched: seq<AdapterSecret>, out: LsOutcome, writeErr: Option<string>)
    requires flags.quiet && FilterSpec(flags.filter).Ok?
    requires out.calls == [GetRuntime, ListSecrets, Shutdown]
    requires RenderedFrom(Select(fetched, FilterSpec(flags.filter).value), ResolveFormat(flags.format, flags.quiet), out.rendered)
    requires out.err == (if out.rendered.Some? then writeErr else None)
    ensures var kept := Select(fetched, FilterSpec(flags.filter).value);
      if kept == [] then out.rendered.None? && out.err.None?
      else
        && out.rendered.Some? && out.rendered.value.TemplateArray?
        && out.rendered.value.template == QuietFormat
        && |out.rendered.value.rows| == |kept|
        && forall i :: 0 <= i < |kept| ==> out.rendered.value.rows[i].name == kept[i].secret.Name()
  {
    assert QuietFormat != JsonString;
  }
}
