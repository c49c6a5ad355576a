/** The logic of the checks service's request controllers: the uniform error response,
    the validation of a proposed check, and the rows of the CSV export. */
module Controllers {
  import opened Wrappers
  import opened Json
  import opened Strings
  import opened Web

  // ---------------------------------------------------------------------------
  // Error responses
  // ---------------------------------------------------------------------------

  const ContentType := "Content-Type"

  /** Keyword arguments of a call, in the order they were written. */
  type Params = seq<(string, Value)>

  /** The keys that a list of keyword arguments sets. */
  function KeysOf(params: Params): (keys: set<string>)
    ensures forall i :: 0 <= i < |params| ==> params[i].0 in keys
    ensures forall k :: k in keys ==> exists i :: 0 <= i < |params| && params[i].0 == k
    decreases |params|
  {
    if params == [] then {}
    else
      var n := |params| - 1;
      assert forall i :: 0 <= i < n ==> params[..n][i] == params[i];
      KeysOf(params[..n]) + {params[n].0}
  }

  /** The `i`-th argument is the last one that sets its key. */
  predicate LastFor(params: Params, i: nat)
    requires i < |params|
  {
    forall j :: i < j < |params| ==> params[j].0 != params[i].0
  }

  /** `m` after `m[key] = value` for every argument, in order. */
  function Override(m: Object, params: Params): Object
    decreases |params|
  {
    if params == [] then m
    else
      var n := |params| - 1;
      Override(m, params[..n])[params[n].0 := params[n].1]
  }

  /** Overriding adds exactly the keys the arguments name. */
  lemma {:induction false} OverrideKeys(m: Object, params: Params)
    ensures Override(m, params).Keys == m.Keys + KeysOf(params)
    decreases |params|
  {
    if params != [] {
      OverrideKeys(m, params[..|params| - 1]);
    }
  }

  /** The last argument that names a key decides its value. */
  lemma {:induction false} OverrideLast(m: Object, params: Params, i: nat)
    requires i < |params| && LastFor(params, i)
    ensures params[i].0 in Override(m, params) && Override(m, params)[params[i].0] == params[i].1
    decreases |params|
  {
    var n := |params| - 1;
    if i < n {
      var front := params[..n];
      assert front[i] == params[i];
      assert LastFor(front, i) by {
        forall j | i < j < n ensures front[j].0 != front[i].0 {
          assert front[j] == params[j];
        }
      }
      OverrideLast(m, front, i);
    }
  }

  /** A key no argument names keeps its value. */
  lemma {:induction false} OverrideKeeps(m: Object, params: Params, k: string)
    requires k in m && k !in KeysOf(params)
    ensures k in Override(m, params) && Override(m, params)[k] == m[k]
    decreases |params|
  {
    if params != [] {
      OverrideKeeps(m, params[..|params| - 1], k);
    }
  }

  /** The error body before any argument is applied. */
  function Defaults(host: string): Object
  {
    map["error" := Str("Not found"), "code" := Int(404), "host" := Str(host)]
  }

  /** The body `setError` sends: the three default fields, overridden and extended by the arguments. */
  function ErrorBody(host: string, params: Params): (body: Object)
    ensures body.Keys == {"error", "code", "host"} + KeysOf(params)
    ensures "error" !in KeysOf(params) ==> body["error"] == Str("Not found")
    ensures "code" !in KeysOf(params) ==> body["code"] == Int(404)
    ensures "host" !in KeysOf(params) ==> body["host"] == Str(host)
    ensures forall i :: 0 <= i < |params| && LastFor(params, i) ==> body[params[i].0] == params[i].1
  {
    var body := Override(Defaults(host), params);
    OverrideKeys(Defaults(host), params);
    forall i | 0 <= i < |params| && LastFor(params, i) ensures body[params[i].0] == params[i].1 {
      OverrideLast(Defaults(host), params, i);
    }
    forall k | k in Defaults(host) && k !in KeysOf(params) ensures body[k] == Defaults(host)[k] {
      OverrideKeeps(Defaults(host), params, k);
    }
    body
  }

  /** `setError`: marks the response as JSON, sets the status from the DEFAULT code (before
      the arguments are applied, so it is 404 whatever code is passed) and finishes the
      response with the error body. */
  method SetError(handler: Handler, params: Params)
    requires !handler.finished
    modifies handler
    ensures handler.headers == old(handler.headers)[ContentType := "application/json"]
    ensures handler.status == 404
    ensures handler.chunks == old(handler.chunks) + [JsonDoc(ErrorBody(handler.host, params))]
    ensures handler.finished
  {
    handler.headers := handler.headers[ContentType := "application/json"];
    var ret := Defaults(handler.host);
    handler.status := ret["code"].i;
    var i := 0;
    while i < |params|
      invariant 0 <= i <= |params|
      invariant ret == Override(Defaults(handler.host), params[..i])
    {
      assert params[..i + 1][..i] == params[..i];
      ret := ret[params[i].0 := params[i].1];
      i := i + 1;
    }
    assert params[..|params|] == params;
    handler.chunks := handler.chunks + [JsonDoc(ret)];
    handler.finished := true;
  }

  // ---------------------------------------------------------------------------
  // Check validation
  // ---------------------------------------------------------------------------

  const FormulaKey := "formula"
  const DepsKey := "deps"
  /** The author key is spelled the Italian way: a payload with only "author" is rejected. */
  const AuthorKey := "autore"
  const ThresholdKey := "threshold"
  const OperatorKey := "operator"

  const MissingMessages: map<string, string> := map[
    FormulaKey := "Check must have a \"formula\"",
    DepsKey := "Check must have \"deps\" specified",
    AuthorKey := "Check must have an \"author\""
  ]

  /** The six comparison symbols a check may carry. */
  const Operators: set<Value> := {Str("<"), Str(">"), Str("=="), Str("<="), Str(">="), Str("<>")}

  const DefaultThreshold := Float(0.1)
  const DefaultOperator := Str("<=")

  /** The exception raised by the malformed-operator branch, which names an undefined `self`. */
  const NameError := "NameError"

  /** How a call ended: with a returned boolean, or with an exception. */
  datatype Verdict = Returned(ok: bool) | Raised(exception: string)

  /** What `validateCheck` does: how it ends, the caller's dict afterwards, and the keyword
      arguments it passes to `setError`, if it calls it. */
  datatype Validation = Validation(verdict: Verdict, check: Object, error: Option<Params>)

  predicate HasMandatory(check: Object)
  {
    FormulaKey in check && DepsKey in check && AuthorKey in check
  }

  /** The index of the first of `keys` missing from `check`, or `|keys|` if none is. */
  function FirstMissingIndex(check: Object, keys: seq<string>): (k: nat)
    ensures k <= |keys|
    ensures forall j :: 0 <= j < k ==> keys[j] in check
    ensures k < |keys| ==> keys[k] !in check
  {
    if keys == [] then 0
    else if keys[0] !in check then 0
    else 1 + FirstMissingIndex(check, keys[1..])
  }

  /** The arguments `setError` gets for a missing mandatory key. */
  function MissingKeyParams(key: string): Params
    requires key in MissingMessages
  {
    [("error", Str(MissingMessages[key])), ("code", Int(400))]
  }

  /** `validateCheck` as a function of the proposed check. */
  function Validate(check: Object): (r: Validation)
    // the mandatory keys are checked in order; a missing one leaves the dict untouched
    ensures FormulaKey !in check ==>
      r == Validation(Returned(false), check, Some(MissingKeyParams(FormulaKey)))
    ensures FormulaKey in check && DepsKey !in check ==>
      r == Validation(Returned(false), check, Some(MissingKeyParams(DepsKey)))
    ensures FormulaKey in check && DepsKey in check && AuthorKey !in check ==>
      r == Validation(Returned(false), check, Some(MissingKeyParams(AuthorKey)))
    // how it ends
    ensures r.verdict == Returned(true) <==>
      HasMandatory(check) && (OperatorKey in check ==> check[OperatorKey] in Operators)
    ensures r.verdict == Raised(NameError) <==>
      HasMandatory(check) && OperatorKey in check && check[OperatorKey] !in Operators
    ensures r.error.Some? <==> !HasMandatory(check)
    // the dict only gains the two defaults, and no value is ever overwritten
    ensures forall k :: k in check ==> k in r.check && r.check[k] == check[k]
    ensures r.check.Keys <= check.Keys + {ThresholdKey, OperatorKey}
    ensures HasMandatory(check) ==> ThresholdKey in r.check
    ensures HasMandatory(check) && ThresholdKey !in check ==> r.check[ThresholdKey] == DefaultThreshold
    ensures r.verdict == Returned(true) ==> OperatorKey in r.check && r.check[OperatorKey] in Operators
    ensures r.verdict == Returned(true) && OperatorKey !in check ==> r.check[OperatorKey] == DefaultOperator
  {
    if FormulaKey !in check then Validation(Returned(false), check, Some(MissingKeyParams(FormulaKey)))
    else if DepsKey !in check then Validation(Returned(false), check, Some(MissingKeyParams(DepsKey)))
    else if AuthorKey !in check then Validation(Returned(false), check, Some(MissingKeyParams(AuthorKey)))
    else
      var withThreshold := if ThresholdKey in check then check else check[ThresholdKey := DefaultThreshold];
      if OperatorKey !in withThreshold then
        Validation(Returned(true), withThreshold[OperatorKey := DefaultOperator], None)
      else if withThreshold[OperatorKey] in Operators then
        Validation(Returned(true), withThreshold, None)
      else
        Validation(Raised(NameError), withThreshold, None)
  }

  /** `validateCheck`: checks the mandatory keys in order, reporting the first missing one
      through `setError`; then fills in the threshold and operator defaults, writing them
      into the caller's dict (returned here as `checked`). A malformed operator reaches a
      `setError` call that names an undefined variable, so the call raises instead. */
  method ValidateCheck(handler: Handler, check: Object) returns (verdict: Verdict, checked: Object)
    requires !handler.finished
    modifies handler
    ensures verdict == Validate(check).verdict && checked == Validate(check).check
    ensures Validate(check).error.None? ==> unchanged(handler)
    ensures Validate(check).error.Some? ==>
      && handler.headers == old(handler.headers)[ContentType := "application/json"]
      && handler.status == 404
      && handler.chunks == old(handler.chunks) + [JsonDoc(ErrorBody(handler.host, Validate(check).error.value))]
      && handler.finished
  {
    checked := check;
    if FormulaKey !in checked {
      SetError(handler, MissingKeyParams(FormulaKey));
      return Returned(false), checked;
    }
    if DepsKey !in checked {
      SetError(handler, MissingKeyParams(DepsKey));
      return Returned(false), checked;
    }
    if AuthorKey !in checked {
      SetError(handler, MissingKeyParams(AuthorKey));
      return Returned(false), checked;
    }
    if ThresholdKey !in checked {
      checked := checked[ThresholdKey := DefaultThreshold];
    }
    if OperatorKey !in checked {
      checked := checked[OperatorKey := DefaultOperator];
    } else {
      var operator := checked[OperatorKey];
      if operator !in Operators {
        return Raised(NameError), checked;
      }
    }
    return Returned(true), checked;
  }

  /** Validating an accepted check again accepts it and changes nothing. */
  lemma ValidateIdempotent(check: Object)
    requires Validate(check).verdict == Returned(true)
    ensures Validate(Validate(check).check) == Validation(Returned(true), Validate(check).check, None)
  {
  }

  /** A payload that names its author under "author" instead of "autore" is rejected. */
  lemma AuthorKeyIsAutore(formula: Value, deps: Value, author: Value)
    ensures Validate(map[FormulaKey := formula, DepsKey := deps, "author" := author])
      == Validation(Returned(false), map[FormulaKey := formula, DepsKey := deps, "author" := author],
                    Some([("error", Str("Check must have an \"author\"")), ("code", Int(400))]))
  {
  }

  // ---------------------------------------------------------------------------
  // CSV export
  // ---------------------------------------------------------------------------

  const NameKey := "name"
  const GroupKey := "group"

  /** The keys a CSV row reads, in the order it reads them; the first five are its leading fields. */
  const RowKeys: seq<string> := [NameKey, GroupKey, FormulaKey, OperatorKey, ThresholdKey, DepsKey]

  /** Which of the two `';'.join` calls raised. */
  datatype JoinSite = DepsJoin | RowJoin

  /** The exceptions building a row can raise: a missing key, joining something that is not
      iterable, or joining a sequence whose `index`-th item is not a string. */
  datatype RowError = KeyError(key: string) | NotIterable | ItemNotString(site: JoinSite, index: nat)

  /** The index of the first item that is not a string, or `|items|` if all are. */
  function FirstNonString(items: seq<Value>): (k: nat)
    ensures k <= |items|
    ensures forall j :: 0 <= j < k ==> items[j].Str?
    ensures k < |items| ==> !items[k].Str?
  {
    if items == [] then 0
    else if !items[0].Str? then 0
    else 1 + FirstNonString(items[1..])
  }

  /** The strings `';'.join(v)` puts between separators: the characters of a string, the
      items of a list of strings; anything else raises. */
  function JoinParts(v: Value): (r: Result<seq<string>, RowError>)
    ensures v.Str? ==> r.Ok? && |r.value| == |v.s| && forall i :: 0 <= i < |v.s| ==> r.value[i] == [v.s[i]]
    ensures v.List? ==> (r.Ok? <==> forall i :: 0 <= i < |v.items| ==> v.items[i].Str?)
    ensures v.List? && r.Ok? ==> |r.value| == |v.items| && forall i :: 0 <= i < |v.items| ==> v.items[i] == Str(r.value[i])
    ensures v.List? && r.Err? ==>
      exists k :: 0 <= k < |v.items| && r.error == ItemNotString(DepsJoin, k) && !v.items[k].Str?
        && forall j :: 0 <= j < k ==> v.items[j].Str?
    ensures !v.Str? && !v.List? ==> r == Err(NotIterable)
  {
    match v
    case Str(s) => Ok(seq(|s|, i requires 0 <= i < |s| => [s[i]]))
    case List(items) =>
      var k := FirstNonString(items);
      if k < |items| then Err(ItemNotString(DepsJoin, k))
      else Ok(seq(|items|, i requires 0 <= i < |items| => items[i].s))
    case _ => Err(NotIterable)
  }

  /** Every key a row reads is present. */
  predicate HasRowKeys(check: Object)
  {
    NameKey in check && GroupKey in check && FormulaKey in check && OperatorKey in check
    && ThresholdKey in check && DepsKey in check
  }

  /** The row's five leading fields have all been read and are strings. */
  predicate HasStringFields(check: Object)
  {
    forall i :: 0 <= i < 5 ==> RowKeys[i] in check && check[RowKeys[i]].Str?
  }

  /** The five leading fields: name, group, formula, operator, threshold. */
  function Fields(check: Object): (fields: seq<string>)
    requires HasStringFields(check)
    ensures |fields| == 5
    ensures forall i :: 0 <= i < 5 ==> check[RowKeys[i]] == Str(fields[i])
  {
    seq(5, i requires 0 <= i < 5 => check[RowKeys[i]].s)
  }

  /** The row `CsvBulkHandler.get` writes for one check (without its newline), or the
      exception building it raises. */
  function Row(check: Object): (r: Result<string, RowError>)
    ensures forall i :: 0 <= i < |RowKeys| ==>
      (r == Err(KeyError(RowKeys[i])) <==> RowKeys[i] !in check && forall j :: 0 <= j < i ==> RowKeys[j] in check)
    ensures r.Ok? <==>
      DepsKey in check && HasStringFields(check) && JoinParts(check[DepsKey]).Ok?
    ensures HasRowKeys(check) && JoinParts(check[DepsKey]).Err? ==> r == Err(JoinParts(check[DepsKey]).error)
    ensures forall i :: 0 <= i < 5 ==>
      (r == Err(ItemNotString(RowJoin, i)) <==>
        && HasRowKeys(check)
        && JoinParts(check[DepsKey]).Ok?
        && (forall j :: 0 <= j < i ==> check[RowKeys[j]].Str?)
        && !check[RowKeys[i]].Str?)
  {
    var missing := FirstMissingIndex(check, RowKeys);
    if missing < |RowKeys| then Err(KeyError(RowKeys[missing]))
    else
      assert RowKeys[0] in check && RowKeys[1] in check && RowKeys[2] in check;
      assert RowKeys[3] in check && RowKeys[4] in check && RowKeys[5] in check;
      match JoinParts(check[DepsKey])
      case Err(e) => Err(e)
      case Ok(deps) =>
        var items := seq(5, i requires 0 <= i < 5 => check[RowKeys[i]]) + [Str(Join(deps, ';'))];
        assert forall j :: 0 <= j < 5 ==> items[j] == check[RowKeys[j]];
        assert items[5].Str?;
        var k := FirstNonString(items);
        if k < |items| then Err(ItemNotString(RowJoin, k))
        else Ok(Join(Fields(check) + [Join(deps, ';')], ';'))
  }

  /** Splitting a row at ';' gives back the five fields and then the dependencies, provided
      none of them holds a ';' itself; with no dependencies the row ends in ';', so its last
      piece is empty. */
  lemma RowSplit(check: Object)
    requires Row(check).Ok?
    requires forall i :: 0 <= i < 5 ==> ';' !in Fields(check)[i]
    requires forall d :: d in JoinParts(check[DepsKey]).value ==> ';' !in d
    ensures var deps := JoinParts(check[DepsKey]).value;
      Split(Row(check).value, ';') == Fields(check) + (if deps == [] then [""] else deps)
  {
    var deps := JoinParts(check[DepsKey]).value;
    var parts := Fields(check) + [Join(deps, ';')];
    if deps == [] {
      SplitJoin(parts, ';');
    } else {
      JoinFlatten(Fields(check), deps, ';');
      var flat := Fields(check) + deps;
      assert forall i :: 0 <= i < |flat| ==> ';' !in flat[i] by {
        forall i | 0 <= i < |flat| ensures ';' !in flat[i] {
          if i >= 5 { assert flat[i] == deps[i - 5]; }
        }
      }
      SplitJoin(flat, ';');
    }
  }

  /** What the export loop has written when it stops: the rows of the checks before the
      first one whose row raises, and that exception, if there is one. */
  datatype CsvWrite = CsvWrite(rows: seq<string>, failure: Option<RowError>)

  /** The export over `checks`, in listing order: one row per check until a row raises. */
  function CsvOutcome(checks: seq<Object>): (w: CsvWrite)
    ensures |w.rows| <= |checks|
    ensures forall j :: 0 <= j < |w.rows| ==> Row(checks[j]) == Ok(w.rows[j])
    ensures w.failure.None? <==> |w.rows| == |checks|
    ensures w.failure.Some? ==> Row(checks[|w.rows|]) == Err(w.failure.value)
  {
    if checks == [] then CsvWrite([], None)
    else
      var first := Row(checks[0]);
      if first.Err? then CsvWrite([], Some(first.error))
      else
        var rest := CsvOutcome(checks[1..]);
        assert forall j :: 0 <= j < |rest.rows| ==> checks[1..][j] == checks[j + 1];
        assert |rest.rows| < |checks| - 1 ==> checks[1..][|rest.rows|] == checks[|rest.rows| + 1];
        CsvWrite([first.value] + rest.rows, rest.failure)
  }

  /** The chunks written for some rows: each row, then a newline. */
  function RowChunks(rows: seq<string>): (chunks: seq<Chunk>)
    ensures |chunks| == 2 * |rows|
    ensures forall i :: 0 <= i < |chunks| ==> chunks[i].Text?
  {
    if rows == [] then [] else [Text(rows[0]), Text("\n")] + RowChunks(rows[1..])
  }

  /** Writing one more row appends that row's text and then a newline, so the chunks are
      each row followed by its newline, in order. */
  lemma {:induction false} RowChunksSnoc(rows: seq<string>, row: string)
    ensures RowChunks(rows + [row]) == RowChunks(rows) + [Text(row), Text("\n")]
  {
    if rows == [] {
      assert rows + [row] == [row];
    } else {
      RowChunksSnoc(rows[1..], row);
      assert (rows + [row])[1..] == rows[1..] + [row];
    }
  }

  /** The loop's rows agree with `CsvOutcome` once it has met the end or a row that raises. */
  lemma {:induction false} CsvOutcomeFromPrefix(checks: seq<Object>, rows: seq<string>)
    requires |rows| <= |checks|
    requires forall j :: 0 <= j < |rows| ==> Row(checks[j]) == Ok(rows[j])
    requires |rows| < |checks| ==> Row(checks[|rows|]).Err?
    ensures CsvOutcome(checks).rows == rows
  {
    if rows != [] {
      assert Row(checks[0]) == Ok(rows[0]);
      CsvOutcomeFromPrefix(checks[1..], rows[1..]);
      assert rows == [rows[0]] + rows[1..];
    }
  }

  /** `CsvBulkHandler.get` after the checks are fetched: writes each check's row and a
      newline, in listing order, then finishes. A row that raises stops the loop with the
      rows before it written and the response unfinished. */
  method CsvGet(handler: Handler, checks: seq<Object>) returns (failure: Option<RowError>)
    requires !handler.finished
    modifies handler
    ensures failure == CsvOutcome(checks).failure
    ensures handler.chunks == old(handler.chunks) + RowChunks(CsvOutcome(checks).rows)
    ensures handler.finished == failure.None?
    ensures handler.status == old(handler.status) && handler.headers == old(handler.headers)
  {
    var i := 0;
    ghost var rows: seq<string> := [];
    while i < |checks|
      invariant 0 <= i <= |checks| && |rows| == i
      invariant forall j :: 0 <= j < i ==> Row(checks[j]) == Ok(rows[j])
      invariant handler.chunks == old(handler.chunks) + RowChunks(rows)
      invariant !handler.finished
      invariant handler.status == old(handler.status) && handler.headers == old(handler.headers)
    {
      var row := Row(checks[i]);
      if row.Err? {
        CsvOutcomeFromPrefix(checks, rows);
        return Some(row.error);
      }
      ghost var before := handler.chunks;
      handler.chunks := handler.chunks + [Text(row.value)];
      handler.chunks := handler.chunks + [Text("\n")];
      assert handler.chunks == before + [Text(row.value), Text("\n")];
      RowChunksSnoc(rows, row.value);
      rows := rows + [row.value];
      i := i + 1;
    }
    CsvOutcomeFromPrefix(checks, rows);
    handler.finished := true;
    return None;
  }

  /** The exported text splits into its rows, one per line, with an empty piece after the
      final newline, provided no row holds a newline itself. */
  lemma {:induction false} CsvLines(rows: seq<string>)
    requires forall i :: 0 <= i < |rows| ==> '\n' !in rows[i]
    ensures Split(Texts(RowChunks(rows)), '\n') == rows + [""]
  {
    if rows != [] {
      var rest := RowChunks(rows[1..]);
      CsvLines(rows[1..]);
      assert RowChunks(rows)[1..] == [Text("\n")] + rest;
      assert ([Text("\n")] + rest)[1..] == rest;
      assert Texts([Text("\n")] + rest) == "\n" + Texts(rest);
      assert Texts(RowChunks(rows)) == rows[0] + ("\n" + Texts(rest));
      assert ("\n" + Texts(rest))[1..] == Texts(rest);
      assert Split("\n" + Texts(rest), '\n') == [""] + rows[1..] + [""];
      SplitAppend(rows[0], "\n" + Texts(rest), '\n');
      assert rows[0] + "" == rows[0];
      assert rows == [rows[0]] + rows[1..];
    }
  }

  /** A check whose threshold was filled in by validation carries a float there, and the
      export's row join raises on that field (item 4) once the stored check has its name
      and group. */
  lemma DefaultThresholdBreaksRow(check: Object, name: string, group: string)
    requires Validate(check).verdict == Returned(true) && ThresholdKey !in check
    requires check[FormulaKey].Str? && JoinParts(check[DepsKey]).Ok?
    ensures Row(Validate(check).check[NameKey := Str(name)][GroupKey := Str(group)])
      == Err(ItemNotString(RowJoin, 4))
  {
  }
}
