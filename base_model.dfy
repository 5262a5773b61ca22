/** FastValidate's BaseModel: an Eloquent model that binds request input to
    its attributes. The request is an explicit parameter (the ambient Input
    facade in the source), the rule evaluation of Laravel's validator is an
    abstract function, and persistence is a log of written attribute sets. */
module BaseModel {
  import opened PhpArray
  import opened PhpString
  import opened Columnar

  /** A rule set evaluated on proposed attributes: the names of the failing
      fields, empty when validation passes. */
  type Validator = Entries -> seq<string>

  /** The static part of a BaseModel subclass: its class name, its fillable
      allow-list and its `$rules`, if it declares any. */
  datatype ModelClass = ModelClass(name: string, fillable: seq<string>, rules: Option<Validator>)

  /** Why a bind operation did not persist everything it set out to. */
  datatype Failure =
    | ValidationFailed(errors: seq<string>)  // the ValidationException
    | BadShape(shape: ShapeError)            // a column shape countExpectedModels rejects

  /** What createFromInput hands back. */
  datatype Created = One(record: Record) | Many(records: seq<Record>)

  /** strtolower(class_basename(get_class($this))). */
  function LowerName(cls: ModelClass): string {
    ToLower(ClassBasename(cls.name))
  }

  // ---------------------------------------------------------------------
  // getRelevantInput

  /** The field name getRelevantInput derives from one key: strip every
      occurrence of `<lc>_` when the key starts with it, otherwise every
      occurrence of `<lc>.` when it starts with that; a result that PHP
      calls empty drops the key. */
  function ExtractKey(lc: string, key: string): (r: Option<string>)
    ensures r.Some? ==> (StartsWith(key, lc + "_") || StartsWith(key, lc + ".")) && !PhpEmpty(r.value)
  {
    var newKey :=
      if StartsWith(key, lc + "_") then Replace(key, lc + "_", "")
      else if StartsWith(key, lc + ".") then Replace(key, lc + ".", "")
      else "";
    if PhpEmpty(newKey) then None else Some(newKey)
  }

  /** The array getRelevantInput builds: each entry whose key yields a field
      name is assigned under that name, in input order. */
  function RelevantInput(lc: string, attrs: Entries): Entries
    decreases |attrs|
  {
    if attrs == [] then []
    else
      var last := attrs[|attrs| - 1];
      var acc := RelevantInput(lc, attrs[..|attrs| - 1]);
      match ExtractKey(lc, last.0)
      case Some(k) => Set(acc, k, last.1)
      case None => acc
  }

  /** getRelevantInput: the loop over the merged attributes. */
  method GetRelevantInput(cls: ModelClass, attributes: Entries) returns (input: Entries)
    ensures input == RelevantInput(LowerName(cls), attributes)
  {
    var lc := LowerName(cls);
    input := [];
    for i := 0 to |attributes|
      invariant input == RelevantInput(lc, attributes[..i])
    {
      assert attributes[..i + 1][..i] == attributes[..i];
      var (key, val) := attributes[i];
      var newKey := "";
      if StartsWith(key, lc + "_") {
        newKey := Replace(key, lc + "_", "");
      } else if StartsWith(key, lc + ".") {
        newKey := Replace(key, lc + ".", "");
      }
      if !PhpEmpty(newKey) {
        input := Set(input, newKey, val);
      }
    }
    assert attributes[..|attributes|] == attributes;
  }

  /** One more input entry either assigns its field name or changes nothing. */
  lemma RelevantInputStep(lc: string, attrs: Entries, k: string)
    requires attrs != []
    ensures Get(RelevantInput(lc, attrs), k) ==
      if ExtractKey(lc, attrs[|attrs| - 1].0) == Some(k) then Some(attrs[|attrs| - 1].1)
      else Get(RelevantInput(lc, attrs[..|attrs| - 1]), k)
  {
    var last := attrs[|attrs| - 1];
    if ExtractKey(lc, last.0).Some? {
      SetGet(RelevantInput(lc, attrs[..|attrs| - 1]), ExtractKey(lc, last.0).value, last.1, k);
    }
  }

  /** The position of the last input entry whose key yields field name `k`,
      or -1 when no key yields it. */
  function LastSource(lc: string, attrs: Entries, k: string): (i: int)
    ensures -1 <= i < |attrs|
    ensures i >= 0 ==> ExtractKey(lc, attrs[i].0) == Some(k)
    ensures forall j :: i < j < |attrs| ==> ExtractKey(lc, attrs[j].0) != Some(k)
    decreases |attrs|
  {
    if attrs == [] then -1
    else if ExtractKey(lc, attrs[|attrs| - 1].0) == Some(k) then |attrs| - 1
    else
      var i := LastSource(lc, attrs[..|attrs| - 1], k);
      assert forall j :: i < j < |attrs| - 1 ==> attrs[j] == attrs[..|attrs| - 1][j];
      i
  }

  /** getRelevantInput keeps field name `k` exactly when some input key
      yields it, with the value of the last such key. */
  lemma {:induction false} RelevantInputGet(lc: string, attrs: Entries, k: string)
    ensures var i := LastSource(lc, attrs, k);
      Get(RelevantInput(lc, attrs), k) == if i < 0 then None else Some(attrs[i].1)
    decreases |attrs|
  {
    if attrs != [] {
      var init := attrs[..|attrs| - 1];
      RelevantInputStep(lc, attrs, k);
      RelevantInputGet(lc, init, k);
      var i := LastSource(lc, init, k);
      assert i >= 0 ==> attrs[i] == init[i];
    }
  }

  /** getRelevantInput always returns a proper PHP array. */
  lemma {:induction false} RelevantInputDistinct(lc: string, attrs: Entries)
    ensures DistinctKeys(RelevantInput(lc, attrs))
    decreases |attrs|
  {
    if attrs != [] {
      var last := attrs[|attrs| - 1];
      RelevantInputDistinct(lc, attrs[..|attrs| - 1]);
      if ExtractKey(lc, last.0).Some? {
        SetDistinct(RelevantInput(lc, attrs[..|attrs| - 1]), ExtractKey(lc, last.0).value, last.1);
      }
    }
  }

  /** Every key getRelevantInput returns is a non-empty field name that some
      input key yields. */
  lemma RelevantInputKeys(lc: string, attrs: Entries)
    ensures forall k :: k in Keys(RelevantInput(lc, attrs)) ==> LastSource(lc, attrs, k) >= 0 && !PhpEmpty(k)
  {
    forall k | k in Keys(RelevantInput(lc, attrs)) ensures LastSource(lc, attrs, k) >= 0 && !PhpEmpty(k) {
      RelevantInputGet(lc, attrs, k);
      var i := LastSource(lc, attrs, k);
      assert ExtractKey(lc, attrs[i].0) == Some(k);
    }
  }

  /** A field name that neither holds a class prefix nor reads as empty. */
  predicate PlainField(lc: string, f: string) {
    !PhpEmpty(f) && !Contains(f, lc + "_") && !Contains(f, lc + ".")
  }

  /** `<lc>_f` and `<lc>.f` both name field `f`. */
  lemma ExtractKeyForms(lc: string, f: string)
    requires PlainField(lc, f)
    ensures ExtractKey(lc, lc + "_" + f) == Some(f)
    ensures ExtractKey(lc, lc + "." + f) == Some(f)
  {
    var under, dotted := lc + "_" + f, lc + "." + f;
    assert StartsWith(under, lc + "_") by {
      assert under[..|lc| + 1] == lc + "_";
    }
    ReplaceLeading(lc + "_", f, "");
    ReplaceAbsent(f, lc + "_", "");
    assert Replace(under, lc + "_", "") == f;
    assert !StartsWith(dotted, lc + "_") by {
      assert dotted[|lc|] == '.';
    }
    assert StartsWith(dotted, lc + ".") by {
      assert dotted[..|lc| + 1] == lc + ".";
    }
    ReplaceLeading(lc + ".", f, "");
    ReplaceAbsent(f, lc + ".", "");
    assert Replace(dotted, lc + ".", "") == f;
  }

  /** Whichever prefix form each key uses, extraction recovers exactly the
      fields that were sent. */
  lemma PrefixFormsAgree(lc: string, fields: Entries, underscore: seq<bool>)
    requires |underscore| == |fields|
    requires DistinctKeys(fields)
    requires forall i :: 0 <= i < |fields| ==> PlainField(lc, fields[i].0)
    ensures RelevantInput(lc, Prefixed(lc, fields, underscore)) == fields
  {
    var payload := Prefixed(lc, fields, underscore);
    forall i | 0 <= i < |fields|
      ensures ExtractKey(lc, payload[i].0) == Some(fields[i].0) && payload[i].1 == fields[i].1
    {
      ExtractKeyForms(lc, fields[i].0);
    }
    ExtractsToFields(lc, payload, fields);
  }

  /** When every key of the input extracts to the matching field name, the
      extraction rebuilds those fields. */
  lemma {:induction false} ExtractsToFields(lc: string, payload: Entries, fields: Entries)
    requires |payload| == |fields| && DistinctKeys(fields)
    requires forall i :: 0 <= i < |fields| ==>
      ExtractKey(lc, payload[i].0) == Some(fields[i].0) && payload[i].1 == fields[i].1
    ensures RelevantInput(lc, payload) == fields
    decreases |fields|
  {
    if fields != [] {
      var n := |fields| - 1;
      var pre, init := payload[..n], fields[..n];
      DistinctInit(fields);
      ExtractsPrefix(lc, payload, fields, n);
      ExtractsToFields(lc, pre, init);
      RelevantInputSnoc(lc, payload, fields[n].0);
      SetFresh(init, fields[n].0, fields[n].1);
      SplitLast(fields);
    }
  }

  /** The correspondence between attribute names and fields holds on
      every prefix. */
  lemma ExtractsPrefix(lc: string, payload: Entries, fields: Entries, n: nat)
    requires |payload| == |fields| && n <= |fields|
    requires forall i :: 0 <= i < |fields| ==>
      ExtractKey(lc, payload[i].0) == Some(fields[i].0) && payload[i].1 == fields[i].1
    ensures forall i :: 0 <= i < n ==>
      ExtractKey(lc, payload[..n][i].0) == Some(fields[..n][i].0) && payload[..n][i].1 == fields[..n][i].1
  {
  }

  /** One step of the loop: an attribute whose name yields a field assigns
      that field in what the earlier attributes gave. */
  lemma RelevantInputSnoc(lc: string, attrs: Entries, k: string)
    requires attrs != [] && ExtractKey(lc, attrs[|attrs| - 1].0) == Some(k)
    ensures RelevantInput(lc, attrs) == Set(RelevantInput(lc, attrs[..|attrs| - 1]), k, attrs[|attrs| - 1].1)
  {
  }

  /** str_replace removes every occurrence of the prefix, not only the
      leading one; `user_0` names the field "0", which PHP's `empty` drops;
      matching is case-sensitive. */
  lemma ExtractKeyExamples()
    ensures ExtractKey("user", "user_user_name") == Some("name")
    ensures ExtractKey("user", "user_0") == None
    ensures ExtractKey("user", "User_name") == None
  {
    RepeatedPrefixStripped();
    ZeroFieldDropped();
    CapitalPrefixIgnored();
  }

  lemma RepeatedPrefixStripped()
    ensures ExtractKey("user", "user_user_name") == Some("name")
  {
    assert "user_user_name" == "user_" + ("user_" + "name");
    ReplaceLeading("user_", "user_" + "name", "");
    ReplaceLeading("user_", "name", "");
    FirstCharAbsent("name", "user_");
    ReplaceAbsent("name", "user_", "");
    assert Replace("user_user_name", "user_", "") == "name";
    assert StartsWith("user_user_name", "user_");
  }

  lemma ZeroFieldDropped()
    ensures ExtractKey("user", "user_0") == None
  {
    assert "user_0" == "user_" + "0";
    ReplaceLeading("user_", "0", "");
    FirstCharAbsent("0", "user_");
    ReplaceAbsent("0", "user_", "");
    assert StartsWith("user_0", "user_");
  }

  lemma CapitalPrefixIgnored()
    ensures ExtractKey("user", "User_name") == None
  {
    assert "User_name"[0] != "user_"[0];
    assert !StartsWith("User_name", "user_") && !StartsWith("User_name", "user.");
  }

  /** The columns of the batch test: two first names and two last names. */
  function BatchColumns(): Entries {
    [("first_name", List([Scalar("Johnnie"), Scalar("Tommie")])),
     ("last_name", List([Scalar("Doe"), Scalar("Moe")]))]
  }

  /** The request of the batch test, each column sent as `user.<field>`. */
  function BatchRequest(): Entries {
    [("user.first_name", List([Scalar("Johnnie"), Scalar("Tommie")])),
     ("user.last_name", List([Scalar("Doe"), Scalar("Moe")]))]
  }

  /** Extraction turns the batch request back into its columns. */
  lemma BatchRequestExtracted()
    ensures RelevantInput("user", BatchRequest()) == BatchColumns()
  {
    var fields := BatchColumns();
    assert Keys(fields) == ["first_name", "last_name"];
    NoPrefixIn("first_name", "user");
    NoPrefixIn("last_name", "user");
    assert "user" + "." + "first_name" == "user.first_name";
    assert "user" + "." + "last_name" == "user.last_name";
    assert Prefixed("user", fields, [false, false]) == BatchRequest();
    PrefixFormsAgree("user", fields, [false, false]);
  }

  /** The batch test's request is a batch of two records, and its rows pair
      each first name with the last name at the same position. */
  lemma BatchRequestRows()
    ensures var input := RelevantInput("user", BatchRequest());
      && InputIntendedForMany(input)
      && ExpectedModels(input) == Ok(2)
      && Rows(input, 2) == [[("first_name", Scalar("Johnnie")), ("last_name", Scalar("Doe"))],
                            [("first_name", Scalar("Tommie")), ("last_name", Scalar("Moe"))]]
  {
    BatchRequestExtracted();
    BatchColumnsRows();
  }

  lemma BatchColumnsRows()
    ensures ExpectedModels(BatchColumns()) == Ok(2)
    ensures Rows(BatchColumns(), 2) == [[("first_name", Scalar("Johnnie")), ("last_name", Scalar("Doe"))],
                                        [("first_name", Scalar("Tommie")), ("last_name", Scalar("Moe"))]]
  {
    assert ExpectedModels(BatchColumns()) == Ok(2);
    BatchRow(0, Scalar("Johnnie"), Scalar("Doe"));
    BatchRow(1, Scalar("Tommie"), Scalar("Moe"));
  }

  lemma BatchRow(i: nat, first: Value, last: Value)
    requires i < 2
    requires first == BatchColumns()[0].1.items[i] && last == BatchColumns()[1].1.items[i]
    ensures Row(BatchColumns(), i) == [("first_name", first), ("last_name", last)]
  {
    var fields := BatchColumns();
    assert Keys(fields) == ["first_name", "last_name"];
    RowShape(fields, i);
  }

  /** A field name without the letter `u` holds no `user` prefix. */
  lemma NoPrefixIn(f: string, lc: string)
    requires |lc| > 0 && lc[0] == 'u' && 'u' !in f && f != "" && f != "0"
    ensures PlainField(lc, f)
  {
    FirstCharAbsent(f, lc + "_");
    FirstCharAbsent(f, lc + ".");
  }

  // ---------------------------------------------------------------------
  // populateFromArray and inputIntendedForMany

  /** The entries of `data` whose key is in the allow-list, in order. */
  function FillableOnly(fillable: seq<string>, data: Entries): Entries
    decreases |data|
  {
    if data == [] then []
    else
      var last := data[|data| - 1];
      var rest := FillableOnly(fillable, data[..|data| - 1]);
      if last.0 in fillable then rest + [last] else rest
  }

  /** The attributes after populateFromArray: every allow-listed entry of
      `data` assigned over `attrs`. */
  function Populated(attrs: Entries, fillable: seq<string>, data: Entries): Entries {
    Merge(attrs, FillableOnly(fillable, data))
  }

  lemma {:induction false} FillableOnlyGet(fillable: seq<string>, data: Entries, k: string)
    requires DistinctKeys(data)
    ensures DistinctKeys(FillableOnly(fillable, data))
    ensures Get(FillableOnly(fillable, data), k) == if k in fillable then Get(data, k) else None
    decreases |data|
  {
    if data != [] {
      var init, last := data[..|data| - 1], data[|data| - 1];
      assert data == init + [last];
      DistinctInit(data);
      FillableOnlyGet(fillable, init, k);
      FillableOnlyGet(fillable, init, last.0);
      GetAppend(init, last, k);
      GetAppend(init, last, last.0);
      if last.0 in fillable {
        GetAppend(FillableOnly(fillable, init), last, k);
        DistinctSnoc(FillableOnly(fillable, init), last);
      }
    }
  }

  /** populateFromArray sets attribute `k` to the input's value exactly when
      `k` is allow-listed and present; every other attribute is unchanged. */
  lemma PopulatedGet(attrs: Entries, fillable: seq<string>, data: Entries, k: string)
    requires DistinctKeys(data)
    ensures Get(Populated(attrs, fillable, data), k) ==
      if k in fillable && k in Keys(data) then Get(data, k) else Get(attrs, k)
  {
    FillableOnlyGet(fillable, data, k);
    MergeGet(attrs, FillableOnly(fillable, data), k);
  }

  /** inputIntendedForMany: a batch exactly when the FIRST proposed value is
      an array (head of an empty array is false, which is no array). */
  function InputIntendedForMany(input: Entries): (many: bool)
    ensures many <==> |input| > 0 && IsArray(input[0].1)
  {
    match Head(input)
    case Some(v) => IsArray(v)
    case None => false
  }

  /** The rule evaluation behind validate(): nothing to check without `$rules`. */
  function ValidationErrors(cls: ModelClass, proposed: Entries): (errors: seq<string>)
    ensures cls.rules.None? ==> errors == []
    ensures cls.rules.Some? ==> errors == cls.rules.value(proposed)
  {
    match cls.rules
    case None => []
    case Some(rules) => rules(proposed)
  }

  /** The proposed attributes of a freshly made instance, which is what
      createFromInput and createMany inspect. */
  function RequestInput(cls: ModelClass, request: Entries): Entries {
    RelevantInput(LowerName(cls), Merge([], request))
  }

  // ---------------------------------------------------------------------
  // Records and persistence

  /** The table: every attribute set a successful save wrote, in order. */
  class Database {
    var writes: seq<Entries>

    constructor ()
      ensures writes == []
    {
      writes := [];
    }
  }

  /** One model instance: its attributes and the auto_populate flag. */
  class Record {
    const model: ModelClass
    var attributes: Entries
    var autoPopulate: bool

    constructor (model: ModelClass)
      ensures this.model == model && attributes == [] && !autoPopulate
    {
      this.model := model;
      attributes := [];
      autoPopulate := false;
    }

    /** getProposedAttributes: the request merged over the record's own
        attributes, then cut down to the keys meant for this class. */
    function ProposedAttributes(request: Entries): (proposed: Entries)
      reads this
      ensures DistinctKeys(proposed)
      ensures forall k :: k in Keys(proposed) ==>
        LastSource(LowerName(model), Merge(attributes, request), k) >= 0 && !PhpEmpty(k)
    {
      var lc, merged := LowerName(model), Merge(attributes, request);
      RelevantInputDistinct(lc, merged);
      RelevantInputKeys(lc, merged);
      RelevantInput(lc, merged)
    }

    /** setAttribute. */
    method SetAttribute(key: string, val: Value)
      modifies this`attributes
      ensures attributes == Set(old(attributes), key, val)
    {
      attributes := Set(attributes, key, val);
    }

    /** populateFromArray: assigns the allow-listed entries only. */
    method PopulateFromArray(data: Entries)
      modifies this`attributes
      ensures attributes == Populated(old(attributes), model.fillable, data)
    {
      ghost var start := attributes;
      for i := 0 to |data|
        invariant attributes == Populated(start, model.fillable, data[..i])
      {
        assert data[..i + 1][..i] == data[..i];
        var (key, val) := data[i];
        if key in model.fillable {
          ghost var kept := FillableOnly(model.fillable, data[..i]);
          assert (kept + [data[i]])[..|kept|] == kept;
          attributes := Set(attributes, key, val);
        }
      }
      assert data[..|data|] == data;
    }

    /** save() with the saving hook: validate the proposed attributes first
        (a failure aborts the save), then populate when auto_populate is
        set, then write. */
    method Save(db: Database, request: Entries) returns (failure: Option<Failure>)
      modifies this`attributes, db`writes
      ensures var errors := ValidationErrors(model, old(ProposedAttributes(request)));
        errors != [] ==>
          failure == Some(ValidationFailed(errors)) && attributes == old(attributes) && db.writes == old(db.writes)
      ensures var proposed := old(ProposedAttributes(request));
        ValidationErrors(model, proposed) == [] ==>
          && failure == None
          && attributes == (if autoPopulate then Populated(old(attributes), model.fillable, proposed) else old(attributes))
          && db.writes == old(db.writes) + [attributes]
    {
      var proposed := ProposedAttributes(request);
      var errors := ValidationErrors(model, proposed);
      if errors != [] {
        return Some(ValidationFailed(errors));
      }
      // the hook reads the proposed attributes again; nothing has changed them since validation
      PopulateAndWrite(db, proposed);
      failure := None;
    }

    /** The part of save() after validation passed: the hook's population
        step, then the write itself. */
    method PopulateAndWrite(db: Database, proposed: Entries)
      modifies this`attributes, db`writes
      ensures attributes == (if autoPopulate then Populated(old(attributes), model.fillable, proposed) else old(attributes))
      ensures db.writes == old(db.writes) + [attributes]
    {
      if autoPopulate {
        PopulateFromArray(proposed);
      }
      db.writes := db.writes + [attributes];
    }

    /** saveFromInput: auto_populate is true only around save(). A
        validation failure leaves it true, as there is no `finally`. */
    method SaveFromInput(db: Database, request: Entries) returns (failure: Option<Failure>)
      modifies this`attributes, this`autoPopulate, db`writes
      ensures var proposed := old(ProposedAttributes(request));
        var errors := ValidationErrors(model, proposed);
        if errors != [] then
          && failure == Some(ValidationFailed(errors))
          && autoPopulate
          && attributes == old(attributes) && db.writes == old(db.writes)
        else
          && failure == None
          && !autoPopulate
          && attributes == Populated(old(attributes), model.fillable, proposed)
          && db.writes == old(db.writes) + [attributes]
    {
      autoPopulate := true;
      failure := Save(db, request);
      if failure.Some? {
        return;
      }
      autoPopulate := false;
    }
  }

  // ---------------------------------------------------------------------
  // createFromAttributes, createMany and createFromInput

  /** createFromAttributes: a fresh instance gets every entry of `data`
      through setAttribute, with no allow-list check, and is saved. */
  method CreateFromAttributes(cls: ModelClass, data: Entries, db: Database, request: Entries)
    returns (record: Record, failure: Option<Failure>)
    modifies db`writes
    ensures fresh(record) && record.model == cls && !record.autoPopulate
    ensures var attrs := Merge([], data);
      var errors := ValidationErrors(cls, RelevantInput(LowerName(cls), Merge(attrs, request)));
      record.attributes == attrs
      && if errors != [] then failure == Some(ValidationFailed(errors)) && db.writes == old(db.writes)
         else failure == None && db.writes == old(db.writes) + [attrs]
  {
    record := new Record(cls);
    for i := 0 to |data|
      invariant record.attributes == Merge([], data[..i])
      invariant !record.autoPopulate
      invariant db.writes == old(db.writes)
    {
      assert data[..i + 1][..i] == data[..i];
      record.SetAttribute(data[i].0, data[i].1);
    }
    assert data[..|data|] == data;
    failure := record.Save(db, request);
  }

  /** The validation errors of a fresh record created from `row`: its
      proposed attributes are the request merged over the row. */
  function RowErrors(cls: ModelClass, row: Entries, request: Entries): seq<string> {
    ValidationErrors(cls, RelevantInput(LowerName(cls), Merge(row, request)))
  }

  /** The validation errors of each row, in order. */
  function RowsErrors(cls: ModelClass, rows: seq<Entries>, request: Entries): (errs: seq<seq<string>>)
    ensures |errs| == |rows|
    decreases |rows|
  {
    if rows == [] then []
    else RowsErrors(cls, rows[..|rows| - 1], request) + [RowErrors(cls, rows[|rows| - 1], request)]
  }

  lemma {:induction false} RowsErrorsAt(cls: ModelClass, rows: seq<Entries>, request: Entries, i: nat)
    requires i < |rows|
    ensures RowsErrors(cls, rows, request)[i] == RowErrors(cls, rows[i], request)
    decreases |rows|
  {
    if i < |rows| - 1 {
      RowsErrorsAt(cls, rows[..|rows| - 1], request, i);
    }
  }

  lemma RowsErrorsAll(cls: ModelClass, rows: seq<Entries>, request: Entries)
    ensures forall k :: 0 <= k < |rows| ==> RowsErrors(cls, rows, request)[k] == RowErrors(cls, rows[k], request)
  {
    forall k | 0 <= k < |rows| ensures RowsErrors(cls, rows, request)[k] == RowErrors(cls, rows[k], request) {
      RowsErrorsAt(cls, rows, request, k);
    }
  }

  /** Saving rows in order until one fails validation, given each row's
      errors: how many rows are saved, and the failure of the row that stops
      it, if any. */
  function FirstFailure(errs: seq<seq<string>>): (r: (nat, Option<Failure>))
    ensures r.0 <= |errs|
    decreases |errs|
  {
    if errs == [] then (0, None)
    else if errs[0] != [] then (0, Some(ValidationFailed(errs[0])))
    else
      var rest := FirstFailure(errs[1..]);
      (rest.0 + 1, rest.1)
  }

  /** Every row before the stop passed; the run stops early only at a row
      with errors, and then reports those errors. */
  lemma {:induction false} FirstFailureStops(errs: seq<seq<string>>)
    ensures var (m, failure) := FirstFailure(errs);
      && (forall k :: 0 <= k < m ==> errs[k] == [])
      && (failure == None <==> m == |errs|)
      && (failure != None ==> errs[m] != [] && failure == Some(ValidationFailed(errs[m])))
    decreases |errs|
  {
    if errs != [] && errs[0] == [] {
      FirstFailureStops(errs[1..]);
      var m := FirstFailure(errs).0;
      forall k | 0 <= k < m ensures errs[k] == [] {
        if k > 0 {
          assert errs[k] == errs[1..][k - 1];
        }
      }
    }
  }

  /** A run whose first `i` rows pass and that stops at row `i` (or has no
      more rows) saves exactly `i` rows. */
  lemma {:induction false} FirstFailureAt(errs: seq<seq<string>>, i: nat)
    requires i <= |errs| && forall k :: 0 <= k < i ==> errs[k] == []
    requires i < |errs| ==> errs[i] != []
    ensures FirstFailure(errs) == (i, if i == |errs| then None else Some(ValidationFailed(errs[i])))
    decreases i
  {
    if i > 0 {
      assert forall k :: 0 <= k < i - 1 ==> errs[1..][k] == errs[k + 1];
      FirstFailureAt(errs[1..], i - 1);
    }
  }

  /** What a batch creation leaves behind for the proposed attributes
      `input`: a shape error writes nothing; otherwise the rows are saved in
      order up to the first that fails validation, and only the saved rows
      are written. */
  ghost predicate BatchCreated(cls: ModelClass, input: Entries, request: Entries, records: seq<Record>,
                               failure: Option<Failure>, before: seq<Entries>, after: seq<Entries>)
  {
    match ExpectedModels(input)
    case Err(e) => failure == Some(BadShape(e)) && records == [] && after == before
    case Ok(n) =>
      && IsBatch(input, n)
      && (|records|, failure) == FirstFailure(RowsErrors(cls, Rows(input, n), request))
      && after == before + Rows(input, n)[..|records|]
  }

  /** In a batch creation, every saved row passed validation; creation
      stops early only at a row that fails, and reports that row's errors; a
      batch whose rows all pass saves exactly one record per row. */
  lemma BatchCreatedStops(cls: ModelClass, input: Entries, request: Entries, records: seq<Record>,
                          failure: Option<Failure>, before: seq<Entries>, after: seq<Entries>)
    requires ExpectedModels(input).Ok?
    requires BatchCreated(cls, input, request, records, failure, before, after)
    ensures var n := ExpectedModels(input).value;
      && |records| <= n
      && (forall i :: 0 <= i < |records| ==> RowErrors(cls, Rows(input, n)[i], request) == [])
      && (failure == None <==> |records| == n)
      && (failure != None ==>
            var errors := RowErrors(cls, Rows(input, n)[|records|], request);
            errors != [] && failure == Some(ValidationFailed(errors)))
      && (failure == None ==> after == before + Rows(input, n))
  {
    var n := ExpectedModels(input).value;
    var rows := Rows(input, n);
    FirstFailureStops(RowsErrors(cls, rows, request));
    RowsErrorsAll(cls, rows, request);
    assert rows[..n] == rows;
  }

  lemma AppendAssoc<T>(a: seq<T>, b: seq<T>, c: seq<T>)
    ensures (a + b) + c == a + (b + c)
  {
  }

  /** createMany: reads the proposed attributes of a fresh instance and
      creates one record per row. */
  method CreateMany(cls: ModelClass, db: Database, request: Entries)
    returns (records: seq<Record>, failure: Option<Failure>)
    modifies db`writes
    ensures BatchCreated(cls, RequestInput(cls, request), request, records, failure, old(db.writes), db.writes)
    ensures forall k :: 0 <= k < |records| ==>
      fresh(records[k]) && records[k].model == cls && records[k].attributes == db.writes[|old(db.writes)| + k]
  {
    var probe := new Record(cls);
    var input := probe.ProposedAttributes(request);
    RelevantInputDistinct(LowerName(cls), Merge([], request));
    records, failure := CreateRows(cls, input, db, request);
  }

  /** The counting and zipping loop of createMany over the proposed
      attributes `input`. */
  method CreateRows(cls: ModelClass, input: Entries, db: Database, request: Entries)
    returns (records: seq<Record>, failure: Option<Failure>)
    requires DistinctKeys(input)
    modifies db`writes
    ensures BatchCreated(cls, input, request, records, failure, old(db.writes), db.writes)
    ensures forall k :: 0 <= k < |records| ==>
      fresh(records[k]) && records[k].model == cls && records[k].attributes == db.writes[|old(db.writes)| + k]
  {
    var count := CountExpectedModels(input);
    if count.Err? {
      return [], Some(BadShape(count.error));
    }
    ghost var rows := Rows(input, count.value);
    RowsErrorsAll(cls, rows, request);
    records, failure := SaveRows(cls, input, count.value, rows, RowsErrors(cls, rows, request), db, request);
  }

  /** The loop of createMany once the count is known: row `i` is built and
      created for each `i` below `n`, until one fails validation. */
  method SaveRows(cls: ModelClass, input: Entries, n: nat, ghost rows: seq<Entries>, ghost errs: seq<seq<string>>,
                  db: Database, request: Entries)
    returns (records: seq<Record>, failure: Option<Failure>)
    requires DistinctKeys(input) && IsBatch(input, n) && |rows| == n && |errs| == n
    requires forall k {:trigger Row(input, k)} :: 0 <= k < n ==> rows[k] == Row(input, k)
    requires forall k {:trigger RowErrors(cls, rows[k], request)} :: 0 <= k < n ==> errs[k] == RowErrors(cls, rows[k], request)
    modifies db`writes
    ensures (|records|, failure) == FirstFailure(errs)
    ensures db.writes == old(db.writes) + rows[..|records|]
    ensures forall k :: 0 <= k < |records| ==>
      fresh(records[k]) && records[k].model == cls && records[k].attributes == rows[k]
  {
    records := [];
    for i := 0 to n
      invariant |records| == i
      invariant db.writes == old(db.writes) + rows[..i]
      invariant forall k :: 0 <= k < i ==> errs[k] == []
      invariant forall k :: 0 <= k < i ==>
        fresh(records[k]) && records[k].model == cls && records[k].attributes == rows[k]
    {
      var record, f := CreateRow(cls, input, i, rows[i], db, request);
      if f.Some? {
        FirstFailureAt(errs, i);
        return records, f;
      }
      assert rows[..i + 1] == rows[..i] + [rows[i]];
      AppendAssoc(old(db.writes), rows[..i], [rows[i]]);
      records := records + [record];
    }
    assert rows[..n] == rows;
    FirstFailureAt(errs, n);
    failure := None;
  }

  /** One turn of createMany's loop: builds row `i` and creates a record
      from it. */
  method CreateRow(cls: ModelClass, input: Entries, i: nat, ghost row: seq<(string, Value)>, db: Database, request: Entries)
    returns (record: Record, failure: Option<Failure>)
    requires DistinctKeys(input) && HasRow(input, i) && row == Row(input, i)
    modifies db`writes
    ensures fresh(record) && record.model == cls && record.attributes == row
    ensures var errors := RowErrors(cls, row, request);
      if errors != [] then failure == Some(ValidationFailed(errors)) && db.writes == old(db.writes)
      else failure == None && db.writes == old(db.writes) + [row]
  {
    var data := RowAt(input, i);
    RowShape(input, i);
    assert Keys(data) == Keys(input);
    MergeIntoEmpty(data);
    record, failure := CreateFromAttributes(cls, data, db, request);
  }

  /** createFromInput. Its first branch tests `$attributes`, a variable that
      is never assigned, so it never runs; the decision is the first-value
      rule of inputIntendedForMany. */
  method CreateFromInput(cls: ModelClass, db: Database, request: Entries)
    returns (created: Created, failure: Option<Failure>)
    modifies db`writes
    ensures created.Many? <==> InputIntendedForMany(RequestInput(cls, request))
    ensures created.Many? ==> BatchCreated(cls, RequestInput(cls, request), request, created.records, failure, old(db.writes), db.writes)
    ensures created.Many? ==> forall k :: 0 <= k < |created.records| ==>
      fresh(created.records[k]) && created.records[k].model == cls
      && created.records[k].attributes == db.writes[|old(db.writes)| + k]
    ensures created.One? ==>
      var proposed := RequestInput(cls, request);
      var errors := ValidationErrors(cls, proposed);
      && fresh(created.record)
      && (errors != [] ==> failure == Some(ValidationFailed(errors)) && db.writes == old(db.writes))
      && (errors == [] ==> failure == None && created.record.attributes == Populated([], cls.fillable, proposed)
                           && db.writes == old(db.writes) + [created.record.attributes])
  {
    var probe := new Record(cls);
    if InputIntendedForMany(probe.ProposedAttributes(request)) {
      var records;
      records, failure := CreateMany(cls, db, request);
      return Many(records), failure;
    }
    var record := new Record(cls);
    failure := record.SaveFromInput(db, request);
    created := One(record);
  }
}
