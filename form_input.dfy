/** FastValidate's FormInput: reads the request for one class by turning
    `<class>_field` keys into dotted paths, nesting them with Laravel's
    array_set, taking the subtree under the class name and, when that
    subtree holds an array, turning its columns into rows. The request is an
    explicit parameter (the Input facade in the source). */
module FormInput {
  import opened PhpArray
  import opened PhpString
  import opened Columnar

  /** The key with every `<class>_` replaced by `<class>.`; the class name
      is used as given, not lower-cased. */
  function Rewrite(cls: string, key: string): string {
    Replace(key, cls + "_", cls + ".")
  }

  /** The position of the first dot of a path. */
  function FirstDot(s: string): (i: nat)
    requires '.' in s
    ensures i < |s| && s[i] == '.' && '.' !in s[..i]
  {
    if s[0] == '.' then 0
    else
      var i := FirstDot(s[1..]);
      assert s[..i + 1] == [s[0]] + s[1..][..i];
      1 + i
  }

  /** What an existing slot holds for array_set to descend into: its
      members when it is an array, nothing when it is missing or a scalar. */
  function MembersOr(slot: Option<Value>): Entries {
    match slot
    case Some(v) => Members(v)
    case None => []
  }

  /** array_set($a, $path, $v): walks the dot-separated path, replacing a
      missing or non-array step by an empty array, and assigns at the end. */
  function SetPath(a: Entries, path: string, v: Value): Entries
    decreases |path|
  {
    if '.' in path then
      var i := FirstDot(path);
      var head := path[..i];
      Set(a, head, Assoc(SetPath(MembersOr(Get(a, head)), path[i + 1..], v)))
    else
      Set(a, path, v)
  }

  /** The nested array getInputForClass builds, one request entry at a time. */
  function Nested(cls: string, request: Entries): Entries
    decreases |request|
  {
    if request == [] then []
    else
      var last := request[|request| - 1];
      SetPath(Nested(cls, request[..|request| - 1]), Rewrite(cls, last.0), last.1)
  }

  /** array_get($input, $class, []) on the nested array. */
  function Subtree(cls: string, request: Entries): Value {
    match Get(Nested(cls, request), cls)
    case Some(v) => v
    case None => Assoc([])
  }

  /** The slot under the class name, described entry by entry: a key that
      rewrites to the class name replaces it, a key that rewrites to
      `<class>.rest` is set at `rest` inside it, and every other key leaves
      it alone. */
  function ClassSlot(cls: string, request: Entries): Option<Value>
    decreases |request|
  {
    if request == [] then None
    else
      var last := request[|request| - 1];
      var prev := ClassSlot(cls, request[..|request| - 1]);
      var key := Rewrite(cls, last.0);
      if key == cls then Some(last.1)
      else if StartsWith(key, cls + ".") then Some(Assoc(SetPath(MembersOr(prev), key[|cls| + 1..], last.1)))
      else prev
  }

  /** array_set touches the class's slot only through a path that is the
      class name or starts with `<class>.`. */
  lemma SetPathSlot(a: Entries, path: string, v: Value, cls: string)
    requires '.' !in cls
    ensures Get(SetPath(a, path, v), cls) ==
      if path == cls then Some(v)
      else if StartsWith(path, cls + ".") then Some(Assoc(SetPath(MembersOr(Get(a, cls)), path[|cls| + 1..], v)))
      else Get(a, cls)
  {
    if '.' in path {
      if StartsWith(path, cls + ".") {
        PathIntoSlot(a, path, v, cls);
      } else {
        PathBesideSlot(a, path, v, cls);
      }
    } else {
      SetGet(a, path, v, cls);
      PrefixedPathHasDot(path, cls);
    }
  }

  /** A dotted path under the class sets inside the class's slot. */
  lemma PathIntoSlot(a: Entries, path: string, v: Value, cls: string)
    requires '.' !in cls && '.' in path && StartsWith(path, cls + ".")
    ensures path != cls
    ensures Get(SetPath(a, path, v), cls) == Some(Assoc(SetPath(MembersOr(Get(a, cls)), path[|cls| + 1..], v)))
  {
    var i := FirstDot(path);
    FirstSegment(path, cls);
    assert path[..i] == cls && i == |cls|;
    var inner := Assoc(SetPath(MembersOr(Get(a, cls)), path[|cls| + 1..], v));
    assert SetPath(a, path, v) == Set(a, cls, inner);
    SetGet(a, cls, inner, cls);
  }

  /** A dotted path whose first segment is another key leaves the class's
      slot alone. */
  lemma PathBesideSlot(a: Entries, path: string, v: Value, cls: string)
    requires '.' !in cls && '.' in path && !StartsWith(path, cls + ".")
    ensures path != cls
    ensures Get(SetPath(a, path, v), cls) == Get(a, cls)
  {
    var i := FirstDot(path);
    var head := path[..i];
    FirstSegment(path, cls);
    var inner := Assoc(SetPath(MembersOr(Get(a, head)), path[i + 1..], v));
    assert SetPath(a, path, v) == Set(a, head, inner);
    SetGet(a, head, inner, cls);
  }

  /** For a class name without dots, a dotted path starts with `<class>.`
      exactly when its first segment is the class name. */
  lemma FirstSegment(path: string, cls: string)
    requires '.' !in cls && '.' in path
    ensures var i := FirstDot(path);
      path != cls && (StartsWith(path, cls + ".") <==> path[..i] == cls)
  {
    var i := FirstDot(path);
    if StartsWith(path, cls + ".") {
      assert path[|cls|] == '.';
      assert forall k :: 0 <= k < |cls| ==> path[k] == cls[k];
      assert path[..i] == cls;
    }
    assert path[..i] == cls ==> path[..|cls| + 1] == cls + ".";
  }

  lemma PrefixedPathHasDot(path: string, cls: string)
    ensures StartsWith(path, cls + ".") ==> '.' in path
  {
    if StartsWith(path, cls + ".") {
      assert path[|cls|] == '.';
    }
  }

  /** The subtree getInputForClass returns is exactly the slot that
      ClassSlot describes. */
  lemma {:induction false} NestedSlot(cls: string, request: Entries)
    requires '.' !in cls
    ensures Get(Nested(cls, request), cls) == ClassSlot(cls, request)
    decreases |request|
  {
    if request != [] {
      var last := request[|request| - 1];
      NestedSlot(cls, request[..|request| - 1]);
      SetPathSlot(Nested(cls, request[..|request| - 1]), Rewrite(cls, last.0), last.1, cls);
    }
  }

  /** The request entries whose rewritten key is the class name or starts
      with `<class>.`. */
  function ClassEntries(cls: string, request: Entries): Entries
    decreases |request|
  {
    if request == [] then []
    else
      var last := request[|request| - 1];
      var rest := ClassEntries(cls, request[..|request| - 1]);
      var key := Rewrite(cls, last.0);
      if key == cls || StartsWith(key, cls + ".") then rest + [last] else rest
  }

  /** Keys meant for other classes contribute nothing: the subtree read
      from the whole request equals the one read from the class's own keys. */
  lemma {:induction false} OnlyClassKeysMatter(cls: string, request: Entries)
    requires '.' !in cls
    ensures Subtree(cls, request) == Subtree(cls, ClassEntries(cls, request))
  {
    NestedSlot(cls, request);
    NestedSlot(cls, ClassEntries(cls, request));
    ClassSlotFiltered(cls, request);
  }

  lemma {:induction false} ClassSlotFiltered(cls: string, request: Entries)
    ensures ClassSlot(cls, request) == ClassSlot(cls, ClassEntries(cls, request))
    decreases |request|
  {
    if request != [] {
      var init, last := request[..|request| - 1], request[|request| - 1];
      ClassSlotFiltered(cls, init);
      var rest := ClassEntries(cls, init);
      var key := Rewrite(cls, last.0);
      if key == cls || StartsWith(key, cls + ".") {
        assert (rest + [last])[..|rest|] == rest;
      }
    }
  }

  /** A field name that can follow the class prefix: no dot (array_set
      would nest it further) and no `<class>_` inside (str_replace would
      rewrite it too). */
  predicate DotlessField(cls: string, f: string) {
    '.' !in f && !Contains(f, cls + "_")
  }

  /** Both prefix forms of a plain field rewrite to the same dotted path. */
  lemma RewriteForms(cls: string, f: string)
    requires '.' !in cls && DotlessField(cls, f)
    ensures Rewrite(cls, cls + "_" + f) == cls + "." + f
    ensures Rewrite(cls, cls + "." + f) == cls + "." + f
  {
    ReplaceLeading(cls + "_", f, cls + ".");
    ReplaceAbsent(f, cls + "_", cls + ".");
    DotJoinAvoids(cls, f);
    ReplaceAbsent(cls + "." + f, cls + "_", cls + ".");
  }

  /** A flat payload of plain fields, written with either prefix key by
      key, yields exactly those fields as the class's subtree. */
  lemma FlatPayloadSubtree(cls: string, fields: Entries, underscore: seq<bool>)
    requires '.' !in cls && |underscore| == |fields| && DistinctKeys(fields)
    requires forall i :: 0 <= i < |fields| ==> DotlessField(cls, fields[i].0)
    ensures Subtree(cls, Prefixed(cls, fields, underscore)) == Assoc(fields)
  {
    NestedSlot(cls, Prefixed(cls, fields, underscore));
    FlatPayloadSlot(cls, fields, underscore);
  }

  lemma {:induction false} FlatPayloadSlot(cls: string, fields: Entries, underscore: seq<bool>)
    requires '.' !in cls && |underscore| == |fields| && DistinctKeys(fields)
    requires forall i :: 0 <= i < |fields| ==> DotlessField(cls, fields[i].0)
    ensures ClassSlot(cls, Prefixed(cls, fields, underscore)) == if fields == [] then None else Some(Assoc(fields))
    decreases |fields|
  {
    if fields != [] {
      var n := |fields| - 1;
      var payload := Prefixed(cls, fields, underscore);
      PrefixedSnoc(cls, fields, underscore);
      DistinctInit(fields);
      FlatPayloadSlot(cls, fields[..n], underscore[..n]);
      var f := fields[n].0;
      RewriteForms(cls, f);
      var key := cls + "." + f;
      assert Rewrite(cls, payload[n].0) == key;
      assert key != cls && StartsWith(key, cls + ".") && key[|cls| + 1..] == f;
      SetFresh(fields[..n], f, fields[n].1);
      assert fields == fields[..n] + [fields[n]];
    }
  }

  /** The FormInput rule: a batch when SOME value of the subtree is an array. */
  predicate SomeValueIsArray(a: Entries) {
    exists i :: 0 <= i < |a| && IsArray(a[i].1)
  }

  /** inputIntendedForMany: scans the subtree and stops at the first array. */
  method InputIntendedForMany(input: Value) returns (many: bool)
    ensures many <==> SomeValueIsArray(Members(input))
  {
    var members := Members(input);
    for i := 0 to |members|
      invariant forall j :: 0 <= j < i ==> !IsArray(members[j].1)
    {
      if IsArray(members[i].1) {
        return true;
      }
    }
    return false;
  }

  /** restructureForMany's result: the list of rows, row `i` an associative
      array of every column's entry `i`. */
  function Restructured(input: Entries): Result<Value> {
    match ExpectedModels(input)
    case Err(e) => Err(e)
    case Ok(n) => Ok(List(seq(n, i requires 0 <= i < n => Assoc(Row(input, i)))))
  }

  /** restructureForMany: counts the rows, then builds them one by one. */
  method RestructureForMany(input: Value) returns (r: Result<Value>)
    ensures r == Restructured(Members(input))
  {
    var members := Members(input);
    var count := CountExpectedModels(members);
    if count.Err? {
      return Err(count.error);
    }
    var n := count.value;
    var result: seq<Value> := [];
    for i := 0 to n
      invariant |result| == i
      invariant forall k :: 0 <= k < i ==> result[k] == Assoc(Row(members, k))
    {
      var data := RowAt(members, i);
      result := result + [Assoc(data)];
    }
    assert result == seq(n, i requires 0 <= i < n => Assoc(Row(members, i)));
    r := Ok(List(result));
  }

  /** restructureForMany yields one row per column entry, and every row has
      exactly the subtree's keys, in the subtree's order, with value `i` of
      each column. */
  lemma RestructuredShape(input: Entries)
    requires DistinctKeys(input)
    ensures match Restructured(input)
      case Err(_) => true
      case Ok(v) =>
        && v.List? && |input| > 0 && IsBatch(input, |v.items|)
        && forall i :: 0 <= i < |v.items| ==>
             && v.items[i].Assoc?
             && Keys(v.items[i].entries) == Keys(input)
             && forall j :: 0 <= j < |input| ==> v.items[i].entries[j].1 == input[j].1.items[i]
  {
    if ExpectedModels(input).Ok? {
      var n := ExpectedModels(input).value;
      forall i | 0 <= i < n
        ensures Keys(Row(input, i)) == Keys(input)
        ensures forall j :: 0 <= j < |input| ==> Row(input, i)[j].1 == input[j].1.items[i]
      {
        RowShape(input, i);
      }
    }
  }

  /** getInputForClass: nest the rewritten keys, take the class's subtree,
      and hand it back as it is unless some value in it is an array. */
  method GetInputForClass(cls: string, request: Entries) returns (r: Result<Value>)
    ensures var sub := Subtree(cls, request);
      r == if SomeValueIsArray(Members(sub)) then Restructured(Members(sub)) else Ok(sub)
  {
    var input: Entries := [];
    for i := 0 to |request|
      invariant input == Nested(cls, request[..i])
    {
      assert request[..i + 1][..i] == request[..i];
      var (key, val) := request[i];
      var newKey := Replace(key, cls + "_", cls + ".");
      input := SetPath(input, newKey, val);
    }
    assert request[..|request|] == request;
    var result := match Get(input, cls) case Some(v) => v case None => Assoc([]);
    var many := InputIntendedForMany(result);
    if many {
      r := RestructureForMany(result);
    } else {
      r := Ok(result);
    }
  }
}
