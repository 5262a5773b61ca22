/** PHP ordered arrays as the request-binding code sees them: values are
    scalars, lists or string-keyed associative arrays, and an associative
    array is a sequence of entries in insertion order. */
module PhpArray {

  datatype Option<T> = None | Some(value: T)

  /** A request value: a scalar (PHP string), a list (keys 0..n-1) or an
      associative array with string keys. */
  datatype Value =
    | Scalar(text: string)
    | List(items: seq<Value>)
    | Assoc(entries: seq<(string, Value)>)

  /** An ordered PHP array with string keys. */
  type Entries = seq<(string, Value)>

  /** PHP's is_array. */
  predicate IsArray(v: Value) {
    v.List? || v.Assoc?
  }

  function Keys(a: Entries): seq<string> {
    seq(|a|, i requires 0 <= i < |a| => a[i].0)
  }

  /** The invariant every PHP array keeps: no key occurs twice. */
  predicate DistinctKeys(a: Entries) {
    Distinct(Keys(a))
  }

  predicate Distinct(s: seq<string>) {
    forall i, j :: 0 <= i < j < |s| ==> s[i] != s[j]
  }

  /** `$a[$k]`, or None when the key is not set. */
  function Get(a: Entries, k: string): (r: Option<Value>)
    ensures r.Some? <==> k in Keys(a)
  {
    if a == [] then None
    else
      assert Keys(a) == [a[0].0] + Keys(a[1..]);
      if a[0].0 == k then Some(a[0].1) else Get(a[1..], k)
  }

  /** `$a[$k] = $v`: an existing key keeps its position and gets the new
      value, a new key is appended at the end. */
  function Set(a: Entries, k: string, v: Value): Entries
    decreases |a|
  {
    if a == [] then [(k, v)]
    else if a[0].0 == k then [(k, v)] + a[1..]
    else [a[0]] + Set(a[1..], k, v)
  }

  /** After `$a[$k] = $v`, key `k` reads `v` and every other key reads what
      it read before. */
  lemma {:induction false} SetGet(a: Entries, k: string, v: Value, j: string)
    ensures Get(Set(a, k, v), j) == if j == k then Some(v) else Get(a, j)
    decreases |a|
  {
    if a != [] && a[0].0 != k {
      var r := Set(a, k, v);
      assert r == [a[0]] + Set(a[1..], k, v);
      assert r[1..] == Set(a[1..], k, v);
      SetGet(a[1..], k, v, j);
    }
  }

  /** Assignment keeps the key order: a new key goes last. */
  lemma {:induction false} SetKeys(a: Entries, k: string, v: Value)
    ensures Keys(Set(a, k, v)) == if k in Keys(a) then Keys(a) else Keys(a) + [k]
  {
    if a != [] {
      assert Keys(a) == [a[0].0] + Keys(a[1..]);
      var r := Set(a, k, v);
      if a[0].0 == k {
        assert r == [(k, v)] + a[1..];
        assert Keys(r) == [k] + Keys(a[1..]);
      } else {
        var rest := Set(a[1..], k, v);
        assert r == [a[0]] + rest;
        SetKeys(a[1..], k, v);
        assert Keys(r) == [a[0].0] + Keys(rest);
      }
    }
  }

  /** Assignment never makes a key occur twice. */
  lemma SetDistinct(a: Entries, k: string, v: Value)
    requires DistinctKeys(a)
    ensures DistinctKeys(Set(a, k, v))
  {
    SetKeys(a, k, v);
    if k !in Keys(a) {
      DistinctSnoc(a, (k, v));
      assert Keys(a + [(k, v)]) == Keys(a) + [k];
    }
  }

  /** The first value of an array (Laravel's head); None plays PHP's false
      for an empty array. */
  function Head(a: Entries): (r: Option<Value>)
    ensures r.Some? <==> |a| > 0
    ensures r.Some? ==> r.value == a[0].1
  {
    if a == [] then None else Some(a[0].1)
  }

  /** The decimal spelling of a list index, used as the key of a list member. */
  function DecimalKey(n: nat): string
    decreases n
  {
    var digit := ['0' + (n % 10) as char];
    if n < 10 then digit else DecimalKey(n / 10) + digit
  }

  /** The key/value pairs `foreach` visits: a list's members are keyed by
      their index, a scalar has none. */
  function Members(v: Value): (r: Entries)
    ensures v.Assoc? ==> r == v.entries
    ensures v.List? ==> |r| == |v.items| && forall i :: 0 <= i < |r| ==> r[i].1 == v.items[i]
    ensures v.Scalar? ==> r == []
  {
    match v
    case Scalar(_) => []
    case List(items) => seq(|items|, i requires 0 <= i < |items| => (DecimalKey(i), items[i]))
    case Assoc(entries) => entries
  }

  /** `array_merge($a, $b)` for string keys: every entry of `b`, in order,
      is assigned into `a`, so `b` wins on shared keys. */
  function Merge(a: Entries, b: Entries): Entries
    decreases |b|
  {
    if b == [] then a
    else
      var last := b[|b| - 1];
      Set(Merge(a, b[..|b| - 1]), last.0, last.1)
  }

  /** A flat request payload that sends `fields` for one class, each key
      written `<prefix>_field` or `<prefix>.field` as `underscore` says. */
  function Prefixed(prefix: string, fields: Entries, underscore: seq<bool>): Entries
    requires |underscore| == |fields|
  {
    seq(|fields|, i requires 0 <= i < |fields| =>
      (prefix + (if underscore[i] then "_" else ".") + fields[i].0, fields[i].1))
  }

  /** A prefixed payload is the payload of all but the last field followed
      by the last field's key. */
  lemma PrefixedSnoc(prefix: string, fields: Entries, underscore: seq<bool>)
    requires |underscore| == |fields| && fields != []
    ensures var n := |fields| - 1;
      && Prefixed(prefix, fields, underscore)[..n] == Prefixed(prefix, fields[..n], underscore[..n])
      && Prefixed(prefix, fields, underscore)[n] == (prefix + (if underscore[n] then "_" else ".") + fields[n].0, fields[n].1)
  {
  }

  /** A non-empty sequence is its prefix followed by its last element. */
  lemma SplitLast<T>(s: seq<T>)
    requires s != []
    ensures s == s[..|s| - 1] + [s[|s| - 1]]
  {
  }

  /** Looking up in a sequence extended at the end. */
  lemma GetAppend(a: Entries, e: (string, Value), k: string)
    ensures Get(a + [e], k) == if k in Keys(a) then Get(a, k) else if e.0 == k then Some(e.1) else None
  {
    if a != [] {
      assert (a + [e])[1..] == a[1..] + [e];
      assert Keys(a) == [a[0].0] + Keys(a[1..]);
      GetAppend(a[1..], e, k);
    }
  }

  /** Assigning a key that is not set yet appends exactly that entry. */
  lemma {:induction false} SetFresh(a: Entries, k: string, v: Value)
    requires k !in Keys(a)
    ensures Set(a, k, v) == a + [(k, v)]
  {
    if a != [] {
      assert Keys(a) == [a[0].0] + Keys(a[1..]);
      SetFresh(a[1..], k, v);
      assert a == [a[0]] + a[1..];
    }
  }

  /** Dropping the last entry of a PHP array leaves a PHP array that does
      not hold the dropped key. */
  lemma DistinctInit(b: Entries)
    requires DistinctKeys(b) && b != []
    ensures DistinctKeys(b[..|b| - 1])
    ensures Keys(b) == Keys(b[..|b| - 1]) + [b[|b| - 1].0]
    ensures b[|b| - 1].0 !in Keys(b[..|b| - 1])
  {
    var init := b[..|b| - 1];
    assert Keys(b) == Keys(init) + [b[|b| - 1].0];
    assert Keys(init) == Keys(b)[..|b| - 1];
    forall i | 0 <= i < |init| ensures Keys(init)[i] != b[|b| - 1].0 {
      assert Keys(b)[i] != Keys(b)[|b| - 1];
    }
  }

  /** Appending a key that is not set yet keeps the keys distinct. */
  lemma DistinctSnoc(a: Entries, e: (string, Value))
    requires DistinctKeys(a) && e.0 !in Keys(a)
    ensures DistinctKeys(a + [e])
  {
    assert Keys(a + [e]) == Keys(a) + [e.0];
  }

  /** array_merge: a key set in `b` takes `b`'s value, any other key keeps
      `a`'s value. */
  lemma {:induction false} MergeGet(a: Entries, b: Entries, k: string)
    requires DistinctKeys(b)
    ensures Get(Merge(a, b), k) == if k in Keys(b) then Get(b, k) else Get(a, k)
  {
    if b != [] {
      var init, last := b[..|b| - 1], b[|b| - 1];
      assert b == init + [last];
      DistinctInit(b);
      MergeGet(a, init, k);
      GetAppend(init, last, k);
      SetGet(Merge(a, init), last.0, last.1, k);
    }
  }

  /** Merging into an empty array rebuilds the array itself. */
  lemma {:induction false} MergeIntoEmpty(b: Entries)
    requires DistinctKeys(b)
    ensures Merge([], b) == b
  {
    if b != [] {
      var init, last := b[..|b| - 1], b[|b| - 1];
      assert b == init + [last];
      DistinctInit(b);
      MergeIntoEmpty(init);
      SetFresh(init, last.0, last.1);
    }
  }
}
