/** Columnar batches: a payload that describes N records as parallel
    columns `field => [v0, ..., vN-1]`. BaseModel and FormInput carry
    identical copies of the two steps modelled here, the column-length check
    (countExpectedModels / countExpectedModelsFromInput) and the loop that
    builds row i (inside createMany / restructureForMany). */
module Columnar {
  import opened PhpArray

  /** Why a payload is not a usable batch. PHP's `assert` aborts the request
      on a length mismatch; the model reports it instead. */
  datatype ShapeError =
    | NoColumns      // the payload has no fields at all
    | ShapeMismatch  // a column is not a list, or two columns differ in length

  datatype Result<T> = Ok(value: T) | Err(error: ShapeError)

  /** The assertion made for one pair of columns. */
  predicate PairAgrees(u: Value, v: Value) {
    u.List? && v.List? && |u.items| == |v.items|
  }

  /** Every column is a list of exactly `n` values. */
  predicate IsBatch(input: Entries, n: nat) {
    forall j :: 0 <= j < |input| ==> input[j].1.List? && |input[j].1.items| == n
  }

  /** The number of records a batch describes: the length of its first
      column, provided every column is a list of that length. */
  function ExpectedModels(input: Entries): (r: Result<nat>)
    ensures r.Ok? ==> |input| > 0 && IsBatch(input, r.value)
  {
    if input == [] then Err(NoColumns)
    else if input[0].1.List? && IsBatch(input, |input[0].1.items|) then Ok(|input[0].1.items|)
    else Err(ShapeMismatch)
  }

  /** The count succeeds exactly when every pair of columns agrees, and then
      it is the one length all columns share. */
  lemma ExpectedModelsPairwise(input: Entries)
    ensures ExpectedModels(input).Ok? <==>
      |input| > 0 && forall p, q :: 0 <= p < |input| && 0 <= q < |input| ==> PairAgrees(input[p].1, input[q].1)
    ensures forall n: nat :: |input| > 0 && IsBatch(input, n) ==> ExpectedModels(input) == Ok(n)
  {
  }

  /** countExpectedModels: checks every pair (i, j) with i <= j, as the
      source's nested loops do, then reports the first column's length. */
  method CountExpectedModels(input: Entries) returns (r: Result<nat>)
    ensures r == ExpectedModels(input)
  {
    var n := |input|;
    for i := 0 to n
      invariant forall p, q :: 0 <= p < i && p <= q < n ==> PairAgrees(input[p].1, input[q].1)
    {
      for j := i to n
        invariant forall p, q :: 0 <= p < i && p <= q < n ==> PairAgrees(input[p].1, input[q].1)
        invariant forall q :: i <= q < j ==> PairAgrees(input[i].1, input[q].1)
      {
        if !PairAgrees(input[i].1, input[j].1) {
          assert !(input[0].1.List? && IsBatch(input, |input[0].1.items|)) by {
            if input[0].1.List? && IsBatch(input, |input[0].1.items|) {
              assert PairAgrees(input[i].1, input[j].1);
            }
          }
          return Err(ShapeMismatch);
        }
      }
    }
    if n == 0 {
      return Err(NoColumns);
    }
    assert forall q :: 0 <= q < n ==> PairAgrees(input[0].1, input[q].1);
    r := Ok(|input[0].1.items|);
  }

  /** Every column has a value at index `i`. */
  predicate HasRow(input: Entries, i: nat) {
    forall j :: 0 <= j < |input| ==> input[j].1.List? && i < |input[j].1.items|
  }

  /** Row `i` as the loop `$data[$key] = $val[$i]` builds it, one column
      after the other. */
  function Row(input: Entries, i: nat): Entries
    requires HasRow(input, i)
    decreases |input|
  {
    if input == [] then []
    else
      var last := input[|input| - 1];
      Set(Row(input[..|input| - 1], i), last.0, last.1.items[i])
  }

  /** The inner `foreach` of createMany and restructureForMany. */
  method RowAt(input: Entries, i: nat) returns (data: Entries)
    requires HasRow(input, i)
    ensures data == Row(input, i)
  {
    data := [];
    for j := 0 to |input|
      invariant data == Row(input[..j], i)
    {
      assert input[..j + 1][..j] == input[..j];
      data := Set(data, input[j].0, input[j].1.items[i]);
    }
    assert input[..|input|] == input;
  }

  /** Row `i` has the payload's keys, in the payload's order, and maps each
      key to entry `i` of that key's column. */
  lemma {:induction false} RowShape(input: Entries, i: nat)
    requires HasRow(input, i) && DistinctKeys(input)
    ensures |Row(input, i)| == |input|
    ensures forall j :: 0 <= j < |input| ==> Row(input, i)[j] == (input[j].0, input[j].1.items[i])
    decreases |input|
  {
    if input != [] {
      var n := |input| - 1;
      var init, last := input[..n], input[n];
      assert forall j :: 0 <= j < n ==> init[j] == input[j];
      DistinctInit(input);
      RowShape(init, i);
      var prev := Row(init, i);
      assert Keys(prev) == Keys(init);
      SetFresh(prev, last.0, last.1.items[i]);
      assert Row(input, i) == prev + [(last.0, last.1.items[i])];
    }
  }

  /** All `n` rows of a batch, row `i` holding entry `i` of every column. */
  function Rows(input: Entries, n: nat): seq<Entries>
    requires IsBatch(input, n)
  {
    seq(n, i requires 0 <= i < n => Row(input, i))
  }

  /** The inverse of Rows: column `j` collects the `j`-th value of every row. */
  function ColumnsOf(keys: seq<string>, rows: seq<Entries>): Entries
    requires forall i :: 0 <= i < |rows| ==> |rows[i]| == |keys|
  {
    seq(|keys|, j requires 0 <= j < |keys| =>
      (keys[j], List(seq(|rows|, i requires 0 <= i < |rows| => rows[i][j].1))))
  }

  /** Turning a batch into rows loses nothing: its columns come back from
      the rows unchanged. */
  lemma RowsRoundTrip(input: Entries, n: nat)
    requires IsBatch(input, n) && DistinctKeys(input)
    ensures var rows := Rows(input, n);
      (forall i :: 0 <= i < n ==> |rows[i]| == |input|) && ColumnsOf(Keys(input), rows) == input
  {
    var rows := Rows(input, n);
    forall i | 0 <= i < n
      ensures |rows[i]| == |input|
      ensures forall j :: 0 <= j < |input| ==> rows[i][j] == (input[j].0, input[j].1.items[i])
    {
      RowShape(input, i);
    }
    var back := ColumnsOf(Keys(input), rows);
    forall j | 0 <= j < |input| ensures back[j] == input[j] {
      assert back[j].1.items == input[j].1.items;
    }
  }
}
