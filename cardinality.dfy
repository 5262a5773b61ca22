/** The two rules FastValidate uses to tell a batch of records from a single
    record. BaseModel looks only at the first value of the payload,
    FormInput asks whether any value is an array; both then hand the
    payload to the same column-length check. */
module Cardinality {
  import opened PhpArray
  import opened Columnar
  import BaseModel
  import FormInput

  /** The first-value rule is the stricter one, and a payload the column
      check accepts is a batch under both rules. */
  lemma RulesOnBatches(input: Entries)
    ensures BaseModel.InputIntendedForMany(input) ==> FormInput.SomeValueIsArray(input)
    ensures ExpectedModels(input).Ok? ==> BaseModel.InputIntendedForMany(input) && FormInput.SomeValueIsArray(input)
  {
  }

  /** Where the rules disagree, FormInput goes on to restructure a payload
      whose first value is not an array, and the column check rejects it. */
  lemma RulesDisagree(input: Entries)
    requires FormInput.SomeValueIsArray(input) && !BaseModel.InputIntendedForMany(input)
    ensures ExpectedModels(input) == Err(ShapeMismatch)
    ensures FormInput.Restructured(input) == Err(ShapeMismatch)
  {
  }

  /** A record with a scalar field followed by a list-valued field: one
      record for BaseModel, a malformed batch for FormInput. */
  lemma RulesDisagreeExample()
    ensures var input := [("name", Scalar("ann")), ("tags", List([Scalar("a"), Scalar("b")]))];
      && !BaseModel.InputIntendedForMany(input)
      && FormInput.SomeValueIsArray(input)
      && FormInput.Restructured(input) == Err(ShapeMismatch)
  {
    var input := [("name", Scalar("ann")), ("tags", List([Scalar("a"), Scalar("b")]))];
    assert IsArray(input[1].1);
  }
}
