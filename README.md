# FastValidate request binding, modelled in Dafny

FastValidate is a Laravel package. Its `BaseModel` (an Eloquent model) and its `FormInput` helper bind flat request input to model attributes. Keys such as `user_first_name` or `user.first_name` name the field `first_name` of class `User`. A request whose fields carry parallel arrays of values describes several records at once, one per position.

This project models the request-binding core of both files:

- **Key extraction in `BaseModel`**, module `BaseModel`:
  - a prefix test, then an all-occurrence `str_replace`, then PHP's `empty` test;
  - the `fillable` allow-list applied by `populateFromArray`;
  - the `auto_populate` flag around `save()`;
  - the dispatch between one record and many, and batch creation.
- **Key extraction in `FormInput`**, module `FormInput`:
  - each `<class>_` in a key is rewritten to `<class>.`;
  - the value is inserted at the dotted path, Laravel's `array_set`;
  - the subtree under the class is read back;
  - that subtree is restructured into rows.
- **Shared batch logic**, module `Columnar`. Both files carry identical copies of it:
  - the column-length check;
  - the loop that builds row `i`.
- **A comparison of the two many-detection rules**, module `Cardinality`:
  - BaseModel looks only at the first value;
  - FormInput looks at any value.

PHP ordered arrays are sequences of `(key, value)` pairs in insertion order (module `PhpArray`):

- assignment replaces a key's value in place, or appends a new key at the end;
- `array_merge` assigns every entry of its second argument, in order;
- a value is a scalar, a list, or an associative array.

The string helpers live in module `PhpString`. They model `starts_with`, all-occurrence `str_replace`, ASCII `strtolower`, `class_basename` and `empty` on strings.

What the model replaces:

- **The request.** The ambient `Input` facade becomes an explicit `request: Entries` parameter.
- **Laravel's validator.** It becomes an abstract function from proposed attributes to the list of failing fields. A class without `$rules` validates nothing.
- **Persistence.** It is a `Database` object whose `writes` log records every attribute set a successful `save()` stored, in order.
- **The column check's outcome.** It becomes an error result. The model is stricter than PHP here; "## Left out" gives the cases:
  - `NoColumns` for an empty payload;
  - `ShapeMismatch` for a column that is not a list, or two columns of different lengths.
- **A `ValidationException`.** It becomes the `ValidationFailed` failure value. The operation that meets it stops at that point, as the exception would stop it.

## Model

| member | source | states |
|---|---|---|
| PhpArray.Get | src/FastValidate/Input/FormInput.php:15 | a lookup finds a value exactly when the key is set |
| PhpArray.SetGet | src/FastValidate/BaseModel.php:145 | after `$a[$k] = $v`, `k` reads `v` and every other key reads what it read before |
| PhpArray.SetKeys | src/FastValidate/BaseModel.php:145 | assignment keeps the key order: an existing key stays in place and a new key goes last |
| PhpArray.SetDistinct | src/FastValidate/BaseModel.php:145 | assignment into a PHP array never makes a key occur twice |
| PhpArray.SetFresh | src/FastValidate/BaseModel.php:59 | assigning a key that is not yet set appends exactly that entry |
| PhpArray.Head | src/FastValidate/BaseModel.php:47 | `head` yields a value exactly for a non-empty array, and that value is the first one |
| PhpArray.Members | src/FastValidate/Input/FormInput.php:24 | `foreach` visits an associative array's own entries, a list's items in order, and nothing for a scalar |
| PhpArray.MergeGet | src/FastValidate/BaseModel.php:129 | `array_merge`: a key set in the second array takes that array's value; any other key keeps the first array's value |
| PhpArray.MergeIntoEmpty | src/FastValidate/BaseModel.php:69-71 | assigning every entry of a PHP array into an empty one rebuilds the same array |
| PhpString.ToLowerChars | src/FastValidate/BaseModel.php:136 | `strtolower` keeps the length, changes exactly the ASCII upper-case letters, and maps each to its lower-case counterpart (code point plus 32) |
| PhpString.ClassBasenameSuffix | src/FastValidate/BaseModel.php:136 | `class_basename` is the whole part after the last backslash: a suffix with no backslash, preceded by a backslash unless it is the whole name |
| PhpString.ReplaceAbsent | src/FastValidate/BaseModel.php:140 | `str_replace` on a subject without the search string returns the subject unchanged |
| PhpString.ReplaceLeading | src/FastValidate/BaseModel.php:140 | a leading occurrence is replaced and the scan resumes right after it |
| PhpString.DotJoinAvoids | src/FastValidate/Input/FormInput.php:12 | for a class name without dots, `<class>_` cannot occur in `<class>.f` unless it occurs in `f` |
| Columnar.ExpectedModels | src/FastValidate/BaseModel.php:76-84 | a count is reported only for a non-empty payload whose every column is a list of exactly that length |
| Columnar.ExpectedModelsPairwise | src/FastValidate/BaseModel.php:76-84 | the count succeeds if and only if every pair of columns agrees; it is then the one length all columns share |
| Columnar.CountExpectedModels | src/FastValidate/Input/FormInput.php:45-53 | the nested loop over pairs `i <= j` returns exactly the count ExpectedModels defines, error cases included |
| Columnar.RowAt | src/FastValidate/BaseModel.php:57-60 | the inner `foreach` builds row `i` as ExpectedModels' batch defines it |
| Columnar.RowShape | src/FastValidate/BaseModel.php:57-60 | row `i` has the payload's keys, in the payload's order, each mapped to entry `i` of its column |
| Columnar.RowsRoundTrip | src/FastValidate/BaseModel.php:56-62 | rebuilding columns from the rows gives back the payload, so the transposition loses nothing |
| BaseModel.ExtractKey | src/FastValidate/BaseModel.php:138-146 | a field name is produced only for a key that starts with `<lc>_` or `<lc>.`, and never a name PHP's `empty` rejects |
| BaseModel.GetRelevantInput | src/FastValidate/BaseModel.php:133-149 | the loop computes the extraction for the lower-cased class basename |
| BaseModel.LastSource | src/FastValidate/BaseModel.php:137-147 | names the last input entry whose key yields a given field name, or no entry when none does |
| BaseModel.RelevantInputGet | src/FastValidate/BaseModel.php:137-147 | field `k` is in the result exactly when some key yields it, and its value is that of the last such key |
| BaseModel.RelevantInputDistinct | src/FastValidate/BaseModel.php:133-149 | the extracted array never holds a field name twice |
| BaseModel.RelevantInputKeys | src/FastValidate/BaseModel.php:133-149 | every returned key is a non-empty field name that some input key yields |
| BaseModel.ExtractKeyForms | src/FastValidate/BaseModel.php:139-143 | for a plain field `f`, both `<lc>_f` and `<lc>.f` yield `f` |
| BaseModel.PrefixFormsAgree | src/FastValidate/BaseModel.php:133-149 | fields sent with any mix of the two prefix forms are extracted exactly as sent, in order |
| BaseModel.ExtractsToFields | src/FastValidate/BaseModel.php:133-149 | input whose keys yield distinct field names one by one is extracted to exactly those fields with their values, in input order |
| BaseModel.ExtractKeyExamples | src/FastValidate/BaseModel.php:139-146 | `user_user_name` yields `name` because every occurrence is stripped; `user_0` is dropped as empty; `User_name` is dropped because matching is case-sensitive |
| BaseModel.BatchRequestExtracted | tests/unit/FastValidateTest.php:91-98 | the batch test's `user.` keys extract to the `first_name` and `last_name` columns |
| BaseModel.BatchRequestRows | tests/unit/FastValidateTest.php:91-98 | that request is a batch of two records: (Johnnie, Doe) and (Tommie, Moe) |
| BaseModel.FillableOnlyGet | src/FastValidate/BaseModel.php:106-113 | the allow-listed part of the input holds key `k` exactly when `k` is fillable and present in the input |
| BaseModel.PopulatedGet | src/FastValidate/BaseModel.php:106-113 | after population, attribute `k` has the input's value exactly when `k` is fillable and present; every other attribute is unchanged |
| BaseModel.InputIntendedForMany | src/FastValidate/BaseModel.php:43-48 | a batch exactly when the first proposed value is an array; never for empty input |
| BaseModel.ValidationErrors | src/FastValidate/BaseModel.php:115-124 | `validate()` checks nothing for a class without `$rules`; otherwise the errors are the rule set's verdict on the proposed attributes |
| BaseModel.Record.ProposedAttributes | src/FastValidate/BaseModel.php:126-131 | `getProposedAttributes` extracts this class's fields from the request merged over the record's attributes; the result has distinct keys, each a non-empty field name yielded by a merged key |
| BaseModel.Record.SetAttribute | src/FastValidate/BaseModel.php:70 | the record's attributes become the old ones with that key assigned |
| BaseModel.Record.PopulateFromArray | src/FastValidate/BaseModel.php:106-113 | the attributes become the old ones with the allow-listed entries assigned; PopulatedGet says what that means key by key |
| BaseModel.Record.Save | src/FastValidate/BaseModel.php:96-103 | validation runs first on the proposed attributes, and a failure changes nothing and writes nothing; otherwise the record is populated if `auto_populate` is set, and its attributes are appended to the writes |
| BaseModel.Record.PopulateAndWrite | src/FastValidate/BaseModel.php:98-102 | with auto-population on, the attributes become the old ones populated from the proposed attributes, otherwise they stay; the row is written once |
| BaseModel.Record.SaveFromInput | src/FastValidate/BaseModel.php:22-28 | on success the allow-listed proposed attributes are stored, written, and the flag ends false; on a validation failure the flag stays true and nothing is written |
| BaseModel.CreateFromAttributes | src/FastValidate/BaseModel.php:66-74 | a fresh record gets every entry of the row with no allow-list check; it is written exactly when validation passes |
| BaseModel.CreateMany | src/FastValidate/BaseModel.php:50-64 | a shape error writes nothing; otherwise rows are saved in order up to the first that fails validation (BatchCreated), and record `k` is a fresh record holding the `k`-th written row |
| BaseModel.BatchCreatedStops | src/FastValidate/BaseModel.php:50-64 | in a batch creation every saved row passed validation; creation stops early only at a row with errors and reports them; if no row fails, exactly one record per row is created and every row is written |
| BaseModel.FirstFailureStops | src/FastValidate/BaseModel.php:56-63 | saving rows in order stops at the first row with errors: all earlier rows passed, and the stop reports that row's errors |
| BaseModel.CreateRows | src/FastValidate/BaseModel.php:53-63 | the count check followed by the zipping loop leaves behind what BatchCreated describes, and returns fresh records holding the written rows |
| BaseModel.SaveRows | src/FastValidate/BaseModel.php:55-62 | the loop saves as many rows as FirstFailure says, writes exactly those rows in order, and returns a fresh record per saved row holding that row |
| BaseModel.CreateRow | src/FastValidate/BaseModel.php:56-61 | one turn of the loop: a fresh record holding row `i`, written exactly when that row passes validation |
| BaseModel.CreateFromInput | src/FastValidate/BaseModel.php:30-41 | goes to batch creation exactly when the first-value rule says many, with CreateMany's guarantees; otherwise one fresh record is saved from input |
| FormInput.SetPathSlot | src/FastValidate/Input/FormInput.php:13 | `array_set` changes the class's slot only for a path that is the class name or starts with `<class>.`, and then only inside that slot |
| FormInput.PathIntoSlot | src/FastValidate/Input/FormInput.php:13 | `array_set` with a dotted path starting `<class>.` sets the rest of the path inside the class's slot |
| FormInput.PathBesideSlot | src/FastValidate/Input/FormInput.php:13 | `array_set` with a dotted path whose first segment is not the class name leaves the class's slot as it was |
| FormInput.NestedSlot | src/FastValidate/Input/FormInput.php:10-15 | the subtree the nesting loop leaves under the class is the one ClassSlot describes key by key |
| FormInput.OnlyClassKeysMatter | src/FastValidate/Input/FormInput.php:11-15 | keys whose rewritten form neither equals the class name nor starts with `<class>.` do not affect the returned subtree |
| FormInput.RewriteForms | src/FastValidate/Input/FormInput.php:12 | `<class>_f` and `<class>.f` both rewrite to the path `<class>.f` |
| FormInput.FlatPayloadSubtree | src/FastValidate/Input/FormInput.php:8-19 | plain fields sent with either prefix form come back as exactly those fields under the class |
| FormInput.InputIntendedForMany | src/FastValidate/Input/FormInput.php:22-30 | the early-return scan says many if and only if some value of the subtree is an array |
| FormInput.RestructureForMany | src/FastValidate/Input/FormInput.php:32-43 | the result is the list of rows that the column count and Row define, or the count's error |
| FormInput.RestructuredShape | src/FastValidate/Input/FormInput.php:36-40 | every row has exactly the subtree's keys, in its order, each with entry `i` of its column, and there is one row per column entry |
| FormInput.GetInputForClass | src/FastValidate/Input/FormInput.php:8-20 | returns the class's subtree unchanged unless some value in it is an array; in that case it returns the subtree restructured into rows |
| Cardinality.RulesOnBatches | src/FastValidate/BaseModel.php:43-48 | the first-value rule implies the any-value rule, and every payload the column check accepts is many under both rules |
| Cardinality.RulesDisagree | src/FastValidate/Input/FormInput.php:22-30 | when only the any-value rule says many, the first column is not a list, and restructuring fails with a shape mismatch |
| Cardinality.RulesDisagreeExample | src/FastValidate/Input/FormInput.php:16-17 | a scalar name followed by a list of tags is one record for BaseModel and a malformed batch for FormInput |

## Left out

- Eloquent persistence, `boot()` and the `saving` hook registration, and the constructor's re-boot in the testing environment (src/FastValidate/BaseModel.php:14-20, 92-94). They are ORM lifecycle code. The hook's body is modelled inside `Record.Save`, and storage is the `writes` log.
- Laravel's rule evaluation and custom `$messages` are not modelled. The validator is an abstract function from proposed attributes to failing field names.
- The `Input` facade is not modelled. The request is a parameter of every operation that reads it.
- `getInstance` and `get_class` are not modelled. A `ModelClass` value carries a class's name, `fillable` list and rules.
- The AJAX header used in the tests is left out. No modelled code reads it, and `getRelevantInput` drops a bare `user` key.
- Relations are left out; the modelled files contain no code for them.
- `ValidationException` is a failure value rather than a thrown exception. Models already saved by an interrupted batch are reported as the returned records.
- Columnar.ExpectedModels: an empty payload gives `NoColumns`. PHP's `assert` has no pair to compare there, and `count(false)` returns 1.
- Columnar.ExpectedModels: a scalar column always gives `ShapeMismatch`. PHP's `count` of a scalar is 1, so its `assert` passes when every column counts 1.
- Columnar.ExpectedModels: an associative column always gives `ShapeMismatch`. PHP's `assert` passes when its count matches the others, and `$val[$i]` then reads a missing index.
- Columnar.CountExpectedModels: PHP's `assert` can be switched off by configuration. The model always treats a mismatch as an error.
- Undefined-index notices for missing list positions are not modelled. A row is only built when every column has that position.
- Integer keys and numeric-string key conversion are not modelled. All keys are strings, and list members are keyed by their decimal index.
- BaseModel.Record.PopulateFromArray: `in_array` compares loosely in PHP. The model uses exact string membership.
- BaseModel.Record.Save: a failure of the underlying store is not modelled. A save that passes validation always writes.
- FormInput.SetPathSlot: holds only for class names without a dot. Laravel's `array_get` would split a dotted class name into a path.
- `array_set`, `array_get`, `head`, `starts_with` and `class_basename` are simplified local definitions. They are not transcriptions of Laravel's code.
- When `array_set` descends into a list, the list's members become an associative array keyed by their decimal index.
- src/FastValidate/ValidationException.php is not part of this model.
