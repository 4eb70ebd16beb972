# A verified model of `ConfigListGeneric`

`ConfigListGeneric` is the Model Analyzer configuration field that holds a
list of values of one element type. The constructor stores an element
prototype (itself a configuration field). It installs a default validator
("a non-empty list") when the caller gives none, and it starts with the
empty list. `set_value` does three things in order:
- It refuses any raw input that is not a Python `list`.
- It walks the list in order. It deep-copies the prototype for each item
  and hands the item to that copy's own `set_value`. It stops with
  `MODEL_ANALYZER_FAILURE` at the first copy that does not succeed.
- When every item has succeeded, it passes the new list of copies to the
  base field's `set_value`. That step is assumed to apply the validator and
  commit.

The model has three modules:

- `Wrappers` (`wrappers.dfy`): an `Option` datatype.
- `ConfigValue` (`config_value.dfy`): the pieces the list is plugged into.
  - `Status` is the two sentinels.
  - `Raw` is the untyped parsed input. `RList` is a Python `list`. `RTuple`
    is a sequence that is not a `list`.
  - `ElementValue<E>` is an element field. Its constant `accept` is the
    element type's own assignment rule: `Some(v)` means the assignment
    succeeds and stores `v`. Its mutable `value` is what the field holds.
    `Clone` is the deep copy and `SetValue` is the element's `set_value`.
- `ConfigList` (`config_list_generic.dfy`): the list field itself.
  - The class `ConfigListGeneric<E>` has the prototype, the validator and
    the stored list of element objects, `value`.
  - `SetValue` models the source's loop.
  - Three pure reference definitions (`ConvertAll`, `FirstRejected`,
    `Assign`) state what an assignment should produce. `SetValue`'s
    postconditions tie the method to them.
  - `AssignTwice` shows from the contract alone that assigning the same
    input twice repeats the status and the stored values.
  - Three client methods (`ClientStoresInOrder`, `ClientFailureKeepsValue`,
    `ClientRefusals`) use only the contracts. They derive the behaviour on
    the inputs `[1, 2, 3]`, `[1, -2, 3]`, `"not-a-list"`, a tuple and `[]`,
    with the element type "non-negative integer".

The base class `ConfigValue` is outside this model. Its final step,
`super().set_value(new_value)`, is modelled by `BaseSetValue`, which
assumes that the base step applies the validator to the candidate. When
the validator holds, the step commits the candidate and returns success.
Otherwise it returns failure and leaves the field alone. Every property
below that depends on the base step is proved relative to that assumed
behaviour.

Between calls the class keeps an invariant, `Valid()`: no stored entry is
the prototype, no two entries are the same object, and every entry is a
copy of the prototype whose value its own assignment rule produced.

## Model

| member | source | states |
|---|---|---|
| `ConfigValue.ElementValue.Clone` | model_analyzer/config/config_list_generic.py:78 | the deep copy of the prototype is a fresh object with the prototype's assignment rule and current value |
| `ConfigValue.ElementValue.SetValue` | model_analyzer/config/config_list_generic.py:79-80 | an element's own assignment succeeds exactly when its rule accepts the raw item; on success it stores the converted value, on failure it keeps its old value |
| `ConfigList.ConfigListGeneric.constructor` | model_analyzer/config/config_list_generic.py:27-61 | a new field stores the given prototype, required flag, preprocess hook and output mapper; it holds the empty list and keeps `Valid()`; a supplied validator is used as is; with none, the installed validator (`DefaultValidator`, the nested `validator(x)` of lines 53-54) holds exactly for lists of length greater than zero |
| `ConfigList.ConfigListGeneric.BaseSetValue` | model_analyzer/config/config_list_generic.py:87 | the base final step (assumed behaviour), reached only with distinct prototype copies whose values their rule produced, and it keeps `Valid()`: success exactly when the validator holds of the candidate's element values; it commits the candidate on success and leaves the stored list untouched on failure |
| `ConfigList.ConfigListGeneric.SetValue` | model_analyzer/config/config_list_generic.py:63-87 | keeps `Valid()`; the stored values afterwards are `Next` of the old ones (the new list on success, the old one otherwise); returns success exactly when the reference `Assign` succeeds. On success the stored values are `Assign`'s result: same length and order as the input, entry i a fresh copy of the prototype that accepted item i, all entries distinct and none the prototype. On failure the stored list and its elements are unchanged. The prototype is never modified. The number of items delegated is 0 for a non-list input, k+1 when item k is the first one rejected, and the full length otherwise |
| `ConfigList.ConvertAll` | model_analyzer/config/config_list_generic.py:75-83 | the item walk succeeds exactly when every item is accepted; its result then has the input's length and holds, at each index, the value that item converted to |
| `ConfigList.FirstRejected` | model_analyzer/config/config_list_generic.py:77-83 | the index where the early exit happens: every item before it is accepted, and the item at it (if any) is rejected |
| `ConfigList.Assign` | model_analyzer/config/config_list_generic.py:76-87 | a non-list input fails; a list with a rejected item fails; a success has passed the validator and has the input's length, with entry i the conversion of item i |
| `ConfigList.AssignAcceptsConvertedList` | model_analyzer/config/config_list_generic.py:75-87 | converse of the above: a list whose items all convert, to `vs`, stores exactly `vs` when the validator holds of `vs` and fails otherwise |
| `ConfigList.DefaultValidatorRefusesEmpty` | model_analyzer/config/config_list_generic.py:51-54 | under the default validator only a non-empty list can be assigned |
| `ConfigList.EmptyListReachesValidator` | model_analyzer/config/config_list_generic.py:75-77 | the empty list passes the type check and the empty walk, so the validator alone decides: success with the empty list when it accepts `[]`, failure otherwise |
| `ConfigList.AssignIdempotent` | model_analyzer/config/config_list_generic.py:63-87 | assigning the same input twice leaves the same stored values as assigning it once |
| `ConfigList.AssignTwice` | model_analyzer/config/config_list_generic.py:63-87 | two successive assignments of the same input to a field return the same status, and the field then holds what one assignment would have left |

## Left out

- The base class `ConfigValue` is outside this model. `BaseSetValue` gives its final step the behaviour described above, and that behaviour is assumed, not derived from its code.
- BaseSetValue: requires a candidate of distinct copies of the prototype whose values their rule produced. The list field's overriding `set_value` is the only way to reach the base step, and it always builds such a candidate, so other candidates are not modelled.
- `preprocess` is stored but never applied. The overriding `set_value` does not call it, and what the base class does with it is outside this model.
- `required` and `output_mapper` are stored only. The required check belongs to the schema level. The output mapping only matters when the value is read out.
- `_cli_type = str` is not modelled. It only matters to command-line parsing, which happens elsewhere.
- Python's `deepcopy` of an arbitrary object graph is modelled as `Clone`, a new element object with the same rule and value. The element value type is declared `E(!new)`, so it cannot be or contain a heap object, and copies share nothing mutable.
- A list field cannot itself serve as the element type of another list field in this model. Without a common interface type, the element is always an `ElementValue`.
- The validator receives the element values of the candidate list, not the element objects. So the default validator's `type(x) is list` conjunct is always true in the model: the base step only ever receives the freshly built list.
- The numeric values of `MODEL_ANALYZER_SUCCESS` and `MODEL_ANALYZER_FAILURE` are not modelled. A two-valued `Status` stands for them.
