/**
 * The pieces of the configuration framework that a list field is plugged into:
 * the status sentinels returned by every assignment, the untyped raw input
 * that arrives from the command line or a YAML file, and the element field
 * whose instances a list field clones and fills in.
 */
module ConfigValue {
  import opened Wrappers

  /** The two status sentinels (`MODEL_ANALYZER_SUCCESS`, `MODEL_ANALYZER_FAILURE`). */
  datatype Status = Success | Failure

  /**
   * An untyped configuration value as the parser hands it over. `RList` is a
   * Python `list`; `RTuple` is a sequence that is NOT a `list`, so that the
   * strict `type(x) is list` test has something to reject.
   */
  datatype Raw =
    | RNone
    | RBool(b: bool)
    | RInt(i: int)
    | RStr(s: string)
    | RList(items: seq<Raw>)
    | RTuple(elems: seq<Raw>)
    | RDict(entries: map<string, Raw>)

  /**
   * An element field: one instance of the typed configuration value a list
   * holds. `accept` is the element type's own assignment rule (its conversion
   * and its own validator): `Some(v)` means that assigning the raw input
   * succeeds and stores `v`, `None` that it fails. Every copy of a prototype
   * shares that rule; only `value` differs from copy to copy.
   */
  class ElementValue<E(!new)> {
    const accept: Raw -> Option<E>
    var value: E

    constructor (accept: Raw -> Option<E>, initial: E)
      ensures this.accept == accept && value == initial
    {
      this.accept := accept;
      value := initial;
    }

    /** A deep copy: a new object with the same rule and the same value. */
    method Clone() returns (c: ElementValue<E>)
      ensures fresh(c)
      ensures c.accept == accept && c.value == value
    {
      c := new ElementValue(accept, value);
    }

    /** The element's own `set_value`: commits on success, keeps its value on failure. */
    method SetValue(raw: Raw) returns (s: Status)
      modifies this
      ensures s == Success <==> accept(raw).Some?
      ensures value == if accept(raw).Some? then accept(raw).value else old(value)
    {
      match accept(raw)
      case Some(v) =>
        value := v;
        s := Success;
      case None =>
        s := Failure;
    }
  }

  /** The values held by a sequence of element fields, in order. */
  function Values<E(!new)>(fields: seq<ElementValue<E>>): (vs: seq<E>)
    reads fields
    ensures |vs| == |fields|
    ensures forall i :: 0 <= i < |fields| ==> vs[i] == fields[i].value
  {
    if fields == [] then [] else [fields[0].value] + Values(fields[1..])
  }
}
