/**
 * A configuration field holding a list of values of one element type.
 * Assigning it a raw input is all-or-nothing: the input must be a `list`,
 * every item is given to its own fresh copy of the element prototype, and
 * only when every copy accepts its item does the finished list go to the
 * base field's final step (validator, then commit).
 */
module ConfigList {
  import opened Wrappers
  import opened ConfigValue

  /** The validator installed when the caller gives none: a non-empty list. */
  function DefaultValidator<E>(x: seq<E>): (ok: bool)
  {
    |x| > 0
  }

  /**
   * Reference definition of the per-item step: every item converted by the
   * element rule, or `None` as soon as one item is rejected.
   */
  function ConvertAll<E>(accept: Raw -> Option<E>, items: seq<Raw>): (r: Option<seq<E>>)
    ensures r.Some? <==> forall i :: 0 <= i < |items| ==> accept(items[i]).Some?
    ensures r.Some? ==> |r.value| == |items|
    ensures r.Some? ==> forall i :: 0 <= i < |items| ==> accept(items[i]) == Some(r.value[i])
  {
    if items == [] then Some([])
    else
      match accept(items[0])
      case None => None
      case Some(v) =>
        match ConvertAll(accept, items[1..])
        case None => None
        case Some(vs) => Some([v] + vs)
  }

  /**
   * The index of the first item the element rule rejects, or `|items|` when
   * it accepts them all: the items a left-to-right walk with an early exit
   * delegates are exactly those up to and including this one.
   */
  function FirstRejected<E>(accept: Raw -> Option<E>, items: seq<Raw>): (k: nat)
    ensures k <= |items|
    ensures forall j :: 0 <= j < k ==> accept(items[j]).Some?
    ensures k < |items| ==> accept(items[k]).None?
  {
    if items == [] then 0
    else if accept(items[0]).None? then 0
    else 1 + FirstRejected(accept, items[1..])
  }

  /**
   * Reference definition of a whole assignment: the element values that end
   * up stored, or `None` when the assignment fails (not a list, a rejected
   * item, or a list the validator refuses).
   */
  function Assign<E>(accept: Raw -> Option<E>, validator: seq<E> -> bool, raw: Raw): (r: Option<seq<E>>)
    ensures !raw.RList? ==> r.None?
    ensures raw.RList? && FirstRejected(accept, raw.items) < |raw.items| ==> r.None?
    ensures r.Some? ==> raw.RList? && validator(r.value) && |r.value| == |raw.items|
    ensures r.Some? ==> forall i :: 0 <= i < |raw.items| ==> accept(raw.items[i]) == Some(r.value[i])
  {
    match raw
    case RList(items) =>
      (match ConvertAll(accept, items)
       case None => None
       case Some(vs) => if validator(vs) then Some(vs) else None)
    case _ => None
  }

  /** The stored element values after an assignment, starting from `current`. */
  function Next<E>(accept: Raw -> Option<E>, validator: seq<E> -> bool, current: seq<E>, raw: Raw): (r: seq<E>)
  {
    match Assign(accept, validator, raw)
    case Some(vs) => vs
    case None => current
  }

  /**
   * A list whose items are all accepted, as `vs`, is stored as exactly `vs`
   * whenever the validator holds of `vs`, and refused otherwise.
   */
  lemma AssignAcceptsConvertedList<E>(accept: Raw -> Option<E>, validator: seq<E> -> bool, items: seq<Raw>, vs: seq<E>)
    requires |vs| == |items|
    requires forall i :: 0 <= i < |items| ==> accept(items[i]) == Some(vs[i])
    ensures Assign(accept, validator, RList(items)) == if validator(vs) then Some(vs) else None
  {
    var r := ConvertAll(accept, items);
    assert r.Some?;
    assert r.value == vs by {
      forall i | 0 <= i < |vs| ensures r.value[i] == vs[i] {
        assert accept(items[i]) == Some(vs[i]);
      }
    }
  }

  /** With the default validator an empty list is refused; so is any list that does not convert. */
  lemma DefaultValidatorRefusesEmpty<E>(accept: Raw -> Option<E>, raw: Raw)
    requires Assign(accept, DefaultValidator, raw).Some?
    ensures raw.RList? && |raw.items| > 0
  {
  }

  /** An empty list passes the type check and the (empty) item walk; only the validator decides. */
  lemma EmptyListReachesValidator<E>(accept: Raw -> Option<E>, validator: seq<E> -> bool)
    ensures Assign(accept, validator, RList([])) == if validator([]) then Some([]) else None
  {
    AssignAcceptsConvertedList(accept, validator, [], []);
  }

  /** Assigning the same input twice leaves the same stored values as assigning it once. */
  lemma AssignIdempotent<E>(accept: Raw -> Option<E>, validator: seq<E> -> bool, current: seq<E>, raw: Raw)
    ensures Next(accept, validator, Next(accept, validator, current, raw), raw) == Next(accept, validator, current, raw)
  {
  }

  /**
   * The list field. `prototype` is the element instance every item is copied
   * from; `value` holds the element instances of the last successful
   * assignment. `preprocess`, `required` and `outputMapper` belong to the base
   * field and are stored only.
   */
  class ConfigListGeneric<E(!new)> {
    const prototype: ElementValue<E>
    const preprocess: Option<Raw -> Raw>
    const required: bool
    const validator: seq<E> -> bool
    const outputMapper: Option<seq<E> -> seq<E>>
    var value: seq<ElementValue<E>>

    /**
     * No stored entry is the prototype itself, no two entries are the same
     * object, and every entry is a copy of the prototype holding a value its
     * own assignment rule produced.
     */
    ghost predicate Valid()
      reads this, value
    {
      prototype !in value &&
      (forall i, j :: 0 <= i < j < |value| ==> value[i] != value[j]) &&
      forall i :: 0 <= i < |value| ==>
        value[i].accept == prototype.accept && exists r :: prototype.accept(r) == Some(value[i].value)
    }

    /** The element values the field holds, in list order. */
    function Contents(): (r: seq<E>)
      reads this, value
    {
      Values(value)
    }

    constructor (prototype: ElementValue<E>, preprocess: Option<Raw -> Raw>, required: bool,
                 validator: Option<seq<E> -> bool>, outputMapper: Option<seq<E> -> seq<E>>)
      ensures Valid()
      ensures value == []
      ensures this.prototype == prototype && this.preprocess == preprocess
      ensures this.required == required && this.outputMapper == outputMapper
      ensures validator.Some? ==> this.validator == validator.value
      ensures validator.None? ==> forall x :: this.validator(x) <==> |x| > 0
    {
      this.prototype := prototype;
      this.preprocess := preprocess;
      this.required := required;
      var check: seq<E> -> bool := (x: seq<E>) => DefaultValidator(x);
      if validator.Some? {
        check := validator.value;
      }
      this.validator := check;
      this.outputMapper := outputMapper;
      value := [];
    }

    /** The base field's final step: commit `candidate` when the validator holds of its values. */
    method BaseSetValue(candidate: seq<ElementValue<E>>) returns (s: Status)
      requires Valid()
      requires prototype !in candidate
      requires forall i, j :: 0 <= i < j < |candidate| ==> candidate[i] != candidate[j]
      requires forall i :: 0 <= i < |candidate| ==>
                 candidate[i].accept == prototype.accept && exists r :: prototype.accept(r) == Some(candidate[i].value)
      modifies this
      ensures Valid()
      ensures s == Success <==> validator(Values(candidate))
      ensures value == if s == Success then candidate else old(value)
    {
      if validator(Values(candidate)) {
        value := candidate;
        s := Success;
      } else {
        s := Failure;
      }
    }

    /**
     * Assign a raw input. `delegated` counts the prototype copies whose own
     * assignment was called: the walk stops at the first rejected item.
     */
    method SetValue(raw: Raw) returns (s: Status, ghost delegated: nat)
      requires Valid()
      modifies this
      ensures Valid()
      ensures unchanged(prototype)
      ensures s == Success <==> Assign(prototype.accept, validator, raw).Some?
      ensures s == Success ==> Contents() == Assign(prototype.accept, validator, raw).value
      ensures s == Success ==> |value| == |raw.items|
      ensures s == Success ==> forall i :: 0 <= i < |value| ==>
                fresh(value[i]) && value[i].accept == prototype.accept &&
                value[i].accept(raw.items[i]) == Some(value[i].value)
      ensures s == Failure ==> value == old(value) && unchanged(old(value))
      ensures s == Failure ==> Contents() == old(Contents())
      ensures Contents() == Next(prototype.accept, validator, old(Contents()), raw)
      ensures delegated == if !raw.RList? then 0
                           else if FirstRejected(prototype.accept, raw.items) < |raw.items|
                           then FirstRejected(prototype.accept, raw.items) + 1
                           else |raw.items|
    {
      delegated := 0;
      if !raw.RList? {
        return Failure, delegated;
      }
      var items := raw.items;
      var candidate: seq<ElementValue<E>> := [];
      for i := 0 to |items|
        invariant value == old(value) && unchanged(old(value))
        invariant delegated == i && |candidate| == i
        invariant forall k :: 0 <= k < i ==>
                    fresh(candidate[k]) && candidate[k].accept == prototype.accept &&
                    candidate[k].accept(items[k]) == Some(candidate[k].value)
        invariant forall k, l :: 0 <= k < l < i ==> candidate[k] != candidate[l]
      {
        var item := prototype.Clone();
        var status := item.SetValue(items[i]);
        delegated := i + 1;
        if status == Success {
          candidate := candidate + [item];
        } else {
          return Failure, delegated;
        }
      }
      AssignAcceptsConvertedList(prototype.accept, validator, items, Values(candidate));
      s := BaseSetValue(candidate);
    }
  }

  /** Assigning the same input twice: the second call repeats the first call's status and stored values. */
  method AssignTwice<E(!new)>(field: ConfigListGeneric<E>, raw: Raw) returns (first: Status, second: Status)
    requires field.Valid()
    modifies field
    ensures field.Valid()
    ensures first == second
    ensures field.Contents() == Next(field.prototype.accept, field.validator, old(field.Contents()), raw)
  {
    ghost var delegated: nat;
    first, delegated := field.SetValue(raw);
    second, delegated := field.SetValue(raw);
    AssignIdempotent(field.prototype.accept, field.validator, old(field.Contents()), raw);
  }

  /** An element rule: non-negative integers. */
  function NonNegative(raw: Raw): (r: Option<int>)
  {
    if raw.RInt? && raw.i >= 0 then Some(raw.i) else None
  }

  /** A list of accepted items is stored in input order. */
  method ClientStoresInOrder()
  {
    var proto := new ElementValue(NonNegative, 0);
    var field := new ConfigListGeneric(proto, None, false, None, None);
    var good := [RInt(1), RInt(2), RInt(3)];
    AssignAcceptsConvertedList(NonNegative, field.validator, good, [1, 2, 3]);
    ghost var delegated: nat;
    var s;
    s, delegated := field.SetValue(RList(good));
    assert s == Success && field.Contents() == [1, 2, 3] && delegated == 3;
    assert proto.value == 0;
  }

  /** A rejected item makes the walk stop there and keeps what was stored before. */
  method ClientFailureKeepsValue()
  {
    var proto := new ElementValue(NonNegative, 0);
    var field := new ConfigListGeneric(proto, None, false, None, None);
    var good := [RInt(1), RInt(2), RInt(3)];
    var bad := [RInt(1), RInt(-2), RInt(3)];
    AssignAcceptsConvertedList(NonNegative, field.validator, good, [1, 2, 3]);
    assert NonNegative(bad[0]).Some? && NonNegative(bad[1]).None?;
    assert FirstRejected(NonNegative, bad) == 1;
    ghost var delegated: nat;
    var s;
    s, delegated := field.SetValue(RList(good));
    ghost var before := field.Contents();
    assert before == [1, 2, 3];
    s, delegated := field.SetValue(RList(bad));
    assert s == Failure && delegated == 2;
    assert field.Contents() == before;
  }

  /** Inputs that are not a `list`, and the empty list under the default validator, are refused. */
  method ClientRefusals()
  {
    var proto := new ElementValue(NonNegative, 0);
    var field := new ConfigListGeneric(proto, None, false, None, None);
    ghost var delegated: nat;
    var s;
    s, delegated := field.SetValue(RStr("not-a-list"));
    assert s == Failure && delegated == 0;
    s, delegated := field.SetValue(RTuple([RInt(4)]));
    assert s == Failure && delegated == 0;
    EmptyListReachesValidator(NonNegative, field.validator);
    s, delegated := field.SetValue(RList([]));
    assert s == Failure && delegated == 0;
    assert field.Contents() == [];
  }
}
