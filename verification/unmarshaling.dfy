/** Object dispatch: `Unmarshaling` types build themselves from a keyed
    container through `init(object:)`, and `UnmarshalingWithContext` types
    do so with a caller-supplied context handed to every construction. */
module Unmarshaling {
  import opened Results
  import opened Json
  import opened MarshalErrors
  import opened KeyPath
  import opened ValueTypes
  import opened MarshaledObject

  /** `init(object:)` of an `Unmarshaling` type. */
  type ObjectInit<!T> = map<string, Raw> -> Result<T, MarshalError>

  /** `Unmarshaling.value(from:)`: a keyed container is handed to the
      initializer, whose result and errors are returned unchanged; anything
      else is a type mismatch against `MarshaledObject`. */
  function DecodeObject<T>(init: ObjectInit<T>, r: Raw): (res: Result<T, MarshalError>)
    ensures !r.Obj? ==> res == Err(TypeMismatch("MarshaledObject", TypeName(r)))
    ensures r.Obj? ==> res == init(r.fields)
  {
    if r.Obj? then init(r.fields) else Err(TypeMismatch("MarshaledObject", TypeName(r)))
  }

  /** An `Unmarshaling` type used as a `ValueType`: its coercion rule. */
  function ObjectDecoder<T>(init: ObjectInit<T>): (dec: Raw -> Result<T, MarshalError>)
    ensures forall r :: dec(r) == DecodeObject(init, r)
  {
    r => DecodeObject(init, r)
  }

  /** Because `Unmarshaling` refines `ValueType`, an array of objects is the
      ValueType array decode with the object rule: fail-fast, order-keeping,
      and each element built by the initializer from its container. */
  lemma ObjectArrayUsesValueTypeRules<T>(init: ObjectInit<T>, element: string, r: Raw)
    requires r.Arr?
    ensures DefinedOnElements(ObjectDecoder(init), r)
    ensures var res := DecodeArray(ObjectDecoder(init), element, r, false);
      res.Ok? ==> forall i :: 0 <= i < |r.items| ==> r.items[i].Obj? && init(r.items[i].fields) == Ok(res.value[i])
    ensures var res := DecodeArray(ObjectDecoder(init), element, r, false);
      res.Ok? <==> forall i :: 0 <= i < |r.items| ==> r.items[i].Obj? && init(r.items[i].fields).Ok?
  {
    var dec := ObjectDecoder(init);
    assert forall i :: 0 <= i < |r.items| ==> dec(r.items[i]) == DecodeObject(init, r.items[i]);
  }

  // UnmarshalingWithContext

  /** `value(from:inContext:)` of an `UnmarshalingWithContext` type. */
  type ContextInit<!C, !T> = (map<string, Raw>, C) -> Result<T, MarshalError>

  /** `value(for:inContext:) -> A`: the resolved value must be a container,
      else a plain (un-keyed) type mismatch; the initializer's result and
      errors are returned unchanged, with the caller's context. */
  function ValueInContext<C, T>(obj: map<string, Raw>, key: string, init: ContextInit<C, T>, context: C)
    : (res: Result<T, MarshalError>)
    ensures Any(obj, key).Err? ==> res == Err(Any(obj, key).error)
    ensures Any(obj, key).Ok? && !Any(obj, key).value.Obj? ==>
      res == Err(TypeMismatch("MarshaledObject", TypeName(Any(obj, key).value)))
    ensures Any(obj, key).Ok? && Any(obj, key).value.Obj? ==> res == init(Any(obj, key).value.fields, context)
  {
    var any :- Any(obj, key);
    if any.Obj? then init(any.fields, context)
    else Err(TypeMismatch("MarshaledObject", TypeName(any)))
  }

  /** `value(for:inContext:) -> A?`: missing and null, including those the
      initializer raises, become nil. */
  function OptionalValueInContext<C, T>(obj: map<string, Raw>, key: string, init: ContextInit<C, T>,
                                        context: C): (res: Result<Option<T>, MarshalError>)
    ensures res == Ok(None) <==>
      ValueInContext(obj, key, init, context).Err? && IsMissing(ValueInContext(obj, key, init, context).error)
    ensures res.Ok? && res.value.Some? ==> ValueInContext(obj, key, init, context) == Ok(res.value.value)
    ensures res.Err? ==> ValueInContext(obj, key, init, context) == Err(res.error) && !IsMissing(res.error)
  {
    OrNil(ValueInContext(obj, key, init, context))
  }

  /** The `objectArray.map` of the context array decode: each element must be
      a container and is built with the same context, in order, failing at
      the first failing element. */
  function EachInContext<C, T>(items: seq<Raw>, init: ContextInit<C, T>, context: C)
    : (res: Result<seq<T>, MarshalError>)
    ensures res.Ok? <==> forall i :: 0 <= i < |items| ==> items[i].Obj? && init(items[i].fields, context).Ok?
    ensures res.Ok? ==> |res.value| == |items|
    ensures res.Ok? ==> forall i :: 0 <= i < |items| ==> init(items[i].fields, context) == Ok(res.value[i])
    ensures res.Err? ==>
      exists i :: (0 <= i < |items|
                   && (if items[i].Obj? then init(items[i].fields, context) == Err(res.error)
                       else res.error == TypeMismatch("MarshaledObject", TypeName(items[i])))
                   && forall j :: 0 <= j < i ==> items[j].Obj? && init(items[j].fields, context).Ok?)
    decreases |items|
  {
    if |items| == 0 then Ok([])
    else if !items[0].Obj? then Err(TypeMismatch("MarshaledObject", TypeName(items[0])))
    else
      match init(items[0].fields, context)
      case Err(e) => Err(e)
      case Ok(v) =>
        match EachInContext(items[1..], init, context)
        case Err(e) =>
          ghost var i :| 0 <= i < |items[1..]|
            && (if items[1..][i].Obj? then init(items[1..][i].fields, context) == Err(e)
                else e == TypeMismatch("MarshaledObject", TypeName(items[1..][i])))
            && forall j :: 0 <= j < i ==> items[1..][j].Obj? && init(items[1..][j].fields, context).Ok?;
          assert items[i + 1] == items[1..][i];
          Err(e)
        case Ok(vs) => Ok([v] + vs)
  }

  /** `value(for:inContext:) -> [A]`: the resolved value must be an array,
      else a type mismatch against `Array<MarshaledObject>`. */
  function ArrayInContext<C, T>(obj: map<string, Raw>, key: string, init: ContextInit<C, T>, context: C)
    : (res: Result<seq<T>, MarshalError>)
    ensures Any(obj, key).Err? ==> res == Err(Any(obj, key).error)
    ensures Any(obj, key).Ok? && !Any(obj, key).value.Arr? ==>
      res == Err(TypeMismatch("Array<MarshaledObject>", TypeName(Any(obj, key).value)))
    ensures Any(obj, key).Ok? && Any(obj, key).value.Arr? ==>
      res == EachInContext(Any(obj, key).value.items, init, context)
  {
    var any :- Any(obj, key);
    if any.Arr? then EachInContext(any.items, init, context)
    else Err(TypeMismatch("Array<MarshaledObject>", TypeName(any)))
  }

  /** `value(for:inContext:) -> [A]?`: nil only for a missing or null key
      (or a missing or null value raised while building an element). */
  function OptionalArrayInContext<C, T>(obj: map<string, Raw>, key: string, init: ContextInit<C, T>,
                                        context: C): (res: Result<Option<seq<T>>, MarshalError>)
    ensures res == Ok(None) <==>
      ArrayInContext(obj, key, init, context).Err? && IsMissing(ArrayInContext(obj, key, init, context).error)
    ensures res.Ok? && res.value.Some? ==> ArrayInContext(obj, key, init, context) == Ok(res.value.value)
    ensures res.Err? ==> ArrayInContext(obj, key, init, context) == Err(res.error) && !IsMissing(res.error)
  {
    OrNil(ArrayInContext(obj, key, init, context))
  }

  /** An initializer that ignores its context decodes an array exactly as
      the plain object rule does. */
  lemma {:induction false} ContextFreeEachAgrees<C, T>(items: seq<Raw>, init: ObjectInit<T>,
                                                       withContext: ContextInit<C, T>, context: C)
    requires forall m, c :: withContext(m, c) == init(m)
    ensures DefinedOnAll(ObjectDecoder(init), items)
    ensures EachInContext(items, withContext, context) == DecodeEach(ObjectDecoder(init), items)
    decreases |items|
  {
    var dec := ObjectDecoder(init);
    if |items| > 0 {
      ContextFreeEachAgrees(items[1..], init, withContext, context);
      assert dec(items[0]) == DecodeObject(init, items[0]);
    }
  }
}
