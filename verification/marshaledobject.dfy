/** The `value(for:)` family of `MarshaledObject`: resolve the dotted key,
    decode the value found there, attach the key to plain type mismatches,
    and, in the optional overloads, turn a missing or null value into nil. */
module MarshaledObject {
  import opened Results
  import opened Json
  import opened MarshalErrors
  import opened KeyPath
  import opened ValueTypes

  /** The catch clause of every required overload: a plain `typeMismatch`
      is re-thrown as `typeMismatchWithKey` with the current key, every other
      error is re-thrown unchanged. */
  function WithKey(e: MarshalError, key: string): (e': MarshalError)
    ensures e.TypeMismatch? ==> e' == TypeMismatchWithKey(key, e.expected, e.actual)
    ensures !e.TypeMismatch? ==> e' == e
    ensures !e'.TypeMismatch?
  {
    match e
    case TypeMismatch(expected, actual) => TypeMismatchWithKey(key, expected, actual)
    case _ => e
  }

  function Retag<T>(res: Result<T, MarshalError>, key: string): (r: Result<T, MarshalError>)
    ensures r.Ok? <==> res.Ok?
    ensures r.Ok? ==> r.value == res.value
    ensures r.Err? ==> r.error == WithKey(res.error, key)
  {
    match res
    case Ok(v) => Ok(v)
    case Err(e) => Err(WithKey(e, key))
  }

  /** The errors an optional overload catches. */
  predicate IsMissing(e: MarshalError) {
    e.KeyNotFound? || e.NullValue?
  }

  /** The two catch clauses of every optional overload: `keyNotFound` and
      `nullValue`, wherever they were raised, become nil; every other error
      propagates. */
  function OrNil<T>(res: Result<T, MarshalError>): (r: Result<Option<T>, MarshalError>)
    ensures res.Ok? ==> r == Ok(Some(res.value))
    ensures res.Err? && IsMissing(res.error) ==> r == Ok(None)
    ensures res.Err? && !IsMissing(res.error) ==> r == Err(res.error)
  {
    match res
    case Ok(v) => Ok(Some(v))
    case Err(e) => if IsMissing(e) then Ok(None) else Err(e)
  }

  /** The decoder is defined on whatever the key resolves to. */
  ghost predicate DefinedAt<T>(dec: Decoder<T>, obj: map<string, Raw>, key: string) {
    Any(obj, key).Ok? ==> dec.requires(Any(obj, key).value)
  }

  /** `value(for:) -> A`. Resolution errors pass through unchanged; a decode
      failure is re-tagged with the key, so no plain type mismatch escapes. */
  function Value<T>(obj: map<string, Raw>, key: string, dec: Decoder<T>): (res: Result<T, MarshalError>)
    requires DefinedAt(dec, obj, key)
    ensures Any(obj, key).Err? ==> res == Err(Any(obj, key).error)
    ensures res.Ok? <==> Any(obj, key).Ok? && dec(Any(obj, key).value).Ok?
    ensures res.Ok? ==> dec(Any(obj, key).value) == Ok(res.value)
    ensures Any(obj, key).Ok? && dec(Any(obj, key).value).Err? ==>
      res.error == WithKey(dec(Any(obj, key).value).error, key)
    ensures res.Err? ==> !res.error.TypeMismatch?
  {
    var any :- Any(obj, key);
    Retag(dec(any), key)
  }

  /** `value(for:) -> A?`. */
  function OptionalValue<T>(obj: map<string, Raw>, key: string, dec: Decoder<T>)
    : (res: Result<Option<T>, MarshalError>)
    requires DefinedAt(dec, obj, key)
    ensures res == Ok(None) <==> Value(obj, key, dec).Err? && IsMissing(Value(obj, key, dec).error)
    ensures res.Ok? && res.value.Some? <==> Value(obj, key, dec).Ok?
    ensures res.Ok? && res.value.Some? ==> Value(obj, key, dec) == Ok(res.value.value)
    ensures res.Err? ==> res.error == Value(obj, key, dec).error && !IsMissing(res.error)
  {
    OrNil(Value(obj, key, dec))
  }

  /** Optional-missing and optional-null laws: an absent key, or a key whose
      value is null, gives nil for every target type and never throws. */
  lemma OptionalMissingOrNullIsNil<T>(obj: map<string, Raw>, key: string, dec: Decoder<T>)
    requires ValidSegment(key) && (key !in obj || obj[key] == Null)
    ensures DefinedAt(dec, obj, key)
    ensures OptionalValue(obj, key, dec) == Ok(None)
  {
    AnySingleSegment(obj, key);
  }

  /** Type-mismatch strictness: a value of the wrong type is a keyed type
      mismatch for the required and the optional request alike. */
  lemma OptionalityKeepsTypeErrors<T>(obj: map<string, Raw>, key: string, dec: Decoder<T>,
                                      expected: string, actual: string)
    requires DefinedAt(dec, obj, key)
    requires Any(obj, key).Ok? && dec(Any(obj, key).value) == Err(TypeMismatch(expected, actual))
    ensures Value(obj, key, dec) == Err(TypeMismatchWithKey(key, expected, actual))
    ensures OptionalValue(obj, key, dec) == Err(TypeMismatchWithKey(key, expected, actual))
  {
  }

  /** A `keyNotFound` or `nullValue` raised while decoding the value itself
      (by a nested object's initializer) is also swallowed into nil. */
  lemma OptionalSwallowsNestedMissing<T>(obj: map<string, Raw>, key: string, dec: Decoder<T>)
    requires DefinedAt(dec, obj, key)
    requires Any(obj, key).Ok? && dec(Any(obj, key).value).Err?
    requires IsMissing(dec(Any(obj, key).value).error)
    ensures Value(obj, key, dec) == Err(dec(Any(obj, key).value).error)
    ensures OptionalValue(obj, key, dec) == Ok(None)
  {
  }

  /** `value(for:discardingErrors:) -> [A]`. */
  function ArrayValue<T>(obj: map<string, Raw>, key: string, dec: Decoder<T>, element: string,
                         discardingErrors: bool): (res: Result<seq<T>, MarshalError>)
    requires Any(obj, key).Ok? ==> DefinedOnElements(dec, Any(obj, key).value)
    ensures Any(obj, key).Err? ==> res == Err(Any(obj, key).error)
    ensures Any(obj, key).Ok? ==>
      res == Retag(DecodeArray(dec, element, Any(obj, key).value, discardingErrors), key)
    ensures Any(obj, key).Ok? && !Any(obj, key).value.Arr? ==>
      res == Err(TypeMismatchWithKey(key, ArrayName(element), TypeName(Any(obj, key).value)))
    ensures discardingErrors && Any(obj, key).Ok? && Any(obj, key).value.Arr? ==> res.Ok?
    ensures res.Ok? && !discardingErrors ==> |res.value| == |Any(obj, key).value.items|
  {
    var any :- Any(obj, key);
    Retag(DecodeArray(dec, element, any, discardingErrors), key)
  }

  /** `value(for:discardingErrors:) -> [A]?`. */
  function OptionalArrayValue<T>(obj: map<string, Raw>, key: string, dec: Decoder<T>, element: string,
                                 discardingErrors: bool): (res: Result<Option<seq<T>>, MarshalError>)
    requires Any(obj, key).Ok? ==> DefinedOnElements(dec, Any(obj, key).value)
    ensures res == OrNil(ArrayValue(obj, key, dec, element, discardingErrors))
    ensures Any(obj, key).Err? ==> res == Ok(None)
  {
    OrNil(ArrayValue(obj, key, dec, element, discardingErrors))
  }

  /** `value(for:) -> [A?]`: same length as the source array, nil exactly at
      the elements that fail. */
  function OptionalElementsValue<T>(obj: map<string, Raw>, key: string, dec: Decoder<T>, element: string)
    : (res: Result<seq<Option<T>>, MarshalError>)
    requires Any(obj, key).Ok? ==> DefinedOnElements(dec, Any(obj, key).value)
    ensures Any(obj, key).Err? ==> res == Err(Any(obj, key).error)
    ensures res.Ok? <==> Any(obj, key).Ok? && Any(obj, key).value.Arr?
    ensures Any(obj, key).Ok? && !Any(obj, key).value.Arr? ==>
      res == Err(TypeMismatchWithKey(key, ArrayName(element), TypeName(Any(obj, key).value)))
    ensures res.Ok? ==> |res.value| == |Any(obj, key).value.items|
    ensures res.Ok? ==> forall i :: 0 <= i < |res.value| ==>
      (res.value[i].None? <==> dec(Any(obj, key).value.items[i]).Err?)
    ensures res.Ok? ==> forall i :: 0 <= i < |res.value| && res.value[i].Some? ==>
      dec(Any(obj, key).value.items[i]) == Ok(res.value[i].value)
  {
    var any :- Any(obj, key);
    Retag(DecodeOptionalArray(dec, element, any), key)
  }

  /** `value(for:) -> [A?]?`: delegates to the fail-fast `[A]` overload, so a
      single failing element fails the whole request (or, when that element
      failed with a missing key, turns the whole result into nil). */
  function OptionalOptionalElementsValue<T>(obj: map<string, Raw>, key: string, dec: Decoder<T>,
                                            element: string): (res: Result<Option<seq<Option<T>>>, MarshalError>)
    requires Any(obj, key).Ok? ==> DefinedOnElements(dec, Any(obj, key).value)
    ensures res.Ok? && res.value.Some? <==> ArrayValue(obj, key, dec, element, false).Ok?
    ensures ArrayValue(obj, key, dec, element, false).Ok? ==>
      var xs := ArrayValue(obj, key, dec, element, false).value;
      |res.value.value| == |xs| && forall i :: 0 <= i < |xs| ==> res.value.value[i] == Some(xs[i])
    ensures ArrayValue(obj, key, dec, element, false).Err? ==>
      var e := ArrayValue(obj, key, dec, element, false).error;
      res == if IsMissing(e) then Ok(None) else Err(e)
    ensures Any(obj, key).Err? ==> res == Ok(None)
  {
    match OrNil(ArrayValue(obj, key, dec, element, false))
    case Err(e) => Err(e)
    case Ok(None) => Ok(None)
    case Ok(Some(xs)) => Ok(Some(seq(|xs|, i requires 0 <= i < |xs| => Some(xs[i]))))
  }

  /** The dictionary's iteration order enumerates the keys of the value the
      key resolves to, and the decoder is defined on its values. */
  ghost predicate DictionaryReady<T>(dec: Decoder<T>, obj: map<string, Raw>, key: string, order: seq<string>) {
    Any(obj, key).Ok? && Any(obj, key).value.Obj? ==>
      Enumerates(order, Any(obj, key).value.fields.Keys) && DefinedOnValues(dec, Any(obj, key).value.fields)
  }

  /** `value(for:) -> [String: A]`. */
  function DictionaryValue<T>(obj: map<string, Raw>, key: string, dec: Decoder<T>, element: string,
                              order: seq<string>): (res: Result<map<string, T>, MarshalError>)
    requires DictionaryReady(dec, obj, key, order)
    ensures Any(obj, key).Err? ==> res == Err(Any(obj, key).error)
    ensures Any(obj, key).Ok? && !Any(obj, key).value.Obj? ==>
      res == Err(TypeMismatchWithKey(key, DictionaryName(element), TypeName(Any(obj, key).value)))
    ensures res.Ok? ==> Any(obj, key).value.Obj? && res.value.Keys == Any(obj, key).value.fields.Keys
    ensures res.Ok? ==> forall k :: k in res.value ==> dec(Any(obj, key).value.fields[k]) == Ok(res.value[k])
    ensures Any(obj, key).Ok? && Any(obj, key).value.Obj? ==>
      (res.Ok? <==> forall k :: k in Any(obj, key).value.fields ==> dec(Any(obj, key).value.fields[k]).Ok?)
  {
    var any :- Any(obj, key);
    Retag(DecodeDictionary(dec, element, any, order), key)
  }

  /** `value(for:) -> [String: A]?`. */
  function OptionalDictionaryValue<T>(obj: map<string, Raw>, key: string, dec: Decoder<T>, element: string,
                                      order: seq<string>): (res: Result<Option<map<string, T>>, MarshalError>)
    requires DictionaryReady(dec, obj, key, order)
    ensures Any(obj, key).Err? ==> res == Ok(None)
    ensures Any(obj, key).Ok? ==> res == OrNil(DecodeDictionary(dec, element, Any(obj, key).value, order))
  {
    match Any(obj, key)
    case Err(e) => OrNil<map<string, T>>(Err(e))
    case Ok(any) => OrNil(DecodeDictionary(dec, element, any, order))
  }

  /** `value(for:) -> MarshalDictionary`: the nested container as is. */
  function MarshalDictionaryValue(obj: map<string, Raw>, key: string): (res: Result<map<string, Raw>, MarshalError>)
    ensures Any(obj, key).Err? ==> res == Err(Any(obj, key).error)
    ensures res.Ok? <==> Any(obj, key).Ok? && Any(obj, key).value.Obj?
    ensures res.Ok? ==> Any(obj, key) == Ok(Obj(res.value))
    ensures Any(obj, key).Ok? && !Any(obj, key).value.Obj? ==>
      res == Err(TypeMismatchWithKey(key, "Dictionary<String, Any>", TypeName(Any(obj, key).value)))
  {
    var any :- Any(obj, key);
    if any.Obj? then Ok(any.fields)
    else Err(TypeMismatchWithKey(key, "Dictionary<String, Any>", TypeName(any)))
  }

  /** `value(for:) -> MarshalDictionary?`. */
  function OptionalMarshalDictionaryValue(obj: map<string, Raw>, key: string)
    : (res: Result<Option<map<string, Raw>>, MarshalError>)
    ensures res == OrNil(MarshalDictionaryValue(obj, key))
    ensures Any(obj, key).Err? ==> res == Ok(None)
  {
    OrNil(MarshalDictionaryValue(obj, key))
  }

  predicate AllContainers(items: seq<Raw>) {
    forall i :: 0 <= i < |items| ==> items[i].Obj?
  }

  /** `value(for:) -> [MarshalDictionary]`: an array all of whose elements
      are containers, as is. */
  function MarshalDictionaryArrayValue(obj: map<string, Raw>, key: string)
    : (res: Result<seq<map<string, Raw>>, MarshalError>)
    ensures Any(obj, key).Err? ==> res == Err(Any(obj, key).error)
    ensures res.Ok? <==> Any(obj, key).Ok? && Any(obj, key).value.Arr? && AllContainers(Any(obj, key).value.items)
    ensures res.Ok? ==> |res.value| == |Any(obj, key).value.items|
    ensures res.Ok? ==> forall i :: 0 <= i < |res.value| ==> Any(obj, key).value.items[i] == Obj(res.value[i])
    ensures Any(obj, key).Ok? && res.Err? ==>
      res == Err(TypeMismatchWithKey(key, "Array<Dictionary<String, Any>>", TypeName(Any(obj, key).value)))
  {
    var any :- Any(obj, key);
    if any.Arr? && AllContainers(any.items) then
      Ok(seq(|any.items|, i requires 0 <= i < |any.items| && any.items[i].Obj? => any.items[i].fields))
    else Err(TypeMismatchWithKey(key, "Array<Dictionary<String, Any>>", TypeName(any)))
  }

  /** `value(for:) -> [MarshalDictionary]?`. */
  function OptionalMarshalDictionaryArrayValue(obj: map<string, Raw>, key: string)
    : (res: Result<Option<seq<map<string, Raw>>>, MarshalError>)
    ensures res == OrNil(MarshalDictionaryArrayValue(obj, key))
    ensures Any(obj, key).Err? ==> res == Ok(None)
  {
    OrNil(MarshalDictionaryArrayValue(obj, key))
  }

  /** `value(for:) -> Set<A>`: the set of the fail-fast array decode. */
  function SetValue<T(==,!new)>(obj: map<string, Raw>, key: string, dec: Decoder<T>, element: string)
    : (res: Result<set<T>, MarshalError>)
    requires Any(obj, key).Ok? ==> DefinedOnElements(dec, Any(obj, key).value)
    ensures res.Ok? <==> ArrayValue(obj, key, dec, element, false).Ok?
    ensures res.Ok? ==> forall x :: x in res.value <==> x in ArrayValue(obj, key, dec, element, false).value
    ensures res.Err? ==> res.error == ArrayValue(obj, key, dec, element, false).error
  {
    var any :- Any(obj, key);
    Retag(DecodeSet(dec, element, any), key)
  }

  /** `value(for:) -> Set<A>?`. */
  function OptionalSetValue<T(==,!new)>(obj: map<string, Raw>, key: string, dec: Decoder<T>, element: string)
    : (res: Result<Option<set<T>>, MarshalError>)
    requires Any(obj, key).Ok? ==> DefinedOnElements(dec, Any(obj, key).value)
    ensures res == OrNil(SetValue(obj, key, dec, element))
    ensures Any(obj, key).Err? ==> res == Ok(None)
  {
    OrNil(SetValue(obj, key, dec, element))
  }

  // Raw-representable enums: `rawDec` decodes the raw value, `lookup` is
  // `A(rawValue:)`, `describe` renders a raw value into the error message.

  /** `value(for:) -> A` for a raw-representable A: the raw value is decoded
      as a value of its own type, then looked up; a miss is a keyed type
      mismatch naming the enum type and the raw value. */
  function RawEnumValue<R, E>(obj: map<string, Raw>, key: string, rawDec: Decoder<R>,
                              lookup: R -> Option<E>, describe: R -> string, enumName: string)
    : (res: Result<E, MarshalError>)
    requires DefinedAt(rawDec, obj, key)
    ensures Value(obj, key, rawDec).Err? ==> res == Err(Value(obj, key, rawDec).error)
    ensures res.Ok? <==> Value(obj, key, rawDec).Ok? && lookup(Value(obj, key, rawDec).value).Some?
    ensures res.Ok? ==> lookup(Value(obj, key, rawDec).value) == Some(res.value)
    ensures Value(obj, key, rawDec).Ok? && lookup(Value(obj, key, rawDec).value).None? ==>
      res == Err(TypeMismatchWithKey(key, enumName, describe(Value(obj, key, rawDec).value)))
  {
    var raw :- Value(obj, key, rawDec);
    match lookup(raw)
    case Some(v) => Ok(v)
    case None => Err(TypeMismatchWithKey(key, enumName, describe(raw)))
  }

  /** `value(for:) -> A?` for a raw-representable A. */
  function OptionalRawEnumValue<R, E>(obj: map<string, Raw>, key: string, rawDec: Decoder<R>,
                                      lookup: R -> Option<E>, describe: R -> string, enumName: string)
    : (res: Result<Option<E>, MarshalError>)
    requires DefinedAt(rawDec, obj, key)
    ensures res == OrNil(RawEnumValue(obj, key, rawDec, lookup, describe, enumName))
    ensures Any(obj, key).Err? ==> res == Ok(None)
  {
    OrNil(RawEnumValue(obj, key, rawDec, lookup, describe, enumName))
  }

  /** The `rawArray.map` of the raw-enum array forms: every raw value looked
      up in order, failing at the first miss. */
  function LookupEach<R, E>(raws: seq<R>, key: string, lookup: R -> Option<E>, describe: R -> string,
                            enumName: string): (res: Result<seq<E>, MarshalError>)
    ensures res.Ok? <==> forall i :: 0 <= i < |raws| ==> lookup(raws[i]).Some?
    ensures res.Ok? ==> |res.value| == |raws|
    ensures res.Ok? ==> forall i :: 0 <= i < |raws| ==> lookup(raws[i]) == Some(res.value[i])
    ensures res.Err? ==>
      exists i :: (0 <= i < |raws| && lookup(raws[i]).None?
                   && res.error == TypeMismatchWithKey(key, enumName, describe(raws[i]))
                   && forall j :: 0 <= j < i ==> lookup(raws[j]).Some?)
    decreases |raws|
  {
    if |raws| == 0 then Ok([])
    else
      match lookup(raws[0])
      case None => Err(TypeMismatchWithKey(key, enumName, describe(raws[0])))
      case Some(v) =>
        match LookupEach(raws[1..], key, lookup, describe, enumName)
        case Err(e) =>
          ghost var i :| 0 <= i < |raws[1..]| && lookup(raws[1..][i]).None?
            && e == TypeMismatchWithKey(key, enumName, describe(raws[1..][i]))
            && forall j :: 0 <= j < i ==> lookup(raws[1..][j]).Some?;
          assert lookup(raws[i + 1]).None?;
          Err(e)
        case Ok(vs) => Ok([v] + vs)
  }

  /** `value(for:) -> [A]` for a raw-representable A. */
  function RawEnumArrayValue<R, E>(obj: map<string, Raw>, key: string, rawDec: Decoder<R>, rawName: string,
                                   lookup: R -> Option<E>, describe: R -> string, enumName: string)
    : (res: Result<seq<E>, MarshalError>)
    requires Any(obj, key).Ok? ==> DefinedOnElements(rawDec, Any(obj, key).value)
    ensures ArrayValue(obj, key, rawDec, rawName, false).Err? ==>
      res == Err(ArrayValue(obj, key, rawDec, rawName, false).error)
    ensures ArrayValue(obj, key, rawDec, rawName, false).Ok? ==>
      res == LookupEach(ArrayValue(obj, key, rawDec, rawName, false).value, key, lookup, describe, enumName)
    ensures res.Ok? ==> |res.value| == |Any(obj, key).value.items|
  {
    var raws :- ArrayValue(obj, key, rawDec, rawName, false);
    LookupEach(raws, key, lookup, describe, enumName)
  }

  /** `value(for:) -> [A]?` for a raw-representable A. */
  function OptionalRawEnumArrayValue<R, E>(obj: map<string, Raw>, key: string, rawDec: Decoder<R>,
                                           rawName: string, lookup: R -> Option<E>, describe: R -> string,
                                           enumName: string): (res: Result<Option<seq<E>>, MarshalError>)
    requires Any(obj, key).Ok? ==> DefinedOnElements(rawDec, Any(obj, key).value)
    ensures res == OrNil(RawEnumArrayValue(obj, key, rawDec, rawName, lookup, describe, enumName))
    ensures Any(obj, key).Err? ==> res == Ok(None)
  {
    OrNil(RawEnumArrayValue(obj, key, rawDec, rawName, lookup, describe, enumName))
  }

  /** `value(for:) -> Set<A>` for a raw-representable A: the cases of the
      array form, collected into a set. */
  function RawEnumSetValue<R, E(==,!new)>(obj: map<string, Raw>, key: string, rawDec: Decoder<R>,
                                          rawName: string, lookup: R -> Option<E>, describe: R -> string,
                                          enumName: string): (res: Result<set<E>, MarshalError>)
    requires Any(obj, key).Ok? ==> DefinedOnElements(rawDec, Any(obj, key).value)
    ensures res.Ok? <==> RawEnumArrayValue(obj, key, rawDec, rawName, lookup, describe, enumName).Ok?
    ensures res.Ok? ==> forall e :: e in res.value <==>
      e in RawEnumArrayValue(obj, key, rawDec, rawName, lookup, describe, enumName).value
    ensures res.Err? ==> res.error == RawEnumArrayValue(obj, key, rawDec, rawName, lookup, describe, enumName).error
  {
    var cases :- RawEnumArrayValue(obj, key, rawDec, rawName, lookup, describe, enumName);
    Ok(set e | e in cases)
  }

  /** `value(for:) -> Set<A>?` for a raw-representable A. */
  function OptionalRawEnumSetValue<R, E(==,!new)>(obj: map<string, Raw>, key: string, rawDec: Decoder<R>,
                                                  rawName: string, lookup: R -> Option<E>,
                                                  describe: R -> string, enumName: string)
    : (res: Result<Option<set<E>>, MarshalError>)
    requires Any(obj, key).Ok? ==> DefinedOnElements(rawDec, Any(obj, key).value)
    ensures res == OrNil(RawEnumSetValue(obj, key, rawDec, rawName, lookup, describe, enumName))
    ensures Any(obj, key).Err? ==> res == Ok(None)
  {
    OrNil(RawEnumSetValue(obj, key, rawDec, rawName, lookup, describe, enumName))
  }
}
