/** `ValueType`: the per-type coercion rules that turn one raw JSON value into
    a typed value, and the generic Array, Dictionary and Set decoders built on
    them. A decoder is a partial function: the rules whose Swift conversion
    traps (`Int8(value)` out of range, `Character(value)` of a string that is
    not one character) are only defined where the conversion is. */
module ValueTypes {
  import opened Results
  import opened Json
  import opened MarshalErrors

  /** `T.value(from:)` for some `ValueType` T. */
  type Decoder<!T> = Raw --> Result<T, MarshalError>

  /** The default `ValueType.value(from:)`: when the cast to the target type
      succeeds the value passes through, otherwise it is a type mismatch
      naming the expected type and the actual dynamic type. */
  function DefaultRule<T>(expected: string, cast: Raw -> Option<T>, r: Raw): (res: Result<T, MarshalError>)
    ensures res.Ok? <==> cast(r).Some?
    ensures res.Ok? ==> cast(r) == Some(res.value)
    ensures res.Err? ==> res.error == TypeMismatch(expected, TypeName(r))
  {
    match cast(r)
    case Some(v) => Ok(v)
    case None => Err(TypeMismatch(expected, TypeName(r)))
  }

  function AsString(r: Raw): Option<string> {
    if r.Str? then Some(r.s) else None
  }

  function AsInt(r: Raw): Option<int> {
    if IsIntBox(r) then Some(r.n) else None
  }

  function AsUInt(r: Raw): Option<int> {
    if IsUIntBox(r) then Some(r.n) else None
  }

  function AsBool(r: Raw): Option<bool> {
    if r.Bool? then Some(r.b) else None
  }

  /** `String` uses the default rule: exactly the JSON strings decode, each
      to itself. */
  function DecodeString(r: Raw): (res: Result<string, MarshalError>)
    ensures res.Ok? <==> r.Str?
    ensures res.Ok? ==> r == Str(res.value)
    ensures res.Err? ==> res.error == TypeMismatch("String", TypeName(r))
  {
    DefaultRule("String", AsString, r)
  }

  /** `Int` uses the default rule: numbers that fit the 64-bit `Int`. */
  function DecodeInt(r: Raw): (res: Result<int, MarshalError>)
    ensures res.Ok? <==> IsIntBox(r)
    ensures res.Ok? ==> r == Num(res.value) && INT64_MIN <= res.value <= INT64_MAX
    ensures res.Err? ==> res.error == TypeMismatch("Int", TypeName(r))
  {
    DefaultRule("Int", AsInt, r)
  }

  /** `UInt` uses the default rule: numbers that fit the 64-bit `UInt`. */
  function DecodeUInt(r: Raw): (res: Result<int, MarshalError>)
    ensures res.Ok? <==> IsUIntBox(r)
    ensures res.Ok? ==> r == Num(res.value) && 0 <= res.value <= UINT64_MAX
    ensures res.Err? ==> res.error == TypeMismatch("UInt", TypeName(r))
  {
    DefaultRule("UInt", AsUInt, r)
  }

  /** `Bool` uses the default rule. */
  function DecodeBool(r: Raw): (res: Result<bool, MarshalError>)
    ensures res.Ok? <==> r.Bool?
    ensures res.Ok? ==> r == Bool(res.value)
    ensures res.Err? ==> res.error == TypeMismatch("Bool", TypeName(r))
  {
    DefaultRule("Bool", AsBool, r)
  }

  /** `Int64`: any number box, read through `int64Value`. */
  function DecodeInt64(r: Raw): (res: Result<int, MarshalError>)
    ensures res.Ok? <==> r.Num?
    ensures res.Ok? ==> INT64_MIN <= res.value <= INT64_MAX && (res.value - r.n) % TWO_TO_64 == 0
    ensures res.Ok? && INT64_MIN <= r.n <= INT64_MAX ==> res.value == r.n
    ensures res.Err? ==> res.error == TypeMismatch("NSNumber", TypeName(r))
  {
    if r.Num? then Ok(Int64Value(r.n)) else Err(TypeMismatch("NSNumber", TypeName(r)))
  }

  /** `UInt64`: any number box, read through `uint64Value`. */
  function DecodeUInt64(r: Raw): (res: Result<int, MarshalError>)
    ensures res.Ok? <==> r.Num?
    ensures res.Ok? ==> 0 <= res.value <= UINT64_MAX && (res.value - r.n) % TWO_TO_64 == 0
    ensures res.Ok? && 0 <= r.n <= UINT64_MAX ==> res.value == r.n
    ensures res.Err? ==> res.error == TypeMismatch("NSNumber", TypeName(r))
  {
    if r.Num? then Ok(UInt64Value(r.n)) else Err(TypeMismatch("NSNumber", TypeName(r)))
  }

  /** The fixed-width integer types narrower than the platform's `Int`. */
  datatype NarrowInt = Int8 | Int16 | Int32 | UInt8 | UInt16 | UInt32 {

    function Name(): string {
      match this
      case Int8 => "Int8"
      case Int16 => "Int16"
      case Int32 => "Int32"
      case UInt8 => "UInt8"
      case UInt16 => "UInt16"
      case UInt32 => "UInt32"
    }

    predicate Signed() {
      Int8? || Int16? || Int32?
    }

    function Min(): int {
      match this
      case Int8 => -0x80
      case Int16 => -0x8000
      case Int32 => -0x8000_0000
      case _ => 0
    }

    function Max(): int {
      match this
      case Int8 => 0x7F
      case Int16 => 0x7FFF
      case Int32 => 0x7FFF_FFFF
      case UInt8 => 0xFF
      case UInt16 => 0xFFFF
      case UInt32 => 0xFFFF_FFFF
    }

    /** The box the rule accepts: `as? Int` for the signed types, `as? UInt`
        for the unsigned ones. */
    predicate Accepts(r: Raw) {
      if Signed() then IsIntBox(r) else IsUIntBox(r)
    }
  }

  /** Where the Swift conversion `Int8(value)` (and its siblings) is defined:
      an accepted box must hold a value that fits the target width; outside
      it the conversion traps. */
  predicate NarrowDefined(k: NarrowInt, r: Raw) {
    k.Accepts(r) ==> k.Min() <= r.n <= k.Max()
  }

  /** `Int8` ... `UInt32`: the accepted box converted to the narrow type. */
  function DecodeNarrow(k: NarrowInt, r: Raw): (res: Result<int, MarshalError>)
    requires NarrowDefined(k, r)
    ensures res.Ok? <==> k.Accepts(r)
    ensures res.Ok? ==> r == Num(res.value) && k.Min() <= res.value <= k.Max()
    ensures res.Err? ==> res.error == TypeMismatch(k.Name(), TypeName(r))
  {
    if k.Accepts(r) then Ok(r.n) else Err(TypeMismatch(k.Name(), TypeName(r)))
  }

  /** Small values decode exactly into every width, and a value needing the
      full 64-bit range survives the 64-bit rule unchanged. */
  lemma IntegerWidthExamples()
    ensures DecodeNarrow(Int8, Num(100)) == Ok(100)
    ensures DecodeNarrow(Int16, Num(100)) == Ok(100)
    ensures DecodeInt64(Num(9_000_000_000_000_000_000)) == Ok(9_000_000_000_000_000_000)
    ensures !NarrowDefined(Int32, Num(9_000_000_000_000_000_000))
  {
  }

  /** Where `Character(value)` is defined: a string must be exactly one
      character long. */
  predicate CharacterDefined(r: Raw) {
    r.Str? ==> |r.s| == 1
  }

  /** `Character`: a one-character string gives that character. */
  function DecodeCharacter(r: Raw): (res: Result<char, MarshalError>)
    requires CharacterDefined(r)
    ensures res.Ok? <==> r.Str?
    ensures res.Ok? ==> r == Str([res.value])
    ensures res.Err? ==> res.error == TypeMismatch("Character", TypeName(r))
  {
    if r.Str? then Ok(r.s[0]) else Err(TypeMismatch("Character", TypeName(r)))
  }

  /** `URL`: a string that the URL parser (`URL(string:)`, a parameter here)
      accepts. A non-string is a mismatch against `String`; an unparseable
      string is a mismatch against "valid URL" that quotes the string. */
  function DecodeURL<U>(parse: string -> Option<U>, r: Raw): (res: Result<U, MarshalError>)
    ensures res.Ok? <==> r.Str? && parse(r.s).Some?
    ensures res.Ok? ==> parse(r.s) == Some(res.value)
    ensures !r.Str? ==> res == Err(TypeMismatch("String", TypeName(r)))
    ensures r.Str? && parse(r.s).None? ==> res == Err(TypeMismatch("valid URL", r.s))
  {
    if !r.Str? then Err(TypeMismatch("String", TypeName(r)))
    else match parse(r.s)
      case None => Err(TypeMismatch("valid URL", r.s))
      case Some(u) => Ok(u)
  }

  // Containers

  function ArrayName(element: string): string {
    "Array<" + element + ">"
  }

  function DictionaryName(element: string): string {
    "Dictionary<String, " + element + ">"
  }

  /** The element decoder is defined on every element. */
  ghost predicate DefinedOnAll<T>(dec: Decoder<T>, items: seq<Raw>) {
    forall i :: 0 <= i < |items| ==> dec.requires(items[i])
  }

  /** The element decoder is defined on every element of `r` if `r` is an array. */
  ghost predicate DefinedOnElements<T>(dec: Decoder<T>, r: Raw) {
    r.Arr? ==> DefinedOnAll(dec, r.items)
  }

  /** Fail-fast `map` over the elements: every element decoded in order, or
      the error of the first element that fails. */
  function DecodeEach<T>(dec: Decoder<T>, items: seq<Raw>): (res: Result<seq<T>, MarshalError>)
    requires DefinedOnAll(dec, items)
    ensures res.Ok? <==> forall i :: 0 <= i < |items| ==> dec(items[i]).Ok?
    ensures res.Ok? ==> |res.value| == |items|
    ensures res.Ok? ==> forall i :: 0 <= i < |items| ==> dec(items[i]) == Ok(res.value[i])
    ensures res.Err? ==> exists i :: 0 <= i < |items| && dec(items[i]) == Err(res.error)
                                  && forall j :: 0 <= j < i ==> dec(items[j]).Ok?
    decreases |items|
  {
    if |items| == 0 then Ok([])
    else
      match dec(items[0])
      case Err(e) => Err(e)
      case Ok(v) =>
        match DecodeEach(dec, items[1..])
        case Err(e) =>
          ghost var i :| 0 <= i < |items[1..]| && dec(items[1..][i]) == Err(e)
                         && forall j :: 0 <= j < i ==> dec(items[1..][j]).Ok?;
          assert dec(items[i + 1]) == Err(e);
          Err(e)
        case Ok(vs) => Ok([v] + vs)
  }

  /** `try?` per element: nil exactly where the element fails. */
  function DecodeOptionals<T>(dec: Decoder<T>, items: seq<Raw>): (res: seq<Option<T>>)
    requires DefinedOnAll(dec, items)
    ensures |res| == |items|
    ensures forall i :: 0 <= i < |items| ==> (res[i].None? <==> dec(items[i]).Err?)
    ensures forall i :: 0 <= i < |items| ==> (res[i].Some? ==> dec(items[i]) == Ok(res[i].value))
  {
    seq(|items|, i requires 0 <= i < |items| && dec.requires(items[i]) =>
      match dec(items[i]) case Ok(v) => Some(v) case Err(_) => None)
  }

  /** The present values of a sequence of optionals, in order. */
  function Somes<T>(opts: seq<Option<T>>): (vs: seq<T>)
    ensures |vs| <= |opts|
  {
    if |opts| == 0 then []
    else (match opts[0] case Some(v) => [v] case None => []) + Somes(opts[1..])
  }

  /** Number of present values. */
  function CountSome<T>(opts: seq<Option<T>>): nat {
    if |opts| == 0 then 0 else (if opts[0].Some? then 1 else 0) + CountSome(opts[1..])
  }

  lemma {:induction false} SomesLength<T>(opts: seq<Option<T>>)
    ensures |Somes(opts)| == CountSome(opts)
  {
    if |opts| > 0 {
      SomesLength(opts[1..]);
    }
  }

  /** When nothing is missing, the present values are all the values. */
  lemma {:induction false} SomesAllPresent<T>(opts: seq<Option<T>>)
    requires forall i :: 0 <= i < |opts| ==> opts[i].Some?
    ensures |Somes(opts)| == |opts|
    ensures forall i :: 0 <= i < |opts| ==> Somes(opts)[i] == opts[i].value
  {
    if |opts| > 0 {
      SomesAllPresent(opts[1..]);
    }
  }

  /** `flatMap` with `try?`: the successfully decoded elements, in order. */
  function DecodeKeeping<T>(dec: Decoder<T>, items: seq<Raw>): (res: seq<T>)
    requires DefinedOnAll(dec, items)
    ensures res == Somes(DecodeOptionals(dec, items))
    decreases |items|
  {
    if |items| == 0 then []
    else
      var rest := DecodeKeeping(dec, items[1..]);
      assert DecodeOptionals(dec, items)[1..] == DecodeOptionals(dec, items[1..]);
      match dec(items[0])
      case Ok(v) => [v] + rest
      case Err(_) => rest
  }

  /** `Array.value(from:discardingErrors:)`. A non-array is a mismatch
      against the array type. Fail-fast mode decodes every element in order
      or fails with the first element error; discarding mode keeps, in order,
      exactly the elements that decode and never fails on an element. */
  function DecodeArray<T>(dec: Decoder<T>, element: string, r: Raw, discardingErrors: bool)
    : (res: Result<seq<T>, MarshalError>)
    requires DefinedOnElements(dec, r)
    ensures !r.Arr? ==> res == Err(TypeMismatch(ArrayName(element), TypeName(r)))
    ensures r.Arr? && discardingErrors ==> res == Ok(Somes(DecodeOptionals(dec, r.items)))
    ensures r.Arr? && !discardingErrors ==> res == DecodeEach(dec, r.items)
  {
    if !r.Arr? then Err(TypeMismatch(ArrayName(element), TypeName(r)))
    else if discardingErrors then Ok(DecodeKeeping(dec, r.items))
    else DecodeEach(dec, r.items)
  }

  /** `Array.value(from:) -> [Element?]`: same length as the source, nil
      exactly at the elements that fail. */
  function DecodeOptionalArray<T>(dec: Decoder<T>, element: string, r: Raw)
    : (res: Result<seq<Option<T>>, MarshalError>)
    requires DefinedOnElements(dec, r)
    ensures res.Ok? <==> r.Arr?
    ensures !r.Arr? ==> res == Err(TypeMismatch(ArrayName(element), TypeName(r)))
    ensures res.Ok? ==> |res.value| == |r.items|
    ensures res.Ok? ==> forall i :: 0 <= i < |r.items| ==>
      (res.value[i].None? <==> dec(r.items[i]).Err?) &&
      (res.value[i].Some? ==> dec(r.items[i]) == Ok(res.value[i].value))
  {
    if !r.Arr? then Err(TypeMismatch(ArrayName(element), TypeName(r)))
    else Ok(DecodeOptionals(dec, r.items))
  }

  /** When every element decodes, the two array modes agree. */
  lemma DiscardingAgreesWhenAllDecode<T>(dec: Decoder<T>, element: string, r: Raw)
    requires r.Arr? && DefinedOnElements(dec, r)
    requires forall i :: 0 <= i < |r.items| ==> dec(r.items[i]).Ok?
    ensures DecodeArray(dec, element, r, true) == DecodeArray(dec, element, r, false)
  {
    var opts := DecodeOptionals(dec, r.items);
    SomesAllPresent(opts);
    var fast := DecodeEach(dec, r.items);
    assert Somes(opts) == fast.value;
  }

  /** Discarding mode returns as many elements as decode successfully. */
  lemma DiscardingCount<T>(dec: Decoder<T>, element: string, r: Raw)
    requires r.Arr? && DefinedOnElements(dec, r)
    ensures DecodeArray(dec, element, r, true).Ok?
    ensures |DecodeArray(dec, element, r, true).value| == CountSome(DecodeOptionals(dec, r.items))
  {
    SomesLength(DecodeOptionals(dec, r.items));
  }

  /** `keys` is listed by `order` once each: the order in which a Swift
      dictionary happens to iterate its keys. */
  predicate Enumerates(order: seq<string>, keys: set<string>) {
    && (forall i, j :: 0 <= i < j < |order| ==> order[i] != order[j])
    && (forall i :: 0 <= i < |order| ==> order[i] in keys)
    && (forall k :: k in keys ==> k in order)
  }

  /** The element decoder is defined on every value of the container. */
  ghost predicate DefinedOnValues<T>(dec: Decoder<T>, m: map<string, Raw>) {
    forall k :: k in m ==> dec.requires(m[k])
  }

  /** The loop of the Dictionary decoder: values decoded in iteration order,
      stopping at the first failure. */
  function DecodeValues<T>(dec: Decoder<T>, m: map<string, Raw>, order: seq<string>)
    : (res: Result<map<string, T>, MarshalError>)
    requires forall i :: 0 <= i < |order| ==> order[i] in m
    requires DefinedOnValues(dec, m)
    ensures res.Ok? <==> forall i :: 0 <= i < |order| ==> dec(m[order[i]]).Ok?
    ensures res.Ok? ==> forall k :: k in res.value <==> k in order
    ensures res.Ok? ==> forall k :: k in res.value ==> dec(m[k]) == Ok(res.value[k])
    ensures res.Err? ==> exists i :: 0 <= i < |order| && dec(m[order[i]]) == Err(res.error)
    decreases |order|
  {
    if |order| == 0 then Ok(map[])
    else
      match dec(m[order[0]])
      case Err(e) => Err(e)
      case Ok(v) =>
        match DecodeValues(dec, m, order[1..])
        case Err(e) =>
          ghost var i :| 0 <= i < |order[1..]| && dec(m[order[1..][i]]) == Err(e);
          assert dec(m[order[i + 1]]) == Err(e);
          Err(e)
        case Ok(rest) =>
          assert forall k :: k in order <==> k == order[0] || k in order[1..];
          Ok(rest[order[0] := v])
  }

  /** `Dictionary.value(from:)`. A non-container is a mismatch against the
      dictionary type. Otherwise every value must decode: the result has
      exactly the source's keys with each value decoded, or the decode fails
      with the error of some value that does not decode. */
  function DecodeDictionary<T>(dec: Decoder<T>, element: string, r: Raw, order: seq<string>)
    : (res: Result<map<string, T>, MarshalError>)
    requires r.Obj? ==> Enumerates(order, r.fields.Keys) && DefinedOnValues(dec, r.fields)
    ensures !r.Obj? ==> res == Err(TypeMismatch(DictionaryName(element), TypeName(r)))
    ensures r.Obj? ==> (res.Ok? <==> forall k :: k in r.fields ==> dec(r.fields[k]).Ok?)
    ensures res.Ok? ==> r.Obj? && res.value.Keys == r.fields.Keys
    ensures res.Ok? ==> forall k :: k in res.value ==> dec(r.fields[k]) == Ok(res.value[k])
    ensures r.Obj? && res.Err? ==> exists k :: k in r.fields && dec(r.fields[k]) == Err(res.error)
  {
    if !r.Obj? then Err(TypeMismatch(DictionaryName(element), TypeName(r)))
    else
      var res := DecodeValues(dec, r.fields, order);
      assert res.Ok? ==> res.value.Keys == r.fields.Keys;
      res
  }

  /** `Set.value(from:)`: the fail-fast array decode, collected into a set. */
  function DecodeSet<T(==,!new)>(dec: Decoder<T>, element: string, r: Raw): (res: Result<set<T>, MarshalError>)
    requires DefinedOnElements(dec, r)
    ensures res.Ok? <==> DecodeArray(dec, element, r, false).Ok?
    ensures res.Ok? ==> forall x :: x in res.value <==> x in DecodeArray(dec, element, r, false).value
    ensures res.Err? ==> res.error == DecodeArray(dec, element, r, false).error
  {
    match DecodeArray(dec, element, r, false)
    case Err(e) => Err(e)
    case Ok(xs) => Ok(set x | x in xs)
  }

  // Encoding back to the raw model, for the round-trip properties.

  function EncodeArray<T>(enc: T -> Raw, xs: seq<T>): (r: Raw)
    ensures r.Arr? && |r.items| == |xs|
    ensures forall i :: 0 <= i < |xs| ==> r.items[i] == enc(xs[i])
  {
    Arr(seq(|xs|, i requires 0 <= i < |xs| => enc(xs[i])))
  }

  function EncodeDictionary<T>(enc: T -> Raw, d: map<string, T>): (r: Raw)
    ensures r.Obj? && r.fields.Keys == d.Keys
    ensures forall k :: k in d ==> r.fields[k] == enc(d[k])
  {
    Obj(map k | k in d :: enc(d[k]))
  }

  /** Decoding what was encoded gives back the array, whenever the element
      rule undoes the element encoding. */
  lemma ArrayRoundTrip<T>(dec: Decoder<T>, enc: T -> Raw, element: string, xs: seq<T>)
    requires forall i :: 0 <= i < |xs| ==> dec.requires(enc(xs[i])) && dec(enc(xs[i])) == Ok(xs[i])
    ensures DecodeArray(dec, element, EncodeArray(enc, xs), false) == Ok(xs)
  {
    var r := EncodeArray(enc, xs);
    assert DefinedOnElements(dec, r);
    var res := DecodeArray(dec, element, r, false);
    assert res.Ok?;
    assert res.value == xs;
  }

  /** The dictionary round trip. */
  lemma DictionaryRoundTrip<T>(dec: Decoder<T>, enc: T -> Raw, element: string, d: map<string, T>,
                               order: seq<string>)
    requires Enumerates(order, d.Keys)
    requires forall k :: k in d ==> dec.requires(enc(d[k])) && dec(enc(d[k])) == Ok(d[k])
    ensures DecodeDictionary(dec, element, EncodeDictionary(enc, d), order) == Ok(d)
  {
    var r := EncodeDictionary(enc, d);
    var res := DecodeDictionary(dec, element, r, order);
    assert res.Ok?;
    assert res.value == d;
  }

  /** The set round trip: a set encoded as an array of its members in any
      order decodes to the same set. */
  lemma SetRoundTrip<T(!new)>(dec: Decoder<T>, enc: T -> Raw, element: string, s: set<T>, xs: seq<T>)
    requires forall x :: x in s <==> x in xs
    requires forall i :: 0 <= i < |xs| ==> dec.requires(enc(xs[i])) && dec(enc(xs[i])) == Ok(xs[i])
    ensures DecodeSet(dec, element, EncodeArray(enc, xs)) == Ok(s)
  {
    ArrayRoundTrip(dec, enc, element, xs);
    var res := DecodeSet(dec, element, EncodeArray(enc, xs));
    assert forall x :: x in res.value <==> x in s;
    assert res.value == s;
  }
}
