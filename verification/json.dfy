/** The untyped JSON tree that the decoding library receives from the parser,
    and the Foundation casts (`as? String`, `as? Int`, ...) it applies to it. */
module Json {

  /** One node of a parsed JSON document. Numbers are integers: floating-point
      numbers are not part of this model. */
  datatype Raw =
    | Null
    | Bool(b: bool)
    | Num(n: int)
    | Str(s: string)
    | Arr(items: seq<Raw>)
    | Obj(fields: map<string, Raw>)

  const INT64_MIN: int := -0x8000_0000_0000_0000
  const INT64_MAX: int := 0x7FFF_FFFF_FFFF_FFFF
  const UINT64_MAX: int := 0xFFFF_FFFF_FFFF_FFFF
  const TWO_TO_64: int := 0x1_0000_0000_0000_0000

  /** The descriptor `type(of:)` yields for a raw value, as it appears in
      type-mismatch errors. */
  function TypeName(r: Raw): (name: string)
    ensures |name| > 0
    ensures name == "NSNumber" <==> r.Num?
    ensures name == "String" <==> r.Str?
  {
    match r
    case Null => "NSNull"
    case Bool(_) => "Bool"
    case Num(_) => "NSNumber"
    case Str(_) => "String"
    case Arr(_) => "Array<Any>"
    case Obj(_) => "Dictionary<String, Any>"
  }

  /** `object as? Int`: a number that fits the platform's 64-bit `Int`. */
  predicate IsIntBox(r: Raw) {
    r.Num? && INT64_MIN <= r.n <= INT64_MAX
  }

  /** `object as? UInt`: a number that fits the platform's 64-bit `UInt`. */
  predicate IsUIntBox(r: Raw) {
    r.Num? && 0 <= r.n <= UINT64_MAX
  }

  /** `NSNumber.int64Value`: the two's-complement reading of the low 64 bits. */
  function Int64Value(n: int): (v: int)
    ensures INT64_MIN <= v <= INT64_MAX
    ensures (v - n) % TWO_TO_64 == 0
  {
    var low := n % TWO_TO_64;
    if low <= INT64_MAX then low else low - TWO_TO_64
  }

  /** `NSNumber.uint64Value`: the unsigned reading of the low 64 bits. */
  function UInt64Value(n: int): (v: int)
    ensures 0 <= v <= UINT64_MAX
    ensures (v - n) % TWO_TO_64 == 0
  {
    n % TWO_TO_64
  }

  /** A number that already fits in Int64 keeps its exact value. */
  lemma Int64ValueKeepsInRange(n: int)
    requires INT64_MIN <= n <= INT64_MAX
    ensures Int64Value(n) == n
  {
  }

  /** A number that already fits in UInt64 keeps its exact value. */
  lemma UInt64ValueKeepsInRange(n: int)
    requires 0 <= n <= UINT64_MAX
    ensures UInt64Value(n) == n
  {
  }
}
