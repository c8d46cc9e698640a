/** The closed error taxonomy of the decoding library and its human-readable
    descriptions. */
module MarshalErrors {
  import opened Results

  /** Every failure the library raises. `expected` and `actual` are the
      descriptors the source interpolates into its messages: type names, or
      for a URL or raw-enum miss, the offending value itself. */
  datatype MarshalError =
    | KeyNotFound(key: string)
    | NullValue(key: string)
    | TypeMismatch(expected: string, actual: string)
    | TypeMismatchWithKey(key: string, expected: string, actual: string)

  const KEY_NOT_FOUND_PREFIX: string := "Key not found: "
  const NULL_VALUE_PREFIX: string := "Null Value found at: "
  const MISMATCH_PREFIX: string := "Type mismatch. Expected type "
  const FOR_KEY: string := " for key: "
  const GOT: string := ". Got '"
  const CLOSE_QUOTE: string := "'"

  /** `MarshalError.description`: a key error ends with its key; a type
      mismatch ends with the quoted actual type. */
  function Description(e: MarshalError): (d: string)
    ensures (e.KeyNotFound? || e.NullValue?) ==> |e.key| < |d| && d[|d| - |e.key|..] == e.key
    ensures (e.TypeMismatch? || e.TypeMismatchWithKey?) ==>
      |e.actual| + 1 < |d| && d[|d| - |e.actual| - 1..] == e.actual + "'"
  {
    match e
    case KeyNotFound(key) => KEY_NOT_FOUND_PREFIX + key
    case NullValue(key) => NULL_VALUE_PREFIX + key
    case TypeMismatch(expected, actual) =>
      MISMATCH_PREFIX + expected + GOT + actual + CLOSE_QUOTE
    case TypeMismatchWithKey(key, expected, actual) =>
      MISMATCH_PREFIX + expected + FOR_KEY + key + GOT + actual + CLOSE_QUOTE
  }

  /** Reads the key back out of a message that starts with `prefix`. */
  function AfterPrefix(prefix: string, d: string): (r: Option<string>)
    ensures r.Some? <==> |prefix| <= |d| && d[..|prefix|] == prefix
    ensures r.Some? ==> d == prefix + r.value
  {
    if |prefix| <= |d| && d[..|prefix|] == prefix then Some(d[|prefix|..]) else None
  }

  /** The key of a "Key not found" message, if `d` is one. */
  function KeyNotFoundKey(d: string): Option<string> {
    AfterPrefix(KEY_NOT_FOUND_PREFIX, d)
  }

  /** The key of a "Null Value found" message, if `d` is one. */
  function NullValueKey(d: string): Option<string> {
    AfterPrefix(NULL_VALUE_PREFIX, d)
  }

  /** The description of a missing key names that key, and nothing else:
      reading the key back from the message returns it. */
  lemma KeyNotFoundDescriptionRoundTrip(key: string)
    ensures KeyNotFoundKey(Description(KeyNotFound(key))) == Some(key)
    ensures NullValueKey(Description(KeyNotFound(key))) == None
  {
    var d := Description(KeyNotFound(key));
    assert d[..|KEY_NOT_FOUND_PREFIX|] == KEY_NOT_FOUND_PREFIX;
    assert d[|KEY_NOT_FOUND_PREFIX|..] == key;
    assert d[0] == 'K';
  }

  /** The description of a null value names its key and cannot be mistaken
      for a missing key. */
  lemma NullValueDescriptionRoundTrip(key: string)
    ensures NullValueKey(Description(NullValue(key))) == Some(key)
    ensures KeyNotFoundKey(Description(NullValue(key))) == None
  {
    var d := Description(NullValue(key));
    assert d[..|NULL_VALUE_PREFIX|] == NULL_VALUE_PREFIX;
    assert d[|NULL_VALUE_PREFIX|..] == key;
    assert d[0] == 'N';
  }

  /** Only the two key-resolution errors read back as such: a type mismatch,
      keyed or not, is never described as a missing key or a null value. */
  lemma MismatchDescriptionsAreNotKeyErrors(e: MarshalError)
    requires e.TypeMismatch? || e.TypeMismatchWithKey?
    ensures KeyNotFoundKey(Description(e)) == None
    ensures NullValueKey(Description(e)) == None
  {
    var d := Description(e);
    var rest := if e.TypeMismatch? then e.expected + GOT + e.actual + CLOSE_QUOTE
      else e.expected + FOR_KEY + e.key + GOT + e.actual + CLOSE_QUOTE;
    assert d == MISMATCH_PREFIX + rest;
    assert d[0] == MISMATCH_PREFIX[0] == 'T';
  }

  /** `s` occurs in `d` starting at position `at`. */
  predicate OccursAt(d: string, s: string, at: nat) {
    at + |s| <= |d| && d[at..at + |s|] == s
  }

  /** The keyed mismatch message mentions the expected type, then the key,
      then the actual value, each strictly after the previous one. */
  lemma KeyedDescriptionOrder(key: string, expected: string, actual: string)
    returns (i: nat, j: nat, l: nat)
    ensures OccursAt(Description(TypeMismatchWithKey(key, expected, actual)), expected, i)
    ensures OccursAt(Description(TypeMismatchWithKey(key, expected, actual)), key, j)
    ensures OccursAt(Description(TypeMismatchWithKey(key, expected, actual)), actual, l)
    ensures i + |expected| < j && j + |key| < l
  {
    var d := Description(TypeMismatchWithKey(key, expected, actual));
    i := |MISMATCH_PREFIX|;
    j := i + |expected| + |FOR_KEY|;
    l := j + |key| + |GOT|;
    assert d == MISMATCH_PREFIX + expected + FOR_KEY + key + GOT + actual + CLOSE_QUOTE;
    assert d[i..i + |expected|] == expected;
    assert d[j..j + |key|] == key;
    assert d[l..l + |actual|] == actual;
  }
}
