/** The key-path resolver behind every `value(for:)`: a dotted key is split on
    `.` and walked through nested string-keyed containers. Also the
    `optionalAny` lookups of Dictionary and NSDictionary. */
module KeyPath {
  import opened Results
  import opened Json
  import opened MarshalErrors

  /** A path segment as the split produces it: non-empty and dot-free. */
  predicate ValidSegment(s: string) {
    |s| > 0 && '.' !in s
  }

  /** Position of the first `.` in `s`, or `|s|` when there is none. */
  function FirstDot(s: string): (i: nat)
    ensures i <= |s|
    ensures forall k :: 0 <= k < i ==> s[k] != '.'
    ensures i < |s| ==> s[i] == '.'
  {
    if |s| == 0 || s[0] == '.' then 0 else 1 + FirstDot(s[1..])
  }

  function Piece(s: string): seq<string> {
    if s == "" then [] else [s]
  }

  /** `key.split(separator: ".")`: the maximal dot-free pieces of `key`, left
      to right, with empty pieces omitted. */
  function Split(key: string): (segs: seq<string>)
    ensures forall i :: 0 <= i < |segs| ==> ValidSegment(segs[i])
    decreases |key|
  {
    var i := FirstDot(key);
    if i == |key| then Piece(key) else Piece(key[..i]) + Split(key[i + 1..])
  }

  /** The dotted key that names a path of segments. */
  function Join(segs: seq<string>): string {
    if |segs| == 0 then ""
    else if |segs| == 1 then segs[0]
    else segs[0] + "." + Join(segs[1..])
  }

  lemma SplitSegment(s: string)
    requires ValidSegment(s)
    ensures Split(s) == [s]
  {
    assert FirstDot(s) == |s|;
  }

  /** A leading segment splits off on its own. */
  lemma SplitCons(a: string, rest: string)
    requires ValidSegment(a)
    ensures Split(a + "." + rest) == [a] + Split(rest)
  {
    var key := a + "." + rest;
    assert key[|a|] == '.';
    assert forall k :: 0 <= k < |a| ==> key[k] == a[k];
    assert FirstDot(key) == |a|;
    assert key[..|a|] == a;
    assert key[|a| + 1..] == rest;
  }

  /** Splitting the dotted name of a path gives the path back. */
  lemma {:induction false} SplitJoin(segs: seq<string>)
    requires forall i :: 0 <= i < |segs| ==> ValidSegment(segs[i])
    ensures Split(Join(segs)) == segs
    decreases |segs|
  {
    if |segs| == 0 {
    } else if |segs| == 1 {
      SplitSegment(segs[0]);
    } else {
      SplitCons(segs[0], Join(segs[1..]));
      SplitJoin(segs[1..]);
      assert [segs[0]] + segs[1..] == segs;
    }
  }

  /** Keys made only of dots (the empty key among them) name no segment. */
  lemma SplitOnlyDots(key: string)
    requires forall k :: 0 <= k < |key| ==> key[k] == '.'
    ensures Split(key) == []
    decreases |key|
  {
    if |key| > 0 {
      assert FirstDot(key) == 0;
      SplitOnlyDots(key[1..]);
    }
  }

  /** The key cast of `Dictionary<String, _>`: every string is a key. */
  function StringKey(s: string): Option<string> {
    Some(s)
  }

  /** `Dictionary.optionalAny(for:)`: the key is cast to the dictionary's key
      type; a failed cast or an absent key gives nil, and a stored null is
      returned as a value. */
  function OptionalAny<K>(m: map<K, Raw>, castKey: string -> Option<K>, key: string): (r: Option<Raw>)
    ensures castKey(key).None? ==> r.None?
    ensures castKey(key).Some? ==> (r.Some? <==> castKey(key).value in m)
    ensures r.Some? ==> castKey(key).Some? && r.value == m[castKey(key).value]
  {
    match castKey(key)
    case None => None
    case Some(k) => if k in m then Some(m[k]) else None
  }

  /** A stored JSON null is found, not missing. */
  lemma StoredNullIsFound(m: map<string, Raw>, key: string)
    requires key in m && m[key] == Null
    ensures OptionalAny(m, StringKey, key) == Some(Null)
  {
  }

  /** `NSDictionary.optionalAny(for:)`: plain subscript by the key string. */
  function NSDictionaryOptionalAny(d: map<string, Raw>, key: string): (r: Option<Raw>)
    ensures r.Some? <==> key in d
    ensures r.Some? ==> r.value == d[key]
  {
    if key in d then Some(d[key]) else None
  }

  /** The loop of `any(for:)`: descend one container level per segment; a
      missing segment or a non-container on the way ends the walk. */
  function Walk(acc: Raw, segs: seq<string>): (r: Option<Raw>)
    ensures |segs| == 0 ==> r == Some(acc)
    ensures |segs| > 0 && r.Some? ==> acc.Obj? && OptionalAny(acc.fields, StringKey, segs[0]).Some?
    ensures |segs| > 0 && r.Some? ==> r == Walk(OptionalAny(acc.fields, StringKey, segs[0]).value, segs[1..])
    decreases |segs|
  {
    if |segs| == 0 then Some(acc)
    else match acc
      case Obj(m) =>
        (match OptionalAny(m, StringKey, segs[0])
         case Some(v) => Walk(v, segs[1..])
         case None => None)
      case _ => None
  }

  /** Walking a concatenated path is walking the first part, then the rest
      from where it ended. */
  lemma {:induction false} WalkAppend(acc: Raw, s1: seq<string>, s2: seq<string>)
    ensures Walk(acc, s1 + s2) ==
      (match Walk(acc, s1) case None => None case Some(v) => Walk(v, s2))
    decreases |s1|
  {
    if |s1| > 0 {
      assert (s1 + s2)[0] == s1[0];
      assert (s1 + s2)[1..] == s1[1..] + s2;
      if acc.Obj? && s1[0] in acc.fields {
        WalkAppend(acc.fields[s1[0]], s1[1..], s2);
      }
    } else {
      assert s1 + s2 == s2;
    }
  }

  /** Nothing can be walked into past a non-container, JSON null included. */
  lemma WalkStopsAtLeaf(acc: Raw, segs: seq<string>)
    requires !acc.Obj? && |segs| > 0
    ensures Walk(acc, segs) == None
  {
  }

  /** `MarshaledObject.any(for:)`: the value at the dotted key path. A failed
      walk is `keyNotFound` and a final null is `nullValue`, both carrying the
      whole original key. */
  function Any(container: map<string, Raw>, key: string): (r: Result<Raw, MarshalError>)
    ensures r.Err? ==> r.error == KeyNotFound(key) || r.error == NullValue(key)
    ensures r.Ok? ==> r.value != Null && Walk(Obj(container), Split(key)) == Some(r.value)
    ensures r == Err(KeyNotFound(key)) <==> Walk(Obj(container), Split(key)).None?
    ensures r == Err(NullValue(key)) <==> Walk(Obj(container), Split(key)) == Some(Null)
    ensures Split(key) == [] ==> r == Ok(Obj(container))
  {
    match Walk(Obj(container), Split(key))
    case None => Err(KeyNotFound(key))
    case Some(Null) => Err(NullValue(key))
    case Some(v) => Ok(v)
  }

  /** A plain (dot-free) key is a direct lookup. */
  lemma AnySingleSegment(m: map<string, Raw>, key: string)
    requires ValidSegment(key)
    ensures key !in m ==> Any(m, key) == Err(KeyNotFound(key))
    ensures key in m && m[key] == Null ==> Any(m, key) == Err(NullValue(key))
    ensures key in m && m[key] != Null ==> Any(m, key) == Ok(m[key])
  {
    SplitSegment(key);
    assert [key][1..] == [];
    if key in m {
      assert Walk(Obj(m), [key]) == Walk(m[key], []);
    }
  }

  /** Resolving `a.rest` is resolving `rest` inside the container at `a`,
      except that every error names the whole dotted key; a missing `a`, or a
      non-container at `a` (JSON null included), is `keyNotFound` of the whole
      key. */
  lemma AnyNested(m: map<string, Raw>, a: string, rest: string)
    requires ValidSegment(a) && Split(rest) != []
    ensures a in m && m[a].Obj? ==>
      Any(m, a + "." + rest) ==
        (match Any(m[a].fields, rest)
         case Ok(v) => Ok(v)
         case Err(KeyNotFound(_)) => Err(KeyNotFound(a + "." + rest))
         case Err(_) => Err(NullValue(a + "." + rest)))
    ensures (a !in m || !m[a].Obj?) ==> Any(m, a + "." + rest) == Err(KeyNotFound(a + "." + rest))
  {
    SplitCons(a, rest);
    var segs := Split(a + "." + rest);
    assert segs[0] == a && segs[1..] == Split(rest);
    if a in m {
      assert Walk(Obj(m), segs) == Walk(m[a], Split(rest));
      if !m[a].Obj? {
        WalkStopsAtLeaf(m[a], Split(rest));
      }
    }
  }

  /** Resolving a three-segment key through two nested containers. */
  lemma AnyThreeSegments(m: map<string, Raw>, a: string, b: string, c: string)
    requires ValidSegment(a) && ValidSegment(b) && ValidSegment(c)
    ensures Any(m, a + "." + b + "." + c) ==
      if a in m && m[a].Obj? && b in m[a].fields && m[a].fields[b].Obj? then
        (match Any(m[a].fields[b].fields, c)
         case Ok(v) => Ok(v)
         case Err(KeyNotFound(_)) => Err(KeyNotFound(a + "." + b + "." + c))
         case Err(_) => Err(NullValue(a + "." + b + "." + c)))
      else Err(KeyNotFound(a + "." + b + "." + c))
  {
    var rest := b + "." + c;
    assert a + "." + b + "." + c == a + "." + rest;
    SplitCons(b, c);
    SplitSegment(c);
    AnyNested(m, a, rest);
    if a in m && m[a].Obj? {
      AnyNested(m[a].fields, b, c);
    }
  }

  /** The segments of the nested-path example are plain keys. */
  lemma ExampleSegments()
    ensures ValidSegment("payload") && ValidSegment("team") && ValidSegment("missing") && ValidSegment("id")
  {
  }

  /** The nested-path example: in `{"payload": {"team": {"id": "teamId"}}}`,
      `payload.team.id` reaches the innermost value. */
  lemma NestedPathFound(doc: map<string, Raw>, found: string)
    requires doc == map["payload" := Obj(map["team" := Obj(map["id" := Str("teamId")])])]
    requires found == "payload.team.id"
    ensures Any(doc, found) == Ok(Str("teamId"))
  {
    ExampleSegments();
    assert found == "payload" + "." + "team" + "." + "id";
    AnyThreeSegments(doc, "payload", "team", "id");
    AnySingleSegment(map["id" := Str("teamId")], "id");
  }

  /** In the same document a missing middle segment reports the whole key. */
  lemma NestedPathMissing(doc: map<string, Raw>, missing: string)
    requires doc == map["payload" := Obj(map["team" := Obj(map["id" := Str("teamId")])])]
    requires missing == "payload.missing.id"
    ensures Any(doc, missing) == Err(KeyNotFound(missing))
  {
    ExampleSegments();
    assert missing == "payload" + "." + "missing" + "." + "id";
    AnyThreeSegments(doc, "payload", "missing", "id");
  }

  /** NSDictionary's key-path lookup (`value(forKeyPath:)`), taken to follow
      the same dotted walk as the Swift resolver. */
  function KeyValuePath(d: map<string, Raw>, key: string): Option<Raw> {
    Walk(Obj(d), Split(key))
  }

  /** `NSDictionary.any(for:)`: an absent path is `keyNotFound`, a path that
      ends at null is `nullValue`, any other value is returned. */
  function NSDictionaryAny(d: map<string, Raw>, key: string): (r: Result<Raw, MarshalError>)
    ensures KeyValuePath(d, key).None? ==> r == Err(KeyNotFound(key))
    ensures KeyValuePath(d, key) == Some(Null) ==> r == Err(NullValue(key))
    ensures r.Ok? <==> KeyValuePath(d, key).Some? && KeyValuePath(d, key).value != Null
    ensures r.Ok? ==> Some(r.value) == KeyValuePath(d, key)
  {
    match KeyValuePath(d, key)
    case None => Err(KeyNotFound(key))
    case Some(v) => if v.Null? then Err(NullValue(key)) else Ok(v)
  }

  /** Same resolver, same errors: NSDictionary and Dictionary containers
      answer every key path alike. */
  lemma NSDictionaryAgreesWithDictionary(d: map<string, Raw>, key: string)
    ensures NSDictionaryAny(d, key) == Any(d, key)
  {
  }
}
