/** The demo app's `Theme`: built from a keyed container through the object
    dispatch, with an id cut from the product style code, a season code cut
    from the id, and its products listed in style-code order. */
module Themes {
  import opened Results
  import opened Json
  import opened MarshalErrors
  import opened KeyPath
  import opened ValueTypes
  import opened MarshaledObject
  import opened Unmarshaling

  datatype Product = Product(id: nat, styleCode: string)

  datatype Theme = Theme(id: string, name: string, products: set<Product>)

  /** The key reported when the style code cannot be read. */
  const STYLE_ERROR_KEY: string := "id|styleCode"

  /** `String(s.prefix(n))`: the first `n` characters, or all of a shorter
      string. */
  function Prefix(s: string, n: nat): (p: string)
    ensures |p| == if |s| < n then |s| else n
    ensures p == s[..|p|]
  {
    if |s| <= n then s else s[..n]
  }

  /** `init(object:)`: the name is the required string at `theme` (its
      errors propagate); the id is the first three characters of the string
      at `style`, and any failure to read that string, whatever its kind,
      becomes `keyNotFound("id|styleCode")`. A new theme has no products. */
  function ThemeInit(obj: map<string, Raw>): (res: Result<Theme, MarshalError>)
    ensures Value(obj, "theme", DecodeString).Err? ==> res == Err(Value(obj, "theme", DecodeString).error)
    ensures Value(obj, "theme", DecodeString).Ok? && Value(obj, "style", DecodeString).Err? ==>
      res == Err(KeyNotFound(STYLE_ERROR_KEY))
    ensures res.Ok? <==> Value(obj, "theme", DecodeString).Ok? && Value(obj, "style", DecodeString).Ok?
    ensures res.Ok? ==> (res.value.name == Value(obj, "theme", DecodeString).value
                         && res.value.id == Prefix(Value(obj, "style", DecodeString).value, 3)
                         && res.value.products == {})
  {
    var name :- Value(obj, "theme", DecodeString);
    match Value(obj, "style", DecodeString)
    case Ok(styleCode) => Ok(Theme(Prefix(styleCode, 3), name, {}))
    case Err(_) => Err(KeyNotFound(STYLE_ERROR_KEY))
  }

  /** A theme document with both strings decodes to its name and an id of
      at most three characters taken from the front of the style code; a
      missing, null or non-string style gives the combined key error. */
  lemma ThemeFromDocument(obj: map<string, Raw>, name: string, style: string, bad: Raw)
    requires "theme" in obj && obj["theme"] == Str(name)
    ensures var ok := DecodeObject(ThemeInit, Obj(obj["style" := Str(style)]));
      ok.Ok? && ok.value.name == name && ok.value.id == Prefix(style, 3)
    ensures !bad.Str? ==> DecodeObject(ThemeInit, Obj(obj["style" := bad])) == Err(KeyNotFound(STYLE_ERROR_KEY))
    ensures DecodeObject(ThemeInit, Obj(obj - {"style"})) == Err(KeyNotFound(STYLE_ERROR_KEY))
  {
    var good := obj["style" := Str(style)];
    var wrong := obj["style" := bad];
    var missing := obj - {"style"};
    AnySingleSegment(good, "theme");
    AnySingleSegment(good, "style");
    AnySingleSegment(wrong, "theme");
    AnySingleSegment(wrong, "style");
    AnySingleSegment(missing, "theme");
    AnySingleSegment(missing, "style");
  }

  /** `seasonCode`: the first two characters of the id. Offsetting past the
      end of a shorter id traps, hence the requirement. */
  function SeasonCode(t: Theme): (code: string)
    requires |t.id| >= 2
    ensures |code| == 2 && t.id == code + t.id[2..]
  {
    t.id[..2]
  }

  /** A decoded theme's season code is the first two characters of its
      style code. */
  lemma SeasonCodeFromStyle(obj: map<string, Raw>)
    requires ThemeInit(obj).Ok? && |ThemeInit(obj).value.id| >= 2
    ensures SeasonCode(ThemeInit(obj).value) == Value(obj, "style", DecodeString).value[..2]
  {
  }

  // String order

  /** `<=` on strings: lexicographic on characters. A prefix comes first;
      otherwise the first differing character decides. */
  function StrLeq(a: string, b: string): (r: bool)
    ensures |a| <= |b| && a == b[..|a|] ==> r
    ensures r && |a| > 0 ==> |b| > 0 && a[0] <= b[0]
    decreases |a|
  {
    |a| == 0 || (|b| > 0 && (a[0] < b[0] || (a[0] == b[0] && StrLeq(a[1..], b[1..]))))
  }

  lemma {:induction false} StrLeqTotal(a: string, b: string)
    ensures StrLeq(a, b) || StrLeq(b, a)
    decreases |a|
  {
    if |a| > 0 && |b| > 0 && a[0] == b[0] {
      StrLeqTotal(a[1..], b[1..]);
    }
  }

  lemma {:induction false} StrLeqTrans(a: string, b: string, c: string)
    requires StrLeq(a, b) && StrLeq(b, c)
    ensures StrLeq(a, c)
    decreases |a|
  {
    if |a| > 0 && a[0] == b[0] && b[0] == c[0] {
      StrLeqTrans(a[1..], b[1..], c[1..]);
    }
  }

  /** Products in ascending style-code order. */
  predicate SortedByStyle(ps: seq<Product>) {
    forall i, j :: 0 <= i < j < |ps| ==> StrLeq(ps[i].styleCode, ps[j].styleCode)
  }

  /** `p` is in `s` and no product of `s` has a smaller style code. */
  predicate IsFirst(p: Product, s: set<Product>) {
    p in s && forall q :: q in s ==> StrLeq(p.styleCode, q.styleCode)
  }

  /** Every set of products has one whose style code comes first. */
  lemma {:induction false} MinExists(s: set<Product>)
    requires s != {}
    ensures exists p :: IsFirst(p, s)
    decreases |s|
  {
    var x :| x in s;
    var rest := s - {x};
    StrLeqTotal(x.styleCode, x.styleCode);
    if rest == {} {
      assert s == {x};
      assert IsFirst(x, s);
    } else {
      MinExists(rest);
      var m :| IsFirst(m, rest);
      StrLeqTotal(m.styleCode, x.styleCode);
      if StrLeq(m.styleCode, x.styleCode) {
        assert IsFirst(m, s);
      } else {
        forall q | q in rest ensures StrLeq(x.styleCode, q.styleCode) {
          StrLeqTrans(x.styleCode, m.styleCode, q.styleCode);
        }
        assert IsFirst(x, s);
      }
    }
  }

  /** `orderedProducts`: the theme's products, each exactly once, in
      ascending style-code order. Products sharing a style code may come in
      either order. */
  method OrderedProducts(t: Theme) returns (ps: seq<Product>)
    ensures |ps| == |t.products|
    ensures forall p :: p in ps <==> p in t.products
    ensures forall i, j :: 0 <= i < j < |ps| ==> ps[i] != ps[j]
    ensures SortedByStyle(ps)
  {
    ps := [];
    var rest := t.products;
    while rest != {}
      invariant rest <= t.products
      invariant forall p :: p in ps <==> p in t.products && p !in rest
      invariant |ps| + |rest| == |t.products|
      invariant forall i, j :: 0 <= i < j < |ps| ==> ps[i] != ps[j]
      invariant SortedByStyle(ps)
      invariant forall i, q :: 0 <= i < |ps| && q in rest ==> StrLeq(ps[i].styleCode, q.styleCode)
      decreases |rest|
    {
      MinExists(rest);
      var m :| IsFirst(m, rest);
      ps := ps + [m];
      rest := rest - {m};
    }
  }
}
