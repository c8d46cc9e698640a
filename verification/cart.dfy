/** The demo app's cart: a list of items, each a product in a colour (and a
    size, medium unless set). Products are compared by identity, modelled as
    an opaque id; colours by code. */
module Cart {
  import opened Colors

  type ProductId = nat

  datatype Size = XS | S | M | L | XL

  datatype CartItem = CartItem(product: ProductId, color: Color, size: Size)

  /** `CartManager()`: the cart starts empty. */
  function EmptyCart(): (items: seq<CartItem>)
    ensures |items| == 0
  {
    []
  }

  /** `add(product:color:)`: one new item, medium-sized, at the end. */
  function Add(items: seq<CartItem>, product: ProductId, color: Color): (r: seq<CartItem>)
    ensures |r| == |items| + 1 && r[..|items|] == items
    ensures r[|items|] == CartItem(product, color, M)
  {
    items + [CartItem(product, color, M)]
  }

  /** The item matches the product and the colour (by code). */
  predicate Matches(item: CartItem, product: ProductId, color: Color) {
    item.product == product && Same(item.color, color)
  }

  /** Position of the first matching item, if any. */
  function FirstMatch(items: seq<CartItem>, product: ProductId, color: Color): (i: nat)
    ensures i <= |items|
    ensures forall k :: 0 <= k < i ==> !Matches(items[k], product, color)
    ensures i < |items| ==> Matches(items[i], product, color)
  {
    if |items| == 0 || Matches(items[0], product, color) then 0
    else 1 + FirstMatch(items[1..], product, color)
  }

  /** `remove(product:color:)`: the first matching item goes, the others
      stay in order; with no match nothing changes. */
  function Remove(items: seq<CartItem>, product: ProductId, color: Color): (r: seq<CartItem>)
    ensures (forall k :: 0 <= k < |items| ==> !Matches(items[k], product, color)) ==> r == items
    ensures (exists k :: 0 <= k < |items| && Matches(items[k], product, color)) ==>
      |r| == |items| - 1 &&
      exists i :: 0 <= i < |items| && Matches(items[i], product, color)
        && (forall k :: 0 <= k < i ==> !Matches(items[k], product, color))
        && r == items[..i] + items[i + 1..]
  {
    var i := FirstMatch(items, product, color);
    if i == |items| then items else items[..i] + items[i + 1..]
  }

  /** `clear()`: the cart ends empty. */
  function Clear(items: seq<CartItem>): (r: seq<CartItem>)
    ensures |r| == 0
  {
    []
  }

  /** Adding an item and removing the same product and colour restores a
      cart that held no such item. */
  lemma RemoveUndoesAdd(items: seq<CartItem>, product: ProductId, color: Color)
    requires forall k :: 0 <= k < |items| ==> !Matches(items[k], product, color)
    ensures Remove(Add(items, product, color), product, color) == items
  {
    var added := Add(items, product, color);
    assert FirstMatch(added, product, color) == |items|;
    assert added[..|items|] == items;
  }

  /** Removal takes exactly one matching item out: one fewer of them. */
  lemma RemoveCountsOne(items: seq<CartItem>, product: ProductId, color: Color)
    requires exists k :: 0 <= k < |items| && Matches(items[k], product, color)
    ensures CountMatching(Remove(items, product, color), product, color) + 1 ==
      CountMatching(items, product, color)
  {
    var i := RemoveCuts(items, product, color);
    var pre, post := items[..i], items[i + 1..];
    assert items == pre + ([items[i]] + post);
    CountAppend(pre, [items[i]] + post, product, color);
    CountAppend([items[i]], post, product, color);
    assert CountMatching([items[i]], product, color) == 1;
    CountAppend(pre, post, product, color);
  }

  /** Removal leaves every item that does not match as often as before. */
  lemma RemoveKeepsOthers(items: seq<CartItem>, product: ProductId, color: Color, other: CartItem)
    requires exists k :: 0 <= k < |items| && Matches(items[k], product, color)
    requires !Matches(other, product, color)
    ensures multiset(Remove(items, product, color))[other] == multiset(items)[other]
  {
    var i := RemoveCuts(items, product, color);
    var x, pre, post := items[i], items[..i], items[i + 1..];
    assert x != other;
    assert items == (pre + [x]) + post;
    assert multiset(pre + [x]) == multiset(pre) + multiset{x};
  }

  /** Where a matching removal cuts: at the first match. */
  lemma RemoveCuts(items: seq<CartItem>, product: ProductId, color: Color) returns (i: nat)
    requires exists k :: 0 <= k < |items| && Matches(items[k], product, color)
    ensures i < |items| && Matches(items[i], product, color)
    ensures Remove(items, product, color) == items[..i] + items[i + 1..]
  {
    i := FirstMatch(items, product, color);
  }

  /** How many items match. */
  function CountMatching(items: seq<CartItem>, product: ProductId, color: Color): nat {
    if |items| == 0 then 0
    else (if Matches(items[0], product, color) then 1 else 0) + CountMatching(items[1..], product, color)
  }

  lemma {:induction false} CountAppend(a: seq<CartItem>, b: seq<CartItem>, product: ProductId, color: Color)
    ensures CountMatching(a + b, product, color) == CountMatching(a, product, color) + CountMatching(b, product, color)
    decreases |a|
  {
    if |a| == 0 {
      assert a + b == b;
    } else {
      assert (a + b)[1..] == a[1..] + b;
      CountAppend(a[1..], b, product, color);
    }
  }

  /** A colour with the same code but another name still matches, so
      removal does not look at the name. */
  lemma RemoveIgnoresColorName(items: seq<CartItem>, product: ProductId, color: Color, name: string)
    ensures Remove(items, product, color) == Remove(items, product, color.(name := name))
  {
    FirstMatchIgnoresName(items, product, color, name);
  }

  lemma {:induction false} FirstMatchIgnoresName(items: seq<CartItem>, product: ProductId, color: Color, name: string)
    ensures FirstMatch(items, product, color) == FirstMatch(items, product, color.(name := name))
    decreases |items|
  {
    if |items| > 0 {
      FirstMatchIgnoresName(items[1..], product, color, name);
    }
  }
}
