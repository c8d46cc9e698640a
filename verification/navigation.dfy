/** `NavigationCoordinator`: the coordinator's own list of view controllers
    (`viewControllers`) next to the navigation controller's stack, which the
    coordinator drives. View controllers are opaque ids. The two are meant
    to agree: the coordinator's list is the top part of the stack. */
module Navigation {
  import opened Results
  import opened Coordinators

  type VcId = nat

  datatype Nav = Nav(
    coord: Coord,
    vcs: seq<VcId>,
    stack: seq<VcId>,
    isDelegate: bool)

  predicate Distinct(s: seq<VcId>) {
    forall i, j :: 0 <= i < j < |s| ==> s[i] != s[j]
  }

  /** The coordinator's list is the top of the navigation stack. */
  predicate Mirrors(vcs: seq<VcId>, stack: seq<VcId>) {
    |vcs| <= |stack| && stack[|stack| - |vcs|..] == vcs
  }

  /** `Array.index(of:)`: the first position holding `x`. */
  function IndexOf(s: seq<VcId>, x: VcId): (i: nat)
    requires x in s
    ensures i < |s| && s[i] == x
    ensures forall j :: 0 <= j < i ==> s[j] != x
  {
    if s[0] == x then 0 else 1 + IndexOf(s[1..], x)
  }

  /** In a sequence without repeats, the first position of `s[k]` is `k`. */
  lemma IndexOfDistinct(s: seq<VcId>, k: nat)
    requires Distinct(s) && k < |s|
    ensures IndexOf(s, s[k]) == k
  {
  }

  /** `show(_:)`: pushes `vc` on both the list and the stack. */
  function Show(n: Nav, vc: VcId): (r: Nav)
    ensures |r.vcs| == |n.vcs| + 1 && r.vcs[|n.vcs|] == vc && r.vcs[..|n.vcs|] == n.vcs
    ensures |r.stack| == |n.stack| + 1 && r.stack[|n.stack|] == vc && r.stack[..|n.stack|] == n.stack
    ensures r.coord == n.coord && r.isDelegate == n.isDelegate
  {
    n.(vcs := n.vcs + [vc], stack := n.stack + [vc])
  }

  /** `root(_:)`: both the list and the stack become exactly `[vc]`. */
  function Root(n: Nav, vc: VcId): (r: Nav)
    ensures |r.vcs| == 1 && r.vcs[0] == vc && r.stack == r.vcs
    ensures r.coord == n.coord && r.isDelegate == n.isDelegate
  {
    n.(vcs := [vc], stack := [vc])
  }

  /** `top(_:)`: on an empty list, `root`; otherwise the last view controller
      of the list and of the stack is replaced by `vc`. Removing the last of
      an empty stack traps, hence the requirement. */
  function Top(n: Nav, vc: VcId): (r: Nav)
    requires |n.vcs| > 0 ==> |n.stack| > 0
    ensures |n.vcs| == 0 ==> r == Root(n, vc)
    ensures |n.vcs| > 0 ==> |r.vcs| == |n.vcs| && r.vcs[|r.vcs| - 1] == vc
    ensures |n.vcs| > 0 ==> r.vcs[..|n.vcs| - 1] == n.vcs[..|n.vcs| - 1]
    ensures |n.vcs| > 0 ==> |r.stack| == |n.stack| && r.stack[|r.stack| - 1] == vc
    ensures |n.vcs| > 0 ==> r.stack[..|n.stack| - 1] == n.stack[..|n.stack| - 1]
    ensures r.coord == n.coord && r.isDelegate == n.isDelegate
  {
    if |n.vcs| == 0 then Root(n, vc)
    else Show(n.(vcs := n.vcs[..|n.vcs| - 1], stack := n.stack[..|n.stack| - 1]), vc)
  }

  /** `popToViewController(_:animated:)` on the navigation stack: everything
      above `vc` is popped. */
  function StackPopTo(stack: seq<VcId>, vc: VcId): (r: seq<VcId>)
    ensures vc in stack ==> |r| <= |stack| && r == stack[..|r|] && |r| > 0 && r[|r| - 1] == vc
    ensures vc in stack ==> vc !in r[..|r| - 1]
    ensures vc !in stack ==> r == stack
  {
    if vc in stack then stack[..IndexOf(stack, vc) + 1] else stack
  }

  /** `pop(to:)`: a `vc` that is not in the list changes nothing; otherwise
      the list is cut just after the first `vc` and the stack pops to it. */
  function PopTo(n: Nav, vc: VcId): (r: Nav)
    ensures vc !in n.vcs ==> r == n
    ensures vc in n.vcs ==> |r.vcs| <= |n.vcs| && r.vcs == n.vcs[..|r.vcs|]
    ensures vc in n.vcs ==> |r.vcs| > 0 && r.vcs[|r.vcs| - 1] == vc && vc !in r.vcs[..|r.vcs| - 1]
    ensures vc in n.vcs ==> r.stack == StackPopTo(n.stack, vc)
    ensures r.coord == n.coord && r.isDelegate == n.isDelegate
  {
    if vc !in n.vcs then n
    else n.(vcs := DropAfter(n.vcs, vc), stack := StackPopTo(n.stack, vc))
  }

  /** The list update of `pop(to:)`: as many elements as follow the first
      `vc` are dropped from the end (when the list has more than one). */
  function DropAfter(vcs: seq<VcId>, vc: VcId): (r: seq<VcId>)
    requires vc in vcs
    ensures r == vcs[..IndexOf(vcs, vc) + 1]
  {
    var index := IndexOf(vcs, vc);
    var lastPosition := |vcs| - 1;
    if lastPosition > 0 then vcs[..|vcs| - (lastPosition - index)] else vcs
  }

  /** `start(with:)`: becomes the navigation delegate, then the base start. */
  function NavStart(n: Nav): (r: Nav)
    ensures r.isDelegate && r.coord == Start(n.coord)
    ensures r.vcs == n.vcs && r.stack == n.stack
  {
    n.(isDelegate := true, coord := Start(n.coord))
  }

  /** Removes the first occurrence of `x`, if any. */
  function RemoveFirst(s: seq<VcId>, x: VcId): (r: seq<VcId>)
    ensures x !in s ==> r == s
    ensures x in s ==> r == s[..IndexOf(s, x)] + s[IndexOf(s, x) + 1..]
    ensures |r| <= |s|
    ensures forall y :: y in r ==> y in s
    ensures forall y :: y in s && y != x ==> y in r
  {
    if x in s then
      var i := IndexOf(s, x);
      assert s == s[..i] + [x] + s[i + 1..];
      s[..i] + s[i + 1..]
    else s
  }

  /** The loop of `stop(with:)`: each of `xs`, in turn, leaves the stack.
      The stack never grows, keeps only what it held, and keeps everything
      not named in `xs`. */
  function RemoveEach(s: seq<VcId>, xs: seq<VcId>): (r: seq<VcId>)
    ensures |r| <= |s|
    ensures forall y :: y in r ==> y in s
    ensures forall y :: y in s && y !in xs ==> y in r
    decreases |xs|
  {
    if |xs| == 0 then s
    else
      assert forall y :: y in xs <==> y == xs[0] || y in xs[1..];
      RemoveEach(RemoveFirst(s, xs[0]), xs[1..])
  }

  /** The elements of `s` that are not in `drop`, in order. */
  function Without(s: seq<VcId>, drop: set<VcId>): (r: seq<VcId>)
    ensures forall x :: x in r <==> x in s && x !in drop
  {
    if |s| == 0 then []
    else
      var rest := Without(s[1..], drop);
      assert forall x :: x in s <==> x == s[0] || x in s[1..];
      if s[0] in drop then rest else [s[0]] + rest
  }

  /** The elements of a sequence, as a set. */
  function Elems(xs: seq<VcId>): (r: set<VcId>)
    ensures forall x :: x in r <==> x in xs
  {
    if |xs| == 0 then {}
    else
      assert forall x :: x in xs <==> x == xs[0] || x in xs[1..];
      {xs[0]} + Elems(xs[1..])
  }

  /** `stop(with:)`: gives up the delegate role, removes its own view
      controllers from the stack, empties its list, then the base stop. */
  function NavStop(n: Nav): (r: Nav)
    ensures !r.isDelegate && r.vcs == [] && r.coord == Stop(n.coord)
    ensures |r.stack| <= |n.stack|
    ensures forall y :: y in r.stack ==> y in n.stack
    ensures forall y :: y in n.stack && y !in n.vcs ==> y in r.stack
  {
    n.(isDelegate := false, stack := RemoveEach(n.stack, n.vcs), vcs := [], coord := Stop(n.coord))
  }

  lemma {:induction false} WithoutAppend(a: seq<VcId>, b: seq<VcId>, drop: set<VcId>)
    ensures Without(a + b, drop) == Without(a, drop) + Without(b, drop)
    decreases |a|
  {
    if |a| == 0 {
      assert a + b == b;
    } else {
      assert (a + b)[1..] == a[1..] + b;
      WithoutAppend(a[1..], b, drop);
    }
  }

  lemma {:induction false} WithoutNothing(s: seq<VcId>, drop: set<VcId>)
    requires forall i :: 0 <= i < |s| ==> s[i] !in drop
    ensures Without(s, drop) == s
    decreases |s|
  {
    if |s| > 0 {
      WithoutNothing(s[1..], drop);
    }
  }

  lemma {:induction false} WithoutTwice(s: seq<VcId>, a: set<VcId>, b: set<VcId>)
    ensures Without(Without(s, a), b) == Without(s, a + b)
    decreases |s|
  {
    if |s| > 0 {
      WithoutTwice(s[1..], a, b);
      if s[0] !in a {
        assert Without(s, a) == [s[0]] + Without(s[1..], a);
        assert Without(s, a)[1..] == Without(s[1..], a);
      }
    }
  }

  /** In a sequence without repeats, removing the first `x` removes every `x`. */
  lemma RemoveFirstIsWithout(s: seq<VcId>, x: VcId)
    requires Distinct(s)
    ensures RemoveFirst(s, x) == Without(s, {x})
  {
    if x in s {
      var i := IndexOf(s, x);
      var pre, post := s[..i], s[i + 1..];
      forall k | 0 <= k < |post| ensures post[k] !in {x} {
        assert post[k] == s[i + 1 + k];
      }
      WithoutNothing(post, {x});
      WithoutNothing(pre, {x});
      SplitAround(s, i, {x});
    } else {
      WithoutNothing(s, {x});
    }
  }

  /** Removing a set from `s` around a dropped element at `i`. */
  lemma SplitAround(s: seq<VcId>, i: nat, drop: set<VcId>)
    requires i < |s| && s[i] in drop
    ensures Without(s, drop) == Without(s[..i], drop) + Without(s[i + 1..], drop)
  {
    var pre, post := s[..i], s[i + 1..];
    assert s == pre + ([s[i]] + post);
    WithoutAppend(pre, [s[i]] + post, drop);
    WithoutAppend([s[i]], post, drop);
    assert Without([s[i]], drop) == Without([], drop);
  }

  lemma {:induction false} DistinctWithout(s: seq<VcId>, drop: set<VcId>)
    requires Distinct(s)
    ensures Distinct(Without(s, drop))
    decreases |s|
  {
    if |s| > 0 {
      DistinctWithout(s[1..], drop);
      assert s[0] !in s[1..];
    }
  }

  /** On a stack without repeats, the stop loop keeps exactly the view
      controllers that are not the coordinator's, in their order. */
  lemma {:induction false} RemoveEachIsWithout(s: seq<VcId>, xs: seq<VcId>)
    requires Distinct(s)
    ensures RemoveEach(s, xs) == Without(s, Elems(xs))
    decreases |xs|
  {
    if |xs| == 0 {
      WithoutNothing(s, {});
    } else {
      RemoveFirstIsWithout(s, xs[0]);
      DistinctWithout(s, {xs[0]});
      RemoveEachIsWithout(RemoveFirst(s, xs[0]), xs[1..]);
      WithoutTwice(s, {xs[0]}, Elems(xs[1..]));
    }
  }

  /** When the list mirrors the top of a stack without repeats, stopping
      leaves exactly the view controllers below it. */
  lemma NavStopLeavesBelow(n: Nav, below: seq<VcId>)
    requires n.stack == below + n.vcs && Distinct(n.stack)
    ensures NavStop(n).stack == below
  {
    var own := Elems(n.vcs);
    RemoveEachIsWithout(n.stack, n.vcs);
    WithoutAppend(below, n.vcs, own);
    forall i | 0 <= i < |below| ensures below[i] !in own {
      NotInTop(below, n.vcs, i);
    }
    WithoutNothing(below, own);
    OwnAllDropped(n.vcs, own);
  }

  /** In a stack without repeats, nothing below the list is in the list. */
  lemma NotInTop(below: seq<VcId>, vcs: seq<VcId>, i: nat)
    requires Distinct(below + vcs) && i < |below|
    ensures below[i] !in vcs
  {
    var s := below + vcs;
    forall k | 0 <= k < |vcs| ensures vcs[k] != below[i] {
      assert s[i] == below[i] && s[|below| + k] == vcs[k];
    }
  }

  /** In a stack without repeats, the list's element at stack position `j`
      first occurs in the list at `j - |below|`. */
  lemma InTopAt(below: seq<VcId>, vcs: seq<VcId>, j: nat)
    requires Distinct(below + vcs) && |below| <= j < |below| + |vcs|
    ensures (below + vcs)[j] == vcs[j - |below|]
    ensures IndexOf(vcs, vcs[j - |below|]) == j - |below|
  {
    var s := below + vcs;
    assert Distinct(vcs) by {
      forall a, b | 0 <= a < b < |vcs| ensures vcs[a] != vcs[b] {
        assert s[|below| + a] == vcs[a] && s[|below| + b] == vcs[b];
      }
    }
    IndexOfDistinct(vcs, j - |below|);
  }

  /** A list is the top of any stack it ends. */
  lemma EndsMirror(below: seq<VcId>, vcs: seq<VcId>)
    ensures Mirrors(vcs, below + vcs)
  {
    assert (below + vcs)[|below|..] == vcs;
  }

  lemma {:induction false} OwnAllDropped(s: seq<VcId>, own: set<VcId>)
    requires forall i :: 0 <= i < |s| ==> s[i] in own
    ensures Without(s, own) == []
    decreases |s|
  {
    if |s| > 0 {
      OwnAllDropped(s[1..], own);
    }
  }

  /** `activate()`: takes the root back, becomes delegate again, and the
      stack is set to the coordinator's list. */
  function NavActivate(n: Nav): (r: Nav)
    ensures r.isDelegate && r.coord == Activate(n.coord)
    ensures r.vcs == n.vcs && Mirrors(r.vcs, r.stack) && |r.stack| == |r.vcs|
  {
    n.(coord := Activate(n.coord), isDelegate := true, stack := n.vcs)
  }

  /** What `didShowController` did: the new state, whether it saw a pop and
      called `handlePopBack(to:)` with the list's new last element, and
      whether it told a parent that this coordinator finished (a coordinator
      without a parent tells no one). */
  datatype Shown = Shown(nav: Nav, poppedBack: bool, backTo: Option<VcId>, finished: bool)

  function Last(s: seq<VcId>): Option<VcId> {
    if |s| == 0 then None else Some(s[|s| - 1])
  }

  /** `didShowController(_:fromViewController:)` as written: a nil or
      foreign `from` is ignored; when `from` is the list's last element that
      one element is removed (a pop); the parent, if there is one, is told
      when the list ends up empty. The stack is the navigation controller's, already changed. */
  function DidShowController(n: Nav, shown: VcId, from: Option<VcId>): (r: Shown)
    ensures from.None? || from.value !in n.vcs ==> r == Shown(n, false, None, false)
    ensures r.poppedBack <==> from.Some? && |n.vcs| > 0 && Last(n.vcs) == from
    ensures r.poppedBack ==> r.nav.vcs == n.vcs[..|n.vcs| - 1] && r.backTo == Last(r.nav.vcs)
    ensures !r.poppedBack ==> r.nav == n
    ensures r.finished <==> r.poppedBack && |n.vcs| == 1 && n.coord.parent.Some?
    ensures r.nav.stack == n.stack && r.nav.coord == n.coord
  {
    if from.None? || from.value !in n.vcs then Shown(n, false, None, false)
    else if Last(n.vcs) == from then
      var vcs := n.vcs[..|n.vcs| - 1];
      Shown(n.(vcs := vcs), true, Last(vcs), |vcs| == 0 && n.coord.parent.Some?)
    else Shown(n, false, None, false)
  }

  /** The list after a pop that showed `shown`, as the stack has it: cut
      just after `shown` when the coordinator owns it, empty otherwise. */
  function KeepThrough(vcs: seq<VcId>, shown: VcId): (r: seq<VcId>)
    ensures shown in vcs ==> r == vcs[..IndexOf(vcs, shown) + 1]
    ensures shown !in vcs ==> r == []
  {
    if shown in vcs then vcs[..IndexOf(vcs, shown) + 1] else []
  }

  /** `didShowController` corrected: on a pop, everything above the shown
      view controller leaves the list, however many the pop took. */
  function DidShowControllerFixed(n: Nav, shown: VcId, from: Option<VcId>): (r: Shown)
    ensures from.None? || from.value !in n.vcs ==> r == Shown(n, false, None, false)
    ensures r.poppedBack <==> from.Some? && |n.vcs| > 0 && Last(n.vcs) == from
    ensures r.poppedBack ==> r.nav.vcs == KeepThrough(n.vcs, shown) && r.backTo == Last(r.nav.vcs)
    ensures !r.poppedBack ==> r.nav == n
    ensures r.finished <==> r.poppedBack && shown !in n.vcs && n.coord.parent.Some?
    ensures r.nav.stack == n.stack && r.nav.coord == n.coord
  {
    if from.None? || from.value !in n.vcs then Shown(n, false, None, false)
    else if Last(n.vcs) == from then
      var vcs := KeepThrough(n.vcs, shown);
      Shown(n.(vcs := vcs), true, Last(vcs), |vcs| == 0 && n.coord.parent.Some?)
    else Shown(n, false, None, false)
  }

  /** The navigation controller pops to `shown` (the top before the pop is
      `from`), then reports it to the delegate. */
  function UserPop(n: Nav, shown: VcId): (r: Nav)
    requires |n.stack| > 0
  {
    n.(stack := StackPopTo(n.stack, shown))
  }

  /** Agreement kept: whenever the list mirrors the top of a stack without
      repeats and the stack pops to any view controller below its top, the
      corrected handler leaves the list mirroring the new stack. */
  lemma FixedKeepsMirror(n: Nav, below: seq<VcId>, shown: VcId)
    requires n.stack == below + n.vcs && Distinct(n.stack) && |n.vcs| > 0
    requires shown in n.stack[..|n.stack| - 1]
    ensures var popped := UserPop(n, shown);
      var r := DidShowControllerFixed(popped, shown, Some(n.stack[|n.stack| - 1]));
      r.poppedBack && Mirrors(r.nav.vcs, r.nav.stack)
  {
    var top := n.stack[|n.stack| - 1];
    assert top == n.vcs[|n.vcs| - 1];
    FixedMirrorSeq(below, n.vcs, shown);
  }

  /** The same agreement on the sequences alone: the list cut through
      `shown` is the top of the stack popped to `shown`. */
  lemma FixedMirrorSeq(below: seq<VcId>, vcs: seq<VcId>, shown: VcId)
    requires Distinct(below + vcs) && |vcs| > 0
    requires shown in (below + vcs)[..|below| + |vcs| - 1]
    ensures Mirrors(KeepThrough(vcs, shown), StackPopTo(below + vcs, shown))
  {
    var j := PopBelowTop(below + vcs, shown);
    if j < |below| {
      assert shown == below[j];
      BelowKeepsNothing(below, vcs, j);
      EmptyMirrors((below + vcs)[..j + 1]);
    } else {
      assert shown == vcs[j - |below|];
      TopKeepsPrefix(below, vcs, j);
    }
  }

  /** A pop to a view controller below the list leaves the list empty. */
  lemma BelowKeepsNothing(below: seq<VcId>, vcs: seq<VcId>, j: nat)
    requires Distinct(below + vcs) && j < |below|
    ensures KeepThrough(vcs, below[j]) == []
  {
    NotInTop(below, vcs, j);
  }

  lemma EmptyMirrors(stack: seq<VcId>)
    ensures Mirrors([], stack)
  {
    assert stack[|stack|..] == [];
  }

  /** A pop to the list's view controller at stack position `j` cuts list
      and stack at the same place. */
  lemma TopKeepsPrefix(below: seq<VcId>, vcs: seq<VcId>, j: nat)
    requires Distinct(below + vcs) && |below| <= j < |below| + |vcs|
    ensures Mirrors(KeepThrough(vcs, vcs[j - |below|]), (below + vcs)[..j + 1])
  {
    InTopAt(below, vcs, j);
    EndsMirror(below, vcs);
    MirrorPrefix(vcs, below + vcs, j - |below| + 1, j + 1);
  }

  /** Popping a stack without repeats to a view controller below its top
      cuts it just after that controller's position. */
  lemma PopBelowTop(stack: seq<VcId>, shown: VcId) returns (j: nat)
    requires Distinct(stack) && |stack| > 0 && shown in stack[..|stack| - 1]
    ensures j < |stack| - 1 && stack[j] == shown
    ensures StackPopTo(stack, shown) == stack[..j + 1]
  {
    var idx :| 0 <= idx < |stack| - 1 && stack[..|stack| - 1][idx] == shown;
    assert stack[idx] == shown;
    j := IndexOf(stack, shown);
  }

  /** The library's own navigation test: three view controllers shown, then
      a pop to the root. The handler as written removes only the one that
      was on top, so the list keeps a view controller the stack has lost. */
  lemma PopToRootAsWritten(a: VcId, b: VcId, c: VcId, n: Nav)
    requires a != b && b != c && a != c
    requires n.vcs == [a, b, c] && n.stack == [a, b, c]
    ensures var r := DidShowController(UserPop(n, a), a, Some(c));
      r.nav.vcs == [a, b] && r.nav.stack == [a] && !Mirrors(r.nav.vcs, r.nav.stack)
  {
    assert IndexOf(n.stack, a) == 0;
  }

  /** The same pop to the root with the corrected handler: list and stack
      are both `[a]`. */
  lemma PopToRootFixed(a: VcId, b: VcId, c: VcId, n: Nav)
    requires a != b && b != c && a != c
    requires n.vcs == [a, b, c] && n.stack == [a, b, c]
    ensures var r := DidShowControllerFixed(UserPop(n, a), a, Some(c));
      r.nav.vcs == [a] && r.nav.stack == [a] && !r.finished
  {
    assert IndexOf(n.stack, a) == 0;
    assert IndexOf(n.vcs, a) == 0;
  }

  /** For the back button (a pop of exactly one), both handlers agree. */
  lemma SinglePopAgrees(n: Nav, shown: VcId, from: VcId)
    requires Distinct(n.vcs) && |n.vcs| >= 2
    requires n.vcs[|n.vcs| - 2] == shown && n.vcs[|n.vcs| - 1] == from
    ensures DidShowController(n, shown, Some(from)) == DidShowControllerFixed(n, shown, Some(from))
  {
    IndexOfDistinct(n.vcs, |n.vcs| - 2);
    assert n.vcs[..|n.vcs| - 2 + 1] == n.vcs[..|n.vcs| - 1];
  }

  /** After the coordinator's own `pop(to:)`, the top it popped is no longer
      in its list, so the report of that transition changes nothing. */
  lemma PopToThenShowIsQuiet(n: Nav, vc: VcId)
    requires Distinct(n.vcs) && |n.vcs| > 0 && vc in n.vcs[..|n.vcs| - 1]
    ensures var p := PopTo(n, vc);
      DidShowController(p, vc, Some(n.vcs[|n.vcs| - 1])).nav == p
      && DidShowControllerFixed(p, vc, Some(n.vcs[|n.vcs| - 1])).nav == p
  {
    var p := PopTo(n, vc);
    var top := n.vcs[|n.vcs| - 1];
    var i := IndexOf(n.vcs, vc);
    IndexOfDistinct(n.vcs, |n.vcs| - 1);
    assert i < |n.vcs| - 1;
    assert p.vcs == n.vcs[..i + 1];
    forall k | 0 <= k < |p.vcs| ensures p.vcs[k] != top {
      assert p.vcs[k] == n.vcs[k];
    }
  }

  /** `show` keeps the list mirroring the stack. */
  lemma ShowKeepsMirror(n: Nav, vc: VcId)
    requires Mirrors(n.vcs, n.stack)
    ensures Mirrors(Show(n, vc).vcs, Show(n, vc).stack)
  {
    var r := Show(n, vc);
    assert r.stack[|r.stack| - |r.vcs|..] == n.stack[|n.stack| - |n.vcs|..] + [vc];
  }

  /** `top` keeps the list mirroring the stack. */
  lemma TopKeepsMirror(n: Nav, vc: VcId)
    requires Mirrors(n.vcs, n.stack)
    ensures Mirrors(Top(n, vc).vcs, Top(n, vc).stack)
  {
    if |n.vcs| > 0 {
      var m := n.(vcs := n.vcs[..|n.vcs| - 1], stack := n.stack[..|n.stack| - 1]);
      var d := |n.stack| - |n.vcs|;
      forall k | 0 <= k < |m.vcs| ensures m.stack[d + k] == m.vcs[k] {
        assert n.stack[d + k] == n.vcs[k];
      }
      assert m.stack[|m.stack| - |m.vcs|..] == m.vcs;
      ShowKeepsMirror(m, vc);
    }
  }

  /** Cutting the list after its `j`-th element and the stack at the same
      place keeps the one the top of the other. */
  lemma MirrorPrefix(vcs: seq<VcId>, stack: seq<VcId>, j: nat, cut: nat)
    requires Mirrors(vcs, stack) && j <= |vcs| && cut == |stack| - |vcs| + j
    ensures Mirrors(vcs[..j], stack[..cut])
  {
    var below := |stack| - |vcs|;
    var top := stack[..cut];
    forall k | 0 <= k < j ensures top[below + k] == vcs[..j][k] {
      assert stack[below + k] == vcs[k];
    }
    assert top[|top| - j..] == vcs[..j];
  }

  /** `pop(to:)` keeps the list mirroring a stack without repeats. */
  lemma PopToKeepsMirror(n: Nav, vc: VcId)
    requires Mirrors(n.vcs, n.stack) && Distinct(n.stack)
    ensures Mirrors(PopTo(n, vc).vcs, PopTo(n, vc).stack)
  {
    if vc in n.vcs {
      PopToMirrorSeq(n.vcs, n.stack, vc);
    }
  }

  /** The same on the sequences alone: the list cut just after `vc` is the
      top of the stack popped to `vc`. */
  lemma PopToMirrorSeq(vcs: seq<VcId>, stack: seq<VcId>, vc: VcId)
    requires Mirrors(vcs, stack) && Distinct(stack) && vc in vcs
    ensures Mirrors(vcs[..IndexOf(vcs, vc) + 1], StackPopTo(stack, vc))
  {
    var i := IndexOf(vcs, vc);
    var at := |stack| - |vcs| + i;
    assert stack[at] == vcs[i];
    IndexOfDistinct(stack, at);
    MirrorPrefix(vcs, stack, i + 1, at + 1);
  }
}
