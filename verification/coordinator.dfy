/** The bookkeeping of a `Coordinator`: its lifecycle flags, the children
    it keeps keyed by identifier, and the queue of messages waiting for a
    dependency. Coordinators are named by opaque ids and live in a system
    map from id to state; queued closures are opaque messages. */
module Coordinators {
  import opened Results

  type CoordId = nat

  /** A queued `CoordinatingQueuedMessage`, identified opaquely. */
  type Msg = nat

  /** A root view controller, identified opaquely. */
  type RootId = nat

  /** One coordinator. `root` is its root view controller, which other
      coordinators may share; `ownsRoot` records that the root's single
      `parentCoordinator` slot holds this coordinator. The record-level
      operations below change one coordinator; the system-level ones keep
      every coordinator on a shared root in step with that one slot. */
  datatype Coord = Coord(
    identifier: string,
    root: RootId,
    isStarted: bool,
    ownsRoot: bool,
    parent: Option<CoordId>,
    children: map<string, CoordId>,
    queue: seq<Msg>)

  /** A freshly initialised coordinator: not started, no parent, no children,
      nothing queued. */
  function NewCoord(identifier: string, root: RootId): (c: Coord)
    ensures c.identifier == identifier && c.root == root
    ensures !c.isStarted && !c.ownsRoot && c.parent == None
    ensures c.children == map[] && c.queue == []
  {
    Coord(identifier, root, false, false, None, map[], [])
  }

  /** `start(with:)`: takes over the root and records that it started. */
  function Start(c: Coord): (r: Coord)
    ensures r.isStarted && r.ownsRoot
    ensures r.identifier == c.identifier && r.root == c.root && r.parent == c.parent
    ensures r.children == c.children && r.queue == c.queue
  {
    c.(ownsRoot := true, isStarted := true)
  }

  /** `stop(with:)`: gives up the root. `isStarted` is left as it was. */
  function Stop(c: Coord): (r: Coord)
    ensures !r.ownsRoot
    ensures r.isStarted == c.isStarted
    ensures r.identifier == c.identifier && r.root == c.root && r.parent == c.parent
    ensures r.children == c.children && r.queue == c.queue
  {
    c.(ownsRoot := false)
  }

  /** `activate()`: takes the root back without touching anything else. */
  function Activate(c: Coord): (r: Coord)
    ensures r.ownsRoot
    ensures r.isStarted == c.isStarted
    ensures r.identifier == c.identifier && r.root == c.root && r.parent == c.parent
    ensures r.children == c.children && r.queue == c.queue
  {
    c.(ownsRoot := true)
  }

  /** Stopping and re-activating restores the coordinator when it owned the
      root before. */
  lemma StopThenActivate(c: Coord)
    requires c.ownsRoot
    ensures Activate(Stop(c)) == c
  {
  }

  /** A new coordinator becomes started only through `start`. */
  lemma StartedOnlyByStart(id: string, root: RootId)
    ensures !NewCoord(id, root).isStarted
    ensures !Stop(NewCoord(id, root)).isStarted && !Activate(NewCoord(id, root)).isStarted
    ensures Start(NewCoord(id, root)).isStarted
  {
  }

  type System = map<CoordId, Coord>

  /** No two coordinators on one root both believe they own it. */
  predicate OneOwner(sys: System) {
    forall a, b :: a in sys && b in sys && a != b && sys[a].root == sys[b].root && sys[a].ownsRoot ==> !sys[b].ownsRoot
  }

  /** Writes `who` (nil when `None`) into the `parentCoordinator` slot of
      `root`: a coordinator on that root owns it exactly when it is `who`;
      coordinators on other roots are untouched. */
  function SetSlot(sys: System, root: RootId, who: Option<CoordId>): (r: System)
    ensures r.Keys == sys.Keys
    ensures forall id :: id in r && sys[id].root == root ==> r[id] == sys[id].(ownsRoot := who == Some(id))
    ensures forall id :: id in r && sys[id].root != root ==> r[id] == sys[id]
  {
    map id | id in sys :: if sys[id].root == root then sys[id].(ownsRoot := who == Some(id)) else sys[id]
  }

  /** Writing the slot leaves at most one owner of every root. */
  lemma SetSlotOneOwner(sys: System, root: RootId, who: Option<CoordId>)
    requires OneOwner(sys)
    ensures OneOwner(SetSlot(sys, root, who))
  {
    var r := SetSlot(sys, root, who);
    forall a, b | a in r && b in r && a != b && r[a].root == r[b].root && r[a].ownsRoot
      ensures !r[b].ownsRoot
    {
      assert r[a].root == sys[a].root && r[b].root == sys[b].root;
    }
  }

  /** `start(with:)` of coordinator `c` in a system: its root's slot now
      holds `c`, so every other coordinator on that root loses it. */
  function StartIn(sys: System, c: CoordId): (r: System)
    requires c in sys
    ensures r.Keys == sys.Keys
    ensures r[c] == Start(sys[c])
    ensures forall id :: id in r ==> r[id].root == sys[id].root
    ensures forall id :: id in r ==>
      r[id].ownsRoot == (id == c || (sys[id].ownsRoot && sys[id].root != sys[c].root))
    ensures forall id :: id in r && id != c && sys[id].root == sys[c].root ==> r[id] == sys[id].(ownsRoot := false)
    ensures forall id :: id in r && sys[id].root != sys[c].root ==> r[id] == sys[id]
  {
    var s := SetSlot(sys, sys[c].root, Some(c));
    s[c := s[c].(isStarted := true)]
  }

  /** `stop(with:)` of coordinator `c` in a system: its root's slot is
      cleared, so no coordinator on that root owns it any more. */
  function StopIn(sys: System, c: CoordId): (r: System)
    requires c in sys
    ensures r.Keys == sys.Keys
    ensures r[c] == Stop(sys[c])
    ensures forall id :: id in r ==> r[id].root == sys[id].root
    ensures forall id :: id in r ==> r[id].ownsRoot == (sys[id].ownsRoot && sys[id].root != sys[c].root)
    ensures forall id :: id in r && sys[id].root == sys[c].root ==> r[id] == sys[id].(ownsRoot := false)
    ensures forall id :: id in r && sys[id].root != sys[c].root ==> r[id] == sys[id]
  {
    SetSlot(sys, sys[c].root, None)
  }

  /** `activate()` of coordinator `c` in a system: it takes its root back
      from whichever coordinator on that root held it. */
  function ActivateIn(sys: System, c: CoordId): (r: System)
    requires c in sys
    ensures r.Keys == sys.Keys
    ensures r[c] == Activate(sys[c])
    ensures forall id :: id in r && id != c && sys[id].root == sys[c].root ==> r[id] == sys[id].(ownsRoot := false)
    ensures forall id :: id in r && sys[id].root != sys[c].root ==> r[id] == sys[id]
  {
    SetSlot(sys, sys[c].root, Some(c))
  }

  /** Start, stop and activate keep every root with at most one owner. */
  lemma LifecycleKeepsOneOwner(sys: System, c: CoordId)
    requires c in sys && OneOwner(sys)
    ensures OneOwner(StartIn(sys, c)) && OneOwner(StopIn(sys, c)) && OneOwner(ActivateIn(sys, c))
  {
    SetSlotOneOwner(sys, sys[c].root, Some(c));
    SetSlotOneOwner(sys, sys[c].root, None);
    var s := SetSlot(sys, sys[c].root, Some(c));
    assert StartIn(sys, c) == s[c := s[c].(isStarted := true)];
    forall a, b | a in StartIn(sys, c) && b in StartIn(sys, c) && a != b
        && StartIn(sys, c)[a].root == StartIn(sys, c)[b].root && StartIn(sys, c)[a].ownsRoot
      ensures !StartIn(sys, c)[b].ownsRoot
    {
      assert s[a].root == StartIn(sys, c)[a].root && s[b].root == StartIn(sys, c)[b].root;
      assert s[a].ownsRoot == StartIn(sys, c)[a].ownsRoot && s[b].ownsRoot == StartIn(sys, c)[b].ownsRoot;
    }
  }

  /** In a system where `c` owns its root, stopping `c` and activating it
      again restores the whole system. */
  lemma StopInThenActivateIn(sys: System, c: CoordId)
    requires c in sys && OneOwner(sys) && sys[c].ownsRoot
    ensures ActivateIn(StopIn(sys, c), c) == sys
  {
    var r := ActivateIn(StopIn(sys, c), c);
    forall id | id in sys ensures r[id] == sys[id] {
      if id != c && sys[id].root == sys[c].root {
        assert !sys[id].ownsRoot;
      }
    }
  }

  /** `startChild(coordinator:)`: the child is stored under its identifier
      (replacing any coordinator already there), its parent becomes `p`, and
      it is started, taking its root's slot from every coordinator sharing
      that root, the parent included. */
  function StartChild(sys: System, p: CoordId, child: CoordId): (r: System)
    requires p in sys && child in sys
    ensures r.Keys == sys.Keys
    ensures r[child].isStarted && r[child].ownsRoot && r[child].parent == Some(p)
    ensures forall id :: id in r ==> r[id].root == sys[id].root
    ensures forall id :: id in r ==>
      r[id].ownsRoot == (id == child || (sys[id].ownsRoot && sys[id].root != sys[child].root))
    ensures sys[child].identifier in r[p].children && r[p].children[sys[child].identifier] == child
    ensures p != child ==> r[p].children == sys[p].children[sys[child].identifier := child]
    ensures p != child ==> r[p].ownsRoot == (sys[p].ownsRoot && sys[p].root != sys[child].root)
    ensures p != child ==> r[p].(children := sys[p].children, ownsRoot := sys[p].ownsRoot) == sys[p]
    ensures p != child ==> r[child].children == sys[child].children
    ensures forall id :: id in r && id != p && id != child ==>
      r[id] == sys[id].(ownsRoot := sys[id].ownsRoot && sys[id].root != sys[child].root)
  {
    StartIn(Adopt(sys, p, child), child)
  }

  /** The bookkeeping half of `startChild`: `p` records the child under its
      identifier and the child records `p` as its parent. */
  function Adopt(sys: System, p: CoordId, child: CoordId): (r: System)
    requires p in sys && child in sys
    ensures r.Keys == sys.Keys
    ensures forall id :: id in r ==> r[id].root == sys[id].root && r[id].ownsRoot == sys[id].ownsRoot
    ensures forall id :: id in r ==> r[id].identifier == sys[id].identifier && r[id].isStarted == sys[id].isStarted
    ensures r[child].parent == Some(p)
    ensures r[p].children == sys[p].children[sys[child].identifier := child]
    ensures p != child ==> r[p] == sys[p].(children := sys[p].children[sys[child].identifier := child])
    ensures p != child ==> r[child] == sys[child].(parent := Some(p))
    ensures forall id :: id in r && id != p && id != child ==> r[id] == sys[id]
  {
    var s1 := sys[p := sys[p].(children := sys[p].children[sys[child].identifier := child])];
    s1[child := s1[child].(parent := Some(p))]
  }

  /** `stopChild(coordinator:)`: the child loses its parent and is stopped,
      which clears its root's slot for every coordinator on that root; the
      completion of its stop then removes the child's identifier, and only
      that one, from `p`'s children. */
  function StopChild(sys: System, p: CoordId, child: CoordId): (r: System)
    requires p in sys && child in sys
    ensures r.Keys == sys.Keys
    ensures r[child].parent == None && !r[child].ownsRoot
    ensures forall id :: id in r ==> r[id].root == sys[id].root
    ensures forall id :: id in r ==> r[id].ownsRoot == (sys[id].ownsRoot && sys[id].root != sys[child].root)
    ensures r[child].isStarted == sys[child].isStarted
    ensures sys[child].identifier !in r[p].children
    ensures p != child ==> r[p].children == sys[p].children - {sys[child].identifier}
    ensures p != child ==> r[p].ownsRoot == (sys[p].ownsRoot && sys[p].root != sys[child].root)
    ensures p != child ==> r[p].(children := sys[p].children, ownsRoot := sys[p].ownsRoot) == sys[p]
    ensures forall id :: id in r && id != p && id != child ==>
      r[id] == sys[id].(ownsRoot := sys[id].ownsRoot && sys[id].root != sys[child].root)
  {
    Forget(StopIn(Orphan(sys, child), child), p, sys[child].identifier)
  }

  /** The first line of `stopChild`: the child no longer has a parent. */
  function Orphan(sys: System, child: CoordId): (r: System)
    requires child in sys
    ensures r.Keys == sys.Keys
    ensures r[child] == sys[child].(parent := None)
    ensures forall id :: id in r && id != child ==> r[id] == sys[id]
  {
    sys[child := sys[child].(parent := None)]
  }

  /** The completion of the child's stop: `p` forgets `identifier`. */
  function Forget(sys: System, p: CoordId, identifier: string): (r: System)
    requires p in sys
    ensures r.Keys == sys.Keys
    ensures r[p] == sys[p].(children := sys[p].children - {identifier})
    ensures forall id :: id in r && id != p ==> r[id] == sys[id]
  {
    sys[p := sys[p].(children := sys[p].children - {identifier})]
  }

  /** Starting and stopping children keeps every root with at most one owner. */
  lemma ChildrenKeepOneOwner(sys: System, p: CoordId, child: CoordId)
    requires p in sys && child in sys && OneOwner(sys)
    ensures OneOwner(StartChild(sys, p, child)) && OneOwner(StopChild(sys, p, child))
  {
    var r := StartChild(sys, p, child);
    forall a, b | a in r && b in r && a != b && r[a].root == r[b].root && r[a].ownsRoot
      ensures !r[b].ownsRoot
    {
      assert sys[a].root == sys[b].root;
    }
  }

  /** `coordinatorDidFinish(_:)`: the default is exactly `stopChild`. */
  function CoordinatorDidFinish(sys: System, p: CoordId, child: CoordId): (r: System)
    requires p in sys && child in sys
    ensures r == StopChild(sys, p, child)
  {
    StopChild(sys, p, child)
  }

  /** Starting a child under a free identifier and then stopping it leaves
      the parent's children as they were and the child detached. The parent
      keeps its root when the child had a root of its own; on a shared root
      the slot ends up empty, and re-activating the parent restores it. */
  lemma StartStopChild(sys: System, p: CoordId, child: CoordId)
    requires p in sys && child in sys && p != child
    requires sys[child].identifier !in sys[p].children
    ensures var after := StopChild(StartChild(sys, p, child), p, child);
      && after[p] == sys[p].(ownsRoot := sys[p].ownsRoot && sys[p].root != sys[child].root)
      && after[child].parent == None
      && (sys[p].ownsRoot ==> ActivateIn(after, p)[p] == sys[p])
  {
    var id := sys[child].identifier;
    var started := StartChild(sys, p, child);
    var after := StopChild(started, p, child);
    assert started[p].children == sys[p].children[id := child];
    AddThenRemove(sys[p].children, id, child);
    assert after[p].children == sys[p].children;
    var kept := sys[p].ownsRoot && sys[p].root != sys[child].root;
    assert started[p].root == sys[p].root && started[child].root == sys[child].root;
    assert after[p].ownsRoot == kept;
    assert after[p] == sys[p].(ownsRoot := kept);
    if sys[p].ownsRoot {
      assert ActivateIn(after, p)[p] == Activate(after[p]);
    }
  }

  /** Registering a fresh identifier and removing it again leaves the
      children map as it was. */
  lemma AddThenRemove(children: map<string, CoordId>, id: string, child: CoordId)
    requires id !in children
    ensures children[id := child] - {id} == children
  {
    assert (children[id := child] - {id}).Keys == children.Keys;
  }

  /** A child started on its parent's root takes the root over, so the
      parent no longer owns it; stopping the child leaves the root with no
      owner at all. */
  lemma ChildOnSharedRoot(sys: System, p: CoordId, child: CoordId)
    requires p in sys && child in sys && p != child
    requires sys[p].root == sys[child].root && sys[p].ownsRoot
    ensures StartChild(sys, p, child)[child].ownsRoot && !StartChild(sys, p, child)[p].ownsRoot
    ensures var after := StopChild(StartChild(sys, p, child), p, child);
      forall id :: id in after && after[id].root == sys[p].root ==> !after[id].ownsRoot
  {
    var started := StartChild(sys, p, child);
    var after := StopChild(started, p, child);
    forall id | id in after && after[id].root == sys[p].root ensures !after[id].ownsRoot {
      assert after[id].root == started[id].root == sys[id].root;
    }
  }

  /** A second child with the same identifier replaces the first in the
      parent's map; the first keeps believing `p` is its parent. */
  lemma SameIdentifierReplaces(sys: System, p: CoordId, c1: CoordId, c2: CoordId)
    requires p in sys && c1 in sys && c2 in sys
    requires p != c1 && p != c2 && c1 != c2
    requires sys[c1].identifier == sys[c2].identifier
    ensures var r := StartChild(StartChild(sys, p, c1), p, c2);
      r[p].children[sys[c1].identifier] == c2 && r[c1].parent == Some(p)
  {
  }

  /** `enqueueMessage(_:)`: the message goes to the back of the queue. */
  function Enqueue(c: Coord, m: Msg): (r: Coord)
    ensures |r.queue| == |c.queue| + 1
    ensures r.queue[..|c.queue|] == c.queue && r.queue[|c.queue|] == m
    ensures r.(queue := c.queue) == c
  {
    c.(queue := c.queue + [m])
  }

  /** The messages a pass leaves queued: what each message of the snapshot
      enqueues while it runs, in the order the snapshot runs. */
  function Requeued(snapshot: seq<Msg>, run: Msg -> seq<Msg>): seq<Msg> {
    if |snapshot| == 0 then [] else run(snapshot[0]) + Requeued(snapshot[1..], run)
  }

  lemma {:induction false} RequeuedAppend(a: seq<Msg>, b: seq<Msg>, run: Msg -> seq<Msg>)
    ensures Requeued(a + b, run) == Requeued(a, run) + Requeued(b, run)
    decreases |a|
  {
    if |a| == 0 {
      assert a + b == b;
    } else {
      assert (a + b)[1..] == a[1..] + b;
      RequeuedAppend(a[1..], b, run);
    }
  }

  /** `processQueuedMessages()`: the queue is snapshotted and cleared, then
      every snapshot message runs once, first in first out. A message run
      may enqueue further messages (`run(m)` lists them); those stay queued
      for the next pass instead of running in this one. */
  method ProcessQueuedMessages(c: Coord, run: Msg -> seq<Msg>) returns (executed: seq<Msg>, r: Coord)
    ensures executed == c.queue
    ensures r.queue == Requeued(c.queue, run)
    ensures r.(queue := c.queue) == c
  {
    var snapshot := c.queue;
    r := c.(queue := []);
    executed := [];
    var i := 0;
    while i < |snapshot|
      invariant 0 <= i <= |snapshot|
      invariant executed == snapshot[..i]
      invariant r.queue == Requeued(snapshot[..i], run)
      invariant r.(queue := c.queue) == c
    {
      var m := snapshot[i];
      executed := executed + [m];
      RequeuedAppend(snapshot[..i], [m], run);
      assert snapshot[..i + 1] == snapshot[..i] + [m];
      assert Requeued([m], run) == run(m);
      r := r.(queue := r.queue + run(m));
      i := i + 1;
    }
    assert snapshot[..i] == snapshot;
  }

  /** When no message enqueues anything, a pass empties the queue. */
  lemma {:induction false} QuietPassEmpties(q: seq<Msg>, run: Msg -> seq<Msg>)
    requires forall m :: run(m) == []
    ensures Requeued(q, run) == []
    decreases |q|
  {
    if |q| > 0 {
      QuietPassEmpties(q[1..], run);
    }
  }

  /** A message enqueued before a pass runs after all earlier ones, and what
      it enqueues ends the next queue. */
  lemma EnqueuedRunsLast(c: Coord, m: Msg, run: Msg -> seq<Msg>)
    ensures Requeued(Enqueue(c, m).queue, run) == Requeued(c.queue, run) + run(m)
  {
    RequeuedAppend(c.queue, [m], run);
    assert Requeued([m], run) == run(m);
  }
}
