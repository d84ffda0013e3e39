/**
  What becomes of a graph whose edges were dropped under its position indexes: no later change
  repairs it, and once it has grown back it answers wrongly without a panic.
 */
module StaleIndex {
  import opened Common
  import opened Paths
  import opened Graph

  // ----- counting positions

  /** How many positions an index holds for the entities below n. */
  function HeldBelow(index: Index, n: nat): nat {
    if n == 0 then 0 else HeldBelow(index, n - 1) + |Held(index, n - 1)|
  }

  /** How many edges scans find for the entities below n. */
  function ScannedBelow(edges: seq<Edge>, dir: Direction, n: nat): nat {
    if n == 0 then 0 else ScannedBelow(edges, dir, n - 1) + |Scan(edges, dir, n - 1)|
  }

  lemma {:induction false} ScannedPushed(edges: seq<Edge>, edge: Edge, dir: Direction, n: nat)
    ensures ScannedBelow(edges + [edge], dir, n) ==
      ScannedBelow(edges, dir, n) + if Near(dir, edge) < n then 1 else 0
  {
    if n > 0 {
      ScannedPushed(edges, edge, dir, n - 1);
      assert (edges + [edge])[..|edges|] == edges;
    }
  }

  /** Scans find every edge once at most, and exactly once if n is large enough. */
  lemma {:induction false} ScannedOnce(edges: seq<Edge>, dir: Direction, n: nat)
    ensures ScannedBelow(edges, dir, n) <= |edges|
    ensures (forall e :: e in edges ==> Near(dir, e) < n) ==> ScannedBelow(edges, dir, n) == |edges|
  {
    if edges == [] {
      NothingScanned(dir, n);
    } else {
      var last := |edges| - 1;
      ScannedOnce(edges[..last], dir, n);
      ScannedPushed(edges[..last], edges[last], dir, n);
      assert edges == edges[..last] + [edges[last]];
    }
  }

  lemma {:induction false} NothingScanned(dir: Direction, n: nat)
    ensures ScannedBelow([], dir, n) == 0
  {
    if n > 0 {
      NothingScanned(dir, n - 1);
    }
  }

  lemma {:induction false} NearBound(edges: seq<Edge>, dir: Direction) returns (n: nat)
    ensures forall e :: e in edges ==> Near(dir, e) < n
  {
    if edges == [] {
      n := 0;
    } else {
      var last := |edges| - 1;
      var m := NearBound(edges[..last], dir);
      n := Max(m, Near(dir, edges[last]) + 1);
      assert edges == edges[..last] + [edges[last]];
    }
  }

  lemma {:induction false} FaithfulCounts(edges: seq<Edge>, index: Index, dir: Direction, n: nat)
    requires Faithful(edges, index, dir)
    ensures HeldBelow(index, n) == ScannedBelow(edges, dir, n)
  {
    if n > 0 {
      FaithfulCounts(edges, index, dir, n - 1);
      assert Lookup(edges, index, n - 1) == Some(Scan(edges, dir, n - 1));
    }
  }

  lemma {:induction false} HeldPushed(index: Index, x: EntityId, position: nat, n: nat)
    ensures HeldBelow(Pushed(index, x, position), n) == HeldBelow(index, n) + if x < n then 1 else 0
  {
    if n > 0 {
      HeldPushed(index, x, position, n - 1);
    }
  }

  lemma {:induction false} HeldGrows(index: Index, m: nat, n: nat)
    requires m <= n
    ensures HeldBelow(index, m) <= HeldBelow(index, n)
    decreases n - m
  {
    if m < n {
      HeldGrows(index, m, n - 1);
    }
  }

  // ----- no change repairs it

  /** The index holds more positions than there are edges. */
  ghost predicate Overfull(edges: seq<Edge>, index: Index) {
    exists n: nat :: HeldBelow(index, n) > |edges|
  }

  lemma OverfullDisagrees(edges: seq<Edge>, index: Index, dir: Direction)
    requires Overfull(edges, index)
    ensures !Faithful(edges, index, dir)
  {
    var n: nat :| HeldBelow(index, n) > |edges|;
    ScannedOnce(edges, dir, n);
    if Faithful(edges, index, dir) {
      FaithfulCounts(edges, index, dir, n);
    }
  }

  lemma DropOverfills(s: State, origin: string, keep: set<EdgeId>, dir: Direction)
    requires WellIndexed(s.edges, s.outgoing, s.incoming) && !KeepsAll(s.edges, origin, keep)
    ensures Overfull(Kept(s.edges, origin, keep), s.IndexFor(dir))
  {
    WellIndexedIsFaithful(s.edges, s.outgoing, s.incoming);
    var n := NearBound(s.edges, dir);
    ScannedOnce(s.edges, dir, n);
    FaithfulCounts(s.edges, s.IndexFor(dir), dir, n);
    NothingDropped(s.edges, origin, keep);
    KeptOrDropped(s.edges, origin, keep);
  }

  lemma PushKeepsOverfull(edges: seq<Edge>, more: seq<Edge>, index: Index, x: EntityId, position: nat)
    requires Overfull(edges, index) && |more| == |edges| + 1
    ensures Overfull(more, Pushed(index, x, position))
  {
    var n: nat :| HeldBelow(index, n) > |edges|;
    var m := Max(n, x + 1);
    HeldGrows(index, n, m);
    HeldPushed(index, x, position, m);
    assert HeldBelow(Pushed(index, x, position), m) > |more|;
  }

  lemma ChangeKeepsOverfull(s: State, change: Change, dir: Direction)
    requires Overfull(s.edges, s.IndexFor(dir))
    ensures var after := Changed(s, change); Overfull(after.edges, after.IndexFor(dir))
  {
    var after := Changed(s, change);
    if change.Put? && FirstWithId(s.edges, change.edge.id) == |s.edges| {
      PushKeepsOverfull(s.edges, after.edges, s.IndexFor(dir), Near(dir, change.edge), |s.edges|);
    } else {
      if change.Retain? {
        KeptOrDropped(s.edges, change.origin, change.keep);
      }
      var n: nat :| HeldBelow(s.IndexFor(dir), n) > |s.edges|;
      assert HeldBelow(after.IndexFor(dir), n) > |after.edges|;
    }
  }

  /** A sequence of changes, one after another. */
  function AfterAll(s: State, changes: seq<Change>): State {
    if changes == [] then s
    else
      var last := |changes| - 1;
      Changed(AfterAll(s, changes[..last]), changes[last])
  }

  lemma {:induction false} ChangesKeepOverfull(s: State, changes: seq<Change>, dir: Direction)
    requires Overfull(s.edges, s.IndexFor(dir))
    ensures var after := AfterAll(s, changes); Overfull(after.edges, after.IndexFor(dir))
  {
    if changes != [] {
      var last := |changes| - 1;
      ChangesKeepOverfull(s, changes[..last], dir);
      ChangeKeepsOverfull(AfterAll(s, changes[..last]), changes[last], dir);
    }
  }

  /**
    Once an edge was dropped, no sequence of insertions and further drops makes either query
    agree with a scan again; only rebuilding does.
   */
  lemma NothingRepairs(s: State, origin: string, keep: set<EdgeId>, changes: seq<Change>, dir: Direction)
    requires WellIndexed(s.edges, s.outgoing, s.incoming) && !KeepsAll(s.edges, origin, keep)
    ensures var after := AfterAll(Changed(s, Retain(origin, keep)), changes);
      !Faithful(after.edges, after.IndexFor(dir), dir)
  {
    DropOverfills(s, origin, keep, dir);
    var dropped := Changed(s, Retain(origin, keep));
    ChangesKeepOverfull(dropped, changes, dir);
    var after := AfterAll(dropped, changes);
    OverfullDisagrees(after.edges, after.IndexFor(dir), dir);
  }

  // ----- when it no longer panics

  function Puts(edges: seq<Edge>): seq<Change> {
    seq(|edges|, i requires 0 <= i < |edges| => Put(edges[i]))
  }

  /** No query runs out of bounds. */
  ghost predicate NeverPanics(edges: seq<Edge>, index: Index) {
    forall x :: Lookup(edges, index, x).Some?
  }

  ghost predicate HeldUnder(index: Index, bound: nat) {
    forall x, k :: 0 <= k < |Held(index, x)| ==> Held(index, x)[k] < bound
  }

  lemma PutKeepsBound(s: State, edge: Edge, dir: Direction, n: nat)
    requires HeldUnder(s.IndexFor(dir), Max(n, |s.edges|))
    ensures var after := Changed(s, Put(edge)); HeldUnder(after.IndexFor(dir), Max(n, |after.edges|))
  {
    PushedUnder(s.IndexFor(dir), Near(dir, edge), |s.edges|, Max(n, |s.edges|), Max(n, |s.edges| + 1));
  }

  lemma PushedUnder(index: Index, x: EntityId, position: nat, before: nat, bound: nat)
    requires HeldUnder(index, before) && before <= bound && position < bound
    ensures HeldUnder(Pushed(index, x, position), bound)
  {
    forall y, k | 0 <= k < |Held(Pushed(index, x, position), y)|
      ensures Held(Pushed(index, x, position), y)[k] < bound
    {
      if k < |Held(index, y)| {
        assert Held(Pushed(index, x, position), y)[k] == Held(index, y)[k];
      }
    }
  }

  /** Insertions push positions behind what is held and never take one out. */
  lemma {:induction false} PutsKeepHeld(s: State, inserts: seq<Edge>, dir: Direction, n: nat, x: EntityId)
    requires HeldUnder(s.IndexFor(dir), Max(n, |s.edges|))
    ensures var after := AfterAll(s, Puts(inserts));
      HeldUnder(after.IndexFor(dir), Max(n, |after.edges|)) &&
      Held(s.IndexFor(dir), x) <= Held(after.IndexFor(dir), x)
  {
    if inserts != [] {
      var last := |inserts| - 1;
      PutsKeepHeld(s, inserts[..last], dir, n, x);
      assert Puts(inserts)[..last] == Puts(inserts[..last]);
      PutKeepsBound(AfterAll(s, Puts(inserts[..last])), inserts[last], dir, n);
    }
  }

  lemma LastIsHeld(edges: seq<Edge>, index: Index, dir: Direction)
    requires Indexed(edges, index, dir) && edges != []
    ensures var bucket := Held(index, Near(dir, edges[|edges| - 1]));
      bucket != [] && bucket[|bucket| - 1] == |edges| - 1
  {
    assert Held(index, Near(dir, edges[|edges| - 1])) == Positions(edges, dir, Near(dir, edges[|edges| - 1]));
  }

  lemma {:induction false} PositionsUnder(edges: seq<Edge>, dir: Direction, x: EntityId)
    ensures forall k :: 0 <= k < |Positions(edges, dir, x)| ==> Positions(edges, dir, x)[k] < |edges|
  {
    PositionsScan(edges, dir, x);
  }

  /**
    After a drop and any insertions, no query panics exactly when the vector is as long again
    as it was; from then on some query silently returns other edges than it should.
   */
  lemma RegrownIsSilentlyWrong(s: State, origin: string, keep: set<EdgeId>, inserts: seq<Edge>, dir: Direction)
    requires WellIndexed(s.edges, s.outgoing, s.incoming) && !KeepsAll(s.edges, origin, keep)
    ensures var after := AfterAll(Changed(s, Retain(origin, keep)), Puts(inserts));
      && (NeverPanics(after.edges, after.IndexFor(dir)) <==> |after.edges| >= |s.edges|)
      && (|after.edges| >= |s.edges| ==>
        exists x :: Lookup(after.edges, after.IndexFor(dir), x).Some? &&
          Lookup(after.edges, after.IndexFor(dir), x) != Some(Scan(after.edges, dir, x)))
  {
    hide AfterAll, Changed, WellIndexed, KeepsAll, Faithful;
    RegrownNeverPanics(s, origin, keep, inserts, dir);
    NothingRepairs(s, origin, keep, Puts(inserts), dir);
    var after := AfterAll(Changed(s, Retain(origin, keep)), Puts(inserts));
    if |after.edges| >= |s.edges| {
      SomeAnswerIsWrong(after.edges, after.IndexFor(dir), dir);
    }
  }

  lemma SomeAnswerIsWrong(edges: seq<Edge>, index: Index, dir: Direction)
    requires !Faithful(edges, index, dir) && NeverPanics(edges, index)
    ensures exists x :: Lookup(edges, index, x).Some? && Lookup(edges, index, x) != Some(Scan(edges, dir, x))
  {
  }

  lemma RegrownNeverPanics(s: State, origin: string, keep: set<EdgeId>, inserts: seq<Edge>, dir: Direction)
    requires WellIndexed(s.edges, s.outgoing, s.incoming) && !KeepsAll(s.edges, origin, keep)
    ensures var after := AfterAll(Changed(s, Retain(origin, keep)), Puts(inserts));
      NeverPanics(after.edges, after.IndexFor(dir)) <==> |after.edges| >= |s.edges|
  {
    assert s.edges != [] && Indexed(s.edges, s.IndexFor(dir), dir);
    hide AfterAll, Changed, WellIndexed, Indexed, KeepsAll, Puts, HeldUnder, NeverPanics, Held;
    var after := AfterAll(Changed(s, Retain(origin, keep)), Puts(inserts));
    var index, now := s.IndexFor(dir), after.IndexFor(dir);
    var x := Near(dir, s.edges[|s.edges| - 1]);
    LastIsHeld(s.edges, index, dir);
    OldPositionsStay(s, origin, keep, inserts, dir, x);
    if |after.edges| < |s.edges| {
      HeldPanics(after.edges, now, x, |Held(index, x)| - 1);
    } else {
      BoundedNeverPanics(after.edges, now);
    }
  }

  lemma OldPositionsStay(
    s: State, origin: string, keep: set<EdgeId>, inserts: seq<Edge>, dir: Direction, x: EntityId)
    requires WellIndexed(s.edges, s.outgoing, s.incoming)
    ensures var after := AfterAll(Changed(s, Retain(origin, keep)), Puts(inserts));
      HeldUnder(after.IndexFor(dir), Max(|s.edges|, |after.edges|)) &&
      Held(s.IndexFor(dir), x) <= Held(after.IndexFor(dir), x)
  {
    hide AfterAll, WellIndexed, HeldUnder, Held, Kept;
    OldPositions(s, dir);
    KeptOrDropped(s.edges, origin, keep);
    PutsKeepHeld(Changed(s, Retain(origin, keep)), inserts, dir, |s.edges|, x);
  }

  lemma HeldPanics(edges: seq<Edge>, index: Index, x: EntityId, k: nat)
    requires k < |Held(index, x)| && Held(index, x)[k] >= |edges|
    ensures !NeverPanics(edges, index)
  {
    assert Lookup(edges, index, x).None?;
  }

  lemma OldPositions(s: State, dir: Direction)
    requires WellIndexed(s.edges, s.outgoing, s.incoming)
    ensures HeldUnder(s.IndexFor(dir), |s.edges|)
  {
    forall x, k | 0 <= k < |Held(s.IndexFor(dir), x)| ensures Held(s.IndexFor(dir), x)[k] < |s.edges| {
      assert Held(s.IndexFor(dir), x) == Positions(s.edges, dir, x);
      PositionsUnder(s.edges, dir, x);
    }
  }

  lemma BoundedNeverPanics(edges: seq<Edge>, index: Index)
    requires HeldUnder(index, |edges|)
    ensures NeverPanics(edges, index)
  {
  }
}
