/** The load of an observer under rotation. */
module PeerLoad {
  import opened Common
  import opened Paths
  import opened Graph
  import opened Peers
  import opened PeerFairness

  // ----- a counter running down a cycle

  /** Steps backwards round a cycle of k. */
  function Back(offset: nat, k: nat): nat
    requires offset < k
  {
    if offset == 0 then k - 1 else offset - 1
  }

  /** How often, over n steps back from an offset, the offset is below d. */
  function Hits(offset: nat, n: nat, d: nat, k: nat): nat
    requires offset < k
    decreases n
  {
    if n == 0 then 0 else (if offset < d then 1 else 0) + Hits(Back(offset, k), n - 1, d, k)
  }

  function After(offset: nat, n: nat, k: nat): (r: nat)
    requires offset < k
    ensures r < k
    decreases n
  {
    if n == 0 then offset else After(Back(offset, k), n - 1, k)
  }

  lemma {:induction false} HitsSplit(offset: nat, n: nat, m: nat, d: nat, k: nat)
    requires offset < k
    ensures Hits(offset, n + m, d, k) == Hits(offset, n, d, k) + Hits(After(offset, n, k), m, d, k)
    decreases n
  {
    if n > 0 {
      HitsSplit(Back(offset, k), n - 1, m, d, k);
    }
  }

  lemma {:induction false} AfterSplit(offset: nat, n: nat, m: nat, k: nat)
    requires offset < k
    ensures After(offset, n + m, k) == After(After(offset, n, k), m, k)
    decreases n
  {
    if n > 0 {
      AfterSplit(Back(offset, k), n - 1, m, k);
    }
  }

  /** Down to zero, before wrapping. */
  lemma {:induction false} HitsDown(offset: nat, n: nat, d: nat, k: nat)
    requires offset < k && n <= offset + 1
    ensures Hits(offset, n, d, k) == Max(0, Min(offset + 1, d) - (offset + 1 - n))
    ensures After(offset, n, k) == if n == offset + 1 then k - 1 else offset - n
    decreases n
  {
    if n > 0 {
      if offset > 0 {
        HitsDown(offset - 1, n - 1, d, k);
      } else {
        assert Hits(k - 1, 0, d, k) == 0;
      }
    }
  }

  /** A full turn hits exactly d times and comes back. */
  lemma HitsPerTurn(offset: nat, d: nat, k: nat)
    requires offset < k && d <= k
    ensures Hits(offset, k, d, k) == d && After(offset, k, k) == offset
  {
    var n := offset + 1;
    HitsDown(offset, n, d, k);
    HitsDown(k - 1, k - n, d, k);
    HitsSplit(offset, n, k - n, d, k);
    AfterSplit(offset, n, k - n, k);
    assert After(offset, n, k) == k - 1;
  }

  /** Part of a turn hits at most d times and at most once a step. */
  lemma {:induction false} HitsWithinTurn(offset: nat, n: nat, d: nat, k: nat)
    requires offset < k && d <= k && n <= k
    ensures Hits(offset, n, d, k) <= Min(d, n)
  {
    HitsPerTurn(offset, d, k);
    HitsSplit(offset, n, k - n, d, k);
    HitsAtMost(offset, n, d, k);
  }

  lemma {:induction false} HitsAtMost(offset: nat, n: nat, d: nat, k: nat)
    requires offset < k
    ensures Hits(offset, n, d, k) <= n
    decreases n
  {
    if n > 0 {
      HitsAtMost(Back(offset, k), n - 1, d, k);
    }
  }

  lemma {:induction false} HitsBound(offset: nat, turns: nat, rest: nat, d: nat, k: nat)
    requires offset < k && d <= k && rest < k
    ensures turns * d <= Hits(offset, turns * k + rest, d, k) <= turns * d + Min(d, rest)
    decreases turns
  {
    if turns == 0 {
      HitsWithinTurn(offset, rest, d, k);
    } else {
      var left := (turns - 1) * k + rest;
      assert turns * k + rest == k + left;
      HitsPerTurn(offset, d, k);
      HitsSplit(offset, k, left, d, k);
      HitsBound(offset, turns - 1, rest, d, k);
      assert turns * d == (turns - 1) * d + d;
    }
  }

  // ----- independent candidates only

  lemma NoEdgesNoDomains(x: EntityId)
    ensures DomainOf([], x) == {}
  {
    assert FarEnds(Dependencies([])) == {};
  }

  /** Everyone in order but one. */
  function Others(items: seq<EntityId>, x: EntityId): seq<EntityId> {
    if items == [] then []
    else
      var last := |items| - 1;
      Others(items[..last], x) + if items[last] != x then [items[last]] else []
  }

  lemma {:induction false} OthersWithout(items: seq<EntityId>, x: EntityId)
    requires x !in items
    ensures Others(items, x) == items
  {
    if items != [] {
      var last := |items| - 1;
      OthersWithout(items[..last], x);
      assert items == items[..last] + [items[last]];
    }
  }

  lemma {:induction false} OthersAround(items: seq<EntityId>, q: nat)
    requires Distinct(items) && q < |items|
    ensures Others(items, items[q]) == items[..q] + items[q + 1..]
  {
    var last := |items| - 1;
    if q == last {
      OthersWithout(items[..last], items[q]);
    } else {
      OthersAround(items[..last], q);
      assert items[q + 1..] == items[..last][q + 1..] + [items[last]];
      assert items[..last][..q] == items[..q];
    }
  }

  /** Without edges everyone else is independent. */
  lemma {:induction false} NoEdgesBuckets(candidates: seq<EntityId>, target: EntityId)
    ensures Bucket([], candidates, target, Independent) == Others(candidates, target)
    ensures Bucket([], candidates, target, SameDomain) == []
    ensures Bucket([], candidates, target, DifferentDomain) == []
  {
    if candidates != [] {
      var last := |candidates| - 1;
      NoEdgesBuckets(candidates[..last], target);
      NoEdgesNoDomains(candidates[last]);
      NoEdgesNoDomains(target);
      assert RoleOf([], target, candidates[last]) == Independent;
      hide RoleOf;
      assert candidates == candidates[..last] + [candidates[last]];
    }
  }

  /** Filling from one duplicate-free bucket takes a prefix of it. */
  lemma {:induction false} FilledPrefix(observers: seq<Observer>, bucket: seq<EntityId>, j: nat, degree: nat)
    requires Distinct(bucket) && j <= |bucket| && |observers| == j <= degree
    requires Chosen(observers) == Elements(bucket[..j])
    ensures Chosen(Filled(observers, bucket[j..], degree)) == Elements(bucket[..Min(degree, |bucket|)])
    decreases |bucket| - j
  {
    if j == degree {
      FullStaysFull(observers, bucket[j..], degree);
    } else if j < |bucket| {
      var next := observers + [Observer(bucket[j], Filler)];
      assert bucket[j] !in Elements(bucket[..j]);
      ChosenPushed(observers, Observer(bucket[j], Filler));
      assert bucket[..j + 1] == bucket[..j] + [bucket[j]];
      assert bucket[j..][0] == bucket[j] && bucket[j..][1..] == bucket[j + 1..];
      FilledPrefix(next, bucket, j + 1, degree);
    }
  }

  lemma ChoiceFromOneBucket(bucket: seq<EntityId>, degree: nat)
    requires Distinct(bucket)
    ensures Chosen(Choice([], [], bucket, degree)) == Elements(bucket[..Min(degree, |bucket|)])
  {
    var v := Variety([], [], bucket, degree);
    assert Choice([], [], bucket, degree) == Filled(v, bucket, degree);
    if degree == 0 || bucket == [] {
      assert bucket[0..] == bucket && v == [];
      FilledPrefix([], bucket, 0, degree);
    } else {
      assert v == [Observer(bucket[0], Independent)];
      assert v[0] in v && bucket[0] in Chosen(v);
      assert Filled(v, bucket, degree) == Filled(v, bucket[1..], degree);
      assert Chosen(v) == Elements(bucket[..1]);
      FilledPrefix(v, bucket, 1, degree);
    }
  }

  /** How far behind position r of the cycle member p comes. */
  function Offset(p: nat, r: nat, k: nat): (offset: nat)
    requires p < k && r < k
    ensures offset < k
  {
    if p >= r then p - r else p - r + k
  }

  lemma InRotatedPrefix(items: seq<EntityId>, i: nat, p: nat, d: nat)
    requires Distinct(items) && p < |items| && d <= |items|
    ensures items[p] in Rotated(items, i)[..d] <==> Offset(p, i % |items|, |items|) < d
  {
    var k := |items|;
    var r := i % k;
    var turned := Rotated(items, i);
    var at := Offset(p, r, k);
    assert turned == items[r..] + items[..r];
    assert forall j :: 0 <= j < k ==> turned[j] == if j < k - r then items[r + j] else items[j - (k - r)];
    assert turned[at] == items[p];
    if at < d {
      assert turned[..d][at] == items[p];
    }
    if items[p] in turned[..d] {
      var j :| 0 <= j < d && turned[j] == items[p];
      assert j == at;
    }
  }

  /** How many of the targets from position i up to another an entity watches. */
  ghost function Load(assignments: seq<PeerAssignment>, c: EntityId, i: nat, end: nat): nat
    requires i <= end <= |assignments|
    decreases end - i
  {
    if i == end then 0
    else (if c in Chosen(assignments[i].observers) then 1 else 0) + Load(assignments, c, i + 1, end)
  }

  /** A plan without edges, and a stretch of targets in it none of which is a candidate itself. */
  ghost predicate IndependentStretch(
    targets: seq<EntityId>, candidates: seq<EntityId>, degree: nat, assignments: seq<PeerAssignment>,
    start: nat, end: nat)
  {
    && IsPlan([], targets, candidates, degree, assignments) && Distinct(candidates)
    && start <= end <= |targets| && forall i :: start <= i < end ==> targets[i] !in candidates
  }

  lemma WatchedAt(
    targets: seq<EntityId>, candidates: seq<EntityId>, degree: nat, assignments: seq<PeerAssignment>,
    start: nat, end: nat, i: nat, p: nat)
    requires IndependentStretch(targets, candidates, degree, assignments, start, end)
    requires start <= i < end && p < |candidates|
    ensures candidates[p] in Chosen(assignments[i].observers) <==>
      Offset(p, i % |candidates|, |candidates|) < Min(degree, |candidates|)
  {
    assert assignments[i] == PeerAssignment(targets[i], ObserversOf([], targets[i], candidates, degree, i));
    NoEdgesBuckets(candidates, targets[i]);
    OthersWithout(candidates, targets[i]);
    var turned := Rotated(candidates, i);
    RotatedDistinct(candidates, i);
    RotatedMembers(candidates, i);
    ChoiceFromOneBucket(turned, degree);
    hide Choice, Bucket;
    InRotatedPrefix(candidates, i, p, Min(degree, |candidates|));
  }

  lemma RotatedDistinct(items: seq<EntityId>, i: nat)
    requires Distinct(items)
    ensures Distinct(Rotated(items, i))
  {
  }

  /** Where position i stands on the cycle, counted up step by step. */
  function Turn(i: nat, k: nat): (r: nat)
    requires k > 0
    ensures r < k
  {
    if i == 0 then 0 else if Turn(i - 1, k) + 1 == k then 0 else Turn(i - 1, k) + 1
  }

  lemma {:induction false} TurnIsModulo(i: nat, k: nat)
    requires k > 0
    ensures Turn(i, k) == i % k
  {
    if i == 0 {
      assert 0 % k == 0;
    } else {
      TurnIsModulo(i - 1, k);
      NextPosition(i - 1, k);
      assert i - 1 + 1 == i;
    }
  }

  lemma WatchedAtTurn(
    targets: seq<EntityId>, candidates: seq<EntityId>, degree: nat, assignments: seq<PeerAssignment>,
    start: nat, end: nat, i: nat, p: nat)
    requires IndependentStretch(targets, candidates, degree, assignments, start, end)
    requires start <= i < end && p < |candidates|
    ensures |assignments| == |targets|
    ensures candidates[p] in Chosen(assignments[i].observers) <==>
      Offset(p, Turn(i, |candidates|), |candidates|) < Min(degree, |candidates|)
  {
    WatchedAt(targets, candidates, degree, assignments, start, end, i, p);
    TurnIsModulo(i, |candidates|);
  }

  lemma {:induction false} LoadIsHits(
    targets: seq<EntityId>, candidates: seq<EntityId>, degree: nat, assignments: seq<PeerAssignment>,
    start: nat, end: nat, i: nat, p: nat)
    requires IndependentStretch(targets, candidates, degree, assignments, start, end)
    requires start <= i <= end <= |assignments| && p < |candidates|
    ensures var k := |candidates|;
      Load(assignments, candidates[p], i, end) == Hits(Offset(p, Turn(i, k), k), end - i, Min(degree, k), k)
    decreases end - i
  {
    hide IndependentStretch;
    if i < end {
      WatchedAtTurn(targets, candidates, degree, assignments, start, end, i, p);
      LoadIsHits(targets, candidates, degree, assignments, start, end, i + 1, p);
    }
  }

  lemma LoadOverTurns(
    targets: seq<EntityId>, candidates: seq<EntityId>, degree: nat, assignments: seq<PeerAssignment>,
    start: nat, end: nat, p: nat, turns: nat, rest: nat)
    requires IndependentStretch(targets, candidates, degree, assignments, start, end)
    requires end <= |assignments| && p < |candidates|
    requires end - start == turns * |candidates| + rest && rest < |candidates|
    ensures var d := Min(degree, |candidates|);
      turns * d <= Load(assignments, candidates[p], start, end) <= turns * d + Min(d, rest)
  {
    hide IndependentStretch, Load, Turn, Hits;
    var k := |candidates|;
    LoadIsHits(targets, candidates, degree, assignments, start, end, start, p);
    HitsBound(Offset(p, Turn(start, k), k), turns, rest, Min(degree, k), k);
  }

  lemma StretchIsAssigned(
    targets: seq<EntityId>, candidates: seq<EntityId>, degree: nat, assignments: seq<PeerAssignment>,
    start: nat, end: nat)
    requires IndependentStretch(targets, candidates, degree, assignments, start, end)
    ensures start <= end <= |assignments|
  {
  }

  /** A full share for every full turn, and no more than the rest allows on top. */
  predicate IsEvenShare(load: nat, n: nat, k: nat, d: nat)
    requires k > 0
  {
    n / k * d <= load <= n / k * d + Min(d, n % k)
  }

  lemma TurnsAndRest(n: nat, k: nat) returns (turns: nat, rest: nat)
    requires k > 0
    ensures n == turns * k + rest && rest < k
  {
    turns, rest := n / k, n % k;
  }

  lemma ShareIsEven(load: nat, k: nat, d: nat, turns: nat, rest: nat)
    requires rest < k && turns * d <= load <= turns * d + Min(d, rest)
    ensures IsEvenShare(load, turns * k + rest, k, d)
  {
    MultiplePlus(turns, rest, k);
  }

  /**
    Over any n consecutive targets that are not candidates, with k independent candidates and
    d = min(degree, k), every candidate watches at least floor(n / k) * d of them and at most
    min(d, n mod k) more.
   */
  lemma LoadIsEven(
    targets: seq<EntityId>, candidates: seq<EntityId>, degree: nat, assignments: seq<PeerAssignment>,
    start: nat, end: nat, c: EntityId)
    requires IndependentStretch(targets, candidates, degree, assignments, start, end) && c in candidates
    ensures end <= |assignments|
    ensures IsEvenShare(Load(assignments, c, start, end), end - start, |candidates|, Min(degree, |candidates|))
  {
    hide IndependentStretch, Load, IsEvenShare;
    StretchIsAssigned(targets, candidates, degree, assignments, start, end);
    var k := |candidates|;
    var p :| 0 <= p < k && candidates[p] == c;
    var turns, rest := TurnsAndRest(end - start, k);
    LoadOverTurns(targets, candidates, degree, assignments, start, end, p, turns, rest);
    ShareIsEven(Load(assignments, c, start, end), k, Min(degree, k), turns, rest);
  }

  // ----- hosts watching each other

  /** Without its own member, a bucket rotated by that member's position starts right behind it. */
  lemma RotatedAround(items: seq<EntityId>, q: nat)
    requires q < |items|
    ensures Rotated(items[..q] + items[q + 1..], q) == items[q + 1..] + items[..q]
  {
    var others := items[..q] + items[q + 1..];
    if q < |others| {
      assert q % |others| == q;
      assert others[q..] == items[q + 1..] && others[..q] == items[..q];
    } else {
      assert others == items[..q] && items[q + 1..] == [];
      assert others != [] ==> q % |others| == 0;
    }
  }

  lemma AroundIsDistinct(items: seq<EntityId>, q: nat)
    requires Distinct(items) && q < |items|
    ensures Distinct(items[q + 1..] + items[..q])
  {
  }

  lemma InRing(items: seq<EntityId>, q: nat, p: nat, d: nat)
    requires Distinct(items) && q < |items| && p < |items| && d < |items|
    ensures items[p] in (items[q + 1..] + items[..q])[..d] <==> 1 <= Offset(p, q, |items|) <= d
  {
    var ring, at := items[q + 1..] + items[..q], Offset(p, q, |items|);
    assert forall j :: 0 <= j < |ring| ==>
      ring[j] == if j < |items| - q - 1 then items[q + 1 + j] else items[j - (|items| - q - 1)];
    if at > 0 {
      assert ring[at - 1] == items[p];
    }
    if 1 <= at <= d {
      assert ring[..d][at - 1] == items[p];
    }
    if items[p] in ring[..d] {
      var j :| 0 <= j < d && ring[j] == items[p];
      assert j == at - 1;
    }
  }

  /** Every host is a target and a candidate, and nothing depends on anything. */
  ghost predicate RingPlan(hosts: seq<EntityId>, degree: nat, assignments: seq<PeerAssignment>) {
    IsPlan([], hosts, hosts, degree, assignments) && Distinct(hosts)
  }

  /** The host at position i is watched by the next d hosts round the ring. */
  lemma RingWatchers(hosts: seq<EntityId>, degree: nat, assignments: seq<PeerAssignment>, i: nat, p: nat)
    requires RingPlan(hosts, degree, assignments) && i < |hosts| && p < |hosts|
    ensures |assignments| == |hosts|
    ensures hosts[p] in Chosen(assignments[i].observers) <==>
      1 <= Offset(p, i, |hosts|) <= Min(degree, |hosts| - 1)
  {
    assert assignments[i] == PeerAssignment(hosts[i], ObserversOf([], hosts[i], hosts, degree, i));
    NoEdgesBuckets(hosts, hosts[i]);
    OthersAround(hosts, i);
    RotatedAround(hosts, i);
    AroundIsDistinct(hosts, i);
    ChoiceFromOneBucket(hosts[i + 1..] + hosts[..i], degree);
    hide Choice, Bucket, Others;
    InRing(hosts, i, p, Min(degree, |hosts| - 1));
  }

  lemma {:induction false} RingLoadIsHits(
    hosts: seq<EntityId>, degree: nat, assignments: seq<PeerAssignment>, i: nat, p: nat)
    requires RingPlan(hosts, degree, assignments) && i < |hosts| == |assignments| && p < |hosts|
    ensures var k := |hosts|;
      Load(assignments, hosts[p], i, |hosts|) == Hits(Back(Offset(p, i, k), k), k - i, Min(degree, k - 1), k)
    decreases |hosts| - i
  {
    hide RingPlan, Chosen, Offset, Back;
    RingWatchers(hosts, degree, assignments, i, p);
    RingSteps(p, i, |hosts|, Min(degree, |hosts| - 1));
    if i + 1 < |hosts| {
      RingLoadIsHits(hosts, degree, assignments, i + 1, p);
    }
  }

  lemma RingSteps(p: nat, i: nat, k: nat, d: nat)
    requires p < k && i < k && d < k
    ensures 1 <= Offset(p, i, k) <= d <==> Back(Offset(p, i, k), k) < d
    ensures Back(Offset(p, i, k), k) < k
    ensures i + 1 < k ==> Offset(p, i + 1, k) == Back(Offset(p, i, k), k)
  {
  }

  /** Hosts watching each other, without edges, share the work exactly: everyone watches min(degree, k - 1) others. */
  lemma RingLoadIsEqual(hosts: seq<EntityId>, degree: nat, assignments: seq<PeerAssignment>, c: EntityId)
    requires RingPlan(hosts, degree, assignments) && c in hosts
    ensures |assignments| == |hosts| && Load(assignments, c, 0, |hosts|) == Min(degree, |hosts| - 1)
  {
    hide RingPlan, Load, Chosen;
    var k := |hosts|;
    var p :| 0 <= p < k && hosts[p] == c;
    RingWatchers(hosts, degree, assignments, 0, p);
    RingLoadIsHits(hosts, degree, assignments, 0, p);
    HitsPerTurn(Back(p, k), Min(degree, k - 1), k);
  }

  // ----- the whole load, whatever the edges

  function CountIn(candidates: seq<EntityId>, chosen: set<EntityId>): nat {
    if candidates == [] then 0
    else
      var last := |candidates| - 1;
      CountIn(candidates[..last], chosen) + if candidates[last] in chosen then 1 else 0
  }

  lemma {:induction false} CountInSize(candidates: seq<EntityId>, chosen: set<EntityId>)
    requires Distinct(candidates)
    ensures CountIn(candidates, chosen) == |chosen * Elements(candidates)|
  {
    if candidates == [] {
      assert chosen * Elements(candidates) == {};
    } else {
      var last := |candidates| - 1;
      var front, c := candidates[..last], candidates[last];
      CountInSize(front, chosen);
      assert candidates == front + [c];
      assert Elements(candidates) == Elements(front) + {c} && c !in Elements(front);
      hide Elements, Distinct;
      OneMoreIn(Elements(front), c, chosen);
    }
  }

  lemma OneMoreIn(front: set<EntityId>, c: EntityId, chosen: set<EntityId>)
    requires c !in front
    ensures |chosen * (front + {c})| == |chosen * front| + if c in chosen then 1 else 0
  {
    assert chosen * (front + {c}) == chosen * front + if c in chosen then {c} else {};
  }

  /** The loads of all candidates together, from target i on. */
  ghost function SumOfLoads(assignments: seq<PeerAssignment>, candidates: seq<EntityId>, i: nat): nat
    requires i <= |assignments|
  {
    if candidates == [] then 0
    else
      var last := |candidates| - 1;
      SumOfLoads(assignments, candidates[..last], i) + Load(assignments, candidates[last], i, |assignments|)
  }

  lemma {:induction false} SumOfLoadsStep(assignments: seq<PeerAssignment>, candidates: seq<EntityId>, i: nat)
    requires i < |assignments|
    ensures SumOfLoads(assignments, candidates, i) ==
      CountIn(candidates, Chosen(assignments[i].observers)) + SumOfLoads(assignments, candidates, i + 1)
  {
    if candidates != [] {
      SumOfLoadsStep(assignments, candidates[..|candidates| - 1], i);
    }
  }

  lemma {:induction false} NoLoadsLeft(assignments: seq<PeerAssignment>, candidates: seq<EntityId>)
    ensures SumOfLoads(assignments, candidates, |assignments|) == 0
  {
    if candidates != [] {
      NoLoadsLeft(assignments, candidates[..|candidates| - 1]);
    }
  }

  /** How many observers the targets from position i on are due. */
  function Due(targets: seq<EntityId>, candidates: seq<EntityId>, degree: nat, i: nat): nat
    requires i <= |targets|
    decreases |targets| - i
  {
    if i == |targets| then 0
    else Min(degree, |Elements(candidates) - {targets[i]}|) + Due(targets, candidates, degree, i + 1)
  }

  /** Under any edges the loads of all candidates add up to what the targets are due: nobody else watches. */
  lemma {:induction false} LoadsAddUp(
    edges: seq<Edge>, targets: seq<EntityId>, candidates: seq<EntityId>, degree: nat,
    assignments: seq<PeerAssignment>, i: nat)
    requires IsPlan(edges, targets, candidates, degree, assignments) && Distinct(candidates)
    requires i <= |targets| == |assignments|
    ensures SumOfLoads(assignments, candidates, i) == Due(targets, candidates, degree, i)
    decreases |targets| - i
  {
    if i == |targets| {
      NoLoadsLeft(assignments, candidates);
    } else {
      var observers := ObserversOf(edges, targets[i], candidates, degree, i);
      assert assignments[i] == PeerAssignment(targets[i], observers);
      AssignmentShape(edges, targets[i], candidates, degree, i);
      LoadsAddUp(edges, targets, candidates, degree, assignments, i + 1);
      SumOfLoadsStep(assignments, candidates, i);
      hide ObserversOf, IsPlan, NoRepeats, SumOfLoads, RoleIsTrue;
      CountInSize(candidates, Chosen(observers));
      ChosenSize(observers);
      assert Chosen(observers) * Elements(candidates) == Chosen(observers);
    }
  }
}
