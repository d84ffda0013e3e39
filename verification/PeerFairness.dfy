/** What a peer assignment plan promises: size, roles, representatives and a fair rotation. */
module PeerFairness {
  import opened Common
  import opened Paths
  import opened EdgePaths
  import opened Peers

  // ----- buckets

  lemma {:induction false} BucketMembers(edges: seq<Edge>, candidates: seq<EntityId>, target: EntityId, role: Role)
    ensures forall c :: c in Bucket(edges, candidates, target, role) <==>
      c in candidates && c != target && RoleOf(edges, target, c) == role
    ensures Distinct(candidates) ==> Distinct(Bucket(edges, candidates, target, role))
  {
    hide RoleOf;
    if candidates != [] {
      var last := |candidates| - 1;
      BucketMembers(edges, candidates[..last], target, role);
      assert candidates == candidates[..last] + [candidates[last]];
      assert Distinct(candidates) ==> candidates[last] !in candidates[..last];
    }
  }

  lemma RotatedMembers(items: seq<EntityId>, shift: nat)
    ensures Elements(Rotated(items, shift)) == Elements(items) && |Rotated(items, shift)| == |items|
    ensures items != [] ==> Rotated(items, shift)[0] == items[shift % |items|]
  {
    if items != [] {
      var k := shift % |items|;
      assert items == items[..k] + items[k..];
    }
  }

  /** Everyone but the target is in exactly one bucket. */
  lemma BucketsCover(edges: seq<Edge>, candidates: seq<EntityId>, target: EntityId)
    ensures
      Elements(Bucket(edges, candidates, target, SameDomain)) +
      Elements(Bucket(edges, candidates, target, DifferentDomain)) +
      Elements(Bucket(edges, candidates, target, Independent)) == Elements(candidates) - {target}
  {
    BucketMembers(edges, candidates, target, SameDomain);
    BucketMembers(edges, candidates, target, DifferentDomain);
    BucketMembers(edges, candidates, target, Independent);
    hide Bucket;
  }

  /** What a role claims about what observer and target need. */
  ghost predicate RoleIsTrue(edges: seq<Edge>, target: EntityId, o: Observer) {
    match o.role
    case SameDomain => exists y :: Needs(edges, o.entity, y) && Needs(edges, target, y)
    case DifferentDomain =>
      (exists y :: Needs(edges, o.entity, y)) && forall y :: Needs(edges, o.entity, y) ==> !Needs(edges, target, y)
    case Independent => forall y :: !Needs(edges, o.entity, y)
    case Filler => true
  }

  /** Some route of edges leads from x to something else, y. */
  ghost predicate Needs(edges: seq<Edge>, x: EntityId, y: EntityId) {
    DependsOn(edges, x, y, None)
  }

  /** A domain is everything its entity needs, over however many edges. */
  lemma DomainIsNeeds(edges: seq<Edge>, x: EntityId, y: EntityId)
    ensures y in DomainOf(edges, x) <==> Needs(edges, x, y)
  {
    UpstreamSetIsRoutes(edges, x, y, None);
  }

  lemma RelationIsTrue(edges: seq<Edge>, target: EntityId, o: Observer)
    requires o.role == Filler || RoleOf(edges, target, o.entity) == o.role
    ensures RoleIsTrue(edges, target, o)
  {
    var mine, theirs := DomainOf(edges, o.entity), DomainOf(edges, target);
    hide DomainOf, Needs;
    forall y ensures (y in mine <==> Needs(edges, o.entity, y)) && (y in theirs <==> Needs(edges, target, y)) {
      DomainIsNeeds(edges, o.entity, y);
      DomainIsNeeds(edges, target, y);
    }
    if o.role == SameDomain {
      var y :| y in mine && y in theirs;
    }
  }

  /**
    Every target gets exactly as many observers as the degree and the other candidates
    allow, none of them twice and never itself, and every stated role is true.
   */
  lemma AssignmentShape(edges: seq<Edge>, target: EntityId, candidates: seq<EntityId>, degree: nat, i: nat)
    ensures var observers := ObserversOf(edges, target, candidates, degree, i);
      && |observers| == Min(degree, |Elements(candidates) - {target}|)
      && NoRepeats(observers) && Chosen(observers) <= Elements(candidates) - {target}
      && forall o :: o in observers ==> RoleIsTrue(edges, target, o)
  {
    var same := Bucket(edges, candidates, target, SameDomain);
    var different := Bucket(edges, candidates, target, DifferentDomain);
    var independent := Bucket(edges, candidates, target, Independent);
    RotatedMembers(same, i);
    RotatedMembers(different, i);
    RotatedMembers(independent, i);
    BucketsCover(edges, candidates, target);
    ChoiceEffect(Rotated(same, i), Rotated(different, i), Rotated(independent, i), degree);
    BucketMembers(edges, candidates, target, SameDomain);
    BucketMembers(edges, candidates, target, DifferentDomain);
    BucketMembers(edges, candidates, target, Independent);
    hide Choice, Variety, Rotated, Bucket, RoleOf, RoleIsTrue, NoRepeats, Chosen;
    forall o | o in ObserversOf(edges, target, candidates, degree, i) ensures RoleIsTrue(edges, target, o) {
      assert o.role == SameDomain ==> o.entity in Elements(same);
      assert o.role == DifferentDomain ==> o.entity in Elements(different);
      assert o.role == Independent ==> o.entity in Elements(independent);
      RelationIsTrue(edges, target, o);
    }
  }

  // ----- one representative of each kind

  function One(bucket: seq<EntityId>, role: Role): seq<Observer> {
    if bucket == [] then [] else [Observer(bucket[0], role)]
  }

  function Representatives(same: seq<EntityId>, different: seq<EntityId>, independent: seq<EntityId>): seq<Observer> {
    One(same, SameDomain) + One(different, DifferentDomain) + One(independent, Independent)
  }

  ghost predicate Apart(same: seq<EntityId>, different: seq<EntityId>, independent: seq<EntityId>) {
    Elements(same) !! Elements(different) !! Elements(independent)
  }

  lemma WithOneTakesHead(observers: seq<Observer>, bucket: seq<EntityId>, role: Role, degree: nat)
    requires Chosen(observers) !! Elements(bucket)
    ensures |One(bucket, role)| <= 1
    ensures WithOne(observers, bucket, role, degree) ==
      if |observers| >= degree then observers else observers + One(bucket, role)
  {
    if bucket != [] {
      assert bucket[0] in Elements(bucket);
    }
  }

  function Take(observers: seq<Observer>, degree: nat): seq<Observer> {
    observers[..Min(degree, |observers|)]
  }

  lemma TakeMore(front: seq<Observer>, one: seq<Observer>, degree: nat)
    requires |one| <= 1
    ensures var taken := Take(front, degree);
      (if |taken| >= degree then taken else taken + one) == Take(front + one, degree)
  {
  }

  /** The leading observers are the heads of the non-empty buckets, in order, as far as the degree goes. */
  lemma VarietyIsRepresentatives(same: seq<EntityId>, different: seq<EntityId>, independent: seq<EntityId>, degree: nat)
    requires Apart(same, different, independent)
    ensures Variety(same, different, independent, degree) == Take(Representatives(same, different, independent), degree)
  {
    var v1 := WithOne([], same, SameDomain, degree);
    var v2 := WithOne(v1, different, DifferentDomain, degree);
    WithOneTakesHead([], same, SameDomain, degree);
    WithOneEffect([], same, SameDomain, degree);
    WithOneTakesHead(v1, different, DifferentDomain, degree);
    WithOneEffect(v1, different, DifferentDomain, degree);
    WithOneTakesHead(v2, independent, Independent, degree);
    var a, b, c := One(same, SameDomain), One(different, DifferentDomain), One(independent, Independent);
    assert Variety(same, different, independent, degree) == WithOne(v2, independent, Independent, degree);
    hide WithOne, Take, Variety, One;
    TakeNothing(degree);
    TakeMore([], a, degree);
    assert [] + a == a;
    TakeMore(a, b, degree);
    TakeMore(a + b, c, degree);
  }

  lemma TakeNothing(degree: nat)
    ensures Take([], degree) == []
  {
  }

  /** Nothing, or everything but the head. */
  function Rest(bucket: seq<EntityId>): seq<EntityId> {
    if bucket == [] then [] else bucket[1..]
  }

  function Fillers(bucket: seq<EntityId>): seq<Observer> {
    seq(|bucket|, i requires 0 <= i < |bucket| => Observer(bucket[i], Filler))
  }

  lemma FillersSplit(bucket: seq<EntityId>)
    requires bucket != []
    ensures Fillers(bucket) == [Observer(bucket[0], Filler)] + Fillers(bucket[1..])
  {
  }

  lemma FillersJoin(a: seq<EntityId>, b: seq<EntityId>)
    ensures Fillers(a + b) == Fillers(a) + Fillers(b)
  {
  }

  /** Filling from members nobody chose yet takes them in order until the degree is reached. */
  lemma {:induction false} FilledInOrder(observers: seq<Observer>, bucket: seq<EntityId>, degree: nat)
    requires |observers| <= degree && Distinct(bucket) && Chosen(observers) !! Elements(bucket)
    ensures Filled(observers, bucket, degree) == Take(observers + Fillers(bucket), degree)
    decreases |bucket|
  {
    if bucket == [] {
      assert observers + Fillers(bucket) == observers;
    } else if |observers| == degree {
      FullStaysFull(observers, bucket, degree);
    } else {
      var next := observers + [Observer(bucket[0], Filler)];
      assert bucket[0] in Elements(bucket);
      ChosenPushed(observers, Observer(bucket[0], Filler));
      assert bucket == [bucket[0]] + bucket[1..];
      assert Elements(bucket[1..]) <= Elements(bucket);
      HeadIsApart(bucket);
      FilledInOrder(next, bucket[1..], degree);
      FillersSplit(bucket);
      hide Filled, Take, Fillers, Chosen;
      assert next + Fillers(bucket[1..]) == observers + Fillers(bucket);
      FilledStep(observers, bucket, degree);
    }
  }

  lemma HeadIsApart(bucket: seq<EntityId>)
    requires bucket != [] && Distinct(bucket)
    ensures bucket[0] !in Elements(bucket[1..]) && Distinct(bucket[1..])
  {
  }

  lemma FilledStep(observers: seq<Observer>, bucket: seq<EntityId>, degree: nat)
    requires bucket != [] && |observers| < degree && bucket[0] !in Chosen(observers)
    ensures Filled(observers, bucket, degree) == Filled(observers + [Observer(bucket[0], Filler)], bucket[1..], degree)
  {
  }

  /** A bucket whose head is chosen fills like its rest. */
  lemma FilledPastHead(observers: seq<Observer>, bucket: seq<EntityId>, degree: nat)
    requires |observers| <= degree && Distinct(bucket)
    requires bucket != [] && |observers| < degree ==> bucket[0] in Chosen(observers)
    requires Chosen(observers) !! Elements(Rest(bucket))
    ensures Filled(observers, bucket, degree) == Take(observers + Fillers(Rest(bucket)), degree)
  {
    if |observers| == degree {
      FullStaysFull(observers, bucket, degree);
    } else if bucket == [] {
      assert observers + Fillers([]) == observers;
    } else {
      HeadIsApart(bucket);
      FilledInOrder(observers, bucket[1..], degree);
    }
  }

  lemma TakeTwice(x: seq<Observer>, y: seq<Observer>, degree: nat)
    ensures Take(Take(x, degree) + y, degree) == Take(x + y, degree)
  {
  }

  lemma TakenChosen(x: seq<Observer>, bucket: seq<EntityId>, degree: nat)
    ensures Chosen(Take(x + Fillers(bucket), degree)) <= Chosen(x) + Elements(bucket)
    ensures |x| <= degree ==> Chosen(x) <= Chosen(Take(x + Fillers(bucket), degree))
  {
    var taken := Take(x + Fillers(bucket), degree);
    forall o | o in taken ensures o.entity in Chosen(x) + Elements(bucket) {
      var i :| 0 <= i < |taken| && taken[i] == o;
      if i < |x| {
        assert x[i] in x;
      } else {
        assert bucket[i - |x|] in bucket;
      }
    }
    if |x| <= degree {
      forall o | o in x ensures o in taken {
        var i :| 0 <= i < |x| && x[i] == o;
        assert taken[i] == o;
      }
    }
  }

  lemma OneChosen(bucket: seq<EntityId>, role: Role)
    ensures Chosen(One(bucket, role)) == Elements(bucket) - Elements(Rest(bucket)) || !Distinct(bucket)
    ensures bucket != [] ==> bucket[0] in Chosen(One(bucket, role))
  {
    if bucket != [] {
      assert One(bucket, role)[0] in One(bucket, role);
      assert bucket == [bucket[0]] + bucket[1..];
      if Distinct(bucket) {
        HeadIsApart(bucket);
      }
    }
  }

  lemma ChosenJoin(a: seq<Observer>, b: seq<Observer>)
    ensures Chosen(a + b) == Chosen(a) + Chosen(b)
  {
  }

  lemma RestWithin(bucket: seq<EntityId>)
    ensures Elements(Rest(bucket)) <= Elements(bucket)
  {
  }

  /** The representatives have the heads of the buckets and nothing behind them. */
  lemma RepresentativesChosen(same: seq<EntityId>, different: seq<EntityId>, independent: seq<EntityId>)
    requires Apart(same, different, independent) && Distinct(same) && Distinct(different) && Distinct(independent)
    ensures var chosen := Chosen(Representatives(same, different, independent));
      && chosen !! Elements(Rest(same)) && chosen !! Elements(Rest(different)) && chosen !! Elements(Rest(independent))
      && (same != [] ==> same[0] in chosen) && (different != [] ==> different[0] in chosen)
      && (independent != [] ==> independent[0] in chosen)
  {
    var a, b, c := One(same, SameDomain), One(different, DifferentDomain), One(independent, Independent);
    OneChosen(same, SameDomain);
    OneChosen(different, DifferentDomain);
    OneChosen(independent, Independent);
    ChosenJoin(a, b);
    ChosenJoin(a + b, c);
    RestWithin(same);
    RestWithin(different);
    RestWithin(independent);
    hide Chosen, Elements, One, Rest, Distinct;
  }

  /**
    A choice in one line: the heads of the buckets under their own roles, then as fillers all
    others of the same domain, then of different ones, then the independent ones, up to the degree.
   */
  lemma ChoiceInOrder(same: seq<EntityId>, different: seq<EntityId>, independent: seq<EntityId>, degree: nat)
    requires Apart(same, different, independent) && Distinct(same) && Distinct(different) && Distinct(independent)
    ensures Choice(same, different, independent, degree) ==
      Take(Representatives(same, different, independent)
           + Fillers(Rest(same)) + Fillers(Rest(different)) + Fillers(Rest(independent)), degree)
  {
    var reps := Representatives(same, different, independent);
    var v := Variety(same, different, independent, degree);
    VarietyIsRepresentatives(same, different, independent, degree);
    assert v == Take(reps, degree);
    var a, b, c := Fillers(Rest(same)), Fillers(Rest(different)), Fillers(Rest(independent));
    if |reps| >= degree {
      FullStaysFull(v, same, degree);
      FullStaysFull(v, different, degree);
      FullStaysFull(v, independent, degree);
      FrontSuffices(reps, a, b, c, degree);
    } else {
      assert v == reps;
      FillFromRests(reps, same, different, independent, degree);
    }
  }

  lemma FrontSuffices(reps: seq<Observer>, a: seq<Observer>, b: seq<Observer>, c: seq<Observer>, degree: nat)
    requires |reps| >= degree
    ensures Take(reps + a + b + c, degree) == Take(reps, degree)
  {
  }

  lemma FillFromRests(
    reps: seq<Observer>, same: seq<EntityId>, different: seq<EntityId>, independent: seq<EntityId>, degree: nat)
    requires Apart(same, different, independent) && Distinct(same) && Distinct(different) && Distinct(independent)
    requires reps == Representatives(same, different, independent) && |reps| <= degree
    ensures Filled(Filled(Filled(reps, same, degree), different, degree), independent, degree) ==
      Take(reps + Fillers(Rest(same)) + Fillers(Rest(different)) + Fillers(Rest(independent)), degree)
  {
    RepresentativesChosen(same, different, independent);
    RestWithin(same);
    RestWithin(different);
    RestWithin(independent);
    var a, b, c := Rest(same), Rest(different), Rest(independent);
    hide Filled, Representatives, Chosen, Elements, Rest, Fillers, Take, Distinct;
    FilledPastHead(reps, same, degree);
    var f1 := Filled(reps, same, degree);
    TakenChosen(reps, a, degree);
    TakeLength(reps + Fillers(a), degree);
    FilledPastHead(f1, different, degree);
    var f2 := Filled(f1, different, degree);
    TakenChosen(f1, b, degree);
    TakeLength(f1 + Fillers(b), degree);
    FilledPastHead(f2, independent, degree);
    TakeTwice(reps + Fillers(a), Fillers(b), degree);
    TakeTwice(reps + Fillers(a) + Fillers(b), Fillers(c), degree);
  }

  lemma TakeLength(x: seq<Observer>, degree: nat)
    ensures |Take(x, degree)| <= degree
  {
  }

  /** The bucket of one kind, rotated by the target's position. */
  ghost function Turned(
    edges: seq<Edge>, candidates: seq<EntityId>, target: EntityId, role: Role, i: nat): seq<EntityId>
  {
    Rotated(Bucket(edges, candidates, target, role), i)
  }

  lemma TurnedApart(edges: seq<Edge>, candidates: seq<EntityId>, target: EntityId, i: nat)
    ensures Apart(Turned(edges, candidates, target, SameDomain, i),
                  Turned(edges, candidates, target, DifferentDomain, i),
                  Turned(edges, candidates, target, Independent, i))
  {
    BucketMembers(edges, candidates, target, SameDomain);
    BucketMembers(edges, candidates, target, DifferentDomain);
    BucketMembers(edges, candidates, target, Independent);
    RotatedMembers(Bucket(edges, candidates, target, SameDomain), i);
    RotatedMembers(Bucket(edges, candidates, target, DifferentDomain), i);
    RotatedMembers(Bucket(edges, candidates, target, Independent), i);
    hide Rotated, Bucket, RoleOf;
  }

  ghost function RepresentativesOf(
    edges: seq<Edge>, target: EntityId, candidates: seq<EntityId>, i: nat): seq<Observer>
  {
    Representatives(Turned(edges, candidates, target, SameDomain, i),
                    Turned(edges, candidates, target, DifferentDomain, i),
                    Turned(edges, candidates, target, Independent, i))
  }

  /** Before any filler, every non-empty bucket is represented by its own role, as far as the degree goes. */
  lemma VarietyFirst(edges: seq<Edge>, target: EntityId, candidates: seq<EntityId>, degree: nat, i: nat)
    ensures var observers := ObserversOf(edges, target, candidates, degree, i);
      var reps := RepresentativesOf(edges, target, candidates, i);
      var n := Min(degree, |reps|);
      && n <= |observers| && observers[..n] == reps[..n]
      && forall j :: n <= j < |observers| ==> observers[j].role == Filler
  {
    var same := Turned(edges, candidates, target, SameDomain, i);
    var different := Turned(edges, candidates, target, DifferentDomain, i);
    var independent := Turned(edges, candidates, target, Independent, i);
    TurnedApart(edges, candidates, target, i);
    VarietyIsRepresentatives(same, different, independent, degree);
    ChoiceEffect(same, different, independent, degree);
    hide Choice, Variety, Representatives, Bucket;
    assert ObserversOf(edges, target, candidates, degree, i) == Choice(same, different, independent, degree);
  }

  /** So every target's observers stand in a fixed order, for distinct candidates. */
  lemma ObserversInOrder(edges: seq<Edge>, target: EntityId, candidates: seq<EntityId>, degree: nat, i: nat)
    requires Distinct(candidates)
    ensures var same := Turned(edges, candidates, target, SameDomain, i);
      var different := Turned(edges, candidates, target, DifferentDomain, i);
      var independent := Turned(edges, candidates, target, Independent, i);
      ObserversOf(edges, target, candidates, degree, i) ==
        Take(RepresentativesOf(edges, target, candidates, i)
             + Fillers(Rest(same)) + Fillers(Rest(different)) + Fillers(Rest(independent)), degree)
  {
    TurnedApart(edges, candidates, target, i);
    TurnedDistinct(edges, candidates, target, SameDomain, i);
    TurnedDistinct(edges, candidates, target, DifferentDomain, i);
    TurnedDistinct(edges, candidates, target, Independent, i);
    var same := Turned(edges, candidates, target, SameDomain, i);
    var different := Turned(edges, candidates, target, DifferentDomain, i);
    var independent := Turned(edges, candidates, target, Independent, i);
    assert ObserversOf(edges, target, candidates, degree, i) == Choice(same, different, independent, degree);
    assert RepresentativesOf(edges, target, candidates, i) == Representatives(same, different, independent);
    hide Turned, Choice, Representatives, Take, Fillers, Rest;
    ChoiceInOrder(same, different, independent, degree);
  }

  lemma TurnedDistinct(edges: seq<Edge>, candidates: seq<EntityId>, target: EntityId, role: Role, i: nat)
    requires Distinct(candidates)
    ensures Distinct(Turned(edges, candidates, target, role, i))
  {
    BucketMembers(edges, candidates, target, role);
    hide Bucket;
  }

  /** How many non-empty buckets come before the one of a role. */
  ghost function Ahead(edges: seq<Edge>, candidates: seq<EntityId>, target: EntityId, role: Role): nat {
    (if role != SameDomain && Bucket(edges, candidates, target, SameDomain) != [] then 1 else 0) +
    (if role == Independent && Bucket(edges, candidates, target, DifferentDomain) != [] then 1 else 0)
  }

  /** With the degree high enough to reach its bucket, a role goes to the member at the target's position. */
  lemma RepresentativeAt(
    edges: seq<Edge>, target: EntityId, candidates: seq<EntityId>, degree: nat, i: nat, role: Role, c: EntityId)
    requires role != Filler
    requires var bucket := Bucket(edges, candidates, target, role);
      bucket != [] && Ahead(edges, candidates, target, role) < degree
    ensures var bucket := Bucket(edges, candidates, target, role);
      Observer(c, role) in ObserversOf(edges, target, candidates, degree, i) <==> c == bucket[i % |bucket|]
  {
    var reps := RepresentativesOf(edges, target, candidates, i);
    var n := Min(degree, |reps|);
    var observers := ObserversOf(edges, target, candidates, degree, i);
    VarietyFirst(edges, target, candidates, degree, i);
    RotatedMembers(Bucket(edges, candidates, target, SameDomain), i);
    RotatedMembers(Bucket(edges, candidates, target, DifferentDomain), i);
    RotatedMembers(Bucket(edges, candidates, target, Independent), i);
    hide ObserversOf, Rotated, Bucket;
    var bucket := Bucket(edges, candidates, target, role);
    var at := Ahead(edges, candidates, target, role);
    assert at < |reps| && reps[at] == Observer(bucket[i % |bucket|], role);
    assert forall j :: 0 <= j < |reps| && reps[j].role == role ==> j == at;
    hide RepresentativesOf, Ahead;
    RoleOnlyAt(observers, reps, n, at, role, c);
  }

  /** A role that occurs once among the leading observers, and only fillers behind them. */
  lemma RoleOnlyAt(observers: seq<Observer>, reps: seq<Observer>, n: nat, at: nat, role: Role, c: EntityId)
    requires n <= |observers| && n <= |reps| && observers[..n] == reps[..n] && at < n && role != Filler
    requires forall j :: n <= j < |observers| ==> observers[j].role == Filler
    requires reps[at].role == role && forall j :: 0 <= j < |reps| && reps[j].role == role ==> j == at
    ensures Observer(c, role) in observers <==> c == reps[at].entity
  {
    assert forall j :: 0 <= j < n ==> observers[j] == observers[..n][j] == reps[..n][j] == reps[j];
  }

  // ----- rotation is fair

  lemma {:induction false} NextPosition(i: nat, k: nat)
    requires k > 0
    ensures (i + 1) % k == if i % k + 1 == k then 0 else i % k + 1
  {
    var q, r := i / k, i % k;
    assert i == q * k + r;
    if r + 1 == k {
      assert i + 1 == (q + 1) * k;
      MultiplePlus(q + 1, 0, k);
    } else {
      MultiplePlus(q, r + 1, k);
    }
  }

  lemma MultiplePlus(q: nat, r: nat, k: nat)
    requires r < k
    ensures (q * k + r) % k == r && (q * k + r) / k == q
  {
    var n := q * k + r;
    QuotientUnique(n / k, n % k, q, r, k);
  }

  lemma QuotientUnique(a: int, b: int, q: int, r: int, k: int)
    requires 0 <= b < k && 0 <= r < k && a * k + b == q * k + r
    ensures a == q && b == r
  {
    AtLeastOnce(a - q, k);
    AtLeastOnce(q - a, k);
    assert (a - q) * k == r - b && (q - a) * k == b - r;
  }

  lemma AtLeastOnce(x: int, k: int)
    requires k > 0
    ensures x >= 1 ==> x * k >= k
  {
    if x >= 1 {
      assert x * k == (x - 1) * k + k;
    }
  }

  /** Among k consecutive positions, each residue occurs exactly once. */
  lemma {:induction false} ResidueOnce(start: nat, k: nat, p: nat) returns (i: nat)
    requires p < k
    ensures start <= i < start + k && i % k == p
    ensures forall j :: start <= j < start + k && j % k == p ==> j == i
  {
    var r := start % k;
    i := if p >= r then start + (p - r) else start + (p - r + k);
    ResidueAlong(start, i - start, k);
    forall j | start <= j < start + k && j % k == p ensures j == i {
      ResidueAlong(start, j - start, k);
    }
  }

  lemma {:induction false} ResidueAlong(start: nat, t: nat, k: nat)
    requires t < k
    ensures (start + t) % k == if start % k + t < k then start % k + t else start % k + t - k
    decreases t
  {
    if t > 0 {
      ResidueAlong(start, t - 1, k);
      NextPosition(start + t - 1, k);
    }
  }

  /**
    Over any k consecutive targets that share a bucket of k candidates, with the degree
    high enough to reach it, each member represents that role for exactly one of them.
   */
  lemma RepresentationIsFair(
    edges: seq<Edge>, targets: seq<EntityId>, candidates: seq<EntityId>, degree: nat, assignments: seq<PeerAssignment>,
    bucket: seq<EntityId>, role: Role, start: nat, c: EntityId)
    requires IsPlan(edges, targets, candidates, degree, assignments) && Distinct(candidates)
    requires role != Filler && start + |bucket| <= |targets|
    requires forall i :: start <= i < start + |bucket| ==>
      Bucket(edges, candidates, targets[i], role) == bucket && Ahead(edges, candidates, targets[i], role) < degree
    requires c in bucket
    ensures exists i :: IsSoleRepresentative(assignments, role, c, start, |bucket|, i)
  {
    var k := |bucket|;
    var p :| 0 <= p < k && bucket[p] == c;
    BucketMembers(edges, candidates, targets[start], role);
    assert Distinct(bucket);
    var at := ResidueOnce(start, k, p);
    forall i | start <= i < start + k
      ensures Observer(c, role) in assignments[i].observers <==> i == at
    {
      RepresentedOnce(edges, targets, candidates, degree, assignments, bucket, role, i, c, p);
    }
    assert IsSoleRepresentative(assignments, role, c, start, k, at);
  }

  /** Position i is the only one of n from `start` on where c stands for the role. */
  ghost predicate IsSoleRepresentative(
    assignments: seq<PeerAssignment>, role: Role, c: EntityId, start: nat, n: nat, i: nat)
    requires start + n <= |assignments|
  {
    && start <= i < start + n
    && forall j :: start <= j < start + n ==> (Observer(c, role) in assignments[j].observers <==> j == i)
  }

  lemma RepresentedOnce(
    edges: seq<Edge>, targets: seq<EntityId>, candidates: seq<EntityId>, degree: nat, assignments: seq<PeerAssignment>,
    bucket: seq<EntityId>, role: Role, i: nat, c: EntityId, p: nat)
    requires IsPlan(edges, targets, candidates, degree, assignments) && i < |targets|
    requires role != Filler && Distinct(bucket) && p < |bucket| && bucket[p] == c
    requires Bucket(edges, candidates, targets[i], role) == bucket
    requires Ahead(edges, candidates, targets[i], role) < degree
    ensures Observer(c, role) in assignments[i].observers <==> i % |bucket| == p
  {
    RepresentativeAt(edges, targets[i], candidates, degree, i, role, c);
    hide Bucket, ObserversOf, Ahead;
    assert assignments[i] == PeerAssignment(targets[i], ObserversOf(edges, targets[i], candidates, degree, i));
    assert 0 <= i % |bucket| < |bucket|;
  }
}
