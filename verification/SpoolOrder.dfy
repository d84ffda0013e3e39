/** The spool's rows and the two orders they are read and evicted in. */
module SpoolOrder {
  import opened Common
  import opened TextOrder
  import opened Rfc3339
  import opened Observations

  /** How important an observation is to keep when space runs short. */
  function PriorityOf(o: Observation): int {
    if o.status.Failed? || o.status.Timeout? || o.status.Stuck? then 2
    else if o.status.Degraded? then 1
    else if o.probe == PROBE_BOOT then 2
    else 0
  }

  /** One row of the spool table, with the columns an insert binds. */
  datatype Row = Row(id: ObservationId, recordedAt: string, priority: int, size: nat, observation: Observation)

  function RowOf(o: Observation): (r: Row)
    ensures r.observation == o && r.id == o.id
  {
    Row(o.id, ToRfc3339(o.finishedAt), PriorityOf(o), o.size, o)
  }

  /** The primary key: no two rows share an id. */
  ghost predicate DistinctIds(rows: set<Row>) {
    forall a, b :: a in rows && b in rows && a.id == b.id ==> a == b
  }

  /** Each row is filed under its observation's id. */
  ghost predicate WellKeyed(rows: set<Row>) {
    forall r :: r in rows ==> r.id == r.observation.id
  }

  function IdsOf(rows: set<Row>): set<ObservationId> {
    set r | r in rows :: r.id
  }

  /** Eviction takes low priorities first, replay high ones; both oldest first, then by id. */
  datatype Order = Eviction | Replay

  function Rank(order: Order, r: Row): int {
    if order.Eviction? then r.priority else -r.priority
  }

  predicate Before(order: Order, a: Row, b: Row) {
    || Rank(order, a) < Rank(order, b)
    || (Rank(order, a) == Rank(order, b) && (
    || Less(a.recordedAt, b.recordedAt)
    || (a.recordedAt == b.recordedAt && Less(a.id, b.id))))
  }

  lemma BeforeTransitive(order: Order, a: Row, b: Row, c: Row)
    requires Before(order, a, b) && Before(order, b, c)
    ensures Before(order, a, c)
  {
    if Less(a.recordedAt, b.recordedAt) && Less(b.recordedAt, c.recordedAt) {
      LessTransitive(a.recordedAt, b.recordedAt, c.recordedAt);
    }
    if Less(a.id, b.id) && Less(b.id, c.id) {
      LessTransitive(a.id, b.id, c.id);
    }
  }

  lemma BeforeTotal(order: Order, a: Row, b: Row)
    ensures Before(order, a, b) || Before(order, b, a) || a.id == b.id
    ensures !(Before(order, a, b) && Before(order, b, a))
    ensures !Before(order, a, a)
  {
    LessTotal(a.recordedAt, b.recordedAt);
    LessAsymmetric(a.recordedAt, b.recordedAt);
    LessTotal(a.id, b.id);
    LessAsymmetric(a.id, b.id);
  }

  /** The two orders are each other's reverse exactly on rows of different priority. */
  lemma ReversedAcrossPriorities(a: Row, b: Row)
    requires a.id != b.id
    ensures (Before(Eviction, a, b) <==> Before(Replay, b, a)) <==> a.priority != b.priority
  {
    BeforeTotal(Eviction, a, b);
    BeforeTotal(Replay, a, b);
  }

  predicate IsFirst(order: Order, rows: set<Row>, m: Row) {
    m in rows && forall x :: x in rows ==> x == m || Before(order, m, x)
  }

  lemma {:induction false} FirstExists(order: Order, rows: set<Row>)
    requires rows != {} && DistinctIds(rows)
    ensures exists m :: IsFirst(order, rows, m)
  {
    var o :| o in rows;
    if rows == {o} {
      assert IsFirst(order, rows, o);
    } else {
      var rest := rows - {o};
      assert rest != {};
      FirstExists(order, rest);
      var m :| IsFirst(order, rest, m);
      BeforeTotal(order, o, m);
      if Before(order, o, m) {
        forall x | x in rows ensures x == o || Before(order, o, x) {
          if x in rest && x != m {
            BeforeTransitive(order, o, m, x);
          }
        }
        assert IsFirst(order, rows, o);
      } else {
        assert IsFirst(order, rows, m);
      }
    }
  }

  lemma FirstUnique(order: Order, rows: set<Row>, m: Row, n: Row)
    requires IsFirst(order, rows, m) && IsFirst(order, rows, n)
    ensures m == n
  {
    BeforeTotal(order, m, n);
  }

  function First(order: Order, rows: set<Row>): (m: Row)
    requires rows != {} && DistinctIds(rows)
    ensures IsFirst(order, rows, m)
  {
    FirstExists(order, rows);
    assert forall m, n :: IsFirst(order, rows, m) && IsFirst(order, rows, n) ==> m == n by {
      forall m, n | IsFirst(order, rows, m) && IsFirst(order, rows, n) ensures m == n {
        FirstUnique(order, rows, m, n);
      }
    }
    var m :| m in rows && IsFirst(order, rows, m);
    m
  }

  ghost predicate Ordered(order: Order, s: seq<Row>) {
    forall i, j :: 0 <= i < j < |s| ==> Before(order, s[i], s[j])
  }

  /** The rows in the given order: what ORDER BY returns. */
  function Sorted(order: Order, rows: set<Row>): (s: seq<Row>)
    requires DistinctIds(rows)
    ensures Elements(s) == rows && |s| == |rows|
    decreases |rows|
  {
    if rows == {} then []
    else
      var m := First(order, rows);
      var rest := Sorted(order, rows - {m});
      assert Elements([m] + rest) == {m} + Elements(rest);
      [m] + rest
  }

  lemma {:induction false} SortedIsOrdered(order: Order, rows: set<Row>)
    requires DistinctIds(rows)
    ensures Ordered(order, Sorted(order, rows))
    decreases |rows|
  {
    if rows != {} {
      var m := First(order, rows);
      SortedIsOrdered(order, rows - {m});
      SortedUnfolds(order, rows);
      OrderedBehindFirst(order, rows, m, Sorted(order, rows - {m}));
    }
  }

  lemma OrderedBehindFirst(order: Order, rows: set<Row>, m: Row, rest: seq<Row>)
    requires IsFirst(order, rows, m) && Elements(rest) == rows - {m} && Ordered(order, rest)
    ensures Ordered(order, [m] + rest)
  {
    hide Before;
    forall i | 0 <= i < |rest| ensures Before(order, m, rest[i]) {
      assert rest[i] in Elements(rest);
    }
  }

  lemma OrderedIsDistinct(order: Order, s: seq<Row>)
    requires Ordered(order, s)
    ensures Distinct(s)
  {
    forall i, j | 0 <= i < j < |s| ensures s[i] != s[j] {
      BeforeTotal(order, s[i], s[j]);
    }
  }

  /** There is only one way to order a set of rows. */
  lemma {:induction false} OrderedUnique(order: Order, s: seq<Row>)
    requires Ordered(order, s) && DistinctIds(Elements(s))
    ensures Sorted(order, Elements(s)) == s
    decreases |s|
  {
    if s != [] {
      HeadIsFirst(order, s);
      OrderedUnique(order, s[1..]);
      SortedUnfolds(order, Elements(s));
      hide Sorted, First, Before;
      assert s == [s[0]] + s[1..];
    }
  }

  lemma SortedUnfolds(order: Order, rows: set<Row>)
    requires rows != {} && DistinctIds(rows)
    ensures Sorted(order, rows) == [First(order, rows)] + Sorted(order, rows - {First(order, rows)})
  {
  }

  lemma HeadIsFirst(order: Order, s: seq<Row>)
    requires s != [] && Ordered(order, s) && DistinctIds(Elements(s))
    ensures Ordered(order, s[1..]) && DistinctIds(Elements(s[1..]))
    ensures s[0] in Elements(s) && First(order, Elements(s)) == s[0] && Elements(s[1..]) == Elements(s) - {s[0]}
  {
    var rows := Elements(s);
    OrderedIsDistinct(order, s);
    assert IsFirst(order, rows, s[0]) by {
      assert s[0] in rows;
    }
    FirstUnique(order, rows, s[0], First(order, rows));
    assert s == [s[0]] + s[1..];
  }

  /** Taking rows off the front leaves the rest in the same order. */
  lemma SortedTail(order: Order, rows: set<Row>, k: nat)
    requires DistinctIds(rows) && k <= |rows|
    ensures var tail := Sorted(order, rows)[k..];
      Elements(tail) <= rows && Sorted(order, Elements(tail)) == tail && |Elements(tail)| == |rows| - k
  {
    var tail := Sorted(order, rows)[k..];
    SortedIsOrdered(order, rows);
    assert Elements(tail) <= rows;
    OrderedUnique(order, tail);
  }

  /** Everything in front of a position ranks before everything from it on. */
  lemma FrontRanksFirst(order: Order, s: seq<Row>, k: nat, a: Row, b: Row)
    requires Ordered(order, s) && k <= |s| && a in s[..k] && b in s[k..]
    ensures Before(order, a, b)
  {
    hide Before;
    var i :| 0 <= i < k && s[i] == a;
    var j :| 0 <= j < |s| - k && s[k..][j] == b;
    assert s[k + j] == b;
  }

  /** What ranks before the row at a position stands in front of it. */
  lemma BeforeStandsInFront(order: Order, s: seq<Row>, k: nat, a: Row)
    requires Ordered(order, s) && k < |s| && a in s && Before(order, a, s[k])
    ensures a in s[..k]
  {
    BeforeTotal(order, a, s[k]);
    hide Before;
    var j :| 0 <= j < |s| && s[j] == a;
    assert j < k;
    assert s[..k][j] == a;
  }

  lemma SplitMember(s: seq<Row>, k: nat, a: Row)
    requires k <= |s| && a in s
    ensures a in s[..k] || a in s[k..]
  {
    assert s == s[..k] + s[k..];
  }
}
