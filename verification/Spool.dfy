/**
  The agent's bounded observation queue: insert, read in replay order, remove what
  was confirmed, and evict by age, row count and bytes.
 */
module Spool {
  import opened Common
  import opened TextOrder
  import opened Digits
  import opened Rfc3339
  import opened Observations
  import opened SpoolOrder

  /** 64-bit limits, as configured. */
  datatype Limits = Limits(maxRows: nat, maxBytes: nat)

  datatype EvictionOutcome = EvictionOutcome(agedOut: nat, overRowLimit: nat, overByteLimit: nat) {
    function Total(): nat {
      agedOut + overRowLimit + overByteLimit
    }
  }

  const TWO_63: nat := 0x8000_0000_0000_0000

  /** Rows deleted per round of the byte phase. */
  const BYTE_ROUND: nat := 64

  /** The signed 64-bit value the row limit is bound as. */
  function BoundLimit(maxRows: nat): int {
    if maxRows < TWO_63 then maxRows else maxRows - 2 * TWO_63
  }

  /** LIMIT MAX(0, count - bound); None when the difference leaves the 64-bit range and the query fails. */
  function RowExcess(count: nat, maxRows: nat): Option<nat> {
    var difference := count - BoundLimit(maxRows);
    if difference >= TWO_63 then None else Some(Max(0, difference))
  }

  ghost function Aged(rows: set<Row>, cutoff: string): set<Row> {
    set r | r in rows && Less(r.recordedAt, cutoff)
  }

  function Bytes(s: seq<Row>): nat {
    if s == [] then 0 else s[0].size + Bytes(s[1..])
  }

  /** SUM(size_bytes) over the table. */
  function SizeBytes(rows: set<Row>): nat
    requires DistinctIds(rows)
  {
    Bytes(Sorted(Eviction, rows))
  }

  /** The least number of leading rows whose removal brings the rest within the limit. */
  function LeastDrop(s: seq<Row>, maxBytes: nat): (k: nat)
    ensures k <= |s| && Bytes(s[k..]) <= maxBytes
  {
    if Bytes(s) <= maxBytes then assert s[0..] == s; 0
    else
      var k := LeastDrop(s[1..], maxBytes);
      assert s[k + 1..] == s[1..][k..];
      k + 1
  }

  lemma {:induction false} BytesShrink(s: seq<Row>, k: nat)
    requires k <= |s|
    ensures Bytes(s[k..]) <= Bytes(s)
  {
    if k > 0 {
      BytesShrink(s[1..], k - 1);
      assert s[k..] == s[1..][k - 1..];
    } else {
      assert s[0..] == s;
    }
  }

  /** Dropping fewer rows than the least drop leaves too many bytes. */
  lemma {:induction false} LeastDropIsLeast(s: seq<Row>, maxBytes: nat, k: nat)
    requires k <= |s|
    ensures Bytes(s[k..]) > maxBytes <==> k < LeastDrop(s, maxBytes)
  {
    if Bytes(s) <= maxBytes {
      BytesShrink(s, k);
    } else if k > 0 {
      LeastDropIsLeast(s[1..], maxBytes, k - 1);
      assert s[k..] == s[1..][k - 1..];
    } else {
      assert s[0..] == s;
    }
  }

  /** The rows left after deleting the first k in eviction order. */
  function DropFirst(rows: set<Row>, k: nat): (rest: set<Row>)
    requires DistinctIds(rows)
    ensures rest <= rows && DistinctIds(rest)
  {
    var order := Sorted(Eviction, rows);
    Elements(order[Min(k, |order|)..])
  }

  lemma DropFirstTail(rows: set<Row>, k: nat)
    requires DistinctIds(rows)
    ensures var order := Sorted(Eviction, rows); var n := Min(k, |order|);
      Sorted(Eviction, DropFirst(rows, k)) == order[n..] && |DropFirst(rows, k)| == |rows| - n
  {
    SortedTail(Eviction, rows, Min(k, |Sorted(Eviction, rows)|));
  }

  lemma DropShrinks(rows: set<Row>, maxBytes: nat)
    requires DistinctIds(rows) && SizeBytes(rows) > maxBytes
    ensures rows != {} && |DropFirst(rows, BYTE_ROUND)| < |rows|
  {
    DropFirstTail(rows, BYTE_ROUND);
  }

  /** What rounds of deletions leave once the payload fits. */
  function ByteRounds(rows: set<Row>, maxBytes: nat): (rest: set<Row>)
    requires DistinctIds(rows)
    ensures rest <= rows
    decreases |rows|
  {
    if SizeBytes(rows) <= maxBytes then rows
    else
      DropShrinks(rows, maxBytes);
      ByteRounds(DropFirst(rows, BYTE_ROUND), maxBytes)
  }

  /** What an eviction leaves, statement after statement; a failed row query ends it. */
  ghost function Evicted(rows: set<Row>, cutoff: string, limits: Limits): set<Row>
    requires DistinctIds(rows)
  {
    var young := rows - Aged(rows, cutoff);
    var excess := RowExcess(|young|, limits.maxRows);
    if excess.None? then young else ByteRounds(DropFirst(young, excess.value), limits.maxBytes)
  }

  /** Rows the row phase removes: the overflow, or everything for a limit beyond 2^63. */
  function RowsOver(count: nat, maxRows: nat): nat {
    if maxRows < TWO_63 then Max(0, count - maxRows) else count
  }

  /** The byte phase brings the rest within the limit, removing fewer than 64 rows more than it had to. */
  ghost predicate BytePhase(rest: seq<Row>, maxBytes: nat, removed: nat) {
    && removed <= |rest|
    && LeastDrop(rest, maxBytes) <= removed < LeastDrop(rest, maxBytes) + 64
  }

  /** How space is made among the rows that are not too old: a prefix of the eviction order goes. */
  ghost predicate SpaceMade(order: seq<Row>, kept: set<Row>, limits: Limits, outcome: EvictionOutcome) {
    var spaced := outcome.overRowLimit + outcome.overByteLimit;
    && outcome.overRowLimit == RowsOver(|order|, limits.maxRows)
    && spaced <= |order| && kept == Elements(order[spaced..])
    && BytePhase(order[outcome.overRowLimit..], limits.maxBytes, outcome.overByteLimit)
  }

  /** How many leading rows the rounds delete. */
  function RoundsOff(order: seq<Row>, maxBytes: nat): (n: nat)
    ensures n <= |order|
    decreases |order|
  {
    if Bytes(order) <= maxBytes then 0
    else
      var round := Min(BYTE_ROUND, |order|);
      round + RoundsOff(order[round..], maxBytes)
  }

  lemma LeastDropBehind(order: seq<Row>, maxBytes: nat, round: nat, k: nat)
    requires round + k <= |order|
    ensures Bytes(order[round + k..]) > maxBytes <==> k < LeastDrop(order[round..], maxBytes)
  {
    assert order[round..][k..] == order[round + k..];
    LeastDropIsLeast(order[round..], maxBytes, k);
  }

  /** Behind a round that is due, the least drop is what is left of the least drop. */
  lemma LeastDropAfter(order: seq<Row>, maxBytes: nat, round: nat)
    requires Bytes(order) > maxBytes && round <= |order|
    ensures var least, further := LeastDrop(order, maxBytes), LeastDrop(order[round..], maxBytes);
      if further == 0 then 1 <= least <= round else least == round + further
  {
    hide Bytes;
    var least, further := LeastDrop(order, maxBytes), LeastDrop(order[round..], maxBytes);
    LeastDropIsLeast(order, maxBytes, 0);
    assert order[0..] == order;
    LeastDropBehind(order, maxBytes, round, further);
    LeastDropIsLeast(order, maxBytes, round + further);
    if further > 0 {
      LeastDropBehind(order, maxBytes, round, further - 1);
      LeastDropIsLeast(order, maxBytes, round + further - 1);
    }
  }

  lemma RoundAdds(order: seq<Row>, maxBytes: nat, round: nat, more: nat)
    requires Bytes(order) > maxBytes && round <= |order| && round <= BYTE_ROUND
    requires BytePhase(order[round..], maxBytes, more)
    requires Bytes(order[round..]) <= maxBytes ==> more == 0
    ensures BytePhase(order, maxBytes, round + more)
  {
    LeastDropAfter(order, maxBytes, round);
    LeastDropBehind(order, maxBytes, round, 0);
    hide Bytes, LeastDrop;
    assert order[round + 0..] == order[round..];
  }

  /** The rounds bring the bytes within the limit, deleting less than a round more than they had to. */
  lemma {:induction false} RoundsOffFit(order: seq<Row>, maxBytes: nat)
    ensures BytePhase(order, maxBytes, RoundsOff(order, maxBytes))
    ensures Bytes(order[RoundsOff(order, maxBytes)..]) <= maxBytes
    decreases |order|
  {
    hide BytePhase, Bytes;
    if Bytes(order) <= maxBytes {
      NoRounds(order, maxBytes);
    } else {
      var round := Min(BYTE_ROUND, |order|);
      var rest := order[round..];
      var more := RoundsOff(rest, maxBytes);
      RoundIsProper(order, maxBytes);
      assert RoundsOff(order, maxBytes) == round + more;
      assert Bytes(rest) <= maxBytes ==> more == 0;
      hide RoundsOff;
      RoundsOffFit(rest, maxBytes);
      RoundAdds(order, maxBytes, round, more);
      TailOfTail(order, round, more);
    }
  }

  lemma RoundIsProper(order: seq<Row>, maxBytes: nat)
    requires Bytes(order) > maxBytes
    ensures order != [] && |order[Min(BYTE_ROUND, |order|)..]| < |order|
  {
  }

  lemma TailOfTail(order: seq<Row>, a: nat, b: nat)
    requires a + b <= |order|
    ensures order[a..][b..] == order[a + b..]
  {
  }

  lemma NoRounds(order: seq<Row>, maxBytes: nat)
    requires Bytes(order) <= maxBytes
    ensures BytePhase(order, maxBytes, 0) && order[0..] == order
  {
    assert order[0..] == order;
    LeastDropIsLeast(order, maxBytes, 0);
  }

  lemma {:induction false} RoundsTail(rows: set<Row>, maxBytes: nat)
    requires DistinctIds(rows)
    ensures var order := Sorted(Eviction, rows);
      Sorted(Eviction, ByteRounds(rows, maxBytes)) == order[RoundsOff(order, maxBytes)..]
    decreases |rows|
  {
    hide Sorted, Bytes, DropFirst, DistinctIds;
    var order := Sorted(Eviction, rows);
    if SizeBytes(rows) <= maxBytes {
      assert order[0..] == order;
    } else {
      DropShrinks(rows, maxBytes);
      DropFirstTail(rows, BYTE_ROUND);
      RoundsTail(DropFirst(rows, BYTE_ROUND), maxBytes);
      var round := Min(BYTE_ROUND, |order|);
      var more := RoundsOff(order[round..], maxBytes);
      assert order[round..][more..] == order[round + more..];
    }
  }

  lemma NoRoundsLeft(rows: set<Row>, maxBytes: nat)
    requires DistinctIds(rows) && SizeBytes(rows) <= maxBytes
    ensures RoundsOff(Sorted(Eviction, rows), maxBytes) == 0
  {
  }

  lemma OneRound(rows: set<Row>, maxBytes: nat)
    requires DistinctIds(rows) && SizeBytes(rows) > maxBytes
    ensures RoundsOff(Sorted(Eviction, rows), maxBytes) ==
      Min(BYTE_ROUND, |rows|) + RoundsOff(Sorted(Eviction, DropFirst(rows, BYTE_ROUND)), maxBytes)
  {
    hide Sorted, Bytes, DropFirst;
    DropFirstTail(rows, BYTE_ROUND);
  }

  /** The row phase removes exactly the overflow, except that a limit beyond 2^63 removes everything. */
  lemma ExcessMeetsLimit(count: nat, maxRows: nat)
    requires maxRows < 2 * TWO_63 && RowExcess(count, maxRows).Some?
    ensures var removed := Min(RowExcess(count, maxRows).value, count);
      && removed == RowsOver(count, maxRows)
      && count - removed <= maxRows
    ensures Min(RowExcess(count, maxRows).value, count) == Max(0, count - maxRows) <==> maxRows < TWO_63 || count == 0
  {
  }

  lemma CombinePhases(order: seq<Row>, left: seq<Row>, kept: set<Row>, limits: Limits, outcome: EvictionOutcome)
    requires limits.maxRows < 2 * TWO_63 && RowExcess(|order|, limits.maxRows).Some?
    requires outcome.overRowLimit == Min(RowExcess(|order|, limits.maxRows).value, |order|)
    requires BytePhase(order[outcome.overRowLimit..], limits.maxBytes, outcome.overByteLimit)
    requires left == order[outcome.overRowLimit..][outcome.overByteLimit..]
    requires kept == Elements(left) && |kept| == |left|
    ensures SpaceMade(order, kept, limits, outcome) && |kept| <= limits.maxRows
    ensures outcome.overRowLimit + outcome.overByteLimit + |kept| == |order|
  {
    ExcessMeetsLimit(|order|, limits.maxRows);
    assert left == order[outcome.overRowLimit + outcome.overByteLimit..];
  }

  /** What a push leaves of all rows, old and new. */
  ghost predicate IsPushed(
    all: set<Row>, cutoff: string, limits: Limits, kept: set<Row>, outcome: Option<EvictionOutcome>)
  {
    && DistinctIds(all) && DistinctIds(kept)
    && kept == Evicted(all, cutoff, limits) <= all - Aged(all, cutoff)
    && (outcome.None? ==> kept == all - Aged(all, cutoff))
    && (outcome.Some? ==>
      && |kept| <= limits.maxRows && SizeBytes(kept) <= limits.maxBytes
      && outcome.value.Total() + |kept| == |all|
      && SpaceMade(Sorted(Eviction, all - Aged(all, cutoff)), kept, limits, outcome.value))
  }

  class Spool {
    var rows: set<Row>
    const limits: Limits

    ghost predicate Valid()
      reads this
    {
      DistinctIds(rows) && WellKeyed(rows) && limits.maxRows < 2 * TWO_63
    }

    constructor (limits: Limits)
      requires limits.maxRows < 2 * TWO_63
      ensures Valid() && rows == {} && this.limits == limits
    {
      this.limits := limits;
      rows := {};
    }

    /** Insert rows whose id is not there yet; existing rows are never overwritten. */
    method InsertAll(observations: seq<Observation>)
      requires Valid()
      modifies this
      ensures Valid() && rows == WithInserted(old(rows), observations)
    {
      hide RowOf;
      for i := 0 to |observations|
        invariant Valid() && rows == WithInserted(old(rows), observations[..i])
      {
        assert observations[..i + 1][..i] == observations[..i];
        rows := WithRow(rows, RowOf(observations[i]));
      }
      assert observations[..|observations|] == observations;
    }

    /** Commit new observations, then enforce the limits on all of them. */
    method Push(observations: seq<Observation>, cutoff: string) returns (outcome: Option<EvictionOutcome>)
      requires Valid()
      modifies this
      ensures Valid()
      ensures IsPushed(WithInserted(old(rows), observations), cutoff, limits, rows, outcome)
    {
      hide WithInserted, Aged, SpaceMade, SizeBytes, Sorted;
      InsertAll(observations);
      outcome := Evict(cutoff);
    }

    /** The most urgent rows, most urgent first; nothing is removed. */
    method Peek(limit: nat) returns (batch: seq<Row>)
      requires Valid()
      ensures IsReplayBatch(rows, limit, batch)
      ensures forall i, j :: 0 <= i < j < |batch| ==> IsMoreUrgent(batch[i], batch[j])
      ensures forall b, r :: b in batch && r in rows && r !in batch ==> IsMoreUrgent(b, r)
    {
      hide Before;
      batch := ReplayBatch(rows, limit);
      ReplayBatchIsOne(rows, limit, batch);
      forall a, b | Before(Replay, a, b) ensures IsMoreUrgent(a, b) {
        ReplayIsUrgency(a, b);
      }
    }

    /** Remove confirmed observations, counting those that were there. */
    method Acknowledge(ids: seq<ObservationId>) returns (removed: nat)
      requires Valid()
      modifies this
      ensures Valid() && rows == Without(old(rows), Elements(ids))
      ensures removed + |rows| == |old(rows)|
    {
      removed := 0;
      for i := 0 to |ids|
        invariant Valid() && rows == Without(old(rows), Elements(ids[..i]))
        invariant removed + |rows| == |old(rows)|
      {
        var matching := set r | r in rows && r.id == ids[i];
        removed := removed + |matching|;
        rows := rows - matching;
        assert Elements(ids[..i + 1]) == Elements(ids[..i]) + {ids[i]};
      }
      assert ids[..|ids|] == ids;
    }

    /** Enforce the limits, least valuable rows first. None is a failed row-limit query. */
    method Evict(cutoff: string) returns (outcome: Option<EvictionOutcome>)
      requires Valid()
      modifies this
      ensures Valid() && rows == Evicted(old(rows), cutoff, limits) <= old(rows) - Aged(old(rows), cutoff)
      ensures outcome.Some? ==> |rows| <= limits.maxRows && SizeBytes(rows) <= limits.maxBytes
      ensures outcome.Some? ==> outcome.value.agedOut == |Aged(old(rows), cutoff)|
      ensures outcome.Some? ==>
        SpaceMade(Sorted(Eviction, old(rows) - Aged(old(rows), cutoff)), rows, limits, outcome.value)
      ensures outcome.Some? ==> outcome.value.Total() + |rows| == |old(rows)|
      ensures outcome.None? <==>
        |old(rows) - Aged(old(rows), cutoff)| >= TWO_63 + BoundLimit(limits.maxRows)
      ensures outcome.None? ==> rows == old(rows) - Aged(old(rows), cutoff)
    {
      var aged := set r | r in rows && Less(r.recordedAt, cutoff);
      assert aged == Aged(rows, cutoff) && rows == (rows - aged) + aged;
      rows := rows - aged;
      outcome := MakeSpace(|aged|);
    }

    /** The row phase, then the byte phase. */
    method MakeSpace(aged: nat) returns (outcome: Option<EvictionOutcome>)
      requires Valid()
      modifies this
      ensures Valid() && rows <= old(rows)
      ensures outcome.None? <==> |old(rows)| >= TWO_63 + BoundLimit(limits.maxRows)
      ensures outcome.None? ==> rows == old(rows)
      ensures var excess := RowExcess(|old(rows)|, limits.maxRows);
        excess.Some? ==> rows == ByteRounds(DropFirst(old(rows), excess.value), limits.maxBytes)
      ensures outcome.Some? ==> outcome.value.agedOut == aged
      ensures outcome.Some? ==> |rows| <= limits.maxRows && SizeBytes(rows) <= limits.maxBytes
      ensures outcome.Some? ==> SpaceMade(Sorted(Eviction, old(rows)), rows, limits, outcome.value)
      ensures outcome.Some? ==> outcome.value.Total() + |rows| == aged + |old(rows)|
    {
      var excess := RowExcess(|rows|, limits.maxRows);
      if excess.None? {
        return None;
      }
      var overRows := EvictRows(excess.value);
      var overBytes := EvictBytes();
      outcome := Some(EvictionOutcome(aged, overRows, overBytes));
      CombinePhases(Sorted(Eviction, old(rows)), Sorted(Eviction, rows), rows, limits, outcome.value);
    }

    /** The row phase: one deletion of the leading rows. */
    method EvictRows(excess: nat) returns (removed: nat)
      requires Valid()
      modifies this
      ensures Valid() && rows <= old(rows)
      ensures rows == DropFirst(old(rows), excess)
      ensures removed == Min(excess, |old(rows)|) && |rows| == |old(rows)| - removed
      ensures Sorted(Eviction, rows) == Sorted(Eviction, old(rows))[removed..]
    {
      DropFirstTail(rows, excess);
      removed := Min(excess, |rows|);
      rows := DropFirst(rows, excess);
    }

    /** The byte phase: delete rounds of rows until the payload fits. */
    method EvictBytes() returns (removed: nat)
      requires Valid()
      modifies this
      ensures Valid() && rows <= old(rows)
      ensures rows == ByteRounds(old(rows), limits.maxBytes)
      ensures SizeBytes(rows) <= limits.maxBytes
      ensures BytePhase(Sorted(Eviction, old(rows)), limits.maxBytes, removed)
      ensures Sorted(Eviction, rows) == Sorted(Eviction, old(rows))[removed..]
    {
      hide BytePhase, Sorted, SizeBytes, RoundsOff;
      removed := 0;
      while SizeBytes(rows) > limits.maxBytes
        invariant Valid() && rows <= old(rows)
        invariant removed + RoundsOff(Sorted(Eviction, rows), limits.maxBytes) ==
          RoundsOff(Sorted(Eviction, old(rows)), limits.maxBytes)
        invariant ByteRounds(rows, limits.maxBytes) == ByteRounds(old(rows), limits.maxBytes)
        decreases |rows|
      {
        DropShrinks(rows, limits.maxBytes);
        OneRound(rows, limits.maxBytes);
        var round := Min(BYTE_ROUND, |rows|);
        rows := DropFirst(rows, BYTE_ROUND);
        if round == 0 {
          break;
        }
        removed := removed + round;
      }
      RoundsOffFit(Sorted(Eviction, old(rows)), limits.maxBytes);
      RoundsTail(old(rows), limits.maxBytes);
      NoRoundsLeft(rows, limits.maxBytes);
    }
  }

  // ----- the effects of the statements

  function WithRow(rows: set<Row>, r: Row): (result: set<Row>)
    ensures DistinctIds(rows) ==> DistinctIds(result)
    ensures WellKeyed(rows) && r.id == r.observation.id ==> WellKeyed(result)
  {
    if r.id in IdsOf(rows) then rows else rows + {r}
  }

  function WithInserted(rows: set<Row>, observations: seq<Observation>): (result: set<Row>)
    ensures DistinctIds(rows) ==> DistinctIds(result)
    ensures WellKeyed(rows) ==> WellKeyed(result)
  {
    if observations == [] then rows
    else
      var last := |observations| - 1;
      WithRow(WithInserted(rows, observations[..last]), RowOf(observations[last]))
  }

  function ReplayBatch(rows: set<Row>, limit: nat): (batch: seq<Row>)
    requires DistinctIds(rows)
    ensures |batch| == Min(limit, |rows|)
  {
    var order := Sorted(Replay, rows);
    order[..Min(limit, |order|)]
  }

  /** In replay order, as many rows as the limit allows, and nothing left out ranks before any of them. */
  ghost predicate IsReplayBatch(rows: set<Row>, limit: nat, batch: seq<Row>) {
    && Ordered(Replay, batch) && Elements(batch) <= rows && |batch| == Min(limit, |rows|)
    && forall b, r :: b in batch && r in rows && r !in batch ==> Before(Replay, b, r)
  }

  /** Of higher priority, or of the same and not recorded later, ids deciding between equal times. */
  predicate IsMoreUrgent(a: Row, b: Row) {
    && a.priority >= b.priority
    && (a.priority == b.priority ==> !Less(b.recordedAt, a.recordedAt))
    && (a.priority == b.priority && a.recordedAt == b.recordedAt ==> Less(a.id, b.id))
  }

  lemma ReplayIsUrgency(a: Row, b: Row)
    ensures Before(Replay, a, b) <==> IsMoreUrgent(a, b)
  {
    LessTotal(a.recordedAt, b.recordedAt);
    LessAsymmetric(a.recordedAt, b.recordedAt);
  }

  /** Of lower priority, or of the same and not recorded later, ids deciding between equal times. */
  predicate IsMoreExpendable(a: Row, b: Row) {
    && a.priority <= b.priority
    && (a.priority == b.priority ==> !Less(b.recordedAt, a.recordedAt))
    && (a.priority == b.priority && a.recordedAt == b.recordedAt ==> Less(a.id, b.id))
  }

  lemma EvictionIsExpendability(a: Row, b: Row)
    ensures Before(Eviction, a, b) <==> IsMoreExpendable(a, b)
  {
    LessTotal(a.recordedAt, b.recordedAt);
    LessAsymmetric(a.recordedAt, b.recordedAt);
  }

  /** What a row's columns say of its observation. */
  lemma RowColumns(o: Observation)
    ensures RowOf(o).id == o.id && RowOf(o).size == o.size
    ensures FourDigitYear(o.finishedAt) ==> ParseCanonical(RowOf(o).recordedAt) == Some(Truncated(o.finishedAt))
  {
    hide ToRfc3339, ParseCanonical, Truncated, FourDigitYear, PriorityOf;
    CanonicalFormatted(o.finishedAt);
  }

  /** As instants, as far as years have four digits. */
  predicate IsNoLater(a: Observation, b: Observation) {
    FourDigitYear(a.finishedAt) && FourDigitYear(b.finishedAt) ==>
      Truncated(a.finishedAt) <= Truncated(b.finishedAt)
  }

  /** Of two rows of one priority the one further ahead in a batch, or in it, finished no later. */
  lemma OldestIsPeekedFirst(a: Observation, b: Observation)
    requires IsMoreUrgent(RowOf(a), RowOf(b)) && RowOf(a).priority == RowOf(b).priority
    ensures IsNoLater(a, b)
  {
    hide ToRfc3339, Truncated, FourDigitYear, PriorityOf;
    if FourDigitYear(a.finishedAt) && FourDigitYear(b.finishedAt) {
      TextOrderIsTimeOrder(b.finishedAt, a.finishedAt);
    }
  }

  /** Of two rows of one priority the one that goes for space finished no later than the one that stays. */
  lemma OldestIsEvictedFirst(gone: Observation, stays: Observation)
    requires IsMoreExpendable(RowOf(gone), RowOf(stays)) && RowOf(gone).priority == RowOf(stays).priority
    ensures IsNoLater(gone, stays)
  {
    hide ToRfc3339, Truncated, FourDigitYear, PriorityOf;
    if FourDigitYear(gone.finishedAt) && FourDigitYear(stays.finishedAt) {
      TextOrderIsTimeOrder(stays.finishedAt, gone.finishedAt);
    }
  }

  /** The bytes of a table are its rows' sizes added up, in whatever order they came. */
  lemma {:induction false} SizeBytesAdds(rows: set<Row>, r: Row)
    requires r !in rows && DistinctIds(rows + {r})
    ensures SizeBytes({}) == 0
    ensures SizeBytes(rows + {r}) == SizeBytes(rows) + r.size
    decreases |rows|
  {
    hide Before, Sorted, Bytes, SizeBytes;
    NoRowsNoBytes();
    var all := rows + {r};
    var m := First(Eviction, all);
    FirstAndRest(all);
    if m == r {
      assert all - {r} == rows;
    } else {
      assert m in rows && IsFirst(Eviction, rows, m);
      FirstUnique(Eviction, rows, m, First(Eviction, rows));
      FirstAndRest(rows);
      SizeBytesAdds(rows - {m}, r);
      assert all - {m} == (rows - {m}) + {r};
    }
  }

  lemma NoRowsNoBytes()
    ensures SizeBytes({}) == 0
  {
  }

  lemma FirstAndRest(rows: set<Row>)
    requires rows != {} && DistinctIds(rows)
    ensures SizeBytes(rows) == First(Eviction, rows).size + SizeBytes(rows - {First(Eviction, rows)})
  {
    SortedUnfolds(Eviction, rows);
    hide Sorted, First, Before;
  }

  /** There is one such batch: the front of the rows in order. */
  lemma ReplayBatchIsOne(rows: set<Row>, limit: nat, batch: seq<Row>)
    requires DistinctIds(rows)
    ensures IsReplayBatch(rows, limit, batch) <==> batch == ReplayBatch(rows, limit)
  {
    if IsReplayBatch(rows, limit, batch) {
      BatchIsFront(rows, limit, batch);
    }
    FrontIsBatch(rows, limit);
  }

  lemma FrontIsBatch(rows: set<Row>, limit: nat)
    requires DistinctIds(rows)
    ensures IsReplayBatch(rows, limit, ReplayBatch(rows, limit))
  {
    var order, batch := Sorted(Replay, rows), ReplayBatch(rows, limit);
    SortedIsOrdered(Replay, rows);
    hide Sorted, Before;
    assert batch == order[..|batch|];
    forall b | b in batch ensures b in rows {
      assert b in Elements(order);
    }
    forall b, r | b in batch && r in rows && r !in batch ensures Before(Replay, b, r) {
      assert r in Elements(order);
      SplitMember(order, |batch|, r);
      FrontRanksFirst(Replay, order, |batch|, b, r);
    }
  }

  lemma BatchIsFront(rows: set<Row>, limit: nat, batch: seq<Row>)
    requires DistinctIds(rows) && IsReplayBatch(rows, limit, batch)
    ensures batch == ReplayBatch(rows, limit)
  {
    var rest := Sorted(Replay, rows - Elements(batch));
    SortedIsOrdered(Replay, rows - Elements(batch));
    var s := batch + rest;
    assert Elements(s) == Elements(batch) + Elements(rest) == rows;
    forall i, j | 0 <= i < j < |s| ensures Before(Replay, s[i], s[j]) {
      if i < |batch| <= j {
        assert rest[j - |batch|] in Elements(rest);
        assert batch[i] in batch;
      }
    }
    OrderedUnique(Replay, s);
    hide Sorted, Before;
    assert s[..|batch|] == batch;
  }

  function Without(rows: set<Row>, ids: set<ObservationId>): set<Row> {
    set r | r in rows && r.id !in ids
  }

  /** No row is evicted for space while a row of lower priority survives. */
  lemma ImportantRowsOutlive(
    young: set<Row>, kept: set<Row>, limits: Limits, outcome: EvictionOutcome, gone: Row, stays: Row)
    requires DistinctIds(young) && SpaceMade(Sorted(Eviction, young), kept, limits, outcome)
    requires gone in young && gone !in kept && stays in kept
    ensures Before(Eviction, gone, stays) && IsMoreExpendable(gone, stays)
  {
    var order := Sorted(Eviction, young);
    var spaced := outcome.overRowLimit + outcome.overByteLimit;
    SortedIsOrdered(Eviction, young);
    assert gone in Elements(order) && stays in Elements(order[spaced..]) && gone !in Elements(order[spaced..]);
    hide Sorted;
    SplitMember(order, spaced, gone);
    FrontRanksFirst(Eviction, order, spaced, gone, stays);
    EvictionIsExpendability(gone, stays);
  }

  /** Nothing was wrong and the host had not rebooted. */
  predicate IsRoutine(o: Observation) {
    !o.status.IsBad() && !o.status.Degraded? && o.probe != PROBE_BOOT
  }

  /** A failure, or a reboot that is not a degradation. */
  predicate IsWeighty(o: Observation) {
    o.status.IsBad() || (o.probe == PROBE_BOOT && !o.status.Degraded?)
  }

  /** Ranking no higher, a failure or reboot stands only behind such, and nothing abnormal behind routine. */
  lemma PrioritiesRank(gone: Observation, stays: Observation)
    requires PriorityOf(gone) <= PriorityOf(stays)
    ensures IsWeighty(gone) ==> IsWeighty(stays)
    ensures !IsRoutine(gone) ==> !IsRoutine(stays)
  {
  }

  /** One deletion of leading rows takes nothing that ranks behind a survivor. */
  lemma DroppedRankFirst(rows: set<Row>, k: nat, gone: Row, stays: Row)
    requires DistinctIds(rows)
    requires gone in rows && gone !in DropFirst(rows, k) && stays in DropFirst(rows, k)
    ensures Before(Eviction, gone, stays) && IsMoreExpendable(gone, stays)
  {
    var order := Sorted(Eviction, rows);
    SortedIsOrdered(Eviction, rows);
    var n := Min(k, |order|);
    assert gone in Elements(order) && stays in Elements(order[n..]) && gone !in Elements(order[n..]);
    hide Sorted;
    SplitMember(order, n, gone);
    FrontRanksFirst(Eviction, order, n, gone, stays);
    EvictionIsExpendability(gone, stays);
  }

  /**
    While a failure or reboot goes for space, only such survive; while anything abnormal goes,
    nothing routine does.
   */
  lemma FailuresOutliveRoutine(
    young: set<Row>, kept: set<Row>, limits: Limits, outcome: EvictionOutcome, gone: Observation, stays: Observation)
    requires DistinctIds(young) && SpaceMade(Sorted(Eviction, young), kept, limits, outcome)
    requires RowOf(gone) in young && RowOf(gone) !in kept && RowOf(stays) in kept
    ensures IsWeighty(gone) ==> IsWeighty(stays)
    ensures !IsRoutine(gone) ==> !IsRoutine(stays)
  {
    hide SpaceMade, Sorted, ToRfc3339, DistinctIds;
    ImportantRowsOutlive(young, kept, limits, outcome, RowOf(gone), RowOf(stays));
  }

  /** A row is too old by text exactly when it is as an instant, or its year has more than four digits. */
  lemma AgedIsOlder(rows: set<Row>, cutoff: Timestamp, o: Observation)
    requires RowOf(o) in rows && FourDigitYear(cutoff)
    ensures RowOf(o) in Aged(rows, ToRfc3339(cutoff)) <==>
      Truncated(o.finishedAt) < Truncated(cutoff) || ToCivil(o.finishedAt).year > 9999
  {
    hide ToCivil, ToRfc3339;
    TextOrderLimit(o.finishedAt, cutoff);
    if ToCivil(o.finishedAt).year > 9999 {
      LateYearsSortFirst(o.finishedAt, cutoff);
    }
  }

  lemma LateYearsSortFirst(a: Timestamp, b: Timestamp)
    requires FourDigitYear(b) && ToCivil(a).year > 9999
    ensures Less(ToRfc3339(a), ToRfc3339(b))
  {
    assert ToRfc3339(a)[0] == '+';
    assert ToRfc3339(b)[0] == Fixed(ToCivil(b).year, 4)[0];
  }

  ghost predicate OutlivesAge(rows: set<Row>, cutoff: Timestamp, o: Observation) {
    RowOf(o) in rows - Aged(rows, ToRfc3339(cutoff))
  }

  /**
    The age phase leaves nothing older than the cutoff, whatever is spooled, exactly for cutoffs in
    four-digit years.
   */
  lemma NothingOlderThanCutoff(cutoff: Timestamp)
    ensures (forall rows, o :: OutlivesAge(rows, cutoff, o) ==> Truncated(cutoff) <= Truncated(o.finishedAt))
      <==> FourDigitYear(cutoff)
  {
    hide ToCivil, ToRfc3339, Truncated;
    if FourDigitYear(cutoff) {
      forall rows, o | OutlivesAge(rows, cutoff, o) ensures Truncated(cutoff) <= Truncated(o.finishedAt) {
        AgedIsOlder(rows, cutoff, o);
      }
    } else {
      var earlier := NewYear(EarlierYear(ToCivil(cutoff).year));
      EarlierIsNotLess(cutoff);
      var o := Observation("", "", 0, None, earlier, Ok, 0);
      assert OutlivesAge({RowOf(o)}, cutoff, o);
    }
  }
}
