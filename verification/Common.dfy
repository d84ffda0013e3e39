/** Values shared by every module: optional values and entity identifiers. */
module Common {

  datatype Option<+T> = None | Some(value: T)

  /** A 128-bit entity UUID. Only identity and order matter, so it is a number. */
  type EntityId = nat

  function Min(a: int, b: int): int {
    if a <= b then a else b
  }

  function Max(a: int, b: int): int {
    if a <= b then b else a
  }

  /** The elements of a sequence, as a set. */
  function Elements<T(==)>(s: seq<T>): set<T> {
    set x | x in s
  }

  ghost predicate Distinct<T>(s: seq<T>) {
    forall i, j :: 0 <= i < j < |s| ==> s[i] != s[j]
  }

  lemma {:induction false} DistinctSize<T>(s: seq<T>)
    requires Distinct(s)
    ensures |Elements(s)| == |s|
  {
    if s == [] {
      assert Elements(s) == {};
    } else {
      var n := |s| - 1;
      DistinctSize(s[..n]);
      assert Elements(s) == Elements(s[..n]) + {s[n]};
    }
  }

  lemma {:induction false} SubsetSize<T>(a: set<T>, b: set<T>)
    requires a <= b
    ensures |a| <= |b|
    ensures |a| == |b| ==> a == b
  {
    assert b == a + (b - a);
    if b - a == {} {
      assert a == b;
    }
  }

  /** Taking one element off a queue and pushing others onto it. */
  lemma PopThenPush<T>(all: seq<T>, added: seq<T>, head: nat)
    requires head < |all|
    ensures (all + added)[head + 1..] == all[head..][1..] + added
  {
    assert all[head..][1..] == all[head + 1..];
  }
}
