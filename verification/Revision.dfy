/**
  The plan revision: a 64-bit FNV-1a hash (section 2 of draft-eastlake-fnv) over
  the target ids, the candidate ids and the degree.
 */
module Revision {
  import opened Common

  const MODULUS: nat := 0x1_0000_0000_0000_0000
  const OFFSET_BASIS: nat := 0xcbf2_9ce4_8422_2325
  const PRIME: nat := 0x0000_0100_0000_01b3

  type Byte = b: nat | b < 256

  /** The state of the 64-bit hash variable. */
  type Hash = h: nat | h < 0x1_0000_0000_0000_0000

  function Pow2(n: nat): nat {
    if n == 0 then 1 else 2 * Pow2(n - 1)
  }

  /** Exclusive or of the low n bits. */
  function XorBits(a: nat, b: nat, n: nat): (r: nat)
    ensures r < Pow2(n)
  {
    if n == 0 then 0 else 2 * XorBits(a / 2, b / 2, n - 1) + (a % 2 + b % 2) % 2
  }

  lemma BitTwice(a: nat, b: nat)
    requires a < 2 && b < 2
    ensures ((a + b) % 2 + b) % 2 == a
  {
  }

  lemma BitCancels(a: nat, b: nat, c: nat)
    requires a < 2 && b < 2 && c < 2 && (a + b) % 2 == (a + c) % 2
    ensures b == c
  {
  }

  lemma HalfAndBit(x: nat, bit: nat)
    requires bit < 2
    ensures (2 * x + bit) / 2 == x && (2 * x + bit) % 2 == bit
  {
  }

  lemma TwiceAndBit(x: nat, p: nat, y: nat, q: nat)
    requires p < 2 && q < 2 && 2 * x + p == 2 * y + q
    ensures x == y && p == q
  {
  }

  lemma {:induction false} XorBitsInvolutive(a: nat, b: nat, n: nat)
    requires a < Pow2(n)
    ensures XorBits(XorBits(a, b, n), b, n) == a
  {
    if n > 0 {
      var x := XorBits(a / 2, b / 2, n - 1);
      XorBitsInvolutive(a / 2, b / 2, n - 1);
      HalfAndBit(x, (a % 2 + b % 2) % 2);
      BitTwice(a % 2, b % 2);
    }
  }

  lemma {:induction false} XorBitsCancels(a: nat, b: nat, c: nat, n: nat)
    requires b < Pow2(n) && c < Pow2(n) && XorBits(a, b, n) == XorBits(a, c, n)
    ensures b == c
  {
    if n > 0 {
      var x, y := XorBits(a / 2, b / 2, n - 1), XorBits(a / 2, c / 2, n - 1);
      TwiceAndBit(x, (a % 2 + b % 2) % 2, y, (a % 2 + c % 2) % 2);
      XorBitsCancels(a / 2, b / 2, c / 2, n - 1);
      BitCancels(a % 2, b % 2, c % 2);
    }
  }

  lemma EightBits()
    ensures Pow2(8) == 256
  {
    assert Pow2(4) == 16;
  }

  function Xor(a: Byte, b: Byte): Byte {
    EightBits();
    XorBits(a, b, 8)
  }

  /** XOR with a byte touches the low byte only. */
  function XorLow(h: Hash, b: Byte): (r: Hash)
    ensures r / 256 == h / 256
  {
    h / 256 * 256 + Xor(h % 256, b)
  }

  function Multiplied(h: Hash): Hash {
    h * PRIME % MODULUS
  }

  function MixByte(h: Hash, b: Byte): Hash {
    Multiplied(XorLow(h, b))
  }

  function Fnv(h: Hash, bytes: seq<Byte>): Hash
    decreases |bytes|
  {
    if bytes == [] then h else Fnv(MixByte(h, bytes[0]), bytes[1..])
  }

  /** The sixteen bytes of a UUID, most significant first. */
  function UuidBytes(id: EntityId): (s: seq<Byte>)
    ensures |s| == 16
  {
    BigEndian(id, 16)
  }

  function BigEndian(n: nat, w: nat): (s: seq<Byte>)
    ensures |s| == w
  {
    if w == 0 then [] else BigEndian(n / 256, w - 1) + [n % 256]
  }

  function IdBytes(ids: seq<EntityId>): seq<Byte> {
    if ids == [] then [] else IdBytes(ids[..|ids| - 1]) + UuidBytes(ids[|ids| - 1])
  }

  type Degree = d: nat | d < 0x1_0000_0000

  /** The degree's four bytes, least significant first. */
  function DegreeBytes(d: Degree): (s: seq<Byte>)
    ensures |s| == 4
  {
    [d % 256, d / 0x100 % 256, d / 0x1_0000 % 256, d / 0x100_0000]
  }

  function RevisionInput(targets: seq<EntityId>, candidates: seq<EntityId>, degree: Degree): seq<Byte> {
    IdBytes(targets) + IdBytes(candidates) + DegreeBytes(degree)
  }

  lemma {:induction false} FnvConcat(h: Hash, a: seq<Byte>, b: seq<Byte>)
    ensures Fnv(h, a + b) == Fnv(Fnv(h, a), b)
    decreases |a|
  {
    if a == [] {
      assert a + b == b;
    } else {
      assert (a + b)[1..] == a[1..] + b;
      FnvConcat(MixByte(h, a[0]), a[1..], b);
    }
  }

  method Mix(h: Hash, bytes: seq<Byte>) returns (hash: Hash)
    ensures hash == Fnv(h, bytes)
  {
    hash := h;
    for i := 0 to |bytes|
      invariant Fnv(hash, bytes[i..]) == Fnv(h, bytes)
    {
      assert bytes[i..][1..] == bytes[i + 1..];
      hash := XorLow(hash, bytes[i]);
      hash := Multiplied(hash);
    }
  }

  method MixIds(h: Hash, ids: seq<EntityId>) returns (hash: Hash)
    ensures hash == Fnv(h, IdBytes(ids))
  {
    hash := h;
    for i := 0 to |ids|
      invariant hash == Fnv(h, IdBytes(ids[..i]))
    {
      hash := Mix(hash, UuidBytes(ids[i]));
      assert ids[..i + 1][..i] == ids[..i];
      FnvConcat(h, IdBytes(ids[..i]), UuidBytes(ids[i]));
    }
    assert ids[..|ids|] == ids;
  }

  method PlanRevision(targets: seq<EntityId>, candidates: seq<EntityId>, degree: Degree) returns (hash: Hash)
    ensures hash == Fnv(OFFSET_BASIS, RevisionInput(targets, candidates, degree))
  {
    hash := MixIds(OFFSET_BASIS, targets);
    hash := MixIds(hash, candidates);
    hash := Mix(hash, DegreeBytes(degree));
    FnvConcat(OFFSET_BASIS, IdBytes(targets), IdBytes(candidates));
    FnvConcat(OFFSET_BASIS, IdBytes(targets) + IdBytes(candidates), DegreeBytes(degree));
  }

  // ----- published values

  lemma XorStep(a: nat, b: nat, n: nat)
    requires n > 0
    ensures XorBits(a, b, n) == 2 * XorBits(a / 2, b / 2, n - 1) + (a % 2 + b % 2) % 2
  {
  }

  lemma XorOfBytes()
    ensures Xor(0x25, 0x61) == 0x44
  {
    EightBits();
    hide XorBits;
    XorStep(0, 0, 1);
    XorStep(0, 1, 2);
    XorStep(1, 3, 3);
    XorStep(2, 6, 4);
    XorStep(4, 12, 5);
    XorStep(9, 24, 6);
    XorStep(18, 48, 7);
    XorStep(37, 97, 8);
    NoBits();
  }

  lemma NoBits()
    ensures XorBits(0, 0, 0) == 0
  {
  }

  /** The FNV-1a values draft-eastlake-fnv gives for the empty text and for "a". */
  lemma PublishedValues()
    ensures Fnv(OFFSET_BASIS, []) == 0xcbf2_9ce4_8422_2325
    ensures Fnv(OFFSET_BASIS, [0x61]) == 0xaf63_dc4c_8601_ec8c
  {
    XorOfBytes();
    assert OFFSET_BASIS % 256 == 0x25 && OFFSET_BASIS / 256 * 256 == 0xcbf2_9ce4_8422_2300;
    assert XorLow(OFFSET_BASIS, 0x61) == 0xcbf2_9ce4_8422_2344;
    assert MixByte(OFFSET_BASIS, 0x61) == 0xaf63_dc4c_8601_ec8c;
    assert [0x61][1..] == [];
  }

  /** Bytes read as a number, the first the most significant. */
  function FromBigEndian(s: seq<Byte>): nat {
    if s == [] then 0 else 256 * FromBigEndian(s[..|s| - 1]) + s[|s| - 1]
  }

  /** The bytes hashed for an id are its own, most significant first. */
  lemma {:induction false} BigEndianReadsBack(n: nat, w: nat)
    requires n < Pow256(w)
    ensures FromBigEndian(BigEndian(n, w)) == n
  {
    if w > 0 {
      BigEndianReadsBack(n / 256, w - 1);
      assert BigEndian(n, w)[..w - 1] == BigEndian(n / 256, w - 1);
    }
  }

  // ----- each step is a bijection

  /** The inverse of the prime modulo 2^64. */
  const INVERSE: nat := 0xce96_5057_aff6_957b

  function UnmixByte(h: Hash, b: Byte): Hash {
    XorLow(h * INVERSE % MODULUS, b)
  }

  lemma MultipliedInverse(h: Hash)
    ensures Multiplied(h) * INVERSE % MODULUS == h
    ensures Multiplied(h * INVERSE % MODULUS) == h
  {
    var q := h * PRIME / MODULUS;
    var p := h * INVERSE / MODULUS;
    var k := (PRIME * INVERSE - 1) / MODULUS;
    assert PRIME * INVERSE == k * MODULUS + 1;
    assert Multiplied(h) * INVERSE == h + MODULUS * (h * k - q * INVERSE);
    assert (h * INVERSE % MODULUS) * PRIME == h + MODULUS * (h * k - p * PRIME);
    ModuloAbsorbs(h, h * k - q * INVERSE);
    ModuloAbsorbs(h, h * k - p * PRIME);
  }

  lemma ModuloAbsorbs(h: Hash, n: int)
    ensures (h + MODULUS * n) % MODULUS == h
  {
  }

  lemma XorLowInvolutive(h: Hash, b: Byte)
    ensures XorLow(XorLow(h, b), b) == h
  {
    EightBits();
    XorBitsInvolutive(h % 256, b, 8);
  }

  /** For a fixed byte, mixing is a bijection on the 64-bit state. */
  lemma MixIsBijective(h: Hash, b: Byte)
    ensures UnmixByte(MixByte(h, b), b) == h
    ensures MixByte(UnmixByte(h, b), b) == h
  {
    MultipliedInverse(XorLow(h, b));
    XorLowInvolutive(h, b);
    XorLowInvolutive(h * INVERSE % MODULUS, b);
    MultipliedInverse(h);
  }

  lemma MixIsInjective(g: Hash, h: Hash, b: Byte)
    requires g != h
    ensures MixByte(g, b) != MixByte(h, b)
  {
    MixIsBijective(g, b);
    MixIsBijective(h, b);
  }

  /** A common suffix never merges two different states. */
  lemma {:induction false} SuffixKeepsApart(g: Hash, h: Hash, bytes: seq<Byte>)
    requires g != h
    ensures Fnv(g, bytes) != Fnv(h, bytes)
    decreases |bytes|
  {
    if bytes != [] {
      MixIsInjective(g, h, bytes[0]);
      SuffixKeepsApart(MixByte(g, bytes[0]), MixByte(h, bytes[0]), bytes[1..]);
    }
  }

  // ----- short edits never collide

  /** How far XOR with a byte moves the state. */
  function Nudge(h: Hash, b: Byte): (e: int)
    ensures -255 <= e <= 255
    ensures XorLow(h, b) == h + e
  {
    Xor(h % 256, b) - h % 256
  }

  lemma FirstBytesDiffer(h: Hash, a: Byte, b: Byte)
    requires a != b
    ensures XorLow(h, a) != XorLow(h, b)
    ensures -255 <= XorLow(h, a) - XorLow(h, b) <= 255
  {
    EightBits();
    if Xor(h % 256, a) == Xor(h % 256, b) {
      XorBitsCancels(h % 256, a, b, 8);
    }
  }

  /** The difference of two states, one multiplication and one byte later. */
  lemma DifferenceStep(x: Hash, y: Hash, a: Byte, b: Byte) returns (e: int, k: int)
    ensures -510 <= e <= 510
    ensures XorLow(Multiplied(x), a) - XorLow(Multiplied(y), b) ==
      (x - y) * 1099511628211 + e - k * 18446744073709551616
  {
    e := Nudge(Multiplied(x), a) - Nudge(Multiplied(y), b);
    k := x * PRIME / MODULUS - y * PRIME / MODULUS;
  }

  // PRIME is 2^40 + 435, so modulo 2^64 its square is 870 * 2^40 + 435^2 and its
  // cube 567675 * 2^40 + 435^3: small coefficients cannot cancel.

  lemma ApartAfterTwo(d: int, e: int, k: int)
    requires d != 0 && -255 <= d <= 255 && -510 <= e <= 510
    ensures d * 1099511628211 + e != k * 18446744073709551616
  {
  }

  lemma ApartAfterThree(d: int, e: int, f: int, k: int)
    requires d != 0 && -255 <= d <= 255 && -510 <= e <= 510 && -510 <= f <= 510
    ensures d * 1208925820571204291060521 + e * 1099511628211 + f != k * 18446744073709551616
  {
    var high, low, k' := 870 * d + e, 189225 * d + 435 * e + f, k - 65536 * d;
    assert d * 1208925820571204291060521 + e * 1099511628211 + f - k * 18446744073709551616 ==
      high * 1099511627776 + low - k' * 18446744073709551616;
    assert high != 0;
  }

  lemma ApartAfterFour(d: int, e: int, f: int, g: int, k: int)
    requires d != 0 && -255 <= d <= 255 && -510 <= e <= 510 && -510 <= f <= 510 && -510 <= g <= 510
    ensures d * 1329227997362564068125063396651957931 + e * 1208925820571204291060521 + f * 1099511628211 + g !=
      k * 18446744073709551616
  {
    var high, low := 567675 * d + 870 * e + f, 82312875 * d + 189225 * e + 435 * f + g;
    var k' := k - 72057594123452416 * d - 65536 * e;
    assert d * 1329227997362564068125063396651957931 + e * 1208925820571204291060521 + f * 1099511628211 +
      g - k * 18446744073709551616 ==
      high * 1099511627776 + low - k' * 18446744073709551616;
    HighAndLow(high, low, k');
    OnlySmallSolutions(d, e, f, g);
  }

  lemma HighAndLow(high: int, low: int, k: int)
    requires -1099511627776 < low < 1099511627776
    ensures high * 1099511627776 + low == k * 18446744073709551616 ==> low == 0 && high == k * 16777216
  {
  }

  /** Where the low parts cancel, the high part is far from any multiple of 2^24. */
  lemma OnlySmallSolutions(d: int, e: int, f: int, g: int)
    requires d != 0 && -255 <= d <= 255 && -510 <= e <= 510 && -510 <= f <= 510 && -510 <= g <= 510
    ensures 82312875 * d + 189225 * e + 435 * f + g == 0 ==>
      0 < 567675 * d + 870 * e + f < 16777216 || -16777216 < 567675 * d + 870 * e + f < 0
  {
    var low := 82312875 * d + 189225 * e + 435 * f + g;
    assert low == 0 ==> d == 1 || d == -1;
    assert low == 0 && d == 1 ==> -436 <= e <= -434;
    assert low == 0 && d == -1 ==> 434 <= e <= 436;
  }

  /** From one state, two different inputs of at most four bytes lead to different states. */
  lemma {:induction false} ShortInputsDiffer(h: Hash, a: seq<Byte>, b: seq<Byte>)
    requires |a| == |b| <= 4 && a != b
    ensures Fnv(h, a) != Fnv(h, b)
    decreases |a|
  {
    if a[0] == b[0] {
      assert a == [a[0]] + a[1..] && b == [b[0]] + b[1..];
      ShortInputsDiffer(MixByte(h, a[0]), a[1..], b[1..]);
    } else {
      FirstBytesDiffer(h, a[0], b[0]);
      DivergedStaysApart(XorLow(h, a[0]), XorLow(h, b[0]), a[1..], b[1..]);
    }
  }

  /** The state just before the last multiplication. */
  function Last(x: Hash, bytes: seq<Byte>): Hash
    decreases |bytes|
  {
    if bytes == [] then x else Last(XorLow(Multiplied(x), bytes[0]), bytes[1..])
  }

  lemma {:induction false} FnvOfLast(x: Hash, bytes: seq<Byte>)
    ensures Fnv(Multiplied(x), bytes) == Multiplied(Last(x, bytes))
    decreases |bytes|
  {
    if bytes != [] {
      FnvOfLast(XorLow(Multiplied(x), bytes[0]), bytes[1..]);
    }
  }

  lemma ApartByOne(x: Hash, y: Hash, a: Byte, b: Byte) returns (e: int, k: int)
    requires x != y && -255 <= x - y <= 255
    ensures -510 <= e <= 510
    ensures Last(x, [a]) - Last(y, [b]) == (x - y) * 1099511628211 + e - k * 18446744073709551616
    ensures Last(x, [a]) != Last(y, [b])
  {
    e, k := DifferenceStep(x, y, a, b);
    ApartAfterTwo(x - y, e, k);
    LastAppend(x, [], a);
    LastAppend(y, [], b);
    assert [] + [a] == [a] && [] + [b] == [b];
  }

  lemma LastAppend(x: Hash, bytes: seq<Byte>, b: Byte)
    ensures Last(x, bytes + [b]) == XorLow(Multiplied(Last(x, bytes)), b)
    decreases |bytes|
  {
    if bytes == [] {
      assert [] + [b] == [b] && [b][1..] == [];
    } else {
      assert (bytes + [b])[1..] == bytes[1..] + [b];
      LastAppend(XorLow(Multiplied(x), bytes[0]), bytes[1..], b);
    }
  }

  lemma ApartByTwo(x: Hash, y: Hash, a: seq<Byte>, b: seq<Byte>) returns (e: int, f: int, k: int)
    requires x != y && -255 <= x - y <= 255 && |a| == |b| == 2
    ensures -510 <= e <= 510 && -510 <= f <= 510
    ensures Last(x, a) - Last(y, b) ==
      (x - y) * 1208925820571204291060521 + e * 1099511628211 + f - k * 18446744073709551616
    ensures Last(x, a) != Last(y, b)
  {
    var k1, k2;
    e, k1 := ApartByOne(x, y, a[0], b[0]);
    assert a == [a[0]] + [a[1]] && b == [b[0]] + [b[1]];
    LastAppend(x, [a[0]], a[1]);
    LastAppend(y, [b[0]], b[1]);
    f, k2 := DifferenceStep(Last(x, [a[0]]), Last(y, [b[0]]), a[1], b[1]);
    k := k1 * PRIME + k2;
    ApartAfterThree(x - y, e, f, k);
  }

  lemma ApartByThree(x: Hash, y: Hash, a: seq<Byte>, b: seq<Byte>)
    requires x != y && -255 <= x - y <= 255 && |a| == |b| == 3
    ensures Last(x, a) != Last(y, b)
  {
    var a2, b2 := a[..2], b[..2];
    var e, f, k := ApartByTwo(x, y, a2, b2);
    assert a == a2 + [a[2]] && b == b2 + [b[2]];
    LastAppend(x, a2, a[2]);
    LastAppend(y, b2, b[2]);
    var g, k' := DifferenceStep(Last(x, a2), Last(y, b2), a[2], b[2]);
    ApartAfterFour(x - y, e, f, g, k * PRIME + k');
  }

  /** States that differ in the low byte stay apart for three further bytes, whatever those are. */
  lemma DivergedStaysApart(x: Hash, y: Hash, a: seq<Byte>, b: seq<Byte>)
    requires x != y && -255 <= x - y <= 255
    requires |a| == |b| <= 3
    ensures Fnv(Multiplied(x), a) != Fnv(Multiplied(y), b)
  {
    if |a| == 1 {
      var e, k := ApartByOne(x, y, a[0], b[0]);
      assert a == [a[0]] && b == [b[0]];
    } else if |a| == 2 {
      var e, f, k := ApartByTwo(x, y, a, b);
    } else if |a| == 3 {
      ApartByThree(x, y, a, b);
    }
    FnvOfLast(x, a);
    FnvOfLast(y, b);
    MultipliedInverse(Last(x, a));
    MultipliedInverse(Last(y, b));
  }

  /** Inputs that differ only inside a window of four bytes never share a revision. */
  lemma WindowEditChangesHash(prefix: seq<Byte>, a: seq<Byte>, b: seq<Byte>, suffix: seq<Byte>)
    requires |a| == |b| <= 4 && a != b
    ensures Fnv(OFFSET_BASIS, prefix + a + suffix) != Fnv(OFFSET_BASIS, prefix + b + suffix)
  {
    var h := Fnv(OFFSET_BASIS, prefix);
    ShortInputsDiffer(h, a, b);
    SuffixKeepsApart(Fnv(h, a), Fnv(h, b), suffix);
    FnvConcat(OFFSET_BASIS, prefix, a);
    FnvConcat(OFFSET_BASIS, prefix, b);
    FnvConcat(OFFSET_BASIS, prefix + a, suffix);
    FnvConcat(OFFSET_BASIS, prefix + b, suffix);
  }

  lemma DegreeBytesInjective(d: Degree, e: Degree)
    requires DegreeBytes(d) == DegreeBytes(e)
    ensures d == e
  {
    DegreeFromBytes(d);
    DegreeFromBytes(e);
    assert DegreeBytes(d)[0] == DegreeBytes(e)[0] && DegreeBytes(d)[1] == DegreeBytes(e)[1];
    assert DegreeBytes(d)[2] == DegreeBytes(e)[2] && DegreeBytes(d)[3] == DegreeBytes(e)[3];
  }

  lemma DegreeFromBytes(d: Degree)
    ensures var s := DegreeBytes(d);
      d == s[0] as int + 0x100 * s[1] as int + 0x1_0000 * s[2] as int + 0x100_0000 * s[3] as int
  {
    assert d / 0x1_0000 == d / 0x100 / 0x100 && d / 0x100_0000 == d / 0x1_0000 / 0x100;
  }

  /** For one inventory, no two degrees share a revision. */
  lemma DegreeChangesRevision(targets: seq<EntityId>, candidates: seq<EntityId>, d: Degree, e: Degree)
    requires d != e
    ensures Fnv(OFFSET_BASIS, RevisionInput(targets, candidates, d)) !=
            Fnv(OFFSET_BASIS, RevisionInput(targets, candidates, e))
  {
    if DegreeBytes(d) == DegreeBytes(e) {
      DegreeBytesInjective(d, e);
    }
    var ids := IdBytes(targets) + IdBytes(candidates);
    WindowEditChangesHash(ids, DegreeBytes(d), DegreeBytes(e), []);
    assert ids + DegreeBytes(d) + [] == RevisionInput(targets, candidates, d);
    assert ids + DegreeBytes(e) + [] == RevisionInput(targets, candidates, e);
  }

  lemma IdBytesPush(ids: seq<EntityId>, id: EntityId)
    ensures IdBytes(ids + [id]) == IdBytes(ids) + UuidBytes(id)
  {
    assert (ids + [id])[..|ids|] == ids;
  }

  /** Only the ids one after another are hashed: where the targets end and the candidates begin is not. */
  lemma {:induction false} BoundaryIsInvisible(targets: seq<EntityId>, candidates: seq<EntityId>)
    ensures IdBytes(targets) + IdBytes(candidates) == IdBytes(targets + candidates)
  {
    if candidates == [] {
      assert targets + candidates == targets;
    } else {
      var front, last := candidates[..|candidates| - 1], candidates[|candidates| - 1];
      BoundaryIsInvisible(targets, front);
      IdBytesPush(front, last);
      IdBytesPush(targets + front, last);
      hide IdBytes, UuidBytes;
      assert candidates == front + [last];
      assert targets + candidates == targets + front + [last];
    }
  }

  ghost predicate AreUuids(ids: seq<EntityId>) {
    forall i :: 0 <= i < |ids| ==> ids[i] < Pow256(16)
  }

  function Pow256(w: nat): nat {
    if w == 0 then 1 else 256 * Pow256(w - 1)
  }

  lemma {:induction false} BigEndianInjective(m: nat, n: nat, w: nat)
    requires m < Pow256(w) && n < Pow256(w) && BigEndian(m, w) == BigEndian(n, w)
    ensures m == n
  {
    if w > 0 {
      var x, y := BigEndian(m, w), BigEndian(n, w);
      assert x[w - 1] == m % 256 && y[w - 1] == n % 256;
      assert x[..w - 1] == BigEndian(m / 256, w - 1) && y[..w - 1] == BigEndian(n / 256, w - 1);
      BigEndianInjective(m / 256, n / 256, w - 1);
    }
  }

  lemma {:induction false} IdBytesSize(ids: seq<EntityId>)
    ensures |IdBytes(ids)| == 16 * |ids|
  {
    if ids != [] {
      IdBytesSize(ids[..|ids| - 1]);
    }
  }

  lemma {:induction false} IdBytesInjective(a: seq<EntityId>, b: seq<EntityId>)
    requires AreUuids(a) && AreUuids(b) && IdBytes(a) == IdBytes(b)
    ensures a == b
  {
    IdBytesSize(a);
    IdBytesSize(b);
    if a != [] {
      var last := |a| - 1;
      IdBytesSize(a[..last]);
      IdBytesSize(b[..last]);
      var bytes := IdBytes(a);
      assert bytes[..16 * last] == IdBytes(a[..last]) && bytes[16 * last..] == UuidBytes(a[last]);
      assert bytes[..16 * last] == IdBytes(b[..last]) && bytes[16 * last..] == UuidBytes(b[last]);
      IdBytesInjective(a[..last], b[..last]);
      BigEndianInjective(a[last], b[last], 16);
      assert a == a[..last] + [a[last]] && b == b[..last] + [b[last]];
    }
  }

  /** What is hashed is the same exactly when the degree and the targets followed by the candidates are. */
  lemma InputSeesIdsAndDegree(
    targets: seq<EntityId>, candidates: seq<EntityId>, d: Degree,
    targets': seq<EntityId>, candidates': seq<EntityId>, d': Degree)
    requires AreUuids(targets + candidates) && AreUuids(targets' + candidates')
    ensures RevisionInput(targets, candidates, d) == RevisionInput(targets', candidates', d') <==>
      targets + candidates == targets' + candidates' && d == d'
  {
    var ids, ids' := targets + candidates, targets' + candidates';
    BoundaryIsInvisible(targets, candidates);
    BoundaryIsInvisible(targets', candidates');
    hide IdBytes, DegreeBytes;
    var x, y := IdBytes(ids) + DegreeBytes(d), IdBytes(ids') + DegreeBytes(d');
    if x == y {
      assert |IdBytes(ids)| == |x| - 4 && |IdBytes(ids')| == |y| - 4;
      assert IdBytes(ids) == x[..|x| - 4] && IdBytes(ids') == y[..|y| - 4];
      assert DegreeBytes(d) == x[|x| - 4..] && DegreeBytes(d') == y[|y| - 4..];
      IdBytesInjective(ids, ids');
      DegreeBytesInjective(d, d');
    }
  }

  /** What an inventory yields: distinct target ids, and candidates among them. */
  ghost predicate FromInventory(targets: seq<EntityId>, candidates: seq<EntityId>) {
    Distinct(targets) && Elements(candidates) <= Elements(targets) && AreUuids(targets)
  }

  lemma NewInDistinct(s: seq<EntityId>, n: nat)
    requires Distinct(s) && n < |s|
    ensures s[n] !in Elements(s[..n])
  {
  }

  /** Joined, such lists have only one boundary: the first id that repeats starts the candidates. */
  lemma BoundaryIsFound(
    targets: seq<EntityId>, candidates: seq<EntityId>, targets': seq<EntityId>, candidates': seq<EntityId>)
    requires FromInventory(targets, candidates) && FromInventory(targets', candidates')
    requires targets + candidates == targets' + candidates' && |targets| <= |targets'|
    ensures targets == targets' && candidates == candidates'
  {
    var joined, n := targets + candidates, |targets|;
    assert joined[..n] == targets == targets'[..n];
    if n < |targets'| {
      assert targets'[n] == joined[n] == candidates[0];
      assert candidates[0] in Elements(candidates);
      NewInDistinct(targets', n);
    }
    assert joined[n..] == candidates;
  }

  /** For inventories, what is hashed is the same exactly when targets, candidates and degree all are. */
  lemma InputDeterminesInventory(
    targets: seq<EntityId>, candidates: seq<EntityId>, d: Degree,
    targets': seq<EntityId>, candidates': seq<EntityId>, d': Degree)
    requires FromInventory(targets, candidates) && FromInventory(targets', candidates')
    ensures RevisionInput(targets, candidates, d) == RevisionInput(targets', candidates', d') <==>
      targets == targets' && candidates == candidates' && d == d'
  {
    JoinedUuids(targets, candidates);
    JoinedUuids(targets', candidates');
    InputSeesIdsAndDegree(targets, candidates, d, targets', candidates', d');
    hide RevisionInput, FromInventory;
    if targets + candidates == targets' + candidates' {
      if |targets| <= |targets'| {
        BoundaryIsFound(targets, candidates, targets', candidates');
      } else {
        BoundaryIsFound(targets', candidates', targets, candidates);
      }
    }
  }

  lemma JoinedUuids(targets: seq<EntityId>, candidates: seq<EntityId>)
    requires FromInventory(targets, candidates)
    ensures AreUuids(targets + candidates)
  {
    forall i | 0 <= i < |candidates| ensures candidates[i] < Pow256(16) {
      assert candidates[i] in Elements(candidates);
    }
  }
}
