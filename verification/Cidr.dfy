/**
 CIDR arithmetic: the highest address of a block, the memcmp range test that stands in for a
 bitwise prefix match, and the order of the RIB map.
 */
module Cidr {
  import opened Octets

  type PrefixLength = n: int | 1 <= n <= 32 witness 24

  // ---------- the source's operations ----------

  function Pow2(n: nat): (p: nat)
    ensures p > 0
  {
    if n == 0 then 1 else 2 * Pow2(n - 1)
  }

  /** Bitwise operators of a 32-bit unsigned word. */
  function ShiftLeft(x: Word32, n: nat): Word32 {
    (x * Pow2(n)) % 0x1_0000_0000
  }

  function Complement(x: Word32): Word32 {
    0xFFFF_FFFF - x
  }

  function BitOr(x: nat, y: nat): nat {
    if x == 0 then y
    else if y == 0 then x
    else (if x % 2 == 1 || y % 2 == 1 then 1 else 0) + 2 * BitOr(x / 2, y / 2)
  }

  lemma {:induction false} BitOrBound(x: nat, y: nat, n: nat)
    requires x < Pow2(n) && y < Pow2(n)
    ensures BitOr(x, y) < Pow2(n)
    decreases n
  {
    if x != 0 && y != 0 {
      BitOrBound(x / 2, y / 2, n - 1);
    }
  }

  lemma Pow2Of32()
    ensures Pow2(32) == 0x1_0000_0000
  {
    assert Pow2(8) == 0x100 by { assert Pow2(4) == 16; }
    assert Pow2(16) == 0x1_0000 by { assert Pow2(12) == 0x1000; }
    assert Pow2(24) == 0x100_0000 by { assert Pow2(20) == 0x10_0000; }
    assert Pow2(28) == 0x1000_0000;
  }

  /** The highest address of a block, in network order like the prefix itself. */
  function HighRange(prefix: Word32, length: PrefixLength): Word32 {
    var netMask := ShiftLeft(0xFFFF_FFFF, 32 - length);
    Pow2Of32();
    BitOrBound(Swap(prefix), Complement(netMask), 32);
    Swap(BitOr(Swap(prefix), Complement(netMask)))
  }

  /** memcmp over the four octets of two words. */
  function Memcmp(a: Word32, b: Word32): int {
    var s, t := Memory(a, 4), Memory(b, 4);
    if s[0] != t[0] then s[0] as int - t[0] as int
    else if s[1] != t[1] then s[1] as int - t[1] as int
    else if s[2] != t[2] then s[2] as int - t[2] as int
    else s[3] as int - t[3] as int
  }

  /** The range test of the prefix query and of the RFC 1918 check. */
  predicate InRange(low: Word32, high: Word32, address: Word32) {
    Memcmp(low, address) <= 0 && Memcmp(high, address) >= 0
  }

  // ---------- the reference: bits of host-order values ----------

  function ShiftRight(x: nat, j: nat): nat {
    if j == 0 then x else ShiftRight(x / 2, j - 1)
  }

  function Bit(x: nat, j: nat): nat {
    ShiftRight(x, j) % 2
  }

  /** Bits 32 - length and up are the same in both addresses. */
  ghost predicate TopBitsAgree(a: Word32, b: Word32, length: PrefixLength) {
    forall j :: 32 - length <= j < 32 ==> Bit(Swap(a), j) == Bit(Swap(b), j)
  }

  ghost predicate ZeroHostBits(prefix: Word32, length: PrefixLength) {
    forall j :: 0 <= j < 32 - length ==> Bit(Swap(prefix), j) == 0
  }

  // ---------- memcmp is the numeric order of host-order values ----------

  lemma MemcmpIsNumeric(a: Word32, b: Word32)
    ensures Memcmp(a, b) < 0 <==> Swap(a) < Swap(b)
    ensures Memcmp(a, b) == 0 <==> a == b
    ensures Memcmp(a, b) > 0 <==> Swap(a) > Swap(b)
  {
    WordOfMemory(a);
    WordOfMemory(b);
    if Memcmp(a, b) == 0 {
      assert Memory(a, 4) == Memory(b, 4);
    }
  }

  // ---------- masks and shifts ----------

  /** x with its k low bits cleared. */
  function Base(x: nat, k: nat): nat {
    if k == 0 then x else 2 * Base(x / 2, k - 1)
  }

  lemma {:induction false} BaseBounds(x: nat, k: nat)
    ensures Base(x, k) <= x < Base(x, k) + Pow2(k)
  {
    if k > 0 {
      BaseBounds(x / 2, k - 1);
    }
  }

  lemma {:induction false} BaseUnique(x: nat, y: nat, k: nat)
    requires Base(x, k) <= y < Base(x, k) + Pow2(k)
    ensures Base(y, k) == Base(x, k)
  {
    if k > 0 {
      BaseUnique(x / 2, y / 2, k - 1);
    }
  }

  /** One bit of an or with an odd number. */
  lemma OrWithOdd(x: nat, y: nat)
    ensures BitOr(x, 2 * y + 1) == 1 + 2 * BitOr(x / 2, y)
  {
    assert (2 * y + 1) / 2 == y && (2 * y + 1) % 2 == 1;
  }

  lemma OrWithNothing(x: nat)
    ensures BitOr(x, 0) == x
  {
  }

  lemma BaseStep(x: nat, k: nat)
    ensures Base(x, 0) == x && Pow2(0) == 1
    ensures Base(x, k + 1) == 2 * Base(x / 2, k) && Pow2(k + 1) == 2 * Pow2(k)
  {
  }

  lemma {:induction false} OrWithOnes(x: nat, k: nat)
    ensures BitOr(x, Pow2(k) - 1) == Base(x, k) + Pow2(k) - 1
    decreases k
  {
    hide BitOr, Base, Pow2;
    if k == 0 {
      BaseStep(x, 0);
      OrWithNothing(x);
    } else {
      OrWithOnes(x / 2, k - 1);
      BaseStep(x, k - 1);
      OrWithOdd(x, Pow2(k - 1) - 1);
    }
  }

  lemma NetMask(k: nat)
    requires k <= 32
    ensures Pow2(k) <= 0x1_0000_0000
    ensures Complement(ShiftLeft(0xFFFF_FFFF, k)) == Pow2(k) - 1
  {
    Pow2Of32();
    PowMonotone(k, 32);
    MaskWraps(Pow2(k));
  }

  lemma MaskWraps(p: nat)
    requires 0 < p <= 0x1_0000_0000
    ensures (0xFFFF_FFFF * p) % 0x1_0000_0000 == 0x1_0000_0000 - p
  {
    assert 0xFFFF_FFFF * p == 0x1_0000_0000 * (p - 1) + (0x1_0000_0000 - p);
  }

  lemma {:induction false} PowMonotone(j: nat, k: nat)
    requires j <= k
    ensures Pow2(j) <= Pow2(k)
    decreases k
  {
    if j < k {
      PowMonotone(j, k - 1);
    }
  }

  lemma HighRangeValue(prefix: Word32, length: PrefixLength)
    ensures Swap(HighRange(prefix, length)) == Base(Swap(prefix), 32 - length) + Pow2(32 - length) - 1
  {
    var k := 32 - length;
    NetMask(k);
    OrWithOnes(Swap(prefix), k);
    Pow2Of32();
    BitOrBound(Swap(prefix), Pow2(k) - 1, 32);
    SwapTwice(BitOr(Swap(prefix), Pow2(k) - 1));
  }

  // ---------- bits against shifts ----------

  lemma {:induction false} ShiftOnce(x: nat, j: nat)
    ensures ShiftRight(x, j + 1) == ShiftRight(x, j) / 2
  {
    if j > 0 {
      ShiftOnce(x / 2, j - 1);
    }
  }

  lemma {:induction false} ShiftOut(x: nat, k: nat)
    requires x < Pow2(k)
    ensures ShiftRight(x, k) == 0
  {
    if k > 0 {
      ShiftOut(x / 2, k - 1);
    }
  }

  lemma {:induction false} EqualBasesEqualShifts(x: nat, y: nat, k: nat)
    ensures Base(x, k) == Base(y, k) <==> ShiftRight(x, k) == ShiftRight(y, k)
  {
    if k > 0 {
      EqualBasesEqualShifts(x / 2, y / 2, k - 1);
    }
  }

  lemma {:induction false} EqualShiftsPersist(x: nat, y: nat, k: nat, j: nat)
    requires k <= j && ShiftRight(x, k) == ShiftRight(y, k)
    ensures ShiftRight(x, j) == ShiftRight(y, j)
    decreases j
  {
    if k < j {
      EqualShiftsPersist(x, y, k, j - 1);
      ShiftOnce(x, j - 1);
      ShiftOnce(y, j - 1);
    }
  }

  lemma {:induction false} EqualBitsEqualShifts(x: Word32, y: Word32, k: nat)
    requires k <= 32
    requires forall j :: k <= j < 32 ==> Bit(x, j) == Bit(y, j)
    ensures ShiftRight(x, k) == ShiftRight(y, k)
    decreases 32 - k
  {
    if k == 32 {
      Pow2Of32();
      ShiftOut(x, 32);
      ShiftOut(y, 32);
    } else {
      EqualBitsEqualShifts(x, y, k + 1);
      ShiftOnce(x, k);
      ShiftOnce(y, k);
      assert Bit(x, k) == Bit(y, k);
    }
  }

  /** Agreement on the top bits is equality once the host bits are cleared. */
  lemma TopBitsAreBases(a: Word32, b: Word32, length: PrefixLength)
    ensures TopBitsAgree(a, b, length) <==> Base(Swap(a), 32 - length) == Base(Swap(b), 32 - length)
  {
    var k := 32 - length;
    EqualBasesEqualShifts(Swap(a), Swap(b), k);
    if ShiftRight(Swap(a), k) == ShiftRight(Swap(b), k) {
      forall j | k <= j < 32
        ensures Bit(Swap(a), j) == Bit(Swap(b), j)
      {
        EqualShiftsPersist(Swap(a), Swap(b), k, j);
      }
    }
    if TopBitsAgree(a, b, length) {
      EqualBitsEqualShifts(Swap(a), Swap(b), k);
    }
  }

  ghost predicate LowBitsAreZero(x: nat, k: nat) {
    forall j :: 0 <= j < k ==> Bit(x, j) == 0
  }

  lemma BitStep(x: nat, j: nat)
    ensures Bit(x, 0) == x % 2 && Bit(x, j + 1) == Bit(x / 2, j)
  {
  }

  lemma LowBitsStep(x: nat, k: nat)
    ensures LowBitsAreZero(x, k + 1) <==> x % 2 == 0 && LowBitsAreZero(x / 2, k)
  {
    hide Bit;
    BitStep(x, 0);
    if LowBitsAreZero(x, k + 1) {
      assert Bit(x, 0) == 0;
      forall j | 0 <= j < k
        ensures Bit(x / 2, j) == 0
      {
        BitStep(x, j);
        assert Bit(x, j + 1) == 0;
      }
    }
    if x % 2 == 0 && LowBitsAreZero(x / 2, k) {
      forall j | 0 <= j < k + 1
        ensures Bit(x, j) == 0
      {
        if j > 0 {
          BitStep(x, j - 1);
          assert Bit(x / 2, j - 1) == 0;
        }
      }
    }
  }

  /** The k low bits of x are zero exactly when clearing them changes nothing. */
  lemma {:induction false} LowBitsZero(x: nat, k: nat)
    ensures LowBitsAreZero(x, k) <==> x == Base(x, k)
    decreases k
  {
    if k == 0 {
      BaseStep(x, 0);
    } else {
      hide LowBitsAreZero, Base, Pow2;
      LowBitsZero(x / 2, k - 1);
      LowBitsStep(x, k - 1);
      BaseStep(x, k - 1);
    }
  }

  // ---------- main results ----------

  /**
   For every address and every block, zero host bits or not: the range test accepts exactly the
   addresses whose top bits agree and that are not numerically below the stored prefix.
   */
  lemma RangeTestExactly(prefix: Word32, length: PrefixLength, address: Word32)
    ensures InRange(prefix, HighRange(prefix, length), address)
       <==> TopBitsAgree(prefix, address, length) && Swap(prefix) <= Swap(address)
  {
    var k := 32 - length;
    MemcmpIsNumeric(prefix, address);
    MemcmpIsNumeric(HighRange(prefix, length), address);
    HighRangeValue(prefix, length);
    TopBitsAreBases(prefix, address, length);
    BaseBounds(Swap(prefix), k);
    BaseBounds(Swap(address), k);
    if Swap(prefix) <= Swap(address) <= Swap(HighRange(prefix, length)) {
      BaseUnique(Swap(prefix), Swap(address), k);
    }
  }

  /**
   The memcmp range test is the bitwise prefix match for every address if and only if the stored
   prefix has zero host bits.
   */
  lemma RangeTestIsPrefixMatchIff(prefix: Word32, length: PrefixLength)
    ensures ZeroHostBits(prefix, length)
       <==> forall address: Word32 ::
              InRange(prefix, HighRange(prefix, length), address) <==> TopBitsAgree(prefix, address, length)
  {
    if ZeroHostBits(prefix, length) {
      forall address: Word32
        ensures InRange(prefix, HighRange(prefix, length), address) <==> TopBitsAgree(prefix, address, length)
      {
        RangeTestExactly(prefix, length, address);
        NetworkIsLowest(prefix, length, address);
      }
    } else {
      // the block's own network address agrees on the top bits and lies below the stored prefix
      var network := NetworkAddress(prefix, length);
      RangeTestExactly(prefix, length, network);
      assert TopBitsAgree(prefix, network, length) && !InRange(prefix, HighRange(prefix, length), network);
    }
  }

  lemma NetworkIsLowest(prefix: Word32, length: PrefixLength, address: Word32)
    requires ZeroHostBits(prefix, length)
    ensures TopBitsAgree(prefix, address, length) ==> Swap(prefix) <= Swap(address)
  {
    LowBitsZero(Swap(prefix), 32 - length);
    TopBitsAreBases(prefix, address, length);
    BaseBounds(Swap(address), 32 - length);
  }

  lemma NetworkAddress(prefix: Word32, length: PrefixLength) returns (network: Word32)
    ensures TopBitsAgree(prefix, network, length)
    ensures !ZeroHostBits(prefix, length) ==> Swap(network) < Swap(prefix)
  {
    var k := 32 - length;
    var base := Base(Swap(prefix), k);
    BaseBounds(Swap(prefix), k);
    LowBitsZero(Swap(prefix), k);
    network := Swap(base);
    SwapTwice(base);
    BaseUnique(Swap(prefix), base, k);
    TopBitsAreBases(prefix, network, length);
  }

  /** A host-bit witness: 10.0.0.1/31 is stored as received, and a query for 10.0.0.0 misses it. */
  lemma HostBitsBreakTheMatch(prefix: Word32, network: Word32)
    requires Swap(prefix) == 0x0A00_0001 && Swap(network) == 0x0A00_0000
    ensures TopBitsAgree(prefix, network, 31) && !InRange(prefix, HighRange(prefix, 31), network)
  {
    RangeTestExactly(prefix, 31, network);
    TopBitsAreBases(prefix, network, 31);
    BaseUnique(Swap(network), Swap(prefix), 1);
  }

  predicate Covers(prefix: Word32, length: PrefixLength, address: Word32) {
    InRange(prefix, HighRange(prefix, length), address)
  }

  /** Any two blocks with zero host bits are nested or disjoint. */
  lemma NestedOrDisjoint(p: Word32, m: PrefixLength, q: Word32, n: PrefixLength)
    requires ZeroHostBits(p, m) && ZeroHostBits(q, n) && m <= n
    ensures || (forall a: Word32 :: Covers(q, n, a) ==> Covers(p, m, a))
            || (forall a: Word32 :: !(Covers(p, m, a) && Covers(q, n, a)))
  {
    RangeTestIsPrefixMatchIff(p, m);
    RangeTestIsPrefixMatchIff(q, n);
    if c: Word32 :| Covers(p, m, c) && Covers(q, n, c) {
      forall a: Word32 | Covers(q, n, a)
        ensures Covers(p, m, a)
      {
        assert forall j :: 32 - m <= j < 32 ==> Bit(Swap(p), j) == Bit(Swap(c), j) == Bit(Swap(q), j);
      }
    }
  }

  // ---------- the order of the RIB ----------

  datatype Key = Key(prefix: Word32, bgpId: Word32)

  /** rib_sort: prefix first, the BGP identifier breaks the tie. */
  predicate RibLess(a: Key, b: Key) {
    || Memcmp(a.prefix, b.prefix) < 0
    || (Memcmp(a.prefix, b.prefix) == 0 && Memcmp(a.bgpId, b.bgpId) < 0)
  }

  function Rank(k: Key): nat {
    Swap(k.prefix) * 0x1_0000_0000 + Swap(k.bgpId)
  }

  /** rib_sort is the numeric order of (host-order prefix, host-order identifier). */
  lemma RibLessIsNumeric(a: Key, b: Key)
    ensures RibLess(a, b) <==> Rank(a) < Rank(b)
    ensures Rank(a) == Rank(b) <==> a == b
  {
    MemcmpIsNumeric(a.prefix, b.prefix);
    MemcmpIsNumeric(a.bgpId, b.bgpId);
  }

  lemma RibLessIsStrictTotalOrder(a: Key, b: Key, c: Key)
    ensures !RibLess(a, a)
    ensures RibLess(a, b) && RibLess(b, c) ==> RibLess(a, c)
    ensures a != b ==> (RibLess(a, b) != RibLess(b, a))
  {
    RibLessIsNumeric(a, a);
    RibLessIsNumeric(a, b);
    RibLessIsNumeric(b, a);
    RibLessIsNumeric(b, c);
    RibLessIsNumeric(a, c);
  }
}
