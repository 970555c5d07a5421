/**
 Octets, fixed-width words and their memory images. The host is little-endian, as the
 source assumes; network order is big-endian.
 */
module Octets {

  type Octet = x: int | 0 <= x < 0x100
  type Word16 = x: int | 0 <= x < 0x1_0000
  type Word32 = x: int | 0 <= x < 0x1_0000_0000
  type Word64 = x: int | 0 <= x < 0x1_0000_0000_0000_0000

  /** The n octets that hold v in host memory, least significant first. */
  function Memory(v: nat, n: nat): (s: seq<Octet>)
    ensures |s| == n
  {
    if n == 0 then [] else [v % 0x100] + Memory(v / 0x100, n - 1)
  }

  /** The value that the octets s of host memory hold. */
  function Value(s: seq<Octet>): nat {
    if s == [] then 0 else s[0] + 0x100 * Value(s[1..])
  }

  function Pow256(n: nat): (p: nat)
    ensures p > 0
  {
    if n == 0 then 1 else 0x100 * Pow256(n - 1)
  }

  lemma {:induction false} ValueOfMemory(v: nat, n: nat)
    requires v < Pow256(n)
    ensures Value(Memory(v, n)) == v
  {
    if n > 0 {
      ValueOfMemory(v / 0x100, n - 1);
      assert Memory(v, n)[1..] == Memory(v / 0x100, n - 1);
    }
  }

  lemma {:induction false} MemoryOfValue(s: seq<Octet>)
    ensures Value(s) < Pow256(|s|)
    ensures Memory(Value(s), |s|) == s
  {
    if s != [] {
      MemoryOfValue(s[1..]);
      assert Value(s) / 0x100 == Value(s[1..]);
      assert s == [s[0]] + s[1..];
    }
  }

  lemma Widths()
    ensures Pow256(1) == 0x100 && Pow256(2) == 0x1_0000 && Pow256(4) == 0x1_0000_0000
    ensures Pow256(8) == 0x1_0000_0000_0000_0000
  {
    assert Pow256(3) == 0x100_0000;
    assert Pow256(6) == 0x1_0000_0000_0000;
  }

  /** Big-endian readings, as the source's shift-and-add expressions. */
  function Big16(hi: Octet, lo: Octet): Word16 {
    hi * 0x100 + lo
  }

  function Big32(a: Octet, b: Octet, c: Octet, d: Octet): Word32 {
    a * 0x100_0000 + b * 0x1_0000 + c * 0x100 + d
  }

  /** Network-order octets of a word. */
  function Net16(w: Word16): (s: seq<Octet>)
    ensures |s| == 2 && Big16(s[0], s[1]) == w
  {
    [w / 0x100, w % 0x100]
  }

  function Net32(w: Word32): (s: seq<Octet>)
    ensures |s| == 4 && Big32(s[0], s[1], s[2], s[3]) == w
  {
    Net16(w / 0x1_0000) + Net16(w % 0x1_0000)
  }

  /** The word whose host memory holds the four octets: memcpy from a buffer to a uint32_t. */
  function Word(s: seq<Octet>): (w: Word32)
    requires |s| == 4
    ensures Memory(w, 4) == s
  {
    MemoryOfValue(s);
    Widths();
    Value(s)
  }

  lemma WordOfMemory(w: Word32)
    ensures Word(Memory(w, 4)) == w
  {
    Widths();
    ValueOfMemory(w, 4);
  }

  /** ntohl and htonl: one octet swap, its own inverse. */
  function Swap(w: Word32): (r: Word32) {
    var m := Memory(w, 4);
    Big32(m[0], m[1], m[2], m[3])
  }

  lemma FourOctets(w: Word32)
    ensures Memory(w, 4)
         == [w % 0x100, w / 0x100 % 0x100, w / 0x100 / 0x100 % 0x100, w / 0x100 / 0x100 / 0x100 % 0x100]
  {
    assert Memory(w / 0x100, 3) == [w / 0x100 % 0x100] + Memory(w / 0x100 / 0x100, 2);
    assert Memory(w / 0x100 / 0x100, 2)
        == [w / 0x100 / 0x100 % 0x100] + Memory(w / 0x100 / 0x100 / 0x100, 1);
  }

  lemma Digits(a: int, b: int, c: int, d: int, r: int)
    requires 0 <= a < 0x100 && 0 <= b < 0x100 && 0 <= c < 0x100 && 0 <= d < 0x100
    requires r == a * 0x100_0000 + b * 0x1_0000 + c * 0x100 + d
    ensures r % 0x100 == d && r / 0x100 % 0x100 == c
    ensures r / 0x100 / 0x100 % 0x100 == b && r / 0x100 / 0x100 / 0x100 % 0x100 == a
  {
    assert r / 0x100 == a * 0x1_0000 + b * 0x100 + c;
    assert r / 0x100 / 0x100 == a * 0x100 + b;
  }

  lemma SwapIsNet(w: Word32)
    ensures Memory(Swap(w), 4) == [Memory(w, 4)[3], Memory(w, 4)[2], Memory(w, 4)[1], Memory(w, 4)[0]]
  {
    hide Memory;
    var m := Memory(w, 4);
    FourOctets(Swap(w));
    Digits(m[0], m[1], m[2], m[3], Swap(w));
  }

  lemma SwapTwice(w: Word32)
    ensures Swap(Swap(w)) == w
  {
    hide Memory, Swap;
    SwapIsNet(w);
    SwapIsNet(Swap(w));
    var m := Memory(w, 4);
    assert m == [m[0], m[1], m[2], m[3]];
    WordOfMemory(w);
    WordOfMemory(Swap(Swap(w)));
  }

  // ---------- octets at a position ----------

  /** The octets s lie in the file (or packet) at the position. */
  ghost predicate At(file: seq<Octet>, pos: nat, s: seq<Octet>) {
    pos + |s| <= |file| && file[pos..pos + |s|] == s
  }

  lemma AtSplit(file: seq<Octet>, pos: nat, s: seq<Octet>, t: seq<Octet>)
    requires At(file, pos, s + t)
    ensures At(file, pos, s) && At(file, pos + |s|, t)
  {
    assert file[pos..pos + |s|] == (s + t)[..|s|];
    assert file[pos + |s|..pos + |s| + |t|] == (s + t)[|s|..];
  }

  lemma AtExtended(file: seq<Octet>, pos: nat, s: seq<Octet>, more: seq<Octet>)
    requires At(file, pos, s)
    ensures At(file + more, pos, s)
  {
    assert (file + more)[pos..pos + |s|] == file[pos..pos + |s|];
  }

  lemma AtIndex(file: seq<Octet>, pos: nat, s: seq<Octet>, i: nat)
    requires At(file, pos, s) && i < |s|
    ensures pos + i < |file| && file[pos + i] == s[i]
  {
    assert file[pos..pos + |s|][i] == s[i];
  }
}
