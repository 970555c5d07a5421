/**
 What single octets of an UPDATE do, with the numbers of RFC 4271, RFC 1997 and RFC 6793 written out
 and no encoder in between: whatever the other results say through names, they say of these numbers.
 */
module OctetFacts {
  import opened Octets
  import opened Cidr
  import opened Messages
  import opened WireFormat
  import opened UpdateParser
  import opened PacketWalker

  // ---------- numbers from octets ----------

  /** Four octets with the least significant first, as a little-endian host holds a number. */
  function LowFirst(a: Octet, b: Octet, c: Octet, d: Octet): Word32 {
    a as int + 0x100 * b as int + 0x1_0000 * c as int + 0x100_0000 * d as int
  }

  /** Octets with the most significant first, as the network sends a number. */
  function HighFirst(a: Octet, b: Octet, c: Octet, d: Octet): Word32 {
    0x100_0000 * a as int + 0x1_0000 * b as int + 0x100 * c as int + d as int
  }

  function Pair(hi: Octet, lo: Octet): Word16 {
    0x100 * hi as int + lo as int
  }

  /** Four octets of memory as the number a little-endian host reads. */
  lemma WordIs(b: seq<Octet>)
    requires |b| == 4
    ensures Word(b) == LowFirst(b[0], b[1], b[2], b[3])
  {
    assert b[1..][1..] == b[2..] && b[2..][1..] == b[3..] && b[3..][1..] == [];
    assert Value(b) == b[0] + 0x100 * Value(b[1..]);
    assert Value(b[1..]) == b[1] + 0x100 * Value(b[2..]);
    assert Value(b[2..]) == b[2] + 0x100 * Value(b[3..]);
  }

  lemma PairIs(hi: Octet, lo: Octet)
    ensures Big16(hi, lo) == Pair(hi, lo)
  {
  }

  lemma HighFirstIs(a: Octet, b: Octet, c: Octet, d: Octet)
    ensures Big32(a, b, c, d) == HighFirst(a, b, c, d)
  {
  }

  // ---------- prefixes ----------

  /** As many octets as the bits need, and no more. */
  lemma OctetsForIs(length: nat)
    requires 1 <= length <= 32
    ensures 1 <= OctetsFor(length) <= 4 && length <= 8 * OctetsFor(length) < length + 8
  {
  }

  lemma OctetsForUnique(length: nat, n: nat)
    requires 1 <= length <= 32 && 8 * (n - 1) < length <= 8 * n
    ensures OctetsFor(length) == n
  {
    OctetsForIs(length);
  }

  /** Octet i of a prefix of the given length at offset: taken from the packet while bits are left, else zero. */
  function PrefixOctet(p: seq<Octet>, offset: nat, length: nat, i: nat): Octet
    requires offset + 1 + i < |p| || 8 * i >= length
  {
    if 8 * i < length then p[offset + 1 + i] else 0
  }

  lemma AddressIs(p: seq<Octet>, offset: nat, length: nat, n: nat)
    requires 1 <= length <= 32 && 8 * (n - 1) < length <= 8 * n && offset + 1 + n <= |p|
    ensures n <= 4
    ensures Address(p[offset + 1..offset + 1 + n])
         == LowFirst(PrefixOctet(p, offset, length, 0), PrefixOctet(p, offset, length, 1),
                     PrefixOctet(p, offset, length, 2), PrefixOctet(p, offset, length, 3))
  {
    hide Word;
    var b := p[offset + 1..offset + 1 + n] + seq(4 - n, i => 0);
    WordIs(b);
  }

  /**
   One prefix of a list, octet by octet: a length octet, then n octets with 8(n-1) < length <= 8n. The
   pushed route has that length, the n octets as its prefix with zeros behind, the peer's identifier and
   the clock; the list goes on right after the n octets.
   */
  lemma PrefixIsRead(p: seq<Octet>, offset: nat, n: nat, u: Update, peer: Word32, now: Word64, mode: Mode)
    requires offset + 1 + n <= |p| && 1 <= p[offset] <= 32 && 8 * (n - 1) < p[offset] <= 8 * n
    ensures var r, rest := NlriLoop(p, offset, u, peer, now, mode), NlriLoop(p, offset + 1 + n, u, peer, now, mode);
            && r.Some? == rest.Some?
            && (r.Some? ==>
                  && r.value.1 == rest.value.1 && |r.value.0| == |rest.value.0| + 1 && r.value.0[1..] == rest.value.0
                  && var x := r.value.0[0].nlri;
                     && x.prefixLength == p[offset] && x.bgpId == peer
                     && x.age == (if mode == Updating then now else 0)
                     && x.lastWithdrawTime == (if mode == Updating then 0 else now)
                     && x.prefix == LowFirst(PrefixOctet(p, offset, p[offset], 0), PrefixOctet(p, offset, p[offset], 1),
                                             PrefixOctet(p, offset, p[offset], 2), PrefixOctet(p, offset, p[offset], 3)))
  {
    hide Address, HighRange, NlriLoop;
    OctetsForUnique(p[offset], n);
    AddressIs(p, offset, p[offset], n);
    NlriTurn(p, offset, u, peer, now, mode);
  }

  // ---------- one attribute in a packet ----------

  /** An update with nothing set. */
  const NOTHING := Update(
    flags := 0, origin := 0, asPath := None, as4Path := None, nextHop := 0, med := 0, localPref := 0,
    atomicAggregate := 0, aggregator := None, as4Aggregator := None, communities := None,
    addrFamily := 0, addrFamilyId := 0, mpNextHopLength := 0, attachmentPoints := 0,
    nlri := Nlri(bgpId := 0, prefix := 0, prefixHighest := 0, subnetMask := 0, prefixLength := 0,
                 withdrawn := 0, received := 0, age := 0, lastWithdrawTime := 0))

  /** No withdrawn routes, one attribute, and the prefix x.y.z.0/24. */
  function Packet(flags: Octet, code: Octet, body: seq<Octet>, x: Octet, y: Octet, z: Octet): seq<Octet>
    requires |body| <= 252
  {
    [0, 0, 0, 3 + |body|, flags, code, |body|] + body + [24, x, y, z]
  }

  /** The route that such a packet announces with the attributes of u. */
  function Announced24(u: Update, x: Octet, y: Octet, z: Octet, peer: Word32, now: Word64): Update {
    u.(addrFamily := 2,
       nlri := Nlri(bgpId := peer, prefix := LowFirst(x, y, z, 0),
                    prefixHighest := LowFirst(x, y, z, 255), subnetMask := 0, prefixLength := 24,
                    withdrawn := 0, received := 0, age := now, lastWithdrawTime := 0))
  }

  /** The packet announces exactly that route. */
  ghost predicate Announces24(packet: seq<Octet>, u: Update) {
    |packet| >= 4 &&
    var n := |packet|;
    forall peer: Word32, now: Word64 ::
      ParsePacket(packet, peer, now)
      == Some(Parsed([Announced24(u, packet[n - 3], packet[n - 2], packet[n - 1], peer, now)], []))
  }

  lemma SwapOfWord(a: Octet, b: Octet, c: Octet, d: Octet)
    ensures Swap(LowFirst(a, b, c, d)) == HighFirst(a, b, c, d)
  {
    hide Memory;
    WordIs([a, b, c, d]);
    assert Memory(Word([a, b, c, d]), 4) == [a, b, c, d];
  }

  lemma LastOctet(x: Octet, y: Octet, z: Octet, d: Octet)
    ensures HighFirst(x, y, z, d) == (x as int * 0x1_0000 + y as int * 0x100 + z as int) * 0x100 + d as int
  {
  }

  lemma High24(x: Octet, y: Octet, z: Octet)
    ensures HighRange(LowFirst(x, y, z, 0), 24) == LowFirst(x, y, z, 255)
  {
    hide Swap, HighRange, Base, Pow2, LowFirst, HighFirst;
    var prefix := LowFirst(x, y, z, 0);
    HighRangeValue(prefix, 24);
    SwapOfWord(x, y, z, 0);
    SwapOfWord(x, y, z, 255);
    LastOctet(x, y, z, 0);
    LastOctet(x, y, z, 255);
    Pow2Of8();
    BaseOfBlock(x as int * 0x1_0000 + y as int * 0x100 + z as int);
    SwapTwice(HighRange(prefix, 24));
    SwapTwice(LowFirst(x, y, z, 255));
  }

  lemma Pow2Of8()
    ensures Pow2(8) == 0x100
  {
    assert Pow2(4) == 16;
  }

  lemma BaseOfBlock(q: nat)
    ensures Base(q * 0x100, 8) == q * 0x100
  {
    hide Base;
    BaseStep(q * 0x100, 7);
    BaseStep(q * 0x80, 6);
    BaseStep(q * 0x40, 5);
    BaseStep(q * 0x20, 4);
    BaseStep(q * 0x10, 3);
    BaseStep(q * 8, 2);
    BaseStep(q * 4, 1);
    BaseStep(q * 2, 0);
    BaseStep(q, 0);
  }

  lemma LoopOf24(p: seq<Octet>, offset: nat, u: Update, peer: Word32, now: Word64)
    requires offset + 4 < |p| && p[offset] == 24 && p[offset + 4] == 0
    ensures NlriLoop(p, offset, u, peer, now, Updating)
         == Some(([Copied(u.(nlri := Announced24(u, p[offset + 1], p[offset + 2], p[offset + 3], peer, now).nlri))],
                  offset + 4))
  {
    hide Address, HighRange, NlriLoop, Copied;
    OctetsForUnique(24, 3);
    AddressIs(p, offset, 24, 3);
    High24(p[offset + 1], p[offset + 2], p[offset + 3]);
    NlriTurn(p, offset, u, peer, now, Updating);
    NlriLoopEnds(p, offset + 4, u, peer, now, Updating);
    var v := Copied(u.(nlri := Announced24(u, p[offset + 1], p[offset + 2], p[offset + 3], peer, now).nlri));
    assert [v] + [] == [v];
  }

  lemma PacketParts(flags: Octet, code: Octet, body: seq<Octet>, x: Octet, y: Octet, z: Octet, p: seq<Octet>)
    requires |body| <= 252 && p == Padded(Packet(flags, code, body, x, y, z), PADDING)
    ensures var n := |body|;
            && |p| == 11 + n + PADDING && p[0] == 0 && p[1] == 0 && p[2] == 0 && p[3] == 3 + n
            && p[5] == code && p[6] == n && (forall i :: 0 <= i < n ==> p[7 + i] == body[i])
            && p[7 + n] == 24 && p[8 + n] == x && p[9 + n] == y && p[10 + n] == z && p[11 + n] == 0
  {
  }

  /** What the switch stores for the one attribute is what the packet announces. */
  lemma OneAttribute(flags: Octet, code: Octet, body: seq<Octet>, x: Octet, y: Octet, z: Octet, u: Update)
    requires |body| <= 252 && u.communities != Some([])
    requires AttrStep(Padded(Packet(flags, code, body, x, y, z), PADDING), 3, NOTHING) == Some((3 + |body|, u))
    ensures Announces24(Packet(flags, code, body, x, y, z), u)
  {
    hide AttrStep, NlriLoop, Packet;
    var packet := Packet(flags, code, body, x, y, z);
    var p, n := Padded(packet, PADDING), |body|;
    PacketParts(flags, code, body, x, y, z, p);
    assert NOTHING == BLANK;
    assert AttrLoop(p, 0, 3 + n, BLANK) == Some((u, 3 + n)) by {
      assert AttrLoop(p, 3 + n, 3 + n, u) == Some((u, 3 + n));
    }
    assert |packet| == 11 + n && packet[8 + n] == x && packet[9 + n] == y && packet[10 + n] == z by {
      PacketEnd(flags, code, body, x, y, z);
    }
    forall peer: Word32, now: Word64
      ensures ParsePacket(packet, peer, now) == Some(Parsed([Announced24(u, x, y, z, peer, now)], []))
    {
      LoopOf24(p, 7 + n, u.(addrFamily := 2), peer, now);
    }
  }

  lemma PacketEnd(flags: Octet, code: Octet, body: seq<Octet>, x: Octet, y: Octet, z: Octet)
    requires |body| <= 252
    ensures var packet, n := Packet(flags, code, body, x, y, z), |body|;
            |packet| == 11 + n && packet[8 + n] == x && packet[9 + n] == y && packet[10 + n] == z
  {
  }

  // ---------- the attribute types, by number ----------

  lemma Type1IsOrigin(flags: Octet, o: Octet, x: Octet, y: Octet, z: Octet)
    ensures Announces24(Packet(flags, 1, [o], x, y, z), NOTHING.(origin := o))
  {
    hide Announces24, Packet;
    var p := Padded(Packet(flags, 1, [o], x, y, z), PADDING);
    PacketParts(flags, 1, [o], x, y, z, p);
    assert p[7] == [o][0];
    OneAttribute(flags, 1, [o], x, y, z, NOTHING.(origin := o));
  }

  lemma Type2IsAsPath(flags: Octet, segType: Octet, a: seq<Octet>, x: Octet, y: Octet, z: Octet)
    requires |a| == 4
    ensures Announces24(Packet(flags, 2, [segType, 2] + a, x, y, z),
                        NOTHING.(asPath := Some(PathSegment(segType, [Pair(a[0], a[1]), Pair(a[2], a[3])]))))
  {
    hide Announces24, Packet;
    var body := [segType, 2] + a;
    var p := Padded(Packet(flags, 2, body, x, y, z), PADDING);
    PacketParts(flags, 2, body, x, y, z, p);
    assert p[7] == body[0] && p[8] == body[1] && p[9] == body[2] && p[10] == body[3];
    assert p[11] == body[4] && p[12] == body[5];
    AsnsAre(p, 9, 2, 0);
    AsnsAre(p, 9, 2, 1);
    assert ReadAsns(p, 9, 2) == [Pair(a[0], a[1]), Pair(a[2], a[3])];
    OneAttribute(flags, 2, body, x, y, z,
                 NOTHING.(asPath := Some(PathSegment(segType, [Pair(a[0], a[1]), Pair(a[2], a[3])]))));
  }

  /** Addresses are kept in the order of the packet: the first octet is the lowest in memory. */
  lemma Type3IsNextHop(flags: Octet, a: seq<Octet>, x: Octet, y: Octet, z: Octet)
    requires |a| == 4
    ensures Announces24(Packet(flags, 3, a, x, y, z),
                        NOTHING.(nextHop := LowFirst(a[0], a[1], a[2], a[3])))
  {
    hide Announces24, Packet, Memory, Word;
    var p := Padded(Packet(flags, 3, a, x, y, z), PADDING);
    PacketParts(flags, 3, a, x, y, z, p);
    CopyIs(0, p, 7, a);
    OneAttribute(flags, 3, a, x, y, z,
                 NOTHING.(nextHop := LowFirst(a[0], a[1], a[2], a[3])));
  }

  lemma CopyIs(w: Word32, p: seq<Octet>, pos: nat, a: seq<Octet>)
    requires |a| == 4 && pos + 4 <= |p| && forall i :: 0 <= i < 4 ==> p[pos + i] == a[i]
    ensures CopyInto(w, p, pos, 4) == Some(LowFirst(a[0], a[1], a[2], a[3]))
  {
    hide Memory, Word;
    assert p[pos..pos + 4] + Memory(w, 4)[4..] == a;
    WordIs(a);
  }

  lemma Type4IsMed(flags: Octet, a: seq<Octet>, x: Octet, y: Octet, z: Octet)
    requires |a| == 4
    ensures Announces24(Packet(flags, 4, a, x, y, z),
                        NOTHING.(med := HighFirst(a[0], a[1], a[2], a[3])))
  {
    hide Announces24, Packet;
    var p := Padded(Packet(flags, 4, a, x, y, z), PADDING);
    PacketParts(flags, 4, a, x, y, z, p);
    assert p[7] == a[0] && p[8] == a[1] && p[9] == a[2] && p[10] == a[3];
    OneAttribute(flags, 4, a, x, y, z,
                 NOTHING.(med := HighFirst(a[0], a[1], a[2], a[3])));
  }

  lemma Type5IsLocalPref(flags: Octet, a: seq<Octet>, x: Octet, y: Octet, z: Octet)
    requires |a| == 4
    ensures Announces24(Packet(flags, 5, a, x, y, z),
                        NOTHING.(localPref := HighFirst(a[0], a[1], a[2], a[3])))
  {
    hide Announces24, Packet;
    var p := Padded(Packet(flags, 5, a, x, y, z), PADDING);
    PacketParts(flags, 5, a, x, y, z, p);
    assert p[7] == a[0] && p[8] == a[1] && p[9] == a[2] && p[10] == a[3];
    OneAttribute(flags, 5, a, x, y, z,
                 NOTHING.(localPref := HighFirst(a[0], a[1], a[2], a[3])));
  }

  lemma Type6IsAtomicAggregate(flags: Octet, x: Octet, y: Octet, z: Octet)
    ensures Announces24(Packet(flags, 6, [], x, y, z), NOTHING.(atomicAggregate := 1))
  {
    hide Announces24, Packet;
    PacketParts(flags, 6, [], x, y, z, Padded(Packet(flags, 6, [], x, y, z), PADDING));
    OneAttribute(flags, 6, [], x, y, z, NOTHING.(atomicAggregate := 1));
  }

  lemma Type7IsAggregator(flags: Octet, hi: Octet, lo: Octet, a: seq<Octet>, x: Octet, y: Octet, z: Octet)
    requires |a| == 4
    ensures Announces24(Packet(flags, 7, [hi, lo] + a, x, y, z),
                        NOTHING.(aggregator := Some(Aggregator(asn := Pair(hi, lo),
                          origin := LowFirst(a[0], a[1], a[2], a[3])))))
  {
    hide Announces24, Packet, CopyInto, LowFirst, HighFirst, Pair, Big16, Big32;
    var body := [hi, lo] + a;
    var p := Padded(Packet(flags, 7, body, x, y, z), PADDING);
    PacketParts(flags, 7, body, x, y, z, p);
    assert p[7] == body[0] && p[8] == body[1];
    assert forall i :: 0 <= i < 4 ==> p[9 + i] == body[2 + i] == a[i];
    CopyIs(0, p, 9, a);
    PairIs(hi, lo);
    OneAttribute(flags, 7, body, x, y, z,
                 NOTHING.(aggregator := Some(Aggregator(asn := Pair(hi, lo),
                   origin := LowFirst(a[0], a[1], a[2], a[3])))));
  }

  lemma Type8IsCommunity(flags: Octet, a: seq<Octet>, x: Octet, y: Octet, z: Octet)
    requires |a| == 8
    ensures Announces24(Packet(flags, 8, a, x, y, z),
                        NOTHING.(communities := Some([
                          Community(asn := Pair(a[0], a[1]), value := Pair(a[2], a[3])),
                          Community(asn := Pair(a[4], a[5]), value := Pair(a[6], a[7]))])))
  {
    hide Announces24, Packet, ReadCommunities;
    var p := Padded(Packet(flags, 8, a, x, y, z), PADDING);
    PacketParts(flags, 8, a, x, y, z, p);
    assert forall i :: 0 <= i < 8 ==> p[7 + i] == a[i];
    CommunitiesAre(p, 7, 2, 0);
    CommunitiesAre(p, 7, 2, 1);
    var cs: Communities := [Community(asn := Pair(a[0], a[1]), value := Pair(a[2], a[3])),
                            Community(asn := Pair(a[4], a[5]), value := Pair(a[6], a[7]))];
    assert p[7] == a[0] && p[8] == a[1] && p[9] == a[2] && p[10] == a[3];
    assert p[11] == a[4] && p[12] == a[5] && p[13] == a[6] && p[14] == a[7];
    assert ReadCommunities(p, 7, 2) == cs;
    OneAttribute(flags, 8, a, x, y, z, NOTHING.(communities := Some(cs)));
  }

  lemma Type17IsAs4Path(flags: Octet, segType: Octet, a: seq<Octet>, x: Octet, y: Octet, z: Octet)
    requires |a| == 8
    ensures Announces24(Packet(flags, 17, [segType, 2] + a, x, y, z),
                        NOTHING.(as4Path := Some(PathSegment(segType, [
                          HighFirst(a[0], a[1], a[2], a[3]),
                          HighFirst(a[4], a[5], a[6], a[7])]))))
  {
    hide Announces24, Packet, ReadAsns4;
    var body := [segType, 2] + a;
    var p := Padded(Packet(flags, 17, body, x, y, z), PADDING);
    PacketParts(flags, 17, body, x, y, z, p);
    assert p[7] == body[0] && p[8] == body[1];
    assert forall i :: 0 <= i < 8 ==> p[9 + i] == body[2 + i] == a[i];
    Asns4Are(p, 9, 2, 0);
    Asns4Are(p, 9, 2, 1);
    assert p[9] == a[0] && p[10] == a[1] && p[11] == a[2] && p[12] == a[3];
    assert p[13] == a[4] && p[14] == a[5] && p[15] == a[6] && p[16] == a[7];
    var asns: Asns := [HighFirst(a[0], a[1], a[2], a[3]),
                       HighFirst(a[4], a[5], a[6], a[7])];
    assert ReadAsns4(p, 9, 2) == asns;
    OneAttribute(flags, 17, body, x, y, z, NOTHING.(as4Path := Some(PathSegment(segType, asns))));
  }

  lemma Type18IsAs4Aggregator(flags: Octet, b: seq<Octet>, a: seq<Octet>, x: Octet, y: Octet, z: Octet)
    requires |b| == 4 && |a| == 4
    ensures Announces24(Packet(flags, 18, b + a, x, y, z),
                        NOTHING.(as4Aggregator := Some(Aggregator(
                          asn := HighFirst(b[0], b[1], b[2], b[3]),
                          origin := LowFirst(a[0], a[1], a[2], a[3])))))
  {
    hide Announces24, Packet, CopyInto, LowFirst, HighFirst, Pair, Big16, Big32;
    var body := b + a;
    var p := Padded(Packet(flags, 18, body, x, y, z), PADDING);
    PacketParts(flags, 18, body, x, y, z, p);
    assert p[7] == body[0] && p[8] == body[1] && p[9] == body[2] && p[10] == body[3];
    assert forall i :: 0 <= i < 4 ==> p[11 + i] == body[4 + i] == a[i];
    CopyIs(0, p, 11, a);
    HighFirstIs(b[0], b[1], b[2], b[3]);
    OneAttribute(flags, 18, body, x, y, z,
                 NOTHING.(as4Aggregator := Some(Aggregator(
                   asn := HighFirst(b[0], b[1], b[2], b[3]),
                   origin := LowFirst(a[0], a[1], a[2], a[3])))));
  }

  /** Every other type is skipped by its length. */
  lemma OtherTypesAreSkipped(flags: Octet, code: Octet, body: seq<Octet>, x: Octet, y: Octet, z: Octet)
    requires |body| <= 252 && code !in {1, 2, 3, 4, 5, 6, 7, 8, 17, 18}
    ensures Announces24(Packet(flags, code, body, x, y, z), NOTHING)
  {
    hide Announces24, Packet;
    PacketParts(flags, code, body, x, y, z, Padded(Packet(flags, code, body, x, y, z), PADDING));
    OneAttribute(flags, code, body, x, y, z, NOTHING);
  }

  // ---------- lengths that the switch does not trust ----------

  /** ATOMIC_AGGREGATE consumes no body and ORIGIN one octet, whatever their length; a zero length stores nothing. */
  lemma FixedAdvances(p: seq<Octet>, i: nat, u: Update)
    requires i + 4 < |p|
    ensures p[i + 2] == 6 ==> AttrStep(p, i, u) == Some((3, u.(atomicAggregate := 1)))
    ensures p[i + 2] == 1 && p[i + 3] != 0 ==> AttrStep(p, i, u) == Some((4, u.(origin := p[i + 4])))
    ensures p[i + 2] != 6 && p[i + 3] == 0 ==> AttrStep(p, i, u) == Some((3, u))
  {
  }

  /** MED and LOCAL_PREF read four octets and ORIGIN one, whatever the length octet n says. */
  lemma NumbersIgnoreLength(p: seq<Octet>, pos: nat, n: nat, u: Update)
    requires 1 <= n < 0x100
    ensures Store(p, 1, pos, n, u) == if pos + 1 > |p| then None else Some(u.(origin := p[pos]))
    ensures Store(p, 4, pos, n, u)
         == if pos + 4 > |p| then None else Some(u.(med := HighFirst(p[pos], p[pos + 1], p[pos + 2], p[pos + 3])))
    ensures Store(p, 5, pos, n, u)
         == if pos + 4 > |p| then None else Some(u.(localPref := HighFirst(p[pos], p[pos + 1], p[pos + 2], p[pos + 3])))
  {
  }

  /** A path is as long as its own count says, whatever the length octet n says; only the first segment is read. */
  lemma PathsIgnoreLength(p: seq<Octet>, pos: nat, n: nat, u: Update)
    requires 1 <= n < 0x100 && pos + 2 <= |p|
    ensures var r, count := Store(p, 2, pos, n, u), p[pos + 1] as int;
            && (r.Some? <==> pos + 2 + 2 * count <= |p|)
            && (r.Some? ==>
                  && r.value.asPath.Some? && r.value == u.(asPath := r.value.asPath)
                  && r.value.asPath.value.segType == p[pos] && |r.value.asPath.value.asns| == count
                  && forall i :: 0 <= i < count ==>
                       r.value.asPath.value.asns[i] == Pair(p[pos + 2 + 2 * i], p[pos + 2 + 2 * i + 1]))
  {
    hide ReadAsns;
    var count: nat := p[pos + 1];
    if pos + 2 + 2 * count <= |p| {
      forall i | 0 <= i < count
        ensures ReadAsns(p, pos + 2, count)[i] == Pair(p[pos + 2 + 2 * i], p[pos + 2 + 2 * i + 1])
      {
        AsnsAre(p, pos + 2, count, i);
      }
    }
  }

  lemma As4PathsIgnoreLength(p: seq<Octet>, pos: nat, n: nat, u: Update)
    requires 1 <= n < 0x100 && pos + 2 <= |p|
    ensures var r, count := Store(p, 17, pos, n, u), p[pos + 1] as int;
            && (r.Some? <==> pos + 2 + 4 * count <= |p|)
            && (r.Some? ==>
                  && r.value.as4Path.Some? && r.value == u.(as4Path := r.value.as4Path)
                  && r.value.as4Path.value.segType == p[pos] && |r.value.as4Path.value.asns| == count
                  && forall i {:trigger r.value.as4Path.value.asns[i]} :: 0 <= i < count ==>
                       var q := pos + 2 + 4 * i;
                       r.value.as4Path.value.asns[i] == HighFirst(p[q], p[q + 1], p[q + 2], p[q + 3]))
  {
    hide ReadAsns4, HighFirst, Big32;
    var count: nat := p[pos + 1];
    if pos + 2 + 4 * count <= |p| {
      forall i | 0 <= i < count
        ensures var q := pos + 2 + 4 * i;
                ReadAsns4(p, pos + 2, count)[i] == HighFirst(p[q], p[q + 1], p[q + 2], p[q + 3])
      {
        Asns4Are(p, pos + 2, count, i);
      }
    }
  }

  /** The aggregators read their AS number and copy the rest of the n octets as an address. */
  lemma AggregatorsCopyTheRest(p: seq<Octet>, pos: nat, n: nat, u: Update)
    requires 1 <= n < 0x100 && pos + 4 <= |p|
    ensures Store(p, 7, pos, n, u)
         == match CopyInto(0, p, pos + 2, n - 2)
            case None => None
            case Some(w) => Some(u.(aggregator := Some(Aggregator(asn := Pair(p[pos], p[pos + 1]), origin := w))))
    ensures Store(p, 18, pos, n, u)
         == match CopyInto(0, p, pos + 4, n - 4)
            case None => None
            case Some(w) => Some(u.(as4Aggregator := Some(Aggregator(
                              asn := HighFirst(p[pos], p[pos + 1], p[pos + 2], p[pos + 3]), origin := w))))
  {
    hide CopyInto;
  }

  /** An address copied with a wrong length: too short keeps the octets behind, too long overruns. */
  lemma WrongLengths(w: Word32, p: seq<Octet>, pos: nat, n: nat)
    requires pos + n <= |p|
    ensures n > 4 ==> CopyInto(w, p, pos, n) == None
    ensures n <= 4 ==>
              && CopyInto(w, p, pos, n).Some?
              && forall i :: 0 <= i < 4 ==>
                   Memory(CopyInto(w, p, pos, n).value, 4)[i] == if i < n then p[pos + i] else Memory(w, 4)[i]
  {
    hide Memory;
  }

  /** A NEXT_HOP replaces as many octets as it has, and leaves the rest to an earlier one; over four it overruns. */
  lemma NextHopKeepsTheRest(p: seq<Octet>, pos: nat, n: nat, u: Update)
    requires 1 <= n < 0x100 && pos + n <= |p|
    ensures n > 4 ==> Store(p, 3, pos, n, u) == None
    ensures n <= 4 ==>
              && Store(p, 3, pos, n, u).Some?
              && var v := Store(p, 3, pos, n, u).value;
                 && v == u.(nextHop := v.nextHop)
                 && forall i :: 0 <= i < 4 ==>
                      Memory(v.nextHop, 4)[i] == if i < n then p[pos + i] else Memory(u.nextHop, 4)[i]
  {
    hide Memory, CopyInto;
    WrongLengths(u.nextHop, p, pos, n);
  }

  /** A community list holds as many values as whole groups of four octets fit its length; less than one overruns. */
  lemma CommunityLength(p: seq<Octet>, pos: nat, n: nat, u: Update)
    requires 1 <= n < 0x100 && pos + n <= |p|
    ensures n < 4 ==> Store(p, 8, pos, n, u) == None
    ensures n >= 4 ==>
              && Store(p, 8, pos, n, u).Some? && Store(p, 8, pos, n, u).value.communities.Some?
              && var cs := Store(p, 8, pos, n, u).value.communities.value; n - 4 < 4 * |cs| <= n
  {
    hide ReadCommunities;
  }

  // ---------- lists, element by element ----------

  /** AS number i of a segment is the big-endian number of its two octets. */
  lemma {:induction false} AsnsAre(p: seq<Octet>, pos: nat, count: nat, i: nat)
    requires pos + 2 * count <= |p| && i < count
    ensures ReadAsns(p, pos, count)[i] == Pair(p[pos + 2 * i], p[pos + 2 * i + 1])
    decreases count
  {
    if i > 0 {
      AsnsAre(p, pos + 2, count - 1, i - 1);
    }
  }

  lemma {:induction false} Asns4Are(p: seq<Octet>, pos: nat, count: nat, i: nat)
    requires pos + 4 * count <= |p| && i < count
    ensures ReadAsns4(p, pos, count)[i]
         == HighFirst(p[pos + 4 * i], p[pos + 4 * i + 1], p[pos + 4 * i + 2], p[pos + 4 * i + 3])
    decreases count
  {
    if i > 0 {
      Asns4Are(p, pos + 4, count - 1, i - 1);
    }
  }

  lemma {:induction false} CommunitiesAre(p: seq<Octet>, pos: nat, count: nat, i: nat)
    requires pos + 4 * count <= |p| && i < count
    ensures ReadCommunities(p, pos, count)[i]
         == Community(asn := Pair(p[pos + 4 * i], p[pos + 4 * i + 1]),
                      value := Pair(p[pos + 4 * i + 2], p[pos + 4 * i + 3]))
    decreases count
  {
    if i > 0 {
      CommunitiesAre(p, pos + 4, count - 1, i - 1);
    }
  }

  // ---------- withdrawn routes ----------

  /** An UPDATE that withdraws x.y.z.0/24 and nothing else. */
  lemma WithdrawnRoute(x: Octet, y: Octet, z: Octet, peer: Word32, now: Word64)
    ensures ParsePacket([0, 4, 24, x, y, z, 0, 0], peer, now)
         == Some(Parsed([], [NOTHING.(nlri := Nlri(
              bgpId := peer, prefix := LowFirst(x, y, z, 0),
              prefixHighest := LowFirst(x, y, z, 255), subnetMask := 0, prefixLength := 24,
              withdrawn := 0, received := 0, age := 0, lastWithdrawTime := now))]))
  {
    hide Address, HighRange, NlriLoop, AttrLoop;
    var p := Padded([0, 4, 24, x, y, z, 0, 0], PADDING);
    assert p[0] == 0 && p[1] == 4 && p[2] == 24 && p[3] == x && p[4] == y && p[5] == z && p[6] == 0;
    OctetsForUnique(24, 3);
    AddressIs(p, 2, 24, 3);
    High24(x, y, z);
    NlriTurn(p, 2, BLANK, peer, now, Withdrawal);
    NlriLoopEnds(p, 6, BLANK, peer, now, Withdrawal);
    var v := BLANK.(nlri := NlriOf(24, LowFirst(x, y, z, 0), peer, now, Withdrawal));
    assert Copied(v) == v && [v] + [] == [v];
  }
}
