/**
 The parser as the loops that walk the packet buffer. Every loop is proved against the
 specification in UpdateParser; ok == false marks the runs that C++ leaves undefined.
 */
module PacketWalker {
  import opened Octets
  import opened Cidr
  import opened Messages
  import opened WireFormat
  import opened UpdateParser

  lemma {:induction false} ReadAsnsSnoc(p: seq<Octet>, pos: nat, count: nat)
    requires pos + 2 * count + 2 <= |p|
    ensures ReadAsns(p, pos, count + 1)
         == ReadAsns(p, pos, count) + [Big16(p[pos + 2 * count], p[pos + 2 * count + 1])]
    decreases count
  {
    hide Big16;
    if count > 0 {
      ReadAsnsSnoc(p, pos + 2, count - 1);
    }
  }

  lemma {:induction false} ReadAsns4Snoc(p: seq<Octet>, pos: nat, count: nat)
    requires pos + 4 * count + 4 <= |p|
    ensures var q := pos + 4 * count;
            ReadAsns4(p, pos, count + 1) == ReadAsns4(p, pos, count) + [Big32(p[q], p[q + 1], p[q + 2], p[q + 3])]
    decreases count
  {
    hide Big32;
    if count > 0 {
      ReadAsns4Snoc(p, pos + 4, count - 1);
    }
  }

  lemma {:induction false} ReadCommunitiesSnoc(p: seq<Octet>, pos: nat, count: nat)
    requires pos + 4 * count + 4 <= |p|
    ensures var q := pos + 4 * count;
            ReadCommunities(p, pos, count + 1)
            == ReadCommunities(p, pos, count) + [Community(Big16(p[q], p[q + 1]), Big16(p[q + 2], p[q + 3]))]
    decreases count
  {
    hide Big16;
    if count > 0 {
      ReadCommunitiesSnoc(p, pos + 4, count - 1);
    }
  }

  /** parse_as_path: the first segment only; i is the index of the attribute's length octet. */
  method ParseAsPath(packet: array<Octet>, i: nat) returns (ok: bool, s: PathSegment)
    ensures ok == Segment(packet[..], i + 1).Some?
    ensures ok ==> Segment(packet[..], i + 1) == Some(s)
  {
    hide Big16, ReadAsns;
    ghost var p := packet[..];
    var offset := i;
    ok, s := offset + 2 < packet.Length, PathSegment(0, []);
    if !ok {
      return;
    }
    var segType := packet[offset + 1];
    var length: nat := packet[offset + 2];
    offset := offset + 2;
    var values: seq<Word32> := [];
    assert ReadAsns(p, i + 3, 0) == [] by { NoAsns(p, i + 3); }
    var asn := 0;
    while asn < length
      invariant 0 <= asn <= length && ok && offset == i + 2 + 2 * asn < packet.Length
      invariant values == ReadAsns(p, i + 3, asn)
    {
      ok := offset + 2 < packet.Length;
      if !ok {
        return;
      }
      ReadAsnsSnoc(p, i + 3, asn);
      values := values + [Big16(packet[offset + 1], packet[offset + 2])];
      offset := offset + 2;
      asn := asn + 1;
    }
    s := PathSegment(segType, values);
  }

  /** parse_as4_path: the same with four-octet numbers. */
  method ParseAs4Path(packet: array<Octet>, i: nat) returns (ok: bool, s: PathSegment)
    ensures ok == Segment4(packet[..], i + 1).Some?
    ensures ok ==> Segment4(packet[..], i + 1) == Some(s)
  {
    hide Big32, ReadAsns4;
    ghost var p := packet[..];
    var offset := i;
    ok, s := offset + 2 < packet.Length, PathSegment(0, []);
    if !ok {
      return;
    }
    var segType := packet[offset + 1];
    var length: nat := packet[offset + 2];
    offset := offset + 2;
    var values: seq<Word32> := [];
    assert ReadAsns4(p, i + 3, 0) == [] by { NoAsns4(p, i + 3); }
    var asn := 0;
    while asn < length
      invariant 0 <= asn <= length && ok && offset == i + 2 + 4 * asn < packet.Length
      invariant values == ReadAsns4(p, i + 3, asn)
    {
      ok := offset + 4 < packet.Length;
      if !ok {
        return;
      }
      ReadAsns4Snoc(p, i + 3, asn);
      values := values + [Big32(packet[offset + 1], packet[offset + 2], packet[offset + 3], packet[offset + 4])];
      offset := offset + 4;
      asn := asn + 1;
    }
    s := PathSegment(segType, values);
  }

  /** parse_community: as many four-octet values as the length holds. */
  method ParseCommunity(packet: array<Octet>, i: nat, length: Octet) returns (ok: bool, cs: Communities)
    requires i < packet.Length
    ensures ok == (length >= 4 && i + 1 + 4 * (length / 4) <= packet.Length)
    ensures ok ==> cs == ReadCommunities(packet[..], i + 1, length / 4)
  {
    hide Big16, ReadCommunities;
    ghost var p := packet[..];
    var offset := i;
    ok, cs := length >= 4, [];
    if !ok {
      return;
    }
    assert ReadCommunities(p, i + 1, 0) == [] by { NoCommunities(p, i + 1); }
    var n := 0;
    while n < length / 4
      invariant 0 <= n <= length / 4 && ok && offset == i + 4 * n < packet.Length
      invariant |cs| == n && cs == ReadCommunities(p, i + 1, n)
    {
      ok := offset + 4 < packet.Length;
      if !ok {
        return;
      }
      ReadCommunitiesSnoc(p, i + 1, n);
      cs := cs + [Community(Big16(packet[offset + 1], packet[offset + 2]),
                            Big16(packet[offset + 3], packet[offset + 4]))];
      offset := offset + 4;
      n := n + 1;
    }
  }

  /** memcpy into a word, undefined when it overruns either side. */
  method CopyWord(w: Word32, packet: array<Octet>, pos: nat, n: int) returns (ok: bool, r: Word32)
    ensures ok == CopyInto(w, packet[..], pos, n).Some?
    ensures ok ==> CopyInto(w, packet[..], pos, n) == Some(r)
  {
    ok, r := 0 <= n <= 4 && pos + n <= packet.Length, w;
    if ok {
      r := Word(packet[pos..pos + n] + Memory(w, 4)[n..]);
    }
  }

  /** The switch over the type code of a non-empty attribute; i is the index of its length octet. */
  method StoreAttribute(packet: array<Octet>, code: Octet, i: nat, length: Octet, u: Update)
    returns (ok: bool, v: Update)
    requires i < packet.Length
    ensures ok == Store(packet[..], code, i + 1, length, u).Some?
    ensures ok ==> Store(packet[..], code, i + 1, length, u) == Some(v)
  {
    hide Segment, Segment4, CopyInto, ReadCommunities, Big16, Big32, Memory, Value;
    ok, v := true, u;
    if code == ORIGIN {
      ok := i + 1 < packet.Length;
      if ok { v := u.(origin := packet[i + 1]); }
    } else if code == AS_PATH {
      var s;
      ok, s := ParseAsPath(packet, i);
      if ok { v := u.(asPath := Some(s)); }
    } else if code == NEXT_HOP {
      var w;
      ok, w := CopyWord(u.nextHop, packet, i + 1, length);
      if ok { v := u.(nextHop := w); }
    } else if code == MULTI_EXIT_DISC {
      ok := i + 4 < packet.Length;
      if ok { v := u.(med := Big32(packet[i + 1], packet[i + 2], packet[i + 3], packet[i + 4])); }
    } else if code == LOCAL_PREF {
      ok := i + 4 < packet.Length;
      if ok { v := u.(localPref := Big32(packet[i + 1], packet[i + 2], packet[i + 3], packet[i + 4])); }
    } else if code == AGGREGATOR {
      ok := i + 2 < packet.Length;
      if ok {
        var w;
        ok, w := CopyWord(0, packet, i + 3, length as int - 2);
        if ok { v := u.(aggregator := Some(Aggregator(Big16(packet[i + 1], packet[i + 2]), w))); }
      }
    } else if code == COMMUNITY {
      var cs;
      ok, cs := ParseCommunity(packet, i, length);
      if ok { v := u.(communities := Some(cs)); }
    } else if code == AS4_PATH {
      var s;
      ok, s := ParseAs4Path(packet, i);
      if ok { v := u.(as4Path := Some(s)); }
    } else if code == AS4_AGGREGATOR {
      ok := i + 4 < packet.Length;
      if ok {
        var w;
        ok, w := CopyWord(0, packet, i + 5, length as int - 4);
        if ok {
          v := u.(as4Aggregator := Some(Aggregator(
            Big32(packet[i + 1], packet[i + 2], packet[i + 3], packet[i + 4]), w)));
        }
      }
    }
  }

  /**
   The attribute loop. The 16-bit read counter never wraps, because the index, always three ahead
   of it, leaves the buffer first.
   */
  method WalkAttributes(packet: array<Octet>, total: Word16) returns (ok: bool, u: Update, readLen: Word16)
    requires packet.Length <= MAX_PACKET + PADDING
    ensures ok == AttrLoop(packet[..], 0, total, BLANK).Some?
    ensures ok ==> AttrLoop(packet[..], 0, total, BLANK) == Some((u, readLen as nat))
  {
    hide Store;
    ghost var p := packet[..];
    var i := 3;
    ok, u, readLen := true, BLANK, 0;
    while readLen < total
      invariant ok && i == 3 + readLen
      invariant AttrLoop(p, 0, total, BLANK) == AttrLoop(p, readLen, total, u)
      decreases total as int - readLen as int
    {
      ok := i + 3 < packet.Length;
      if !ok {
        return;
      }
      var code, length := packet[i + 2], packet[i + 3];
      i := i + 3;
      var advance: nat := 0;
      if code == ATOMIC_AGGREGATE {
        u := u.(atomicAggregate := 1);
      } else if length != 0 {
        ok, u := StoreAttribute(packet, code, i, length, u);
        if !ok {
          return;
        }
        advance := if code == ORIGIN then 1 else length;
      }
      i := i + advance;
      readLen := readLen + 3 + advance;
    }
  }

  /** parse_nlri: pushes one copy of the update per prefix until a zero length octet. */
  method ParseNlri(packet: array<Octet>, start: nat, u: Update, peer: Word32, now: Word64, mode: Mode)
    returns (ok: bool, pushed: seq<Update>, offset: nat)
    ensures ok == NlriLoop(packet[..], start, u, peer, now, mode).Some?
    ensures ok ==> NlriLoop(packet[..], start, u, peer, now, mode) == Some((pushed, offset))
  {
    hide NlriOf, Address, Copied, HighRange, NlriLoop;
    ghost var p := packet[..];
    ok, pushed, offset := start < packet.Length, [], start;
    NlriOutside(p, start, u, peer, now, mode);
    while ok && packet[offset] != 0
      invariant ok ==> offset < packet.Length
      invariant !ok ==> NlriLoop(p, start, u, peer, now, mode).None?
      invariant ok ==> var rest := NlriLoop(p, offset, u, peer, now, mode);
                       var all := NlriLoop(p, start, u, peer, now, mode);
                       && rest.Some? == all.Some?
                       && (rest.Some? ==> all.value.0 == pushed + rest.value.0 && all.value.1 == rest.value.1)
      decreases ok, packet.Length - offset
    {
      var length: nat := packet[offset];
      var byteLength := length / 8;
      if length % 8 != 0 {
        byteLength := byteLength + 1;
      }
      ok := length <= 32 && offset + 1 + byteLength <= packet.Length;
      NlriOutside(p, offset, u, peer, now, mode);
      if ok {
        var prefix := Address(packet[offset + 1..offset + 1 + byteLength]);
        assert packet[offset + 1..offset + 1 + byteLength] == p[offset + 1..offset + 1 + byteLength];
        var entry := Copied(u.(nlri := NlriOf(length, prefix, peer, now, mode)));
        NlriTurn(p, offset, u, peer, now, mode);
        pushed := pushed + [entry];
        offset := offset + 1 + byteLength;
        NlriOutside(p, offset, u, peer, now, mode);
        ok := offset < packet.Length;
      }
    }
    if ok {
      NlriLoopEnds(p, offset, u, peer, now, mode);
      assert pushed + [] == pushed;
    }
  }

  lemma NlriOutside(p: seq<Octet>, offset: nat, u: Update, peer: Word32, now: Word64, mode: Mode)
    ensures offset >= |p| ==> NlriLoop(p, offset, u, peer, now, mode).None?
    ensures offset < |p| && p[offset] != 0 && (p[offset] > 32 || offset + 1 + OctetsFor(p[offset]) > |p|)
        ==> NlriLoop(p, offset, u, peer, now, mode).None?
  {
    hide NlriOf, Address, Copied;
  }

  lemma NlriTurn(p: seq<Octet>, offset: nat, u: Update, peer: Word32, now: Word64, mode: Mode)
    requires offset < |p| && p[offset] != 0 && p[offset] <= 32
    requires offset + 1 + OctetsFor(p[offset]) <= |p|
    ensures var next := offset + 1 + OctetsFor(p[offset]);
            var rest := NlriLoop(p, next, u, peer, now, mode);
            NlriLoop(p, offset, u, peer, now, mode)
            == if rest.None? then None
               else Some(([Copied(u.(nlri := NlriOf(p[offset], Address(p[offset + 1..next]), peer, now, mode)))]
                          + rest.value.0, rest.value.1))
  {
    hide NlriOf, Address, Copied;
  }

  /** One packet from the peer's queue: buffer, then withdrawals only, or attributes and prefixes. */
  method ProcessPacket(payload: seq<Octet>, peer: Word32, now: Word64) returns (ok: bool, r: Parsed)
    requires |payload| <= MAX_PACKET
    ensures ok == ParsePacket(payload, peer, now).Some?
    ensures ok ==> ParsePacket(payload, peer, now) == Some(r)
  {
    hide AttrLoop, NlriLoop, Big16;
    var packet := new Octet[|payload| + 5](i => 0);
    forall i | 0 <= i < |payload| {
      packet[i] := payload[i];
    }
    assert packet[..] == Padded(payload, PADDING);
    r := Parsed([], []);
    var us, end;
    if Big16(packet[0], packet[1]) != 0 {
      ok, us, end := ParseNlri(packet, 2, BLANK, peer, now, Withdrawal);
      r := Parsed([], us);
    } else {
      var total := Big16(packet[2], packet[3]);
      var u, readLen;
      ok, u, readLen := WalkAttributes(packet, total);
      if ok {
        ok, us, end := ParseNlri(packet, total as int + 4, u.(addrFamily := AF_INET), peer, now, Updating);
        r := Parsed(us, []);
      }
    }
  }

  lemma NoAsns(p: seq<Octet>, pos: nat)
    requires pos <= |p|
    ensures ReadAsns(p, pos, 0) == []
  {
  }

  lemma NoAsns4(p: seq<Octet>, pos: nat)
    requires pos <= |p|
    ensures ReadAsns4(p, pos, 0) == []
  {
  }

  lemma NoCommunities(p: seq<Octet>, pos: nat)
    requires pos <= |p|
    ensures ReadCommunities(p, pos, 0) == []
  {
  }
}
