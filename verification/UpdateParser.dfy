/**
 The UPDATE parser. The packet is copied into a buffer with five zero octets appended and walked
 with a moving index. None stands for behaviour that C++ leaves undefined: an access outside the
 buffer, or a copy that overruns a field.
 */
module UpdateParser {
  import opened Octets
  import opened Cidr
  import opened Messages
  import opened WireFormat

  const AF_INET: Word16 := 2
  const PADDING := 5

  // ---------- specification of the attribute walk ----------

  /** The 16-bit AS numbers of a path segment, from offset pos on. */
  function ReadAsns(p: seq<Octet>, pos: nat, count: nat): (ws: seq<Word32>)
    requires pos + 2 * count <= |p|
    ensures |ws| == count
    decreases count
  {
    if count == 0 then [] else [Big16(p[pos], p[pos + 1])] + ReadAsns(p, pos + 2, count - 1)
  }

  function ReadAsns4(p: seq<Octet>, pos: nat, count: nat): (ws: seq<Word32>)
    requires pos + 4 * count <= |p|
    ensures |ws| == count
    decreases count
  {
    if count == 0 then []
    else [Big32(p[pos], p[pos + 1], p[pos + 2], p[pos + 3])] + ReadAsns4(p, pos + 4, count - 1)
  }

  function ReadCommunities(p: seq<Octet>, pos: nat, count: nat): (cs: seq<Community>)
    requires pos + 4 * count <= |p|
    ensures |cs| == count
    decreases count
  {
    if count == 0 then []
    else [Community(Big16(p[pos], p[pos + 1]), Big16(p[pos + 2], p[pos + 3]))]
         + ReadCommunities(p, pos + 4, count - 1)
  }

  function Segment(p: seq<Octet>, pos: nat): Option<PathSegment> {
    if pos + 2 > |p| then None
    else
      var count: nat := p[pos + 1];
      if pos + 2 + 2 * count > |p| then None
      else Some(PathSegment(p[pos], ReadAsns(p, pos + 2, count)))
  }

  function Segment4(p: seq<Octet>, pos: nat): Option<PathSegment> {
    if pos + 2 > |p| then None
    else
      var count: nat := p[pos + 1];
      if pos + 2 + 4 * count > |p| then None
      else Some(PathSegment(p[pos], ReadAsns4(p, pos + 2, count)))
  }

  /** memcpy of n octets into a word: the remaining octets of the word keep their value. */
  function CopyInto(w: Word32, p: seq<Octet>, pos: nat, n: int): Option<Word32> {
    if n < 0 || n > 4 || pos + n > |p| then None
    else Some(Word(p[pos..pos + n] + Memory(w, 4)[n..]))
  }

  /**
   What the switch stores for an attribute whose body of n > 0 octets starts at pos. A community list
   shorter than one value is undefined: its empty buffer is cleared as if it held one.
   */
  function Store(p: seq<Octet>, code: Octet, pos: nat, n: nat, u: Update): Option<Update>
    requires n < 0x100
  {
    if code == ORIGIN then
      if pos + 1 > |p| then None else Some(u.(origin := p[pos]))
    else if code == AS_PATH then
      match Segment(p, pos)
      case None => None
      case Some(s) => Some(u.(asPath := Some(s)))
    else if code == NEXT_HOP then
      match CopyInto(u.nextHop, p, pos, n)
      case None => None
      case Some(w) => Some(u.(nextHop := w))
    else if code == MULTI_EXIT_DISC then
      if pos + 4 > |p| then None
      else Some(u.(med := Big32(p[pos], p[pos + 1], p[pos + 2], p[pos + 3])))
    else if code == LOCAL_PREF then
      if pos + 4 > |p| then None
      else Some(u.(localPref := Big32(p[pos], p[pos + 1], p[pos + 2], p[pos + 3])))
    else if code == AGGREGATOR then
      if pos + 2 > |p| then None
      else
        match CopyInto(0, p, pos + 2, n - 2)
        case None => None
        case Some(w) => Some(u.(aggregator := Some(Aggregator(Big16(p[pos], p[pos + 1]), w))))
    else if code == COMMUNITY then
      if n < 4 || pos + 4 * (n / 4) > |p| then None
      else Some(u.(communities := Some(ReadCommunities(p, pos, n / 4))))
    else if code == AS4_PATH then
      match Segment4(p, pos)
      case None => None
      case Some(s) => Some(u.(as4Path := Some(s)))
    else if code == AS4_AGGREGATOR then
      if pos + 4 > |p| then None
      else
        match CopyInto(0, p, pos + 4, n - 4)
        case None => None
        case Some(w) =>
          Some(u.(as4Aggregator := Some(Aggregator(Big32(p[pos], p[pos + 1], p[pos + 2], p[pos + 3]), w))))
    else
      Some(u)
  }

  /**
   One turn of the attribute loop at index i: how far both counters advance, and the update.
   ORIGIN always advances by one octet and ATOMIC_AGGREGATE by none, whatever length was sent.
   */
  function AttrStep(p: seq<Octet>, i: nat, u: Update): Option<(nat, Update)> {
    if i + 3 >= |p| then None
    else
      var code, n: nat := p[i + 2], p[i + 3];
      if code == ATOMIC_AGGREGATE then Some((3, u.(atomicAggregate := 1)))
      else if n == 0 then Some((3, u))
      else
        match Store(p, code, i + 4, n, u)
        case None => None
        case Some(v) => Some((if code == ORIGIN then 4 else 3 + n, v))
  }

  /** The attribute loop; i always equals 3 plus the octets read. Gives the update and read_len. */
  function AttrLoop(p: seq<Octet>, readLen: nat, total: nat, u: Update): Option<(Update, nat)>
    decreases |p| - readLen
  {
    if readLen >= total then Some((u, readLen))
    else
      match AttrStep(p, 3 + readLen, u)
      case None => None
      case Some((n, v)) => AttrLoop(p, readLen + n, total, v)
  }

  // ---------- specification of the prefix list ----------

  datatype Mode = Updating | Withdrawal

  function NlriOf(length: PrefixLength, address: Word32, peer: Word32, now: Word64, mode: Mode): Nlri {
    Nlri(peer, address, HighRange(address, length), 0, length, 0, 0,
         if mode == Updating then now else 0, if mode == Updating then 0 else now)
  }

  /** The prefix loop: what is pushed, in order, and the offset of the terminating zero octet. */
  function NlriLoop(p: seq<Octet>, offset: nat, u: Update, peer: Word32, now: Word64, mode: Mode)
    : Option<(seq<Update>, nat)>
    decreases |p| - offset
  {
    if offset >= |p| then None
    else if p[offset] == 0 then Some(([], offset))
    else
      var length: nat := p[offset];
      var n := OctetsFor(length);
      if length > 32 || offset + 1 + n > |p| then None
      else
        var v := u.(nlri := NlriOf(length, Address(p[offset + 1..offset + 1 + n]), peer, now, mode));
        match NlriLoop(p, offset + 1 + n, u, peer, now, mode)
        case None => None
        case Some((us, end)) => Some(([Copied(v)] + us, end))
  }

  // ---------- specification of one packet ----------

  datatype Parsed = Parsed(announced: seq<Update>, withdrawn: seq<Update>)

  function Padded(payload: seq<Octet>, n: nat): seq<Octet> {
    payload + seq(n, i => 0)
  }

  function ParsePacket(payload: seq<Octet>, peer: Word32, now: Word64): Option<Parsed> {
    var p := Padded(payload, PADDING);
    if Big16(p[0], p[1]) != 0 then
      match NlriLoop(p, 2, BLANK, peer, now, Withdrawal)
      case None => None
      case Some((us, _)) => Some(Parsed([], us))
    else
      var total := Big16(p[2], p[3]);
      match AttrLoop(p, 0, total, BLANK)
      case None => None
      case Some((u, _)) =>
        match NlriLoop(p, total + 4, u.(addrFamily := AF_INET), peer, now, Updating)
        case None => None
        case Some((us, _)) => Some(Parsed(us, []))
  }

  /** C++ defines what parsing the packet does. Neither the peer nor the clock matters: ParsesAlways. */
  predicate Parses(payload: seq<Octet>) {
    ParsePacket(payload, 0, 0).Some?
  }

  /** Where the prefix loop ends depends on the packet alone. */
  lemma {:induction false} NlriLoopEndsAlike(p: seq<Octet>, offset: nat, u: Update, peer: Word32, now: Word64,
                                             mode: Mode)
    ensures var r, q := NlriLoop(p, offset, u, peer, now, mode), NlriLoop(p, offset, BLANK, 0, 0, mode);
            r.Some? == q.Some? && (r.Some? ==> r.value.1 == q.value.1)
    decreases |p| - offset
  {
    hide NlriOf, Address, Copied;
    if offset < |p| && p[offset] != 0 && p[offset] <= 32 && offset + 1 + OctetsFor(p[offset]) <= |p| {
      NlriLoopEndsAlike(p, offset + 1 + OctetsFor(p[offset]), u, peer, now, mode);
    }
  }

  lemma ParsesAlways(payload: seq<Octet>, peer: Word32, now: Word64)
    ensures ParsePacket(payload, peer, now).Some? <==> Parses(payload)
  {
    hide NlriLoop, AttrLoop, Big16;
    var p := Padded(payload, PADDING);
    NlriLoopEndsAlike(p, 2, BLANK, peer, now, Withdrawal);
    var total := Big16(p[2], p[3]);
    var a := AttrLoop(p, 0, total, BLANK);
    if a.Some? {
      var u := a.value.0.(addrFamily := AF_INET);
      NlriLoopEndsAlike(p, total as int + 4, u, peer, now, Updating);
      NlriLoopEndsAlike(p, total as int + 4, u, 0, 0, Updating);
    }
  }

  /** A NEXT_HOP that claims more than four octets overruns the address it is copied to. */
  lemma LongNextHop(flags: Octet, total: Octet, n: Octet, rest: seq<Octet>)
    requires total > 0 && n > 4
    ensures !Parses([0, 0, 0, total, flags, NEXT_HOP, n] + rest)
  {
    hide NlriLoop;
    var p := Padded([0, 0, 0, total, flags, NEXT_HOP, n] + rest, PADDING);
    assert p[0] == 0 && p[1] == 0 && p[2] == 0 && p[3] == total && p[5] == NEXT_HOP && p[6] == n;
    assert Store(p, NEXT_HOP, 7, n as nat, BLANK) == None;
    assert AttrStep(p, 3, BLANK) == None;
  }

  // ---------- attributes: parsing inverts encoding ----------

  lemma Big16At(p: seq<Octet>, pos: nat, w: Word16)
    requires At(p, pos, Net16(w))
    ensures Big16(p[pos], p[pos + 1]) == w
  {
    AtIndex(p, pos, Net16(w), 0);
    AtIndex(p, pos, Net16(w), 1);
  }

  lemma Big32At(p: seq<Octet>, pos: nat, w: Word32)
    requires At(p, pos, Net32(w))
    ensures Big32(p[pos], p[pos + 1], p[pos + 2], p[pos + 3]) == w
  {
    hide Net32;
    AtIndex(p, pos, Net32(w), 0);
    AtIndex(p, pos, Net32(w), 1);
    AtIndex(p, pos, Net32(w), 2);
    AtIndex(p, pos, Net32(w), 3);
  }

  lemma {:induction false} AsnsAt(p: seq<Octet>, pos: nat, ws: Asns16)
    requires At(p, pos, NetAsns(ws))
    ensures ReadAsns(p, pos, |ws|) == Widen(ws)
    decreases |ws|
  {
    hide Net16, Big16;
    if ws != [] {
      AtSplit(p, pos, Net16(ws[0]), NetAsns(ws[1..]));
      Big16At(p, pos, ws[0]);
      AsnsAt(p, pos + 2, ws[1..]);
      assert Widen(ws) == [ws[0] as Word32] + Widen(ws[1..]);
    }
  }

  lemma {:induction false} Asns4At(p: seq<Octet>, pos: nat, ws: seq<Word32>)
    requires At(p, pos, NetAsns4(ws))
    ensures ReadAsns4(p, pos, |ws|) == ws
    decreases |ws|
  {
    hide Net32, Big32;
    if ws != [] {
      AtSplit(p, pos, Net32(ws[0]), NetAsns4(ws[1..]));
      Big32At(p, pos, ws[0]);
      Asns4At(p, pos + 4, ws[1..]);
    }
  }

  lemma {:induction false} CommunitiesAt(p: seq<Octet>, pos: nat, vs: seq<CommunityValue>)
    requires At(p, pos, NetCommunities(vs))
    ensures ReadCommunities(p, pos, |vs|) == CommunityValues(vs)
    decreases |vs|
  {
    hide Net16, Big16;
    if vs != [] {
      var asn, value, rest := Net16(vs[0].asn), Net16(vs[0].value), NetCommunities(vs[1..]);
      AtSplit(p, pos, asn + value, rest);
      AtSplit(p, pos, asn, value);
      Big16At(p, pos, vs[0].asn);
      Big16At(p, pos + 2, vs[0].value);
      CommunitiesAt(p, pos + 4, vs[1..]);
      assert CommunityValues(vs) == [Community(vs[0].asn, vs[0].value)] + CommunityValues(vs[1..]);
    }
  }

  lemma SegmentAt(p: seq<Octet>, pos: nat, s: Segment16, others: seq<Octet>)
    requires At(p, pos, [s.segType, |s.asns|] + NetAsns(s.asns) + others)
    ensures Segment(p, pos) == Some(PathSegment(s.segType, Widen(s.asns)))
  {
    hide NetAsns, ReadAsns, Widen;
    var head: seq<Octet> := [s.segType, |s.asns|];
    AtSplit(p, pos, head + NetAsns(s.asns), others);
    AtSplit(p, pos, head, NetAsns(s.asns));
    AtIndex(p, pos, head, 0);
    AtIndex(p, pos, head, 1);
    AsnsAt(p, pos + 2, s.asns);
  }

  lemma Segment4At(p: seq<Octet>, pos: nat, s: PathSegment, others: seq<Octet>)
    requires At(p, pos, [s.segType, |s.asns|] + NetAsns4(s.asns) + others)
    ensures Segment4(p, pos) == Some(s)
  {
    hide NetAsns4, ReadAsns4;
    var head: seq<Octet> := [s.segType, |s.asns|];
    AtSplit(p, pos, head + NetAsns4(s.asns), others);
    AtSplit(p, pos, head, NetAsns4(s.asns));
    AtIndex(p, pos, head, 0);
    AtIndex(p, pos, head, 1);
    Asns4At(p, pos + 2, s.asns);
  }

  lemma CopyAt(w: Word32, p: seq<Octet>, pos: nat, v: Word32)
    requires At(p, pos, Memory(v, 4))
    ensures CopyInto(w, p, pos, 4) == Some(v)
  {
    hide Memory;
    assert Memory(w, 4)[4..] == [];
    assert p[pos..pos + 4] + Memory(w, 4)[4..] == Memory(v, 4);
    WordOfMemory(v);
  }

  lemma StoreWordAt(p: seq<Octet>, pos: nat, a: Attr, u: Update)
    requires WellFormed(a) && At(p, pos, Body(a)) && (a.Origin? || a.NextHop? || a.Med? || a.LocalPref?)
    ensures Store(p, Code(a), pos, |Body(a)|, u) == Some(Meaning(u, a))
  {
    hide Memory, Net32, Segment, Segment4, CopyInto, Big16, Big32, ReadCommunities;
    match a
    case Origin(_, o) => AtIndex(p, pos, [o], 0);
    case NextHop(_, w) => CopyAt(u.nextHop, p, pos, w);
    case Med(_, w) => Big32At(p, pos, w);
    case LocalPref(_, w) => Big32At(p, pos, w);
  }

  lemma StorePathAt(p: seq<Octet>, pos: nat, a: Attr, u: Update)
    requires WellFormed(a) && At(p, pos, Body(a)) && (a.AsPath? || a.As4Path?)
    ensures Store(p, Code(a), pos, |Body(a)|, u) == Some(Meaning(u, a))
  {
    hide NetAsns, NetAsns4, Segment, Segment4, CopyInto, Big16, Big32, ReadCommunities, Widen;
    match a
    case AsPath(_, s, others) => SegmentAt(p, pos, s, others);
    case As4Path(_, s, others) => Segment4At(p, pos, s, others);
  }

  lemma StoreAggregatorAt(p: seq<Octet>, pos: nat, a: Attr, u: Update)
    requires WellFormed(a) && At(p, pos, Body(a)) && a.AggregatorAttr?
    ensures Store(p, Code(a), pos, |Body(a)|, u) == Some(Meaning(u, a))
  {
    hide Memory, Net16, Segment, Segment4, CopyInto, Big16, Big32, ReadCommunities;
    AtSplit(p, pos, Net16(a.asn), Memory(a.speaker, 4));
    Big16At(p, pos, a.asn);
    CopyAt(0, p, pos + 2, a.speaker);
  }

  lemma StoreAs4AggregatorAt(p: seq<Octet>, pos: nat, a: Attr, u: Update)
    requires WellFormed(a) && At(p, pos, Body(a)) && a.As4AggregatorAttr?
    ensures Store(p, Code(a), pos, |Body(a)|, u) == Some(Meaning(u, a))
  {
    hide Memory, Net32, Segment, Segment4, CopyInto, Big16, Big32, ReadCommunities;
    AtSplit(p, pos, Net32(a.asn4), Memory(a.speaker, 4));
    Big32At(p, pos, a.asn4);
    CopyAt(0, p, pos + 4, a.speaker);
  }

  lemma StoreCommunitiesAt(p: seq<Octet>, pos: nat, a: Attr, u: Update)
    requires WellFormed(a) && At(p, pos, Body(a)) && a.CommunityAttr? && Body(a) != []
    ensures Store(p, Code(a), pos, |Body(a)|, u) == Some(Meaning(u, a))
  {
    hide NetCommunities, Segment, Segment4, CopyInto, Big16, Big32, ReadCommunities, CommunityValues;
    CommunitiesAt(p, pos, a.values);
  }

  lemma StoreOtherAt(p: seq<Octet>, pos: nat, a: Attr, u: Update)
    requires WellFormed(a) && a.Other?
    ensures Store(p, Code(a), pos, |Body(a)|, u) == Some(Meaning(u, a))
  {
    hide Segment, Segment4, CopyInto, Big16, Big32, ReadCommunities;
  }

  /** What the switch stores for an encoded attribute is what the attribute means. */
  lemma StoreAt(p: seq<Octet>, pos: nat, a: Attr, u: Update)
    requires WellFormed(a) && At(p, pos, Body(a)) && Body(a) != [] && !a.AtomicAggregate?
    ensures Store(p, Code(a), pos, |Body(a)|, u) == Some(Meaning(u, a))
  {
    hide WellFormed, At, Store, Meaning, Code;
    match a
    case EmptyPath(_) =>
    case AsPath(_, _, _) => StorePathAt(p, pos, a, u);
    case As4Path(_, _, _) => StorePathAt(p, pos, a, u);
    case AggregatorAttr(_, _, _) => StoreAggregatorAt(p, pos, a, u);
    case As4AggregatorAttr(_, _, _) => StoreAs4AggregatorAt(p, pos, a, u);
    case CommunityAttr(_, _) => StoreCommunitiesAt(p, pos, a, u);
    case Other(_, _, _) => StoreOtherAt(p, pos, a, u);
    case _ => StoreWordAt(p, pos, a, u);
  }

  lemma AttrFacts(a: Attr, u: Update)
    requires WellFormed(a)
    ensures Code(a) == ATOMIC_AGGREGATE <==> a.AtomicAggregate?
    ensures a.AtomicAggregate? ==> Body(a) == [] && Meaning(u, a) == u.(atomicAggregate := 1)
    ensures Code(a) == ORIGIN <==> a.Origin?
    ensures a.Origin? ==> |Body(a)| == 1
    ensures Body(a) == [] && !a.AtomicAggregate? ==> Meaning(u, a) == u
  {
    hide Widen, CommunityValues;
  }

  /** One turn of the loop consumes exactly one encoded attribute. */
  lemma AttrStepAt(p: seq<Octet>, i: nat, a: Attr, u: Update)
    requires WellFormed(a) && At(p, i + 1, EncodeAttr(a))
    ensures AttrStep(p, i, u) == Some((|EncodeAttr(a)|, Meaning(u, a)))
  {
    hide Store, Body, Code, Meaning;
    AttrFacts(a, u);
    var head: seq<Octet> := [a.flags, Code(a), |Body(a)|];
    AtSplit(p, i + 1, head, Body(a));
    AtIndex(p, i + 1, head, 0);
    AtIndex(p, i + 1, head, 1);
    AtIndex(p, i + 1, head, 2);
    if Body(a) != [] && !a.AtomicAggregate? {
      StoreAt(p, i + 4, a, u);
    }
  }

  /** The loop ends with read_len equal to the attribute length: the realignment is exact. */
  lemma {:induction false} AttrLoopAt(p: seq<Octet>, readLen: nat, total: nat, attrs: seq<Attr>, u: Update)
    requires AllWellFormed(attrs) && At(p, 4 + readLen, EncodeAttrs(attrs))
    requires total == readLen + |EncodeAttrs(attrs)|
    ensures AttrLoop(p, readLen, total, u) == Some((MeaningOf(u, attrs), total))
    decreases |attrs|
  {
    hide AttrStep, Meaning, EncodeAttr;
    if attrs != [] {
      assert |EncodeAttr(attrs[0])| >= 3 by { AttrSize(attrs[0]); }
      AtSplit(p, 4 + readLen, EncodeAttr(attrs[0]), EncodeAttrs(attrs[1..]));
      AttrStepAt(p, 3 + readLen, attrs[0], u);
      AttrLoopAt(p, readLen + |EncodeAttr(attrs[0])|, total, attrs[1..], Meaning(u, attrs[0]));
    }
  }

  lemma AttrSize(a: Attr)
    requires WellFormed(a)
    ensures |EncodeAttr(a)| >= 3
  {
    hide Body;
  }

  // ---------- prefixes: parsing inverts encoding ----------

  /** The entries that a prefix list stands for, all with the same attributes. */
  function Routes(ps: seq<WirePrefix>, u: Update, peer: Word32, now: Word64, mode: Mode): seq<Update>
    requires ValidPrefixes(ps)
  {
    seq(|ps|, i requires 0 <= i < |ps| =>
      Copied(u.(nlri := NlriOf(ps[i].length, Address(ps[i].octets), peer, now, mode))))
  }

  /** One turn of the prefix loop consumes exactly one encoded prefix. */
  lemma NlriLoopStep(p: seq<Octet>, offset: nat, x: WirePrefix, more: seq<Octet>, u: Update, peer: Word32,
                     now: Word64, mode: Mode)
    requires ValidPrefix(x) && At(p, offset, [x.length] + x.octets + more)
    ensures At(p, offset + 1 + |x.octets|, more)
    ensures var rest := NlriLoop(p, offset + 1 + |x.octets|, u, peer, now, mode);
            NlriLoop(p, offset, u, peer, now, mode)
            == if rest.None? then None
               else Some(([Copied(u.(nlri := NlriOf(x.length, Address(x.octets), peer, now, mode)))] + rest.value.0,
                          rest.value.1))
  {
    hide NlriOf, Address, Copied;
    PrefixAt(p, offset, x, more);
  }

  lemma {:induction false} NlriLoopAt(p: seq<Octet>, offset: nat, ps: seq<WirePrefix>, u: Update, peer: Word32,
                                      now: Word64, mode: Mode)
    requires ValidPrefixes(ps) && At(p, offset, EncodePrefixes(ps))
    ensures var end := offset + |EncodePrefixes(ps)|;
            var rest := NlriLoop(p, end, u, peer, now, mode);
            NlriLoop(p, offset, u, peer, now, mode)
            == if rest.None? then None
               else Some((Routes(ps, u, peer, now, mode) + rest.value.0, rest.value.1))
    decreases |ps|
  {
    hide NlriOf, Address, Copied, NlriLoop, Routes, EncodePrefixes, At;
    var rest := NlriLoop(p, offset + |EncodePrefixes(ps)|, u, peer, now, mode);
    if ps == [] {
      NoPrefixes();
      RoutesOfNone(u, peer, now, mode);
      assert rest.Some? ==> [] + rest.value.0 == rest.value.0;
    } else {
      PrefixesCons(ps);
      var mid := offset + 1 + |ps[0].octets|;
      assert mid + |EncodePrefixes(ps[1..])| == offset + |EncodePrefixes(ps)|;
      NlriLoopStep(p, offset, ps[0], EncodePrefixes(ps[1..]), u, peer, now, mode);
      NlriLoopAt(p, mid, ps[1..], u, peer, now, mode);
      RoutesCons(ps, u, peer, now, mode);
      var first := Copied(u.(nlri := NlriOf(ps[0].length, Address(ps[0].octets), peer, now, mode)));
      var others := Routes(ps[1..], u, peer, now, mode);
      assert rest.Some? ==> [first] + (others + rest.value.0) == [first] + others + rest.value.0;
    }
  }

  lemma RoutesOfNone(u: Update, peer: Word32, now: Word64, mode: Mode)
    ensures Routes([], u, peer, now, mode) == []
  {
  }

  lemma RoutesCons(ps: seq<WirePrefix>, u: Update, peer: Word32, now: Word64, mode: Mode)
    requires ValidPrefixes(ps) && ps != []
    ensures Routes(ps, u, peer, now, mode)
         == [Copied(u.(nlri := NlriOf(ps[0].length, Address(ps[0].octets), peer, now, mode)))]
            + Routes(ps[1..], u, peer, now, mode)
  {
    hide NlriOf, Address, Copied;
  }

  lemma PrefixAt(p: seq<Octet>, offset: nat, x: WirePrefix, rest: seq<Octet>)
    requires ValidPrefix(x) && At(p, offset, [x.length] + x.octets + rest)
    ensures offset < |p| && p[offset] == x.length
    ensures offset + 1 + |x.octets| <= |p| && p[offset + 1..offset + 1 + |x.octets|] == x.octets
    ensures At(p, offset + 1 + |x.octets|, rest)
  {
    var head: seq<Octet> := [x.length];
    AtSplit(p, offset, head + x.octets, rest);
    AtSplit(p, offset, head, x.octets);
    AtIndex(p, offset, head, 0);
  }

  // ---------- main results: announcements ----------

  /**
   For every well-formed UPDATE without withdrawn routes the parser inverts the encoding: one entry
   per prefix, in order, all with the decoded attributes, and nothing else.
   */
  lemma ParseInvertsAnnounce(m: Message, peer: Word32, now: Word64)
    requires ValidMessage(m) && m.withdrawn == []
    ensures ParsePacket(EncodeMessage(m), peer, now)
         == Some(Parsed(Routes(m.nlri, MeaningOf(BLANK, m.attrs).(addrFamily := AF_INET), peer, now, Updating), []))
  {
    hide EncodeAttrs, EncodePrefixes, Net16, Big16, AttrLoop, NlriLoop, MeaningOf, Routes;
    var a, n := EncodeAttrs(m.attrs), EncodePrefixes(m.nlri);
    var p := Padded(EncodeMessage(m), PADDING);
    assert EncodePrefixes([]) == [] by { NoPrefixes(); }
    LayoutWithoutWithdrawn(m, p);
    AttrLoopAt(p, 0, |a|, m.attrs, BLANK);
    var u := MeaningOf(BLANK, m.attrs).(addrFamily := AF_INET);
    NlriLoopAt(p, 4 + |a|, m.nlri, u, peer, now, Updating);
    NlriLoopEnds(p, |EncodeMessage(m)|, u, peer, now, Updating);
    assert Routes(m.nlri, u, peer, now, Updating) + [] == Routes(m.nlri, u, peer, now, Updating);
  }

  lemma PrefixesCons(ps: seq<WirePrefix>)
    requires ps != []
    ensures EncodePrefixes(ps) == [ps[0].length] + ps[0].octets + EncodePrefixes(ps[1..])
  {
  }

  lemma NoPrefixes()
    ensures EncodePrefixes([]) == []
  {
  }

  lemma NlriLoopEnds(p: seq<Octet>, offset: nat, u: Update, peer: Word32, now: Word64, mode: Mode)
    requires offset < |p| && p[offset] == 0
    ensures NlriLoop(p, offset, u, peer, now, mode) == Some(([], offset))
  {
  }

  lemma LayoutWithoutWithdrawn(m: Message, p: seq<Octet>)
    requires ValidMessage(m) && m.withdrawn == [] && p == Padded(EncodeMessage(m), PADDING)
    ensures var a, n := EncodeAttrs(m.attrs), EncodePrefixes(m.nlri);
            && |EncodeMessage(m)| == 4 + |a| + |n| && |p| == 9 + |a| + |n|
            && Big16(p[0], p[1]) == 0 && Big16(p[2], p[3]) == |a|
            && At(p, 4, a) && At(p, 4 + |a|, n) && p[4 + |a| + |n|] == 0
  {
    hide EncodeAttrs, EncodePrefixes, Net16, Big16;
    var a, n := EncodeAttrs(m.attrs), EncodePrefixes(m.nlri);
    NoPrefixes();
    var zero, total := Net16(0), Net16(|a|);
    assert EncodeMessage(m) == zero + (total + a + n);
    assert At(p, 0, zero + (total + a + n));
    AtSplit(p, 0, zero, total + a + n);
    AtSplit(p, 2, total + a, n);
    AtSplit(p, 2, total, a);
    Big16At(p, 0, 0);
    Big16At(p, 2, |a|);
  }

  // ---------- main results: withdrawals ----------

  /** The UPDATE up to the withdrawn routes and the first octet of the attribute length. */
  lemma LayoutWithWithdrawn(m: Message, p: seq<Octet>)
    requires ValidMessage(m) && m.withdrawn != [] && p == Padded(EncodeMessage(m), PADDING)
    ensures var w := EncodePrefixes(m.withdrawn);
            && |w| > 0 && Big16(p[0], p[1]) == |w| && At(p, 2, w)
            && 2 + |w| < |p| && p[2 + |w|] == |EncodeAttrs(m.attrs)| / 0x100
  {
    hide EncodeAttrs, Big16;
    var w, a := EncodePrefixes(m.withdrawn), EncodeAttrs(m.attrs);
    var rest := Net16(|a|) + a + EncodePrefixes(m.nlri);
    assert At(p, 0, Net16(|w|) + w + rest);
    AtSplit(p, 0, Net16(|w|) + w, rest);
    AtSplit(p, 0, Net16(|w|), w);
    AtIndex(p, 2 + |w|, rest, 0);
    Big16At(p, 0, |w|);
  }

  /**
   For every UPDATE with withdrawn routes: exactly the withdrawn prefixes are pushed to the withdraw
   queue, in order, and nothing to the update queue, if and only if the attributes take fewer than
   256 octets. The announced prefixes of such a message are never looked at.
   */
  lemma ParseInvertsWithdrawIff(m: Message, peer: Word32, now: Word64)
    requires ValidMessage(m) && m.withdrawn != []
    ensures ParsePacket(EncodeMessage(m), peer, now)
         == Some(Parsed([], Routes(m.withdrawn, BLANK, peer, now, Withdrawal)))
       <==> |EncodeAttrs(m.attrs)| < 0x100
  {
    hide EncodeAttrs, EncodePrefixes, Net16, Big16, NlriLoop, Routes, EncodeMessage;
    var w := EncodePrefixes(m.withdrawn);
    var p := Padded(EncodeMessage(m), PADDING);
    LayoutWithWithdrawn(m, p);
    NlriLoopAt(p, 2, m.withdrawn, BLANK, peer, now, Withdrawal);
    var routes := Routes(m.withdrawn, BLANK, peer, now, Withdrawal);
    if |EncodeAttrs(m.attrs)| < 0x100 {
      NlriLoopEnds(p, 2 + |w|, BLANK, peer, now, Withdrawal);
      assert routes + [] == routes;
    } else {
      NlriLoopGoesOn(p, 2 + |w|, BLANK, peer, now, Withdrawal);
      var rest := NlriLoop(p, 2 + |w|, BLANK, peer, now, Withdrawal);
      if rest.Some? {
        assert |routes + rest.value.0| > |routes|;
      }
    }
  }

  /** What a well-formed UPDATE says: all its withdrawn routes and all its announcements. */
  function Said(m: Message, peer: Word32, now: Word64): Parsed
    requires ValidMessage(m)
  {
    Parsed(Routes(m.nlri, MeaningOf(BLANK, m.attrs).(addrFamily := AF_INET), peer, now, Updating),
           Routes(m.withdrawn, BLANK, peer, now, Withdrawal))
  }

  /**
   For every well-formed UPDATE the parser recovers all that it says if and only if it withdraws
   nothing, or announces nothing and its attributes take fewer than 256 octets. When it withdraws,
   its announcements are always lost.
   */
  lemma ParseInvertsIff(m: Message, peer: Word32, now: Word64)
    requires ValidMessage(m)
    ensures ParsePacket(EncodeMessage(m), peer, now) == Some(Said(m, peer, now))
       <==> m.withdrawn == [] || (m.nlri == [] && |EncodeAttrs(m.attrs)| < 0x100)
    ensures m.withdrawn != [] && ParsePacket(EncodeMessage(m), peer, now).Some?
        ==> ParsePacket(EncodeMessage(m), peer, now).value.announced == []
  {
    hide EncodeAttrs, EncodeMessage, Routes, NlriLoop, AttrLoop, MeaningOf;
    RoutesOfNone(BLANK, peer, now, Withdrawal);
    if m.withdrawn == [] {
      ParseInvertsAnnounce(m, peer, now);
    } else {
      LayoutWithWithdrawn(m, Padded(EncodeMessage(m), PADDING));
      ParseInvertsWithdrawIff(m, peer, now);
      var u := MeaningOf(BLANK, m.attrs).(addrFamily := AF_INET);
      RoutesOfNone(u, peer, now, Updating);
      assert |Routes(m.nlri, u, peer, now, Updating)| == |m.nlri| by { RoutesCount(m.nlri, u, peer, now, Updating); }
    }
  }

  /** The smallest loss: one route withdrawn and another announced in one UPDATE. */
  lemma AnnouncementIsLost(x: WirePrefix, y: WirePrefix, peer: Word32, now: Word64)
    requires ValidPrefix(x) && ValidPrefix(y)
    ensures ValidMessage(Message([x], [], [y]))
    ensures ParsePacket(EncodeMessage(Message([x], [], [y])), peer, now)
         == Some(Parsed([], Routes([x], BLANK, peer, now, Withdrawal)))
  {
    hide EncodeMessage, Routes, NlriLoop, AttrLoop, ParsePacket;
    assert |EncodePrefixes([x])| <= 5 && |EncodePrefixes([y])| <= 5 by {
      PrefixesCons([x]);
      PrefixesCons([y]);
      NoPrefixes();
    }
    ParseInvertsWithdrawIff(Message([x], [], [y]), peer, now);
  }

  /** What a well-formed UPDATE must keep to for its parse to be defined. */
  lemma WellFormedParses(m: Message)
    requires ValidMessage(m) && (m.withdrawn == [] || |EncodeAttrs(m.attrs)| < 0x100)
    ensures Parses(EncodeMessage(m))
  {
    hide EncodeAttrs, EncodeMessage, Routes, NlriLoop, AttrLoop, MeaningOf;
    if m.withdrawn == [] {
      ParseInvertsAnnounce(m, 0, 0);
    } else {
      ParseInvertsWithdrawIff(m, 0, 0);
    }
  }

  lemma RoutesCount(ps: seq<WirePrefix>, u: Update, peer: Word32, now: Word64, mode: Mode)
    requires ValidPrefixes(ps)
    ensures |Routes(ps, u, peer, now, mode)| == |ps|
  {
    hide NlriOf, Address, Copied;
  }

  lemma NlriLoopGoesOn(p: seq<Octet>, offset: nat, u: Update, peer: Word32, now: Word64, mode: Mode)
    requires offset < |p| && p[offset] != 0
    ensures var r := NlriLoop(p, offset, u, peer, now, mode);
            r.Some? ==> r.value.0 != []
  {
    hide NlriOf, Address, Copied;
  }

  /** With fewer than 256 attribute octets parsing stops right after the withdrawn routes. */
  lemma WithdrawStopsAfterList(m: Message, peer: Word32, now: Word64)
    requires ValidMessage(m) && m.withdrawn != [] && |EncodeAttrs(m.attrs)| < 0x100
    ensures var r := NlriLoop(Padded(EncodeMessage(m), PADDING), 2, BLANK, peer, now, Withdrawal);
            r.Some? && r.value.1 == 2 + |EncodePrefixes(m.withdrawn)|
  {
    hide EncodeAttrs, EncodePrefixes, Net16, Big16, NlriLoop, Routes, EncodeMessage;
    var p := Padded(EncodeMessage(m), PADDING);
    LayoutWithWithdrawn(m, p);
    NlriLoopAt(p, 2, m.withdrawn, BLANK, peer, now, Withdrawal);
    NlriLoopEnds(p, 2 + |EncodePrefixes(m.withdrawn)|, BLANK, peer, now, Withdrawal);
  }

  // ---------- main results: five octets of padding ----------

  /** Every length octet that the loop reads from offset on is at most 32. */
  predicate LengthsFit(p: seq<Octet>, offset: nat)
    decreases |p| - offset
  {
    offset < |p| && p[offset] != 0 ==>
      p[offset] <= 32 && LengthsFit(p, offset + 1 + OctetsFor(p[offset]))
  }

  /**
   On any payload, even one that ends inside a prefix, the loop stays inside the padded buffer
   exactly when no length octet exceeds 32, and it stops at most four octets past the payload.
   */
  lemma {:induction false} PaddingSuffices(payload: seq<Octet>, offset: nat, u: Update, peer: Word32, now: Word64,
                                           mode: Mode)
    requires offset <= |payload| + 4
    ensures var p := Padded(payload, PADDING);
            var r := NlriLoop(p, offset, u, peer, now, mode);
            && (r.Some? <==> LengthsFit(p, offset))
            && (r.Some? ==> offset <= r.value.1 <= |payload| + 4)
    decreases |payload| + 4 - offset
  {
    hide NlriOf, Address, Copied;
    var p := Padded(payload, PADDING);
    if offset < |payload| && payload[offset] != 0 && payload[offset] <= 32 {
      PaddingSuffices(payload, offset + 1 + OctetsFor(payload[offset]), u, peer, now, mode);
    }
  }

  /** The bound is reached: a payload ending in a lone /32 length needs all five octets. */
  lemma FivePaddingOctetsAreNeeded(payload: seq<Octet>, u: Update, peer: Word32, now: Word64, mode: Mode)
    requires |payload| > 0 && payload[|payload| - 1] == 32
    ensures var r := NlriLoop(Padded(payload, PADDING), |payload| - 1, u, peer, now, mode);
            r.Some? && r.value.1 == |payload| + 4
    ensures NlriLoop(Padded(payload, PADDING - 1), |payload| - 1, u, peer, now, mode) == None
  {
    hide NlriOf, Address, Copied;
    var n := |payload|;
    var p, q := Padded(payload, PADDING), Padded(payload, PADDING - 1);
    NlriLoopEnds(p, n + 4, u, peer, now, mode);
    assert NlriLoop(p, n - 1, u, peer, now, mode).Some? && NlriLoop(p, n - 1, u, peer, now, mode).value.1 == n + 4;
    assert NlriLoop(q, n + 4, u, peer, now, mode) == None;
  }

  /** With path_attrib_len at most p_len the parser's own start offset meets the bound. */
  lemma UpdateNlriStaysInside(payload: seq<Octet>, total: nat, u: Update, peer: Word32, now: Word64)
    requires total <= |payload| && LengthsFit(Padded(payload, PADDING), total + 4)
    ensures var r := NlriLoop(Padded(payload, PADDING), total + 4, u, peer, now, Updating);
            r.Some? && r.value.1 <= |payload| + 4
  {
    hide NlriLoop, LengthsFit;
    PaddingSuffices(payload, total + 4, u, peer, now, Updating);
  }
}
