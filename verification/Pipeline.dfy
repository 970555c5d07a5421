/**
 The stages joined: the main loop's per-peer step from received packets to the RIB queues, and
 what a peer's UPDATE on the wire does to the RIB and to a prefix query.
 */
module Pipeline {
  import opened Octets
  import opened Cidr
  import opened Messages
  import opened WireFormat
  import opened UpdateParser
  import opened PacketWalker
  import opened Framing
  import opened PeerSession
  import opened PeerObject
  import opened Delivery
  import opened HistoryDb
  import opened RibEngine
  import opened MainLoop
  import opened LookupApi
  import opened Collector
  import opened RoundArchive
  import opened RibQueries

  /** What parsing a queue of packets pushes, in order; None once a packet has no defined parse. */
  function ParseAll(packets: seq<seq<Octet>>, peer: Word32, now: Word64): Option<Parsed> {
    if packets == [] then Some(Parsed([], []))
    else
      match ParseAll(packets[..|packets| - 1], peer, now)
      case None => None
      case Some(before) =>
        match ParsePacket(packets[|packets| - 1], peer, now)
        case None => None
        case Some(r) => Some(Parsed(before.announced + r.announced, before.withdrawn + r.withdrawn))
  }

  lemma {:induction false} AllParsedPrefix(packets: seq<seq<Octet>>, i: nat, peer: Word32, now: Word64)
    requires i <= |packets| && ParseAll(packets[..i], peer, now).None?
    ensures ParseAll(packets, peer, now).None?
    decreases |packets| - i
  {
    hide ParsePacket;
    if i == |packets| {
      assert packets[..i] == packets;
    } else {
      assert packets[..i + 1][..i] == packets[..i];
      AllParsedPrefix(packets, i + 1, peer, now);
    }
  }

  /** Pushes are copies, and what the parser pushes is a copy already. */
  ghost predicate AllCopied(us: seq<Update>) {
    forall i :: 0 <= i < |us| ==> Copied(us[i]) == us[i]
  }

  lemma {:induction false} LoopCopies(p: seq<Octet>, offset: nat, u: Update, peer: Word32, now: Word64, mode: Mode)
    ensures var r := NlriLoop(p, offset, u, peer, now, mode);
            r.Some? ==> AllCopied(r.value.0)
    decreases |p| - offset
  {
    hide NlriOf, Address;
    if offset < |p| && p[offset] != 0 && p[offset] <= 32 && offset + 1 + OctetsFor(p[offset]) <= |p| {
      LoopCopies(p, offset + 1 + OctetsFor(p[offset]), u, peer, now, mode);
      NlriTurn(p, offset, u, peer, now, mode);
    }
  }

  lemma ParseCopies(payload: seq<Octet>, peer: Word32, now: Word64)
    ensures var r := ParsePacket(payload, peer, now);
            r.Some? ==> AllCopied(r.value.announced) && AllCopied(r.value.withdrawn)
  {
    hide NlriLoop, AttrLoop, Copied, Big16;
    var p := Padded(payload, PADDING);
    LoopCopies(p, 2, BLANK, peer, now, Withdrawal);
    var total := Big16(p[2], p[3]);
    var a := AttrLoop(p, 0, total, BLANK);
    if a.Some? {
      LoopCopies(p, total as int + 4, a.value.0.(addrFamily := AF_INET), peer, now, Updating);
    }
  }

  method PushParsed(bgp: Bgp, r: Parsed)
    requires bgp.Valid() && AllCopied(r.announced) && AllCopied(r.withdrawn)
    modifies bgp`adjRibInQ, bgp`adjRibInWdrawQ, bgp`pushed
    ensures bgp.Valid()
    ensures bgp.adjRibInQ == old(bgp.adjRibInQ) + r.announced
    ensures bgp.adjRibInWdrawQ == old(bgp.adjRibInWdrawQ) + r.withdrawn
  {
    hide Copied;
    for i := 0 to |r.announced|
      invariant bgp.Valid()
      invariant bgp.adjRibInQ == old(bgp.adjRibInQ) + r.announced[..i]
      invariant bgp.adjRibInWdrawQ == old(bgp.adjRibInWdrawQ)
    {
      bgp.PushAdjRibInQ(r.announced[i]);
      assert r.announced[..i + 1] == r.announced[..i] + [r.announced[i]];
    }
    for i := 0 to |r.withdrawn|
      invariant bgp.Valid()
      invariant bgp.adjRibInQ == old(bgp.adjRibInQ) + r.announced
      invariant bgp.adjRibInWdrawQ == old(bgp.adjRibInWdrawQ) + r.withdrawn[..i]
    {
      bgp.PushAdjRibInWdrawQ(r.withdrawn[i]);
      assert r.withdrawn[..i + 1] == r.withdrawn[..i] + [r.withdrawn[i]];
    }
  }

  /**
   proc_in_q: timers, then every queued UPDATE is popped, parsed and pushed. ok is false when a
   packet has no defined parse.
   */
  method ProcInQ(bgp: Bgp, peer: BgpPeer, now: Word64) returns (ok: bool)
    requires bgp.Valid() && AllBounded(peer.inQueue)
    modifies peer, bgp`adjRibInQ, bgp`adjRibInWdrawQ, bgp`pushed
    ensures bgp.Valid()
    ensures var s := old(peer.State());
            var live := s.state == Established && now - s.lastRead < s.holdTime;
            var r := ParseAll(if live then s.inQueue else [], s.bgpId, now);
            && ok == r.Some?
            && (ok ==> && peer.State() == AfterTick(s, now)
                       && bgp.adjRibInQ == old(bgp.adjRibInQ) + r.value.announced
                       && bgp.adjRibInWdrawQ == old(bgp.adjRibInWdrawQ) + r.value.withdrawn)
  {
    hide ParseAll, Send, Notify, AllParsed;
    ok := true;
    var expired := peer.HoldTimerExpired(now);
    if expired {
      assert ParseAll([], old(peer.bgpId), now) == Some(Parsed([], [])) by { NothingToParse(old(peer.bgpId), now); }
      return;
    }
    ok := DrainInQueue(bgp, peer, now);
  }

  /** One packet: parsed, and everything in it pushed. */
  method ParseAndPush(bgp: Bgp, packet: seq<Octet>, id: Word32, now: Word64) returns (ok: bool)
    requires bgp.Valid() && |packet| <= MAX_PACKET
    modifies bgp`adjRibInQ, bgp`adjRibInWdrawQ, bgp`pushed
    ensures bgp.Valid()
    ensures var r := ParsePacket(packet, id, now);
            && ok == r.Some?
            && (ok ==> && bgp.adjRibInQ == old(bgp.adjRibInQ) + r.value.announced
                       && bgp.adjRibInWdrawQ == old(bgp.adjRibInWdrawQ) + r.value.withdrawn)
  {
    hide PeerMap, WellKeyed, AllCopied, ParsePacket;
    var r;
    ok, r := ProcessPacket(packet, id, now);
    if ok {
      ParseCopies(packet, id, now);
      PushParsed(bgp, r);
    }
  }

  /** The loop of proc_in_q. */
  method DrainInQueue(bgp: Bgp, peer: BgpPeer, now: Word64) returns (ok: bool)
    requires bgp.Valid() && AllBounded(peer.inQueue)
    modifies peer`inQueue, peer`inQ, peer`parsed, bgp`adjRibInQ, bgp`adjRibInWdrawQ, bgp`pushed
    ensures bgp.Valid()
    ensures var r := ParseAll(old(peer.inQueue), peer.bgpId, now);
            && ok == r.Some?
            && (ok ==> && peer.State() == AllParsed(old(peer.State()))
                       && bgp.adjRibInQ == old(bgp.adjRibInQ) + r.value.announced
                       && bgp.adjRibInWdrawQ == old(bgp.adjRibInWdrawQ) + r.value.withdrawn)
  {
    hide ParseAll, PeerMap, WellKeyed, AllParsed, Popped, ParsePacket;
    ok := true;
    ghost var t := peer.State();
    ghost var packets, id := peer.inQueue, peer.bgpId;
    ghost var i := 0;
    assert packets[..0] == [];
    NothingPopped(t);
    NothingToParse(id, now);
    while peer.inQueue != []
      invariant 0 <= i <= |packets| && peer.inQueue == packets[i..] && bgp.Valid() && ok
      invariant peer.State() == Popped(t, i)
      invariant var r := ParseAll(packets[..i], id, now);
                && r.Some?
                && bgp.adjRibInQ == old(bgp.adjRibInQ) + r.value.announced
                && bgp.adjRibInWdrawQ == old(bgp.adjRibInWdrawQ) + r.value.withdrawn
      modifies peer`inQueue, peer`inQ, peer`parsed, bgp`adjRibInQ, bgp`adjRibInWdrawQ, bgp`pushed
      decreases |packets| - i
    {
      PopOneMore(t, i);
      ParseOneMore(packets, i, id, now);
      var packet := peer.PopUpdate();
      assert packet == packets[i];
      ok := ParseAndPush(bgp, packet, peer.bgpId, now);
      if !ok {
        AllParsedPrefix(packets, i + 1, id, now);
        return;
      }
      ghost var before, r := ParseAll(packets[..i], id, now).value, ParsePacket(packet, id, now).value;
      Regroup(old(bgp.adjRibInQ), before.announced, r.announced);
      Regroup(old(bgp.adjRibInWdrawQ), before.withdrawn, r.withdrawn);
      i := i + 1;
    }
    assert packets[..i] == packets;
    AllPopped(t);
  }

  lemma Regroup(a: seq<Update>, b: seq<Update>, c: seq<Update>)
    ensures a + b + c == a + (b + c)
  {
  }

  lemma NothingToParse(peer: Word32, now: Word64)
    ensures ParseAll([], peer, now) == Some(Parsed([], []))
  {
  }

  lemma ParseOneMore(packets: seq<seq<Octet>>, i: nat, peer: Word32, now: Word64)
    requires i < |packets| && ParseAll(packets[..i], peer, now).Some?
    ensures var before := ParseAll(packets[..i], peer, now).value;
            var r := ParsePacket(packets[i], peer, now);
            ParseAll(packets[..i + 1], peer, now)
            == if r.None? then None
               else Some(Parsed(before.announced + r.value.announced, before.withdrawn + r.value.withdrawn))
  {
    hide ParsePacket;
    assert packets[..i + 1][..i] == packets[..i];
  }

  /** The session after i of its queued UPDATEs were popped. */
  ghost function Popped(t: Session, i: nat): Session
    requires i <= |t.inQueue|
  {
    t.(inQueue := t.inQueue[i..], inQ := (t.inQ as int - i) % 0x1_0000, parsed := t.parsed + i)
  }

  lemma NothingPopped(t: Session)
    ensures Popped(t, 0) == t
  {
  }

  lemma PopOneMore(t: Session, i: nat)
    requires i < |t.inQueue|
    ensures Popped(t, i + 1)
         == Popped(t, i).(inQueue := Popped(t, i).inQueue[1..], inQ := (Popped(t, i).inQ as int - 1) % 0x1_0000,
                          parsed := Popped(t, i).parsed + 1)
  {
    ModStep(t.inQ as int - i, -1);
  }

  lemma AllPopped(t: Session)
    ensures Popped(t, |t.inQueue|) == AllParsed(t)
  {
  }

  // ---------- a whole round of the main loop ----------

  /** The operations a parsed packet asks for; one of the two lists is always empty. */
  function PacketOps(r: Parsed): seq<Op> {
    AsAnnounces(r.announced) + AsWithdraws(r.withdrawn)
  }

  /** The operations in a queue of packets, in arrival order. */
  function QueueOps(packets: seq<seq<Octet>>, peer: Word32, now: Word64): Option<seq<Op>> {
    if packets == [] then Some([])
    else
      match QueueOps(packets[..|packets| - 1], peer, now)
      case None => None
      case Some(before) =>
        match ParsePacket(packets[|packets| - 1], peer, now)
        case None => None
        case Some(r) => Some(before + PacketOps(r))
  }

  /** The packets that a tick parses. */
  function Due(s: Session, now: Word64): seq<seq<Octet>> {
    if s.state == Established && now - s.lastRead < s.holdTime then s.inQueue else []
  }

  /** The operations of a round that visits the peers in order. */
  function RoundOps(ss: seq<Session>, now: Word64): Option<seq<Op>> {
    if ss == [] then Some([])
    else
      match RoundOps(ss[..|ss| - 1], now)
      case None => None
      case Some(before) =>
        match QueueOps(Due(ss[|ss| - 1], now), ss[|ss| - 1].bgpId, now)
        case None => None
        case Some(ops) => Some(before + ops)
  }

  /** The two queues hold the batch. */
  ghost predicate Split(ops: seq<Op>, announced: seq<Update>, withdrawn: seq<Update>) {
    Announces(ops) == AsAnnounces(announced) && Withdraws(ops) == AsWithdraws(withdrawn)
  }

  lemma {:induction false} AnnouncesConcat(a: seq<Op>, b: seq<Op>)
    ensures Announces(a + b) == Announces(a) + Announces(b)
    decreases |b|
  {
    if b == [] {
      assert a + b == a;
    } else {
      AnnouncesConcat(a, b[..|b| - 1]);
      assert (a + b)[..|a + b| - 1] == a + b[..|b| - 1];
    }
  }

  lemma {:induction false} WithdrawsConcat(a: seq<Op>, b: seq<Op>)
    ensures Withdraws(a + b) == Withdraws(a) + Withdraws(b)
    decreases |b|
  {
    if b == [] {
      assert a + b == a;
    } else {
      WithdrawsConcat(a, b[..|b| - 1]);
      assert (a + b)[..|a + b| - 1] == a + b[..|b| - 1];
    }
  }

  lemma {:induction false} QueuesOfWithdraws(us: seq<Update>)
    ensures Announces(AsWithdraws(us)) == [] && Withdraws(AsWithdraws(us)) == AsWithdraws(us)
    decreases |us|
  {
    if us != [] {
      var n := |us| - 1;
      QueuesOfWithdraws(us[..n]);
      assert AsWithdraws(us)[..n] == AsWithdraws(us[..n]);
      assert AsWithdraws(us) == AsWithdraws(us[..n]) + [Withdrawing(us[n])];
    }
  }

  lemma SplitConcat(a: seq<Op>, ua: seq<Update>, wa: seq<Update>, b: seq<Op>, ub: seq<Update>, wb: seq<Update>)
    requires Split(a, ua, wa) && Split(b, ub, wb)
    ensures Split(a + b, ua + ub, wa + wb)
  {
    hide Announces, Withdraws;
    AnnouncesConcat(a, b);
    WithdrawsConcat(a, b);
    assert AsAnnounces(ua + ub) == AsAnnounces(ua) + AsAnnounces(ub);
    assert AsWithdraws(wa + wb) == AsWithdraws(wa) + AsWithdraws(wb);
  }

  lemma PacketSplit(r: Parsed)
    ensures Split(PacketOps(r), r.announced, r.withdrawn)
  {
    hide Announces, Withdraws;
    AnnouncesConcat(AsAnnounces(r.announced), AsWithdraws(r.withdrawn));
    WithdrawsConcat(AsAnnounces(r.announced), AsWithdraws(r.withdrawn));
    QueuesOfAnnounces(r.announced);
    QueuesOfWithdraws(r.withdrawn);
  }

  /** Splitting the arrival order of a queue gives exactly what the parser pushes to each RIB queue. */
  lemma {:induction false} QueueSplit(packets: seq<seq<Octet>>, peer: Word32, now: Word64)
    ensures ParseAll(packets, peer, now).Some? == QueueOps(packets, peer, now).Some?
    ensures var r := ParseAll(packets, peer, now);
            r.Some? ==> Split(QueueOps(packets, peer, now).value, r.value.announced, r.value.withdrawn)
    decreases |packets|
  {
    hide ParsePacket, PacketOps, Split;
    if packets == [] {
      SplitNothing();
    } else {
      var n := |packets| - 1;
      QueueSplit(packets[..n], peer, now);
      var before, r := ParseAll(packets[..n], peer, now), ParsePacket(packets[n], peer, now);
      if before.Some? && r.Some? {
        PacketSplit(r.value);
        SplitConcat(QueueOps(packets[..n], peer, now).value, before.value.announced, before.value.withdrawn,
                    PacketOps(r.value), r.value.announced, r.value.withdrawn);
      }
    }
  }

  lemma SplitNothing()
    ensures Split([], [], [])
  {
  }

  ghost function States(peers: seq<BgpPeer>): (ss: seq<Session>)
    reads peers
    ensures |ss| == |peers| && forall i :: 0 <= i < |peers| ==> ss[i] == peers[i].State()
  {
    if peers == [] then [] else States(peers[..|peers| - 1]) + [peers[|peers| - 1].State()]
  }

  ghost predicate DistinctPeers(peers: seq<BgpPeer>) {
    forall i, j :: 0 <= i < j < |peers| ==> peers[i] != peers[j]
  }

  lemma RoundStep(ss: seq<Session>, i: nat, now: Word64)
    requires i < |ss| && RoundOps(ss[..i], now).Some?
    ensures var ops := QueueOps(Due(ss[i], now), ss[i].bgpId, now);
            RoundOps(ss[..i + 1], now)
            == if ops.None? then None else Some(RoundOps(ss[..i], now).value + ops.value)
  {
    hide QueueOps;
    assert ss[..i + 1][..i] == ss[..i];
  }

  lemma {:induction false} RoundStuck(ss: seq<Session>, i: nat, now: Word64)
    requires i <= |ss| && RoundOps(ss[..i], now).None?
    ensures RoundOps(ss, now).None?
    decreases |ss| - i
  {
    hide QueueOps;
    if i == |ss| {
      assert ss[..i] == ss;
    } else {
      assert ss[..i + 1][..i] == ss[..i];
      RoundStuck(ss, i + 1, now);
    }
  }

  /** The first half of a round: every peer's timers and queue, in order. */
  method VisitPeers(bgp: Bgp, peers: seq<BgpPeer>, now: Word64) returns (ok: bool)
    requires bgp.Valid() && bgp.adjRibInQ == [] && bgp.adjRibInWdrawQ == []
    requires DistinctPeers(peers) && forall i :: 0 <= i < |peers| ==> AllBounded(peers[i].inQueue)
    modifies peers, bgp`adjRibInQ, bgp`adjRibInWdrawQ, bgp`pushed
    ensures bgp.Valid()
    ensures var r := RoundOps(old(States(peers)), now);
            && ok == r.Some?
            && (ok ==> && Split(r.value, bgp.adjRibInQ, bgp.adjRibInWdrawQ)
                       && forall i :: 0 <= i < |peers| ==> peers[i].State() == AfterTick(old(peers[i].State()), now))
  {
    hide RoundOps, QueueOps, ParseAll, Split, AfterTick, PeerMap, WellKeyed;
    ok := true;
    ghost var ss := States(peers);
    assert ss[..0] == [];
    NoRound(now);
    SplitNothing();
    var i := 0;
    while i < |peers|
      invariant 0 <= i <= |peers| && ok && bgp.Valid()
      invariant forall j :: 0 <= j < i ==> peers[j].State() == AfterTick(ss[j], now)
      invariant forall j :: i <= j < |peers| ==> peers[j].State() == ss[j]
      invariant var r := RoundOps(ss[..i], now);
                r.Some? && Split(r.value, bgp.adjRibInQ, bgp.adjRibInWdrawQ)
    {
      assert peers[i].State() == ss[i];
      assert AllBounded(peers[i].inQueue);
      ghost var announced, withdrawn := bgp.adjRibInQ, bgp.adjRibInWdrawQ;
      ghost var due, id := Due(ss[i], now), ss[i].bgpId;
      QueueSplit(due, id, now);
      RoundStep(ss, i, now);
      ok := ProcInQ(bgp, peers[i], now);
      if !ok {
        RoundStuck(ss, i + 1, now);
        return;
      }
      ghost var r := ParseAll(due, id, now).value;
      SplitConcat(RoundOps(ss[..i], now).value, announced, withdrawn,
                  QueueOps(due, id, now).value, r.announced, r.withdrawn);
      i := i + 1;
    }
    assert ss[..i] == ss;
  }

  lemma NoRound(now: Word64)
    ensures RoundOps([], now) == Some([])
  {
  }

  /**
   One round of the main loop on the collector and its peers. Unless some packet has no defined
   parse, every session takes its tick, both RIB queues end empty, the RIB becomes the drained batch
   of everything that arrived, and the database receives the entries that the batch superseded. Entries
   keep the blocks that were parsed.
   */
  method Round(bgp: Bgp, peers: seq<BgpPeer>, now: Word64) returns (ok: bool)
    requires bgp.Valid() && bgp.adjRibInQ == [] && bgp.adjRibInWdrawQ == []
    requires DistinctPeers(peers) && forall i :: 0 <= i < |peers| ==> AllBounded(peers[i].inQueue)
    modifies peers, bgp, bgp.db
    ensures bgp.Valid()
    ensures var r := RoundOps(old(States(peers)), now);
            && ok == r.Some?
            && (ok ==> && bgp.adjRibInQ == [] && bgp.adjRibInWdrawQ == []
                       && bgp.RibState() == Drain(old(bgp.RibState()), r.value)
                       && bgp.db.isOpen == old(bgp.db.isOpen)
                       && bgp.db.State() == DbAfter(old(bgp.RibState()), old(bgp.db.State()), old(bgp.db.isOpen),
                                                    Announced(r.value))
                       && forall i :: 0 <= i < |peers| ==> peers[i].State() == AfterTick(old(peers[i].State()), now))
    ensures ok && EntriesAreBlocks(old(bgp.RibState())) ==> EntriesAreBlocks(bgp.RibState())
  {
    hide RoundOps, AfterTick, PeerMap, WellKeyed, Drain, Announces, Withdraws, DbAfter, EntriesAreBlocks;
    ok := VisitPeers(bgp, peers, now);
    if ok {
      if EntriesAreBlocks(old(bgp.RibState())) {
        RoundKeepsBlocks(old(bgp.RibState()), old(States(peers)), now);
      }
      AnnouncedIs(RoundOps(old(States(peers)), now).value, bgp.adjRibInQ);
      bgp.ProcRibQueues(RoundOps(old(States(peers)), now).value);
    }
  }

  // ---------- the order of the visits ----------

  ghost predicate Tagged(us: seq<Update>, peer: Word32) {
    forall i :: 0 <= i < |us| ==> us[i].nlri.bgpId == peer
  }

  lemma {:induction false} LoopTags(p: seq<Octet>, offset: nat, u: Update, peer: Word32, now: Word64, mode: Mode)
    ensures var r := NlriLoop(p, offset, u, peer, now, mode);
            r.Some? ==> Tagged(r.value.0, peer)
    decreases |p| - offset
  {
    hide Address;
    if offset < |p| && p[offset] != 0 && p[offset] <= 32 && offset + 1 + OctetsFor(p[offset]) <= |p| {
      LoopTags(p, offset + 1 + OctetsFor(p[offset]), u, peer, now, mode);
      NlriTurn(p, offset, u, peer, now, mode);
    }
  }

  /** Everything a packet pushes is tagged with the identifier of the peer that sent it. */
  lemma ParseTags(payload: seq<Octet>, peer: Word32, now: Word64)
    ensures var r := ParsePacket(payload, peer, now);
            r.Some? ==> Tagged(r.value.announced, peer) && Tagged(r.value.withdrawn, peer)
  {
    hide NlriLoop, AttrLoop, Big16;
    var p := Padded(payload, PADDING);
    LoopTags(p, 2, BLANK, peer, now, Withdrawal);
    var total := Big16(p[2], p[3]);
    var a := AttrLoop(p, 0, total, BLANK);
    if a.Some? {
      LoopTags(p, total as int + 4, a.value.0.(addrFamily := AF_INET), peer, now, Updating);
    }
  }

  ghost predicate OpsOf(ops: seq<Op>, peer: Word32) {
    forall i :: 0 <= i < |ops| ==> OpKey(ops[i]).bgpId == peer
  }

  lemma {:induction false} QueueOpsTagged(packets: seq<seq<Octet>>, peer: Word32, now: Word64)
    ensures var r := QueueOps(packets, peer, now);
            r.Some? ==> OpsOf(r.value, peer)
    decreases |packets|
  {
    hide ParsePacket;
    if packets != [] {
      var n := |packets| - 1;
      QueueOpsTagged(packets[..n], peer, now);
      ParseTags(packets[n], peer, now);
    }
  }

  ghost predicate DistinctSessions(ss: seq<Session>) {
    forall i, j :: 0 <= i < j < |ss| ==> ss[i].bgpId != ss[j].bgpId
  }

  /** The due operations of one session. */
  function OwnOps(s: Session, now: Word64): Option<seq<Op>> {
    QueueOps(Due(s, now), s.bgpId, now)
  }

  /** In a round's batch, the operations of a visited session are exactly its own due operations. */
  lemma {:induction false} ProjectRound(ss: seq<Session>, i: nat, now: Word64)
    requires i < |ss| && DistinctSessions(ss) && RoundOps(ss, now).Some?
    ensures OwnOps(ss[i], now).Some?
    ensures Project(RoundOps(ss, now).value, ss[i].bgpId) == OwnOps(ss[i], now).value
    decreases |ss|
  {
    hide QueueOps, Due, Project;
    var n := |ss| - 1;
    var before, own := RoundOps(ss[..n], now).value, OwnOps(ss[n], now).value;
    QueueOpsTagged(Due(ss[n], now), ss[n].bgpId, now);
    ProjectConcat(before, own, ss[i].bgpId);
    ProjectOwn(own, ss[n].bgpId, ss[i].bgpId);
    if i < n {
      ProjectRound(ss[..n], i, now);
      assert Project(before, ss[i].bgpId) + [] == Project(before, ss[i].bgpId);
    } else {
      ProjectAbsent(ss[..n], ss[n].bgpId, now);
      assert [] + own == own;
    }
  }

  lemma {:induction false} ProjectAbsent(ss: seq<Session>, id: Word32, now: Word64)
    requires RoundOps(ss, now).Some? && forall i :: 0 <= i < |ss| ==> ss[i].bgpId != id
    ensures Project(RoundOps(ss, now).value, id) == []
    decreases |ss|
  {
    hide QueueOps, Due;
    if ss != [] {
      var n := |ss| - 1;
      var before, own := RoundOps(ss[..n], now).value, OwnOps(ss[n], now).value;
      ProjectAbsent(ss[..n], id, now);
      QueueOpsTagged(Due(ss[n], now), ss[n].bgpId, now);
      ProjectConcat(before, own, id);
      ProjectOwn(own, ss[n].bgpId, id);
    }
  }

  /** A round is defined exactly when the due packets of every peer are. */
  lemma {:induction false} RoundDefinedIff(ss: seq<Session>, now: Word64)
    ensures RoundOps(ss, now).Some? <==> forall i :: 0 <= i < |ss| ==> OwnOps(ss[i], now).Some?
    decreases |ss|
  {
    hide QueueOps, Due;
    if ss != [] {
      var n := |ss| - 1;
      RoundDefinedIff(ss[..n], now);
      assert forall i :: 0 <= i < n ==> ss[..n][i] == ss[i];
      assert RoundOps(ss, now).Some? <==> RoundOps(ss[..n], now).Some? && OwnOps(ss[n], now).Some?;
    }
  }

  lemma SameMembersDefined(ss: seq<Session>, tt: seq<Session>, now: Word64)
    requires (forall s :: s in tt ==> s in ss) && RoundOps(ss, now).Some?
    ensures RoundOps(tt, now).Some?
  {
    hide RoundOps, OwnOps;
    RoundDefinedIff(ss, now);
    RoundDefinedIff(tt, now);
    forall j | 0 <= j < |tt|
      ensures OwnOps(tt[j], now).Some?
    {
      assert tt[j] in ss;
    }
  }

  lemma SameProjections(ss: seq<Session>, tt: seq<Session>, now: Word64, id: Word32)
    requires DistinctSessions(ss) && DistinctSessions(tt) && forall s :: s in ss <==> s in tt
    requires RoundOps(ss, now).Some? && RoundOps(tt, now).Some?
    ensures Project(RoundOps(ss, now).value, id) == Project(RoundOps(tt, now).value, id)
  {
    hide RoundOps, OwnOps, Project;
    if i :| 0 <= i < |ss| && ss[i].bgpId == id {
      assert ss[i] in tt;
      var j :| 0 <= j < |tt| && tt[j] == ss[i];
      ProjectRound(ss, i, now);
      ProjectRound(tt, j, now);
    } else {
      forall j | 0 <= j < |tt|
        ensures tt[j].bgpId != id
      {
        assert tt[j] in ss;
      }
      ProjectAbsent(ss, id, now);
      ProjectAbsent(tt, id, now);
    }
  }

  /**
   For peers with distinct identifiers, a round that is defined in one visiting order is defined in
   every other, leaves the same RIB, and archives the same records of every key in the same order.
   */
  lemma RoundOrderIrrelevant(r: Rib, ss: seq<Session>, tt: seq<Session>, now: Word64)
    requires WellKeyed(r) && DistinctSessions(ss) && DistinctSessions(tt) && forall s :: s in ss <==> s in tt
    requires RoundOps(ss, now).Some?
    ensures RoundOps(tt, now).Some?
    ensures Drain(r, RoundOps(ss, now).value) == Drain(r, RoundOps(tt, now).value)
    ensures forall k: Key :: History(DrainLog(r, Announced(RoundOps(ss, now).value)), k)
                          == History(DrainLog(r, Announced(RoundOps(tt, now).value)), k)
  {
    hide RoundOps, Project, Drain, WellKeyed, DrainLog, Announced, History;
    SameMembersDefined(ss, tt, now);
    var m, n := RoundOps(ss, now).value, RoundOps(tt, now).value;
    forall id: Word32
      ensures Project(m, id) == Project(n, id)
    {
      SameProjections(ss, tt, now, id);
    }
    DrainedMergesAgree(r, m, n);
    forall k: Key
      ensures History(DrainLog(r, Announced(m)), k) == History(DrainLog(r, Announced(n)), k)
    {
      MergesArchiveAlike(r, m, n, k);
    }
  }

  // ---------- the blocks that a round stores ----------

  ghost predicate OpsAreBlocks(ops: seq<Op>) {
    forall i :: 0 <= i < |ops| && ops[i].Announcing? ==> ParsedBlock(ops[i].update)
  }

  lemma {:induction false} QueueOpsBlocks(packets: seq<seq<Octet>>, peer: Word32, now: Word64)
    ensures var r := QueueOps(packets, peer, now);
            r.Some? ==> OpsAreBlocks(r.value)
    decreases |packets|
  {
    hide ParsePacket, ParsedBlock;
    if packets != [] {
      var n := |packets| - 1;
      QueueOpsBlocks(packets[..n], peer, now);
      ParseBlocks(packets[n], peer, now);
    }
  }

  lemma {:induction false} RoundOpsBlocks(ss: seq<Session>, now: Word64)
    ensures RoundOps(ss, now).Some? ==> OpsAreBlocks(RoundOps(ss, now).value)
    decreases |ss|
  {
    hide QueueOps, ParsedBlock, Due;
    if ss != [] {
      var n := |ss| - 1;
      RoundOpsBlocks(ss[..n], now);
      QueueOpsBlocks(Due(ss[n], now), ss[n].bgpId, now);
    }
  }

  lemma {:induction false} LastOnIsOp(ops: seq<Op>, k: Key)
    requires LastOn(ops, k).Some?
    ensures LastOn(ops, k).value in ops
    decreases |ops|
  {
    var n := |ops| - 1;
    if OpKey(ops[n]) != k {
      LastOnIsOp(ops[..n], k);
    }
  }

  lemma DrainKeepsBlock(r: Rib, ops: seq<Op>, k: Key)
    requires WellKeyed(r) && EntriesAreBlocks(r) && OpsAreBlocks(ops) && k in Drain(r, ops).entries
    ensures ParsedBlock(Drain(r, ops).entries[k])
  {
    hide Drain, HighRange, LastOn, HasWithdraw;
    assert k.bgpId in r.peers by {
      assert k.bgpId in Drain(r, ops).peers.Keys;
    }
    EntryAfterDrain(r, ops, k);
    if LastOn(ops, k).Some? {
      LastOnIsOp(ops, k);
    }
  }

  /** Every round keeps that all entries hold the blocks that were parsed, whatever arrives. */
  lemma RoundKeepsBlocks(r: Rib, ss: seq<Session>, now: Word64)
    requires WellKeyed(r) && EntriesAreBlocks(r) && RoundOps(ss, now).Some?
    ensures EntriesAreBlocks(Drain(r, RoundOps(ss, now).value))
  {
    hide Drain, RoundOps, ParsedBlock, OpsAreBlocks, WellKeyed;
    RoundOpsBlocks(ss, now);
    forall k | k in Drain(r, RoundOps(ss, now).value).entries
      ensures ParsedBlock(Drain(r, RoundOps(ss, now).value).entries[k])
    {
      DrainKeepsBlock(r, RoundOps(ss, now).value, k);
    }
  }

  // ---------- the tick of the session and the tick of the round ----------

  lemma {:induction false} QueueOpsDefinedIff(packets: seq<seq<Octet>>, peer: Word32, now: Word64)
    ensures QueueOps(packets, peer, now).Some? <==> AllParse(packets)
    decreases |packets|
  {
    hide ParsePacket, Parses;
    if packets != [] {
      var n := |packets| - 1;
      QueueOpsDefinedIff(packets[..n], peer, now);
      ParsesAlways(packets[n], peer, now);
      assert forall p :: p in packets <==> p in packets[..n] || p == packets[n];
    }
  }

  /** A session takes a defined tick exactly when the round can parse what it has due. */
  lemma TickIsDefinedIff(s: Session, now: Word64)
    ensures !Undefined(s, Timed(now, Tick)) <==> OwnOps(s, now).Some?
  {
    hide QueueOps, Parses;
    QueueOpsDefinedIff(Due(s, now), s.bgpId, now);
  }

  // ---------- from the stream to the round ----------

  /**
   The octets that a peer sends reach the round: once the reader has taken all whole frames, the
   operations that a live tick hands over are those of the framed UPDATEs not yet parsed or discarded.
   */
  lemma StreamReachesRound(c: Config, before: seq<Timed>, more: seq<Timed>, ms: seq<Msg>, next: Msg, cut: nat,
                           now: Word64)
    requires PeerSession.Runs(c, before + more) && before != [] && SendsOpen(before[|before| - 1].event)
    requires AllFit(ms) && Fits(next) && cut < |Frame(next)|
    requires FedBy(Frames(ms) + Frame(next)[..cut], more) && Taken(more) == |Frames(ms)|
    ensures PeerSession.Runs(c, before)
    ensures var s, t := PeerSession.Final(c, before), PeerSession.Final(c, before + more);
            var done := (t.parsed + t.discarded) - (s.parsed + s.discarded);
            && 0 <= done <= |Updates(ms)|
            && (t.state == Established && now - t.lastRead < t.holdTime ==>
                  OwnOps(t, now) == QueueOps(Updates(ms)[done..], t.bgpId, now))
  {
    hide PeerSession.Runs, PeerSession.Final, QueueOps, Updates, FedBy, Taken, Frames, Frame, SendsOpen;
    StreamToQueue(c, before, more, ms, next, cut);
  }

  // ---------- from the wire to the RIB and to a query ----------

  /** The RIB key of a prefix announced by a peer. */
  function PrefixKey(x: WirePrefix, peer: Word32): Key
    requires ValidPrefix(x)
  {
    Key(Address(x.octets), peer)
  }

  lemma {:induction false} QueuesOfAnnounces(us: seq<Update>)
    ensures Announces(AsAnnounces(us)) == AsAnnounces(us) && Withdraws(AsAnnounces(us)) == []
    decreases |us|
  {
    if us != [] {
      var n := |us| - 1;
      QueuesOfAnnounces(us[..n]);
      assert AsAnnounces(us)[..n] == AsAnnounces(us[..n]);
      assert AsAnnounces(us) == AsAnnounces(us[..n]) + [Announcing(us[n])];
    }
  }

  lemma {:induction false} LastAnnounce(us: seq<Update>, i: nat)
    requires i < |us| && forall j :: i < j < |us| ==> KeyOf(us[j]) != KeyOf(us[i])
    ensures LastOn(AsAnnounces(us), KeyOf(us[i])) == Some(Announcing(us[i]))
    decreases |us|
  {
    var n := |us| - 1;
    if i < n {
      LastAnnounce(us[..n], i);
      assert AsAnnounces(us)[..n] == AsAnnounces(us[..n]);
    }
  }

  /** The RIB entry for a prefix announced with the attributes of u. */
  function RouteOf(x: WirePrefix, u: Update, peer: Word32, now: Word64): Update
    requires ValidPrefix(x)
  {
    u.(nlri := NlriOf(x.length, Address(x.octets), peer, now, Updating))
  }

  /** No later prefix of the list has the key of prefix i. */
  ghost predicate LastWithItsKey(ps: seq<WirePrefix>, i: nat, peer: Word32)
    requires ValidPrefixes(ps)
  {
    i < |ps| && forall j :: i < j < |ps| ==> PrefixKey(ps[j], peer) != PrefixKey(ps[i], peer)
  }

  /**
   From the wire to a query, for every well-formed UPDATE without withdrawn routes from a configured
   peer: after one round the RIB holds, under each announced prefix that no later prefix of the
   message repeats, an entry e with the decoded attributes; and the prefix query over the whole RIB
   returns e exactly for the addresses that share its top bits and are not below it, hence for all that
   share its top bits if it has zero host bits.
   */
  lemma WireToQuery(m: Message, r: Rib, peer: Word32, now: Word64, i: nat, address: Word32)
    returns (us: seq<Update>, e: Update)
    requires ValidMessage(m) && m.withdrawn == [] && WellKeyed(r) && peer in r.peers
    requires ValidPrefixes(m.nlri) && LastWithItsKey(m.nlri, i, peer)
    ensures ParsePacket(EncodeMessage(m), peer, now) == Some(Parsed(us, []))
    ensures Entry(Drain(r, AsAnnounces(us)), PrefixKey(m.nlri[i], peer)) == Some(e)
    ensures e == RouteOf(m.nlri[i], MeaningOf(BLANK, m.attrs).(addrFamily := AF_INET), peer, now)
    ensures FoundExactly(Drain(r, AsAnnounces(us)).entries, e, m.nlri[i].length, address)
  {
    hide EncodeMessage, ParsePacket, MeaningOf, Address, HighRange, Drain, Replay, LastOn, WellKeyed;
    hide FoundExactly, ValidMessage;
    var x := m.nlri[i];
    MessageParts(m);
    var u := MeaningOf(BLANK, m.attrs).(addrFamily := AF_INET);
    us := Routes(m.nlri, u, peer, now, Updating);
    ParseInvertsAnnounce(m, peer, now);
    MeaningHasCommunities(BLANK, m.attrs);
    e := RouteOf(x, u, peer, now);
    assert us[i] == Copied(e) == e;
    assert forall j :: 0 <= j < |us| ==> KeyOf(us[j]) == PrefixKey(m.nlri[j], peer);
    LastAnnounce(us, i);
    QueuesOfAnnounces(us);
    DrainOfAnnounces(r, us, PrefixKey(x, peer));
    QueryFinds(Drain(r, AsAnnounces(us)).entries, PrefixKey(x, peer), x.length, address);
  }

  /**
   An AS_PATH whose only segment is empty is well formed, and the origin-AS query on the RIB it leaves
   indexes an empty path: whatever AS is asked for, with a length that does not exclude the prefix.
   */
  lemma EmptyPathIsIndexed(x: WirePrefix, flags: Flags, segType: Octet, r: Rib, peer: Word32, now: Word64,
                           length: Word32)
    returns (us: seq<Update>)
    requires ValidPrefix(x) && WellKeyed(r) && peer in r.peers && x.length <= length
    ensures var m := Message([], [AsPath(flags, Segment16(segType, []), [])], [x]);
            ValidMessage(m) && ParsePacket(EncodeMessage(m), peer, now) == Some(Parsed(us, []))
    ensures !AllReadable(Iterated(Drain(r, AsAnnounces(us)).entries), length)
  {
    hide ParsePacket, EncodeMessage, Drain, Iterated, WellKeyed, Address, HighRange;
    var a := AsPath(flags, Segment16(segType, []), []);
    var m := Message([], [a], [x]);
    EmptyPathMessage(m, a);
    var e;
    us, e := WireToQuery(m, r, peer, now, 0, 0);
    IteratedHas(Drain(r, AsAnnounces(us)).entries, e);
    assert ReadsNothing(e, length);
  }

  /** The UPDATE announces the one prefix x, with a path as its only attribute. */
  predicate AnnouncesPath(m: Message, x: WirePrefix, asns: seq<Word16>) {
    && m.withdrawn == [] && m.nlri == [x] && ValidPrefix(x)
    && |m.attrs| == 1 && m.attrs[0].AsPath? && m.attrs[0].first.asns == asns
    && 2 + 2 * |asns| + |m.attrs[0].others| < 0x100
  }

  /** Address and length of a prefix, as the queries by AS return them. */
  function MatchFor(x: WirePrefix): PrefixMatch
    requires ValidPrefix(x)
  {
    PrefixMatch(ip := Address(x.octets), length := x.length)
  }

  /**
   The origin of a route is the last AS number of its AS_PATH. For every UPDATE that announces x with the
   path xs, a: after one round the RIB has an entry of which the origin-AS query returns address and length
   of x if and only if it is asked for AS a with a length that does not exclude x.
   */
  lemma OriginIsLastAs(m: Message, x: WirePrefix, xs: seq<Word16>, a: Word16, r: Rib, peer: Word32, now: Word64,
                       asn: Word32, length: Word32)
    returns (us: seq<Update>, e: Update, rib: seq<Update>)
    requires AnnouncesPath(m, x, xs + [a]) && WellKeyed(r) && peer in r.peers
    ensures ValidMessage(m)
    ensures ParsePacket(EncodeMessage(m), peer, now) == Some(Parsed(us, []))
    ensures rib == Iterated(Drain(r, AsAnnounces(us)).entries) && e in rib
    ensures FromAsn([e], asn, length) == if asn == a && x.length <= length then [MatchFor(x)] else []
    ensures asn == a && x.length <= length ==> MatchFor(x) in FromAsn(rib, asn, length)
  {
    hide ParsePacket, EncodeMessage, Drain, Iterated, WellKeyed, Address, HighRange, FromAsn, FoundExactly, ValidMessage;
    PathMessage(m, m.attrs[0]);
    us, e := WireToQuery(m, r, peer, now, 0, 0);
    rib := Iterated(Drain(r, AsAnnounces(us)).entries);
    IteratedHas(Drain(r, AsAnnounces(us)).entries, e);
    assert Widen(xs + [a]) == Widen(xs) + [a as Word32];
    FromOneEntry(e, Widen(xs), a, asn, length);
    FromMember(rib, e, asn, length);
  }

  lemma FromMember(rib: seq<Update>, e: Update, asn: Word32, length: Word32)
    requires e in rib
    ensures forall m :: m in FromAsn([e], asn, length) ==> m in FromAsn(rib, asn, length)
  {
    hide FromAsn;
    var i :| 0 <= i < |rib| && rib[i] == e;
    FromAsnConcat(rib[..i], [e], asn, length);
    FromAsnConcat(rib[..i] + [e], rib[i + 1..], asn, length);
    assert rib == rib[..i] + [e] + rib[i + 1..];
  }

  lemma PathMessage(m: Message, a: Attr)
    requires a.AsPath? && m.attrs == [a] && m.withdrawn == [] && ValidPrefixes(m.nlri)
    requires 2 + 2 * |a.first.asns| + |a.others| < 0x100
    ensures ValidMessage(m)
    ensures MeaningOf(BLANK, m.attrs).asPath == Some(PathSegment(a.first.segType, Widen(a.first.asns)))
  {
    hide NetAsns, Widen;
    NoPrefixes();
    assert |Body(a)| == 2 + 2 * |a.first.asns| + |a.others|;
    assert m.attrs[1..] == [];
    assert EncodeAttrs(m.attrs) == EncodeAttr(a) + EncodeAttrs([]);
    assert MeaningOf(BLANK, m.attrs) == Meaning(BLANK, a);
  }

  lemma EmptyPathMessage(m: Message, a: Attr)
    requires a.AsPath? && a.first.asns == [] && a.others == [] && m.attrs == [a] && m.withdrawn == []
    requires ValidPrefixes(m.nlri)
    ensures ValidMessage(m)
    ensures MeaningOf(BLANK, m.attrs).asPath == Some(PathSegment(a.first.segType, []))
  {
    NoPrefixes();
    assert Body(a) == [a.first.segType, 0];
    assert m.attrs[1..] == [];
    assert EncodeAttrs(m.attrs) == EncodeAttr(a) + EncodeAttrs([]);
    assert MeaningOf(BLANK, m.attrs) == Meaning(BLANK, a);
    assert Widen(a.first.asns) == [];
  }

  lemma MessageParts(m: Message)
    requires ValidMessage(m)
    ensures ValidPrefixes(m.nlri) && AllWellFormed(m.attrs)
  {
  }

  /** No attribute means an empty community list, so copying keeps the decoded attributes. */
  lemma {:induction false} MeaningHasCommunities(u: Update, attrs: seq<Attr>)
    requires AllWellFormed(attrs) && u.communities != Some([])
    ensures MeaningOf(u, attrs).communities != Some([])
    decreases |attrs|
  {
    hide WellFormed;
    if attrs != [] {
      assert Meaning(u, attrs[0]).communities != Some([]) by { OneMeaning(u, attrs[0]); }
      MeaningHasCommunities(Meaning(u, attrs[0]), attrs[1..]);
    }
  }

  lemma OneMeaning(u: Update, a: Attr)
    requires WellFormed(a) && u.communities != Some([])
    ensures Meaning(u, a).communities != Some([])
  {
    hide Widen;
  }

  lemma DrainOfAnnounces(r: Rib, us: seq<Update>, k: Key)
    requires WellKeyed(r) && k.bgpId in r.peers && LastOn(AsAnnounces(us), k).Some?
    requires Announces(AsAnnounces(us)) == AsAnnounces(us) && Withdraws(AsAnnounces(us)) == []
    ensures Entry(Drain(r, AsAnnounces(us)), k) == Leaves(LastOn(AsAnnounces(us), k).value)
  {
    hide WellKeyed, LastOn, Announces, Withdraws, Copied;
    EntryAfterReplay(r, AsAnnounces(us), k);
    ReplayNothing(Replay(r, AsAnnounces(us)));
  }
}
