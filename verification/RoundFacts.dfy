/**
 A round of the main loop in terms of the messages on the wire: which route a prefix has after the
 UPDATEs queued for its peer are parsed and drained, and how a session lives through many rounds.
 */
module RoundFacts {
  import opened Octets
  import opened Cidr
  import opened Messages
  import opened WireFormat
  import opened UpdateParser
  import opened PeerSession
  import opened RibEngine
  import opened MainLoop
  import opened Collector
  import opened Pipeline
  import opened Turns

  // ---------- the reference: what a queue of messages says about an address ----------

  /** The last prefix of the list with the address. */
  function LastPrefix(ps: seq<WirePrefix>, address: Word32): (r: Option<WirePrefix>)
    requires ValidPrefixes(ps)
    ensures r.Some? ==> ValidPrefix(r.value)
  {
    if ps == [] then None
    else if Address(ps[|ps| - 1].octets) == address then Some(ps[|ps| - 1])
    else LastPrefix(ps[..|ps| - 1], address)
  }

  /** Well formed, and the parse of its withdrawn routes is defined. */
  predicate Readable(m: Message) {
    ValidMessage(m) && (m.withdrawn == [] || |EncodeAttrs(m.attrs)| < 0x100)
  }

  predicate AllReadableMessages(ms: seq<Message>) {
    forall i :: 0 <= i < |ms| ==> Readable(ms[i])
  }

  function Payloads(ms: seq<Message>): seq<seq<Octet>>
    requires AllReadableMessages(ms)
  {
    seq(|ms|, i requires 0 <= i < |ms| => EncodeMessage(ms[i]))
  }

  ghost predicate Revokes(m: Message, address: Word32)
    requires Readable(m)
  {
    exists i :: 0 <= i < |m.withdrawn| && Address(m.withdrawn[i].octets) == address
  }

  ghost predicate SomeWithdraws(ms: seq<Message>, address: Word32)
    requires AllReadableMessages(ms)
  {
    exists i :: 0 <= i < |ms| && Revokes(ms[i], address)
  }

  /** What the message announces for the address; nothing if it also withdraws. */
  function RouteIn(m: Message, address: Word32, peer: Word32, now: Word64): Option<Update>
    requires Readable(m)
  {
    var x := LastPrefix(m.nlri, address);
    if m.withdrawn != [] || x.None? then None
    else Some(RouteOf(x.value, MeaningOf(BLANK, m.attrs).(addrFamily := AF_INET), peer, now))
  }

  /** What the newest message that announces the address says of it. */
  function NewestRoute(ms: seq<Message>, address: Word32, peer: Word32, now: Word64): Option<Update>
    requires AllReadableMessages(ms)
  {
    if ms == [] then None
    else
      var last := RouteIn(ms[|ms| - 1], address, peer, now);
      if last.Some? then last else NewestRoute(ms[..|ms| - 1], address, peer, now)
  }

  // ---------- operations of one message ----------

  lemma {:induction false} LastOfRoutes(ps: seq<WirePrefix>, u: Update, peer: Word32, now: Word64, address: Word32)
    requires ValidPrefixes(ps) && u.communities != Some([])
    ensures var x := LastPrefix(ps, address);
            LastOn(AsAnnounces(Routes(ps, u, peer, now, Updating)), Key(address, peer))
            == if x.None? then None else Some(Announcing(RouteOf(x.value, u, peer, now)))
    decreases |ps|
  {
    hide Address, HighRange;
    if ps != [] {
      var n := |ps| - 1;
      LastOfRoutes(ps[..n], u, peer, now, address);
      var all := AsAnnounces(Routes(ps, u, peer, now, Updating));
      assert all[..n] == AsAnnounces(Routes(ps[..n], u, peer, now, Updating));
      assert OpKey(all[n]) == Key(Address(ps[n].octets), peer);
    }
  }

  lemma AnnouncedOps(m: Message, peer: Word32, now: Word64, address: Word32) returns (ops: seq<Op>)
    requires Readable(m) && m.withdrawn == []
    ensures var r := ParsePacket(EncodeMessage(m), peer, now);
            r.Some? && ops == PacketOps(r.value)
    ensures !HasWithdraw(ops, Key(address, peer))
    ensures LastOn(ops, Key(address, peer))
         == var route := RouteIn(m, address, peer, now);
            if route.None? then None else Some(Announcing(route.value))
  {
    hide ParsePacket, EncodeMessage, MeaningOf, Routes, LastPrefix, LastOn;
    MessageParts(m);
    var u := MeaningOf(BLANK, m.attrs).(addrFamily := AF_INET);
    ParseInvertsAnnounce(m, peer, now);
    MeaningHasCommunities(BLANK, m.attrs);
    var us := Routes(m.nlri, u, peer, now, Updating);
    LastOfRoutes(m.nlri, u, peer, now, address);
    ops := AsAnnounces(us);
    assert PacketOps(Parsed(us, [])) == ops;
  }

  lemma WithdrawnOps(m: Message, peer: Word32, now: Word64, address: Word32) returns (ops: seq<Op>)
    requires Readable(m) && m.withdrawn != []
    ensures var r := ParsePacket(EncodeMessage(m), peer, now);
            r.Some? && ops == PacketOps(r.value)
    ensures HasWithdraw(ops, Key(address, peer)) <==> Revokes(m, address)
    ensures !Revokes(m, address) ==> LastOn(ops, Key(address, peer)) == None
  {
    hide ParsePacket, EncodeMessage, Address, HighRange, EncodeAttrs, LastOn;
    ParseInvertsWithdrawIff(m, peer, now);
    var us, k := Routes(m.withdrawn, BLANK, peer, now, Withdrawal), Key(address, peer);
    ops := AsWithdraws(us);
    assert PacketOps(Parsed([], us)) == ops;
    assert forall i :: 0 <= i < |us| ==> OpKey(ops[i]) == Key(Address(m.withdrawn[i].octets), peer);
    if !Revokes(m, address) {
      Untouched(ops, k);
    }
  }

  lemma {:induction false} Untouched(ops: seq<Op>, k: Key)
    requires forall i :: 0 <= i < |ops| ==> OpKey(ops[i]) != k
    ensures LastOn(ops, k) == None
    decreases |ops|
  {
    hide OpKey;
    if ops != [] {
      Untouched(ops[..|ops| - 1], k);
    }
  }

  lemma {:induction false} LastOnConcat(a: seq<Op>, b: seq<Op>, k: Key)
    ensures LastOn(a + b, k) == if LastOn(b, k).Some? then LastOn(b, k) else LastOn(a, k)
    decreases |b|
  {
    hide OpKey;
    if b == [] {
      assert a + b == a;
    } else {
      LastOnConcat(a, b[..|b| - 1], k);
      assert (a + b)[..|a + b| - 1] == a + b[..|b| - 1];
    }
  }

  lemma HasWithdrawConcat(a: seq<Op>, b: seq<Op>, k: Key)
    ensures HasWithdraw(a + b, k) <==> HasWithdraw(a, k) || HasWithdraw(b, k)
  {
    hide OpKey;
    if i :| 0 <= i < |a| && a[i].Withdrawing? && OpKey(a[i]) == k {
      assert (a + b)[i] == a[i];
    }
    if i :| 0 <= i < |b| && b[i].Withdrawing? && OpKey(b[i]) == k {
      assert (a + b)[|a| + i] == b[i];
    }
    if i :| 0 <= i < |a + b| && (a + b)[i].Withdrawing? && OpKey((a + b)[i]) == k {
      assert (a + b)[i] == if i < |a| then a[i] else b[i - |a|];
    }
  }

  // ---------- operations of a queue ----------

  lemma SomeWithdrawsSnoc(ms: seq<Message>, address: Word32)
    requires ms != [] && AllReadableMessages(ms)
    ensures SomeWithdraws(ms, address)
       <==> SomeWithdraws(ms[..|ms| - 1], address) || Revokes(ms[|ms| - 1], address)
  {
    hide Readable, Revokes;
    var n := |ms| - 1;
    if i :| 0 <= i < n && Revokes(ms[..n][i], address) {
      assert Revokes(ms[i], address);
    }
    if i :| 0 <= i < |ms| && Revokes(ms[i], address) {
      assert i < n ==> ms[..n][i] == ms[i];
    }
  }

  lemma {:induction false} QueueSays(ms: seq<Message>, peer: Word32, now: Word64, address: Word32)
    returns (ops: seq<Op>)
    requires AllReadableMessages(ms)
    ensures QueueOps(Payloads(ms), peer, now) == Some(ops)
    ensures HasWithdraw(ops, Key(address, peer)) <==> SomeWithdraws(ms, address)
    ensures !SomeWithdraws(ms, address) ==>
              LastOn(ops, Key(address, peer))
              == var route := NewestRoute(ms, address, peer, now);
                 if route.None? then None else Some(Announcing(route.value))
    decreases |ms|
  {
    hide ParsePacket, EncodeMessage, PacketOps, RouteIn, HasWithdraw, LastOn, Revokes, SomeWithdraws, Readable;
    var k := Key(address, peer);
    if ms == [] {
      ops := [];
      NoOps(k);
      NothingSaid(address);
    } else {
      var n := |ms| - 1;
      var before := QueueSays(ms[..n], peer, now, address);
      assert Payloads(ms)[..n] == Payloads(ms[..n]);
      var own := MessageSays(ms[n], peer, now, address);
      ops := before + own;
      SomeWithdrawsSnoc(ms, address);
      HasWithdrawConcat(before, own, k);
      LastOnConcat(before, own, k);
    }
  }

  lemma NothingSaid(address: Word32)
    ensures !SomeWithdraws([], address)
  {
  }

  lemma MessageSays(m: Message, peer: Word32, now: Word64, address: Word32) returns (ops: seq<Op>)
    requires Readable(m)
    ensures var r := ParsePacket(EncodeMessage(m), peer, now);
            r.Some? && ops == PacketOps(r.value)
    ensures HasWithdraw(ops, Key(address, peer)) <==> Revokes(m, address)
    ensures !Revokes(m, address) ==>
              LastOn(ops, Key(address, peer))
              == var route := RouteIn(m, address, peer, now);
                 if route.None? then None else Some(Announcing(route.value))
  {
    hide ParsePacket, EncodeMessage, PacketOps, HasWithdraw, LastOn, EncodeAttrs, LastPrefix, MeaningOf;
    if m.withdrawn == [] {
      ops := AnnouncedOps(m, peer, now, address);
    } else {
      ops := WithdrawnOps(m, peer, now, address);
    }
  }

  // ---------- a whole round ----------

  lemma {:induction false} ProjectSays(ops: seq<Op>, k: Key)
    ensures LastOn(Project(ops, k.bgpId), k) == LastOn(ops, k)
    ensures HasWithdraw(Project(ops, k.bgpId), k) <==> HasWithdraw(ops, k)
    decreases |ops|
  {
    hide OpKey, HasWithdraw, LastOn;
    if ops == [] {
    } else {
      var rest, op := ops[..|ops| - 1], ops[|ops| - 1];
      assert rest + [op] == ops;
      ProjectSays(rest, k);
      HasWithdrawSnoc(rest, op, k);
      LastOnSnoc(rest, op, k);
      HasWithdrawSnoc(Project(rest, k.bgpId), op, k);
      LastOnSnoc(Project(rest, k.bgpId), op, k);
      assert Project(rest, k.bgpId) + [] == Project(rest, k.bgpId);
    }
  }

  /**
   For every round, whatever the other peers have queued: the UPDATEs queued for a live session leave under
   an address no route if one of them withdraws it, and otherwise the route of the newest UPDATE that
   announces it, or the old one if none does.
   */
  lemma RoundFromWire(r: Rib, ss: seq<Session>, i: nat, ms: seq<Message>, now: Word64, address: Word32)
    requires WellKeyed(r) && DistinctSessions(ss) && RoundOps(ss, now).Some?
    requires i < |ss| && ss[i].bgpId in r.peers
    requires ss[i].state == Established && now - ss[i].lastRead < ss[i].holdTime
    requires AllReadableMessages(ms) && ss[i].inQueue == Payloads(ms)
    ensures var k := Key(address, ss[i].bgpId);
            var route := NewestRoute(ms, address, ss[i].bgpId, now);
            Entry(Drain(r, RoundOps(ss, now).value), k)
            == if SomeWithdraws(ms, address) then None
               else if route.Some? then route else Entry(r, k)
  {
    hide RoundOps, QueueOps, Payloads, SomeWithdraws, NewestRoute, Drain, WellKeyed, Project, LastOn, HasWithdraw;
    hide DistinctSessions, AllReadableMessages, Copied;
    var peer, all := ss[i].bgpId, RoundOps(ss, now).value;
    var k := Key(address, peer);
    var ops := QueueSays(ms, peer, now, address);
    ProjectRound(ss, i, now);
    ProjectSays(all, k);
    EntryAfterDrain(r, all, k);
    RouteIsCopied(ms, address, peer, now);
  }

  lemma {:induction false} RouteIsCopied(ms: seq<Message>, address: Word32, peer: Word32, now: Word64)
    requires AllReadableMessages(ms)
    ensures var route := NewestRoute(ms, address, peer, now);
            route.Some? ==> Copied(route.value) == route.value
    decreases |ms|
  {
    hide Readable, RouteIn, Copied;
    if ms != [] {
      RouteIsCopied(ms[..|ms| - 1], address, peer, now);
      OneIsCopied(ms[|ms| - 1], address, peer, now);
    }
  }

  lemma OneIsCopied(m: Message, address: Word32, peer: Word32, now: Word64)
    requires Readable(m)
    ensures var route := RouteIn(m, address, peer, now);
            route.Some? ==> Copied(route.value) == route.value
  {
    hide MeaningOf, LastPrefix, Address, HighRange, EncodeAttrs, EncodePrefixes;
    MeaningHasCommunities(BLANK, m.attrs);
  }

  // ---------- sessions over many rounds ----------

  /** The messages for peer i, in order of arrival. */
  function OwnArrivals(arrivals: seq<Arrival>, i: nat): seq<Timed> {
    if arrivals == [] then []
    else
      var a := arrivals[|arrivals| - 1];
      OwnArrivals(arrivals[..|arrivals| - 1], i)
      + (if a.peer == i then [Timed(a.at, Receive(a.kind, a.buffer, a.length))] else [])
  }

  /** What happens to peer i: in each turn its messages, and then the tick of the round. */
  function OwnEvents(turns: seq<Turn>, i: nat): seq<Timed> {
    if turns == [] then []
    else
      var turn := turns[|turns| - 1];
      OwnEvents(turns[..|turns| - 1], i) + OwnArrivals(turn.arrivals, i) + [Timed(turn.now, Tick)]
  }

  /** A clock that does not run backwards. */
  predicate Ordered(events: seq<Timed>) {
    forall j :: 0 < j < |events| ==> events[j - 1].now <= events[j].now
  }

  lemma OrderedPrefix(a: seq<Timed>, b: seq<Timed>)
    requires Ordered(a + b)
    ensures Ordered(a)
  {
    assert forall j :: 0 <= j < |a| ==> (a + b)[j] == a[j];
  }

  /** The session is reading after the events, and these are a run. */
  ghost predicate Lived(c: Config, events: seq<Timed>, s: Session) {
    PeerSession.Runs(c, events) && PeerSession.Final(c, events) == s && s.phase == Reading
  }

  lemma LivesOn(c: Config, events: seq<Timed>, s: Session, e: Timed)
    requires Lived(c, events, s) && PeerSession.Enabled(s, e) && Ordered(events + [e])
    requires e.event.Receive? || e.event.Tick?
    ensures Lived(c, events + [e], PeerSession.After(c, s, e))
  {
    hide PeerSession.Enabled, Possible, PeerSession.After;
    var more := events + [e];
    assert more[..|more| - 1] == events;
    assert PeerSession.Runs(c, more) by {
      assert |events| > 0 ==> more[|events| - 1].now <= more[|events|].now;
    }
    assert Possible(s, e.event) by { PossibleIfEnabled(s, e); }
    PhaseIs(c, s, e);
  }

  lemma PossibleIfEnabled(s: Session, e: Timed)
    requires PeerSession.Enabled(s, e)
    ensures Possible(s, e.event)
  {
  }

  lemma {:induction false} DeliveryIsLived(cs: seq<Config>, ss: seq<Session>, arrivals: seq<Arrival>, i: nat,
                                           before: seq<Timed>)
    requires |cs| == |ss| && ValidArrivals(arrivals, |ss|) && DeliverAll(cs, ss, arrivals).Some? && i < |ss|
    requires Lived(cs[i], before, ss[i]) && Ordered(before + OwnArrivals(arrivals, i))
    ensures Lived(cs[i], before + OwnArrivals(arrivals, i), DeliverAll(cs, ss, arrivals).value[i])
    decreases |arrivals|
  {
    hide Lived, Ordered, Overruns, Textless, AfterReceive;
    if arrivals == [] {
      assert before + [] == before;
    } else {
      var n := |arrivals| - 1;
      var a, es := arrivals[n], OwnArrivals(arrivals[..n], i);
      var e := Timed(a.at, Receive(a.kind, a.buffer, a.length));
      if a.peer == i {
        assert before + OwnArrivals(arrivals, i) == before + es + [e];
        OrderedPrefix(before + es, [e]);
        DeliveryIsLived(cs, ss, arrivals[..n], i, before);
        var s := DeliverAll(cs, ss, arrivals[..n]).value[i];
        assert s.phase == Reading by { LivedIsReading(cs[i], before + es, s); }
        LivesOn(cs[i], before + es, s, e);
      } else {
        assert es + [] == es;
        DeliveryIsLived(cs, ss, arrivals[..n], i, before);
      }
    }
  }

  lemma LivedIsReading(c: Config, events: seq<Timed>, s: Session)
    requires Lived(c, events, s)
    ensures s.phase == Reading
  {
  }

  lemma TurnIsLived(cs: seq<Config>, p: Progress, turn: Turn, i: nat, before: seq<Timed>)
    requires |cs| == |p.sessions| && ValidArrivals(turn.arrivals, |p.sessions|) && i < |p.sessions|
    requires AfterTurn(cs, p, turn).Some? && Lived(cs[i], before, p.sessions[i])
    requires Ordered(before + OwnArrivals(turn.arrivals, i) + [Timed(turn.now, Tick)])
    ensures Lived(cs[i], before + OwnArrivals(turn.arrivals, i) + [Timed(turn.now, Tick)],
                  AfterTurn(cs, p, turn).value.sessions[i])
  {
    hide Lived, Ordered, DeliverAll, RoundOps, OwnArrivals, AfterTick, OwnOps, Undefined;
    var heard, tick := before + OwnArrivals(turn.arrivals, i), Timed(turn.now, Tick);
    OrderedPrefix(heard, [tick]);
    DeliveryIsLived(cs, p.sessions, turn.arrivals, i, before);
    var tt := DeliverAll(cs, p.sessions, turn.arrivals).value;
    RoundDefinedIff(tt, turn.now);
    TickIsDefinedIff(tt[i], turn.now);
    LivesOn(cs[i], heard, tt[i], tick);
  }

  /**
   The joint system of readers and main loop runs each session as a session of its own: over any number of
   rounds, a reading session ends where the run of its own messages and the ticks of the rounds ends. So what
   holds in every run of a session holds for every peer of the collector.
   */
  lemma {:induction false} TurnsAreRuns(cs: seq<Config>, ss: seq<Session>, turns: seq<Turn>, i: nat,
                                        before: seq<Timed>)
    requires |cs| == |ss| && ValidTurns(turns, |ss|) && RunTurns(cs, ss, turns).Some? && i < |ss|
    requires Lived(cs[i], before, ss[i]) && Ordered(before + OwnEvents(turns, i))
    ensures Lived(cs[i], before + OwnEvents(turns, i), RunTurns(cs, ss, turns).value.sessions[i])
    decreases |turns|
  {
    hide Lived, Ordered, AfterTurn, OwnArrivals;
    if turns == [] {
      assert before + [] == before;
    } else {
      var n := |turns| - 1;
      var turn, es := turns[n], OwnEvents(turns[..n], i);
      var own, tick := OwnArrivals(turn.arrivals, i), [Timed(turn.now, Tick)];
      assert before + OwnEvents(turns, i) == before + es + (own + tick) == before + es + own + tick;
      OrderedPrefix(before + es, own + tick);
      TurnsAreRuns(cs, ss, turns[..n], i, before);
      TurnIsLived(cs, RunTurns(cs, ss, turns[..n]).value, turn, i, before + es);
    }
  }

  /**
   The last batch is that of sessions tt, where each session that was reading has taken the messages of the turn
   but not yet its tick; it holds for each peer, in order, exactly the operations that its session has due.
   */
  lemma TurnBatch(cs: seq<Config>, ss: seq<Session>, turns: seq<Turn>, turn: Turn, i: nat, before: seq<Timed>)
    returns (tt: seq<Session>, batch: seq<Op>)
    requires |cs| == |ss| && ValidTurns(turns + [turn], |ss|) && RunTurns(cs, ss, turns + [turn]).Some? && i < |ss|
    requires Lived(cs[i], before, ss[i])
    requires Ordered(before + OwnEvents(turns, i) + OwnArrivals(turn.arrivals, i))
    ensures |tt| == |ss| && RoundOps(tt, turn.now) == Some(batch)
    ensures Lived(cs[i], before + OwnEvents(turns, i) + OwnArrivals(turn.arrivals, i), tt[i])
    ensures ValidTurns(turns, |ss|) && RunTurns(cs, ss, turns).Some?
    ensures RunTurns(cs, ss, turns + [turn]).value.batches == RunTurns(cs, ss, turns).value.batches + [batch]
    ensures OwnOps(tt[i], turn.now).Some?
    ensures DistinctSessions(tt) ==> Project(batch, tt[i].bgpId) == OwnOps(tt[i], turn.now).value
  {
    hide Lived, Ordered, DeliverAll, RoundOps, OwnArrivals, OwnEvents, OwnOps, Project, DistinctSessions;
    assert (turns + [turn])[..|turns|] == turns && (turns + [turn])[|turns|] == turn;
    assert ValidTurns(turns, |ss|);
    OrderedPrefix(before + OwnEvents(turns, i), OwnArrivals(turn.arrivals, i));
    TurnsAreRuns(cs, ss, turns, i, before);
    var p := RunTurns(cs, ss, turns).value;
    DeliveryIsLived(cs, p.sessions, turn.arrivals, i, before + OwnEvents(turns, i));
    tt := DeliverAll(cs, p.sessions, turn.arrivals).value;
    batch := RoundOps(tt, turn.now).value;
    RoundDefinedIff(tt, turn.now);
    if DistinctSessions(tt) {
      ProjectRound(tt, i, turn.now);
    }
  }
}
