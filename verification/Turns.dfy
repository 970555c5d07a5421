/**
 The main loop over many rounds: between two rounds the readers deliver messages to their sessions,
 and each round ticks every session and drains what it had queued.
 */
module Turns {
  import opened Octets
  import opened Cidr
  import opened Messages
  import opened Framing
  import opened PeerSession
  import opened PeerObject
  import opened RibEngine
  import opened MainLoop
  import opened Collector
  import opened RibQueries
  import opened Pipeline

  /** A message delivered to one of the peers. */
  datatype Arrival = Arrival(peer: nat, kind: Octet, buffer: seq<Octet>, length: nat, at: int)

  /** What arrives before a round, and the clock of the round. */
  datatype Turn = Turn(arrivals: seq<Arrival>, now: Word64)

  /** The message is for one of n peers, in a receive buffer that holds it. */
  predicate ValidArrival(a: Arrival, n: nat) {
    a.peer < n && |a.buffer| >= HEADER && a.length <= |a.buffer|
  }

  predicate ValidArrivals(arrivals: seq<Arrival>, n: nat) {
    forall i :: 0 <= i < |arrivals| ==> ValidArrival(arrivals[i], n)
  }

  predicate ValidTurns(turns: seq<Turn>, n: nat) {
    forall i :: 0 <= i < |turns| ==> ValidArrivals(turns[i].arrivals, n)
  }

  // ---------- specification ----------

  predicate Bad(a: Arrival) {
    var e := Receive(a.kind, a.buffer, a.length);
    Overruns(e) || Textless(e)
  }

  /** The sessions after one more message. */
  function Delivered(cs: seq<Config>, ss: seq<Session>, a: Arrival): seq<Session>
    requires |cs| == |ss| && ValidArrival(a, |ss|)
  {
    ss[a.peer := AfterReceive(cs[a.peer], ss[a.peer], a.kind, a.buffer, a.length, a.at)]
  }

  /** The sessions after the messages, or None once one has no defined effect. */
  function DeliverAll(cs: seq<Config>, ss: seq<Session>, arrivals: seq<Arrival>): (r: Option<seq<Session>>)
    requires |cs| == |ss| && ValidArrivals(arrivals, |ss|)
    ensures r.Some? ==> |r.value| == |ss|
  {
    if arrivals == [] then Some(ss)
    else
      var n := |arrivals| - 1;
      match DeliverAll(cs, ss, arrivals[..n])
      case None => None
      case Some(tt) => if Bad(arrivals[n]) then None else Some(Delivered(cs, tt, arrivals[n]))
  }

  function Ticked(ss: seq<Session>, now: int): (tt: seq<Session>)
    ensures |tt| == |ss|
  {
    seq(|ss|, i requires 0 <= i < |ss| => AfterTick(ss[i], now))
  }

  datatype Progress = Progress(sessions: seq<Session>, batches: seq<seq<Op>>)

  /** One turn: deliver, then the batch of the round, then every session has ticked. */
  function AfterTurn(cs: seq<Config>, p: Progress, turn: Turn): (r: Option<Progress>)
    requires |cs| == |p.sessions| && ValidArrivals(turn.arrivals, |p.sessions|)
    ensures r.Some? ==> |r.value.sessions| == |p.sessions|
  {
    match DeliverAll(cs, p.sessions, turn.arrivals)
    case None => None
    case Some(tt) =>
      match RoundOps(tt, turn.now)
      case None => None
      case Some(ops) => Some(Progress(Ticked(tt, turn.now), p.batches + [ops]))
  }

  /** The sessions and the batches of the rounds, or None once a step has no defined effect. */
  function RunTurns(cs: seq<Config>, ss: seq<Session>, turns: seq<Turn>): (r: Option<Progress>)
    requires |cs| == |ss| && ValidTurns(turns, |ss|)
    ensures r.Some? ==> |r.value.sessions| == |ss|
  {
    if turns == [] then Some(Progress(ss, []))
    else
      var n := |turns| - 1;
      assert ValidArrivals(turns[n].arrivals, |ss|);
      match RunTurns(cs, ss, turns[..n])
      case None => None
      case Some(p) => AfterTurn(cs, p, turns[n])
  }

  // ---------- queues stay within the packet buffer ----------

  ghost predicate SessionsBounded(ss: seq<Session>) {
    forall i :: 0 <= i < |ss| ==> AllBounded(ss[i].inQueue)
  }

  lemma ReceiveKeepsBounded(c: Config, s: Session, a: Arrival)
    requires |a.buffer| >= HEADER && a.length <= |a.buffer| && !Bad(a) && AllBounded(s.inQueue)
    ensures AllBounded(AfterReceive(c, s, a.kind, a.buffer, a.length, a.at).inQueue)
  {
    hide AfterReceive, Textless;
    var e := Timed(a.at, Receive(a.kind, a.buffer, a.length));
    var t := s.(phase := Reading);
    BoundedStep(c, t, e);
    PhaseIsIrrelevant(c, s, a);
  }

  lemma PhaseIsIrrelevant(c: Config, s: Session, a: Arrival)
    requires |a.buffer| >= HEADER && a.length <= |a.buffer|
    ensures AfterReceive(c, s.(phase := Reading), a.kind, a.buffer, a.length, a.at).inQueue
         == AfterReceive(c, s, a.kind, a.buffer, a.length, a.at).inQueue
  {
    hide Frame;
  }

  lemma DeliveredStaysBounded(cs: seq<Config>, ss: seq<Session>, a: Arrival)
    requires |cs| == |ss| && ValidArrival(a, |ss|) && !Bad(a) && SessionsBounded(ss)
    ensures SessionsBounded(Delivered(cs, ss, a))
  {
    hide AfterReceive, AllBounded, Bad;
    ReceiveKeepsBounded(cs[a.peer], ss[a.peer], a);
  }

  lemma TickKeepsBounded(s: Session, now: int)
    requires AllBounded(s.inQueue)
    ensures AllBounded(AfterTick(s, now).inQueue)
  {
    hide Frame;
  }

  lemma TickedStaysBounded(ss: seq<Session>, now: int)
    requires SessionsBounded(ss)
    ensures SessionsBounded(Ticked(ss, now))
  {
    hide AfterTick, AllBounded;
    forall i | 0 <= i < |ss|
      ensures AllBounded(Ticked(ss, now)[i].inQueue)
    {
      TickKeepsBounded(ss[i], now);
    }
  }

  // ---------- the loop ----------

  lemma DeliverOneMore(cs: seq<Config>, ss: seq<Session>, arrivals: seq<Arrival>, i: nat)
    requires |cs| == |ss| && ValidArrivals(arrivals, |ss|) && i < |arrivals|
    requires DeliverAll(cs, ss, arrivals[..i]).Some?
    ensures DeliverAll(cs, ss, arrivals[..i + 1])
         == if Bad(arrivals[i]) then None else Some(Delivered(cs, DeliverAll(cs, ss, arrivals[..i]).value, arrivals[i]))
  {
    hide AfterReceive, Bad;
    assert arrivals[..i + 1][..i] == arrivals[..i];
  }

  lemma {:induction false} DeliverStuck(cs: seq<Config>, ss: seq<Session>, arrivals: seq<Arrival>, i: nat)
    requires |cs| == |ss| && ValidArrivals(arrivals, |ss|) && i <= |arrivals|
    requires DeliverAll(cs, ss, arrivals[..i]).None?
    ensures DeliverAll(cs, ss, arrivals).None?
    decreases |arrivals| - i
  {
    hide AfterReceive, Bad;
    if i == |arrivals| {
      assert arrivals[..i] == arrivals;
    } else {
      assert arrivals[..i + 1][..i] == arrivals[..i];
      DeliverStuck(cs, ss, arrivals, i + 1);
    }
  }

  /** One message to one peer object changes its session only. */
  method DeliverTo(peers: seq<BgpPeer>, cs: seq<Config>, a: Arrival) returns (ok: bool)
    requires DistinctPeers(peers) && |cs| == |peers| && ValidArrival(a, |peers|)
    modifies peers
    ensures ok == !Bad(a)
    ensures ok ==> States(peers) == Delivered(cs, old(States(peers)), a)
  {
    hide AfterReceive, Overruns, Textless;
    ghost var ss := States(peers);
    ok := peers[a.peer].ReceiveMessage(cs[a.peer], a.kind, a.buffer, a.length, a.at);
    if ok {
      forall i | 0 <= i < |peers|
        ensures States(peers)[i] == Delivered(cs, ss, a)[i]
      {
        assert i != a.peer ==> peers[i] != peers[a.peer] && peers[i].State() == ss[i];
      }
    }
  }

  method DeliverMessages(peers: seq<BgpPeer>, cs: seq<Config>, arrivals: seq<Arrival>) returns (ok: bool)
    requires DistinctPeers(peers) && |cs| == |peers| && ValidArrivals(arrivals, |peers|)
    requires SessionsBounded(States(peers))
    modifies peers
    ensures var r := DeliverAll(cs, old(States(peers)), arrivals);
            ok == r.Some? && (ok ==> States(peers) == r.value && SessionsBounded(States(peers)))
  {
    hide Delivered, Bad, DeliverAll, SessionsBounded;
    ok := true;
    ghost var ss := States(peers);
    assert arrivals[..0] == [];
    NothingDelivered(cs, ss);
    for i := 0 to |arrivals|
      invariant ok && DeliverAll(cs, ss, arrivals[..i]) == Some(States(peers)) && SessionsBounded(States(peers))
    {
      assert ValidArrival(arrivals[i], |peers|);
      DeliverOneMore(cs, ss, arrivals, i);
      ghost var tt := States(peers);
      ok := DeliverTo(peers, cs, arrivals[i]);
      if !ok {
        DeliverStuck(cs, ss, arrivals, i + 1);
        return;
      }
      DeliveredStaysBounded(cs, tt, arrivals[i]);
    }
    assert arrivals[..|arrivals|] == arrivals;
  }

  lemma NothingDelivered(cs: seq<Config>, ss: seq<Session>)
    requires |cs| == |ss|
    ensures DeliverAll(cs, ss, []) == Some(ss)
  {
  }

  lemma TurnOneMore(cs: seq<Config>, ss: seq<Session>, turns: seq<Turn>, i: nat)
    requires |cs| == |ss| && ValidTurns(turns, |ss|) && i < |turns| && RunTurns(cs, ss, turns[..i]).Some?
    ensures ValidArrivals(turns[i].arrivals, |ss|)
    ensures RunTurns(cs, ss, turns[..i + 1]) == AfterTurn(cs, RunTurns(cs, ss, turns[..i]).value, turns[i])
  {
    hide AfterTurn;
    assert turns[..i + 1][..i] == turns[..i];
  }

  lemma {:induction false} TurnsStuck(cs: seq<Config>, ss: seq<Session>, turns: seq<Turn>, i: nat)
    requires |cs| == |ss| && ValidTurns(turns, |ss|) && i <= |turns| && RunTurns(cs, ss, turns[..i]).None?
    ensures RunTurns(cs, ss, turns).None?
    decreases |turns| - i
  {
    hide AfterTurn;
    if i == |turns| {
      assert turns[..i] == turns;
    } else {
      assert turns[..i + 1][..i] == turns[..i];
      TurnsStuck(cs, ss, turns, i + 1);
    }
  }

  lemma DrainLast(r: Rib, before: seq<seq<Op>>, after: seq<seq<Op>>)
    requires WellKeyed(r) && |after| == |before| + 1 && after[..|before|] == before
    ensures DrainAll(r, after) == Drain(DrainAll(r, before), after[|before|])
  {
    hide Drain, WellKeyed;
  }

  /** A round, as the sessions see it: all of them tick. */
  method TickAll(bgp: Bgp, peers: seq<BgpPeer>, now: Word64) returns (ok: bool)
    requires bgp.Valid() && bgp.adjRibInQ == [] && bgp.adjRibInWdrawQ == []
    requires DistinctPeers(peers) && SessionsBounded(States(peers))
    modifies peers, bgp, bgp.db
    ensures bgp.Valid()
    ensures var r := RoundOps(old(States(peers)), now);
            && ok == r.Some?
            && (ok ==> && bgp.adjRibInQ == [] && bgp.adjRibInWdrawQ == []
                       && States(peers) == Ticked(old(States(peers)), now)
                       && bgp.RibState() == Drain(old(bgp.RibState()), r.value))
  {
    hide AfterTick, RoundOps, Drain, PeerMap, WellKeyed, DbAfter, AllBounded, EntriesAreBlocks;
    ghost var tt := States(peers);
    assert forall i :: 0 <= i < |peers| ==> tt[i].inQueue == peers[i].inQueue;
    ok := Round(bgp, peers, now);
    if ok {
      forall i | 0 <= i < |peers|
        ensures States(peers)[i] == Ticked(tt, now)[i]
      {
        assert old(peers[i].State()) == tt[i];
      }
    }
  }

  /** One turn of the main loop on the objects. */
  method TakeTurn(bgp: Bgp, peers: seq<BgpPeer>, cs: seq<Config>, turn: Turn, ghost p: Progress) returns (ok: bool)
    requires bgp.Valid() && bgp.adjRibInQ == [] && bgp.adjRibInWdrawQ == []
    requires DistinctPeers(peers) && |cs| == |peers| && ValidArrivals(turn.arrivals, |peers|)
    requires p.sessions == States(peers) && SessionsBounded(p.sessions)
    modifies peers, bgp, bgp.db
    ensures bgp.Valid()
    ensures var r := AfterTurn(cs, p, turn);
            && ok == r.Some?
            && (ok ==> && bgp.adjRibInQ == [] && bgp.adjRibInWdrawQ == []
                       && States(peers) == r.value.sessions && SessionsBounded(r.value.sessions)
                       && |r.value.batches| == |p.batches| + 1 && r.value.batches[..|p.batches|] == p.batches
                       && bgp.RibState() == Drain(old(bgp.RibState()), r.value.batches[|p.batches|]))
  {
    hide DeliverAll, Ticked, RoundOps, Drain, PeerMap, WellKeyed, SessionsBounded;
    ok := DeliverMessages(peers, cs, turn.arrivals);
    if !ok {
      return;
    }
    TickedStaysBounded(States(peers), turn.now);
    ok := TickAll(bgp, peers, turn.now);
  }

  /**
   Any number of rounds on the collector and its peers: unless a step has no defined effect, the RIB is
   the drained batches of the rounds in order, and every session is where its messages and ticks lead.
   */
  method TakeTurns(bgp: Bgp, peers: seq<BgpPeer>, cs: seq<Config>, turns: seq<Turn>) returns (ok: bool)
    requires bgp.Valid() && bgp.adjRibInQ == [] && bgp.adjRibInWdrawQ == []
    requires DistinctPeers(peers) && |cs| == |peers| && ValidTurns(turns, |peers|)
    requires SessionsBounded(States(peers))
    modifies peers, bgp, bgp.db
    ensures bgp.Valid()
    ensures var r := RunTurns(cs, old(States(peers)), turns);
            && ok == r.Some?
            && (ok ==> && bgp.adjRibInQ == [] && bgp.adjRibInWdrawQ == []
                       && States(peers) == r.value.sessions
                       && bgp.RibState() == DrainAll(old(bgp.RibState()), r.value.batches))
  {
    hide AfterTurn, RunTurns, Drain, DrainAll, PeerMap, WellKeyed, SessionsBounded;
    ok := true;
    ghost var ss, r := States(peers), bgp.RibState();
    assert turns[..0] == [];
    NoTurns(cs, ss, r);
    ghost var p := Progress(ss, []);
    for i := 0 to |turns|
      invariant ok && bgp.Valid() && bgp.adjRibInQ == [] && bgp.adjRibInWdrawQ == []
      invariant RunTurns(cs, ss, turns[..i]) == Some(p)
      invariant p.sessions == States(peers) && SessionsBounded(p.sessions)
      invariant bgp.RibState() == DrainAll(r, p.batches)
    {
      TurnOneMore(cs, ss, turns, i);
      ghost var next := AfterTurn(cs, p, turns[i]);
      ok := TakeTurn(bgp, peers, cs, turns[i], p);
      if !ok {
        TurnsStuck(cs, ss, turns, i + 1);
        return;
      }
      DrainLast(r, p.batches, next.value.batches);
      p := next.value;
    }
    assert turns[..|turns|] == turns;
  }

  lemma NoTurns(cs: seq<Config>, ss: seq<Session>, r: Rib)
    requires |cs| == |ss| && WellKeyed(r)
    ensures RunTurns(cs, ss, []) == Some(Progress(ss, [])) && DrainAll(r, []) == r
  {
  }

  /**
   For everything that peers send over any number of rounds: the RIB entry of a key is that of replaying
   all parsed operations in the order they were handed over if and only if the last batch that touches
   the key is faithful to it, or its peer is not configured.
   */
  lemma TurnsOrderIff(r: Rib, cs: seq<Config>, ss: seq<Session>, turns: seq<Turn>, k: Key)
    requires WellKeyed(r) && |cs| == |ss| && ValidTurns(turns, |ss|) && RunTurns(cs, ss, turns).Some?
    ensures var batches := RunTurns(cs, ss, turns).value.batches;
            Entry(DrainAll(r, batches), k) == Entry(Replay(r, Arrivals(batches)), k)
            <==> k.bgpId !in r.peers || RunIsFaithful(batches, k)
  {
    hide RunTurns, DrainAll, Replay, WellKeyed, RunIsFaithful;
    RunOrderIff(r, RunTurns(cs, ss, turns).value.batches, k);
  }
}
