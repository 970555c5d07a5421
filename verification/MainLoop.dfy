/**
 The main loop: each round parses what the peers have queued, then drains all announcements and
 after them all withdrawals. When does that give the same RIB as replaying the operations in the
 order they arrived, and does the order in which peers are visited matter?
 */
module MainLoop {
  import opened Octets
  import opened Cidr
  import opened Messages
  import opened RibEngine

  datatype Op = Announcing(update: Update) | Withdrawing(update: Update)

  function OpKey(op: Op): Key {
    KeyOf(op.update)
  }

  ghost function ApplyOp(r: Rib, op: Op): (t: Rib)
    requires WellKeyed(r)
    ensures WellKeyed(t) && t.peers.Keys == r.peers.Keys
  {
    match op
    case Announcing(u) => Announce(r, u)
    case Withdrawing(u) => Withdrawn(r, KeyOf(u))
  }

  ghost function Replay(r: Rib, ops: seq<Op>): (t: Rib)
    requires WellKeyed(r)
    ensures WellKeyed(t) && t.peers.Keys == r.peers.Keys
    decreases |ops|
  {
    if ops == [] then r else ApplyOp(Replay(r, ops[..|ops| - 1]), ops[|ops| - 1])
  }

  /** The two queues that a batch of parsed operations is split into. */
  function Announces(ops: seq<Op>): seq<Op> {
    if ops == [] then []
    else Announces(ops[..|ops| - 1]) + (if ops[|ops| - 1].Announcing? then [ops[|ops| - 1]] else [])
  }

  function Withdraws(ops: seq<Op>): seq<Op> {
    if ops == [] then []
    else Withdraws(ops[..|ops| - 1]) + (if ops[|ops| - 1].Withdrawing? then [ops[|ops| - 1]] else [])
  }

  /** One round of the main loop on a batch. */
  ghost function Drain(r: Rib, ops: seq<Op>): (t: Rib)
    requires WellKeyed(r)
    ensures WellKeyed(t) && t.peers.Keys == r.peers.Keys
  {
    Replay(Replay(r, Announces(ops)), Withdraws(ops))
  }

  ghost function DrainAll(r: Rib, batches: seq<seq<Op>>): (t: Rib)
    requires WellKeyed(r)
    ensures WellKeyed(t) && t.peers.Keys == r.peers.Keys
    decreases |batches|
  {
    if batches == [] then r
    else Drain(DrainAll(r, batches[..|batches| - 1]), batches[|batches| - 1])
  }

  function Arrivals(batches: seq<seq<Op>>): seq<Op> {
    if batches == [] then []
    else Arrivals(batches[..|batches| - 1]) + batches[|batches| - 1]
  }

  // ---------- the reference: the last operation on a key ----------

  function Entry(r: Rib, k: Key): Option<Update> {
    if k in r.entries then Some(r.entries[k]) else None
  }

  function LastOn(ops: seq<Op>, k: Key): Option<Op> {
    if ops == [] then None
    else if OpKey(ops[|ops| - 1]) == k then Some(ops[|ops| - 1])
    else LastOn(ops[..|ops| - 1], k)
  }

  /** What an operation leaves under its key. */
  function Leaves(op: Op): Option<Update> {
    match op
    case Announcing(u) => Some(Copied(u))
    case Withdrawing(_) => None
  }

  ghost predicate HasWithdraw(ops: seq<Op>, k: Key) {
    exists i :: 0 <= i < |ops| && ops[i].Withdrawing? && OpKey(ops[i]) == k
  }

  /** The key has no withdrawal in the batch, or its last operation is a withdrawal. */
  ghost predicate BatchIsFaithful(ops: seq<Op>, k: Key) {
    !HasWithdraw(ops, k) || (LastOn(ops, k).Some? && LastOn(ops, k).value.Withdrawing?)
  }

  lemma {:induction false} EntryAfterReplay(r: Rib, ops: seq<Op>, k: Key)
    requires WellKeyed(r) && k.bgpId in r.peers
    ensures Entry(Replay(r, ops), k)
         == if LastOn(ops, k).Some? then Leaves(LastOn(ops, k).value) else Entry(r, k)
    decreases |ops|
  {
    hide Copied;
    if ops != [] {
      EntryAfterReplay(r, ops[..|ops| - 1], k);
    }
  }

  lemma UnknownHasNoEntry(r: Rib, k: Key)
    requires WellKeyed(r) && k.bgpId !in r.peers
    ensures Entry(r, k) == None
  {
  }

  lemma HasWithdrawSnoc(ops: seq<Op>, op: Op, k: Key)
    ensures HasWithdraw(ops + [op], k) <==> HasWithdraw(ops, k) || (op.Withdrawing? && OpKey(op) == k)
  {
    hide OpKey;
    var more, n := ops + [op], |ops|;
    assert more[n] == op;
    if i :| 0 <= i < n && ops[i].Withdrawing? && OpKey(ops[i]) == k {
      assert more[i] == ops[i];
    }
    if i :| 0 <= i < |more| && more[i].Withdrawing? && OpKey(more[i]) == k {
      assert i < n ==> ops[i] == more[i];
    }
  }

  lemma LastOnSnoc(ops: seq<Op>, op: Op, k: Key)
    ensures LastOn(ops + [op], k) == if OpKey(op) == k then Some(op) else LastOn(ops, k)
  {
    assert (ops + [op])[..|ops|] == ops;
  }

  lemma {:induction false} LastOnQueues(ops: seq<Op>, k: Key)
    ensures LastOn(Withdraws(ops), k).Some? <==> HasWithdraw(ops, k)
    ensures LastOn(Withdraws(ops), k).Some? ==> LastOn(Withdraws(ops), k).value.Withdrawing?
    ensures !HasWithdraw(ops, k) ==> LastOn(Announces(ops), k) == LastOn(ops, k)
    decreases |ops|
  {
    hide OpKey, HasWithdraw, LastOn;
    if ops == [] {
      NoOps(k);
    } else {
      var rest, op := ops[..|ops| - 1], ops[|ops| - 1];
      assert rest + [op] == ops;
      LastOnQueues(rest, k);
      HasWithdrawSnoc(rest, op, k);
      LastOnSnoc(rest, op, k);
      LastOnSnoc(Withdraws(rest), op, k);
      LastOnSnoc(Announces(rest), op, k);
      assert Withdraws(rest) + [] == Withdraws(rest) && Announces(rest) + [] == Announces(rest);
    }
  }

  lemma NoOps(k: Key)
    ensures LastOn([], k) == None && !HasWithdraw([], k)
  {
  }

  lemma EntryAfterDrain(r: Rib, ops: seq<Op>, k: Key)
    requires WellKeyed(r) && k.bgpId in r.peers
    ensures Entry(Drain(r, ops), k)
         == if HasWithdraw(ops, k) then None
            else if LastOn(ops, k).Some? then Leaves(LastOn(ops, k).value) else Entry(r, k)
  {
    hide Replay, Entry, LastOn, Announces, Withdraws;
    LastOnQueues(ops, k);
    EntryAfterReplay(r, Announces(ops), k);
    EntryAfterReplay(Replay(r, Announces(ops)), Withdraws(ops), k);
  }

  lemma {:induction false} WithdrawTouches(ops: seq<Op>, k: Key)
    requires HasWithdraw(ops, k)
    ensures LastOn(ops, k).Some?
    decreases |ops|
  {
    var n := |ops| - 1;
    if OpKey(ops[n]) != k {
      var i :| 0 <= i < |ops| && ops[i].Withdrawing? && OpKey(ops[i]) == k;
      assert ops[..n][i] == ops[i];
      WithdrawTouches(ops[..n], k);
    }
  }

  /**
   For every RIB, batch and key: draining announcements first gives the key the same entry as
   in-order replay if and only if the key has no withdrawal in the batch, or its last operation is
   a withdrawal, or its peer is not configured.
   */
  lemma BatchOrderIff(r: Rib, ops: seq<Op>, k: Key)
    requires WellKeyed(r)
    ensures Entry(Drain(r, ops), k) == Entry(Replay(r, ops), k)
       <==> k.bgpId !in r.peers || BatchIsFaithful(ops, k)
  {
    hide Drain, Replay, Entry, LastOn, Copied;
    if k.bgpId in r.peers {
      EntryAfterDrain(r, ops, k);
      EntryAfterReplay(r, ops, k);
      if HasWithdraw(ops, k) {
        WithdrawTouches(ops, k);
      }
    } else {
      UnknownHasNoEntry(Drain(r, ops), k);
      UnknownHasNoEntry(Replay(r, ops), k);
    }
  }

  /** The smallest failing batch: a route withdrawn and announced again in one round is lost. */
  lemma ReannouncementIsLost(r: Rib, u: Update)
    requires WellKeyed(r) && u.nlri.bgpId in r.peers
    ensures var batch := [Withdrawing(u), Announcing(u)];
            KeyOf(u) in Replay(r, batch).entries && KeyOf(u) !in Drain(r, batch).entries
  {
    hide Replay, Drain, Copied;
    var batch := [Withdrawing(u), Announcing(u)];
    assert OpKey(batch[0]) == KeyOf(u) && batch[0].Withdrawing?;
    EntryAfterReplay(r, batch, KeyOf(u));
    EntryAfterDrain(r, batch, KeyOf(u));
  }

  // ---------- whole runs of the main loop ----------

  /** The last batch that touches the key is faithful for it, or no batch touches it. */
  ghost predicate RunIsFaithful(batches: seq<seq<Op>>, k: Key)
    decreases |batches|
  {
    batches == [] ||
    var last := batches[|batches| - 1];
    if LastOn(last, k).Some? then BatchIsFaithful(last, k)
    else RunIsFaithful(batches[..|batches| - 1], k)
  }

  lemma {:induction false} LastOnConcat(a: seq<Op>, b: seq<Op>, k: Key)
    ensures LastOn(a + b, k) == if LastOn(b, k).Some? then LastOn(b, k) else LastOn(a, k)
    decreases |b|
  {
    if b == [] {
      assert a + b == a;
    } else {
      LastOnConcat(a, b[..|b| - 1], k);
      assert (a + b)[..|a + b| - 1] == a + b[..|b| - 1];
    }
  }

  /** For every run of rounds: the final entry equals in-order replay of all arrivals iff faithful. */
  lemma {:induction false} RunOrderIff(r: Rib, batches: seq<seq<Op>>, k: Key)
    requires WellKeyed(r)
    ensures Entry(DrainAll(r, batches), k) == Entry(Replay(r, Arrivals(batches)), k)
       <==> k.bgpId !in r.peers || RunIsFaithful(batches, k)
    decreases |batches|
  {
    hide Drain, Replay, Entry, LastOn, Copied, BatchIsFaithful;
    if k.bgpId !in r.peers {
      UnknownHasNoEntry(DrainAll(r, batches), k);
      UnknownHasNoEntry(Replay(r, Arrivals(batches)), k);
    } else if batches == [] {
      assert Replay(r, []) == r by { ReplayNothing(r); }
    } else {
      var before, last := batches[..|batches| - 1], batches[|batches| - 1];
      RunOrderIff(r, before, k);
      LastOnConcat(Arrivals(before), last, k);
      EntryAfterReplay(r, Arrivals(batches), k);
      EntryAfterReplay(r, Arrivals(before), k);
      EntryAfterDrain(DrainAll(r, before), last, k);
      if HasWithdraw(last, k) {
        WithdrawTouches(last, k);
      }
      assert BatchIsFaithful(last, k)
        <==> !HasWithdraw(last, k) || (LastOn(last, k).Some? && LastOn(last, k).value.Withdrawing?) by {
        FaithfulIs(last, k);
      }
    }
  }

  lemma FaithfulIs(ops: seq<Op>, k: Key)
    ensures BatchIsFaithful(ops, k)
       <==> !HasWithdraw(ops, k) || (LastOn(ops, k).Some? && LastOn(ops, k).value.Withdrawing?)
  {
  }

  lemma ReplayNothing(r: Rib)
    requires WellKeyed(r)
    ensures Replay(r, []) == r
  {
  }

  // ---------- the order in which peers are visited ----------

  /** The operations of one peer, in their own order. */
  function Project(ops: seq<Op>, id: Word32): seq<Op> {
    if ops == [] then []
    else Project(ops[..|ops| - 1], id) + (if OpKey(ops[|ops| - 1]).bgpId == id then [ops[|ops| - 1]] else [])
  }

  /** Two RIBs hold the same entries and counters for a peer. */
  ghost predicate SameFor(a: Rib, b: Rib, id: Word32) {
    && (forall k: Key :: k.bgpId == id ==> Entry(a, k) == Entry(b, k))
    && (id in a.peers <==> id in b.peers)
    && (id in a.peers ==> a.peers[id] == b.peers[id])
  }

  lemma OwnOpActsLocally(a: Rib, b: Rib, op: Op)
    requires WellKeyed(a) && WellKeyed(b) && SameFor(a, b, OpKey(op).bgpId)
    ensures SameFor(ApplyOp(a, op), ApplyOp(b, op), OpKey(op).bgpId)
  {
    hide Copied;
    var k := OpKey(op);
    assert Entry(a, k) == Entry(b, k);
  }

  lemma OtherOpIsInvisible(a: Rib, op: Op, id: Word32)
    requires WellKeyed(a) && OpKey(op).bgpId != id
    ensures SameFor(ApplyOp(a, op), a, id)
  {
    hide Copied;
  }

  lemma {:induction false} ReplayIsLocal(r: Rib, ops: seq<Op>, id: Word32)
    requires WellKeyed(r)
    ensures SameFor(Replay(r, ops), Replay(r, Project(ops, id)), id)
    decreases |ops|
  {
    hide ApplyOp, SameFor;
    if ops == [] {
      SameForRefl(r, id);
    } else {
      var rest, op := ops[..|ops| - 1], ops[|ops| - 1];
      ReplayIsLocal(r, rest, id);
      if OpKey(op).bgpId == id {
        OwnOpActsLocally(Replay(r, rest), Replay(r, Project(rest, id)), op);
        assert (Project(rest, id) + [op])[..|Project(rest, id)|] == Project(rest, id);
      } else {
        OtherOpIsInvisible(Replay(r, rest), op, id);
        SameForTrans(Replay(r, ops), Replay(r, rest), Replay(r, Project(rest, id)), id);
        assert Project(rest, id) + [] == Project(rest, id);
      }
    }
  }

  lemma SameForRefl(a: Rib, id: Word32)
    ensures SameFor(a, a, id)
  {
  }

  lemma SameForTrans(a: Rib, b: Rib, c: Rib, id: Word32)
    requires SameFor(a, b, id) && SameFor(b, c, id)
    ensures SameFor(a, c, id)
  {
  }

  lemma SameEverywhere(a: Rib, b: Rib)
    requires a.peers.Keys == b.peers.Keys && forall id: Word32 :: SameFor(a, b, id)
    ensures a == b
  {
    forall k: Key
      ensures Entry(a, k) == Entry(b, k)
    {
      assert SameFor(a, b, k.bgpId);
    }
    forall k: Key
      ensures k in a.entries <==> k in b.entries
      ensures k in a.entries ==> a.entries[k] == b.entries[k]
    {
      assert Entry(a, k) == Entry(b, k);
    }
    assert a.entries == b.entries;
    forall id | id in a.peers
      ensures a.peers[id] == b.peers[id]
    {
      assert SameFor(a, b, id);
    }
    assert a.peers == b.peers;
  }

  /** Any two merges that keep each peer's own order replay to the same RIB, counters included. */
  lemma MergesAgree(r: Rib, m: seq<Op>, n: seq<Op>)
    requires WellKeyed(r) && forall id: Word32 :: Project(m, id) == Project(n, id)
    ensures Replay(r, m) == Replay(r, n)
  {
    hide Replay, Project, SameFor;
    forall id: Word32
      ensures SameFor(Replay(r, m), Replay(r, n), id)
    {
      ReplayIsLocal(r, m, id);
      ReplayIsLocal(r, n, id);
      SameForSym(Replay(r, n), Replay(r, Project(n, id)), id);
      SameForTrans(Replay(r, m), Replay(r, Project(m, id)), Replay(r, n), id);
    }
    SameEverywhere(Replay(r, m), Replay(r, n));
  }

  lemma SameForSym(a: Rib, b: Rib, id: Word32)
    requires SameFor(a, b, id)
    ensures SameFor(b, a, id)
  {
    forall k: Key | k.bgpId == id
      ensures Entry(b, k) == Entry(a, k)
    {
      assert Entry(a, k) == Entry(b, k);
    }
  }

  lemma ProjectSnoc(ops: seq<Op>, op: Op, id: Word32)
    ensures Project(ops + [op], id) == if OpKey(op).bgpId == id then Project(ops, id) + [op] else Project(ops, id)
  {
    assert (ops + [op])[..|ops|] == ops;
  }

  lemma AnnouncesSnoc(ops: seq<Op>, op: Op)
    ensures Announces(ops + [op]) == if op.Announcing? then Announces(ops) + [op] else Announces(ops)
  {
    assert (ops + [op])[..|ops|] == ops;
  }

  lemma WithdrawsSnoc(ops: seq<Op>, op: Op)
    ensures Withdraws(ops + [op]) == if op.Withdrawing? then Withdraws(ops) + [op] else Withdraws(ops)
  {
    assert (ops + [op])[..|ops|] == ops;
  }

  lemma {:induction false} AnnouncesOfProjection(ops: seq<Op>, id: Word32)
    ensures Project(Announces(ops), id) == Announces(Project(ops, id))
    decreases |ops|
  {
    if ops != [] {
      hide Announces, Project;
      var rest, op := ops[..|ops| - 1], ops[|ops| - 1];
      assert rest + [op] == ops;
      AnnouncesOfProjection(rest, id);
      AnnouncesSnoc(rest, op);
      ProjectSnoc(rest, op, id);
      ProjectSnoc(Announces(rest), op, id);
      AnnouncesSnoc(Project(rest, id), op);
    }
  }

  lemma {:induction false} WithdrawsOfProjection(ops: seq<Op>, id: Word32)
    ensures Project(Withdraws(ops), id) == Withdraws(Project(ops, id))
    decreases |ops|
  {
    if ops != [] {
      hide Withdraws, Project;
      var rest, op := ops[..|ops| - 1], ops[|ops| - 1];
      assert rest + [op] == ops;
      WithdrawsOfProjection(rest, id);
      WithdrawsSnoc(rest, op);
      ProjectSnoc(rest, op, id);
      ProjectSnoc(Withdraws(rest), op, id);
      WithdrawsSnoc(Project(rest, id), op);
    }
  }

  /** The same holds for a round of the main loop. */
  lemma DrainedMergesAgree(r: Rib, m: seq<Op>, n: seq<Op>)
    requires WellKeyed(r) && forall id: Word32 :: Project(m, id) == Project(n, id)
    ensures Drain(r, m) == Drain(r, n)
  {
    hide Replay, Project, Announces, Withdraws;
    forall id: Word32
      ensures Project(Announces(m), id) == Project(Announces(n), id)
      ensures Project(Withdraws(m), id) == Project(Withdraws(n), id)
    {
      AnnouncesOfProjection(m, id);
      AnnouncesOfProjection(n, id);
      WithdrawsOfProjection(m, id);
      WithdrawsOfProjection(n, id);
    }
    MergesAgree(r, Announces(m), Announces(n));
    MergesAgree(Replay(r, Announces(m)), Withdraws(m), Withdraws(n));
  }

  // ---------- visiting peers in some order ----------

  /** The batch of a round that visits the peers in the given order. */
  function Visit(order: seq<Word32>, streams: map<Word32, seq<Op>>): seq<Op> {
    if order == [] then []
    else
      var id := order[|order| - 1];
      Visit(order[..|order| - 1], streams) + (if id in streams then streams[id] else [])
  }

  ghost predicate OwnStreams(streams: map<Word32, seq<Op>>) {
    forall id, i :: id in streams && 0 <= i < |streams[id]| ==> OpKey(streams[id][i]).bgpId == id
  }

  ghost predicate Distinct(order: seq<Word32>) {
    forall i, j :: 0 <= i < j < |order| ==> order[i] != order[j]
  }

  lemma {:induction false} ProjectConcat(a: seq<Op>, b: seq<Op>, id: Word32)
    ensures Project(a + b, id) == Project(a, id) + Project(b, id)
    decreases |b|
  {
    if b == [] {
      assert a + b == a;
    } else {
      ProjectConcat(a, b[..|b| - 1], id);
      assert (a + b)[..|a + b| - 1] == a + b[..|b| - 1];
    }
  }

  lemma {:induction false} ProjectOwn(ops: seq<Op>, own: Word32, id: Word32)
    requires forall i :: 0 <= i < |ops| ==> OpKey(ops[i]).bgpId == own
    ensures Project(ops, id) == if own == id then ops else []
    decreases |ops|
  {
    if ops != [] {
      ProjectOwn(ops[..|ops| - 1], own, id);
      assert ops[..|ops| - 1] + [ops[|ops| - 1]] == ops;
    }
  }

  lemma {:induction false} ProjectVisit(order: seq<Word32>, streams: map<Word32, seq<Op>>, id: Word32)
    requires OwnStreams(streams) && Distinct(order)
    ensures Project(Visit(order, streams), id) == if id in order && id in streams then streams[id] else []
    decreases |order|
  {
    hide Project, OpKey, Distinct;
    if order == [] {
      assert Project([], id) == [] by { ProjectNothing(id); }
    } else {
      var n := |order| - 1;
      var rest, last := order[..n], order[n];
      DistinctPrefix(order);
      ProjectVisit(rest, streams, id);
      var own := if last in streams then streams[last] else [];
      ProjectConcat(Visit(rest, streams), own, id);
      ProjectOwn(own, last, id);
      assert id in order <==> id in rest || id == last by { MemberSnoc(rest, last, order, id); }
      assert [] + own == own;
      assert Project(Visit(rest, streams), id) + [] == Project(Visit(rest, streams), id);
    }
  }

  lemma MemberSnoc(rest: seq<Word32>, last: Word32, order: seq<Word32>, id: Word32)
    requires order != [] && rest == order[..|order| - 1] && last == order[|order| - 1]
    ensures id in order <==> id in rest || id == last
  {
    assert order == rest + [last];
  }

  lemma ProjectNothing(id: Word32)
    ensures Project([], id) == []
  {
  }

  lemma DistinctPrefix(order: seq<Word32>)
    requires Distinct(order) && order != []
    ensures Distinct(order[..|order| - 1]) && order[|order| - 1] !in order[..|order| - 1]
  {
  }

  /** The order in which the main loop visits the peers does not affect the RIB. */
  lemma VisitOrderIrrelevant(r: Rib, p: seq<Word32>, q: seq<Word32>, streams: map<Word32, seq<Op>>)
    requires WellKeyed(r) && OwnStreams(streams) && Distinct(p) && Distinct(q)
    requires forall id :: id in p <==> id in q
    ensures Drain(r, Visit(p, streams)) == Drain(r, Visit(q, streams))
  {
    hide Visit, Project, Drain;
    forall id: Word32
      ensures Project(Visit(p, streams), id) == Project(Visit(q, streams), id)
    {
      ProjectVisit(p, streams, id);
      ProjectVisit(q, streams, id);
    }
    DrainedMergesAgree(r, Visit(p, streams), Visit(q, streams));
  }
}
