/**
 The Adj-RIB-In as a transition system. Every step is one critical section of the RIB lock, so
 the main thread's inserts and withdraws interleave freely with the peer threads' flushes.
 A flush is two steps: the erase under the lock, and the caller's decrement afterwards.
 */
module RibEngine {
  import opened Octets
  import opened Cidr
  import opened Messages
  import opened HistoryDb

  // ---------- the RIB and its counters ----------

  datatype PeerStats = PeerStats(prefixesRx: nat, currentRx: int, implicitRx: nat, explicitRx: nat)

  const NO_STATS := PeerStats(0, 0, 0, 0)

  datatype Rib = Rib(entries: map<Key, Update>, peers: map<Word32, PeerStats>)

  /** Every entry is stored under its own key and belongs to a configured peer. */
  ghost predicate WellKeyed(r: Rib) {
    forall k :: k in r.entries ==> KeyOf(r.entries[k]) == k && k.bgpId in r.peers
  }

  /** peer_entry: insert or overwrite; an overwrite is an implicit withdraw. */
  function Announce(r: Rib, u: Update): Rib {
    var k := KeyOf(u);
    if k.bgpId !in r.peers then r
    else
      var s := r.peers[k.bgpId];
      var counted := if k in r.entries then s.(implicitRx := s.implicitRx + 1)
                     else s.(currentRx := s.currentRx + 1);
      Rib(r.entries[k := Copied(u)], r.peers[k.bgpId := counted.(prefixesRx := s.prefixesRx + 1)])
  }

  /** The entry that an announcement supersedes, handed to the database. */
  function Archived(r: Rib, u: Update): seq<Update> {
    var k := KeyOf(u);
    if k.bgpId in r.peers && k in r.entries then [r.entries[k]] else []
  }

  /** withdraw: erase the entry of the key, if there is one. Its peer is dereferenced unchecked. */
  function Withdrawn(r: Rib, k: Key): Rib
    requires k in r.entries ==> k.bgpId in r.peers
  {
    if k !in r.entries then r
    else
      var s := r.peers[k.bgpId];
      Rib(r.entries - {k},
          r.peers[k.bgpId := s.(explicitRx := s.explicitRx + 1, currentRx := s.currentRx - 1)])
  }

  function OfPeer(entries: map<Key, Update>, id: Word32): set<Key> {
    set k | k in entries && entries[k].nlri.bgpId == id
  }

  /** The first of a non-empty set of keys in the order of the RIB. */
  ghost predicate IsFirst(keys: set<Key>, k: Key) {
    k in keys && forall j :: j in keys && j != k ==> RibLess(k, j)
  }

  /** The first entry of a peer in the order of the RIB. */
  ghost predicate FirstOfPeer(entries: map<Key, Update>, id: Word32, k: Key) {
    IsFirst(OfPeer(entries, id), k)
  }

  lemma {:induction false} FirstExists(keys: set<Key>) returns (k: Key)
    requires keys != {}
    ensures IsFirst(keys, k)
    decreases |keys|
  {
    k :| k in keys;
    if keys != {k} {
      var rest := keys - {k};
      var first := FirstExists(rest);
      RibLessIsStrictTotalOrder(k, first, first);
      if RibLess(first, k) {
        k := first;
      } else {
        forall j | j in keys && j != k
          ensures RibLess(k, j)
        {
          RibLessIsStrictTotalOrder(k, first, j);
        }
      }
    }
  }

  /** The keys in the order in which the RIB is iterated. */
  ghost function InOrder(keys: set<Key>): (ks: seq<Key>)
    ensures forall k :: k in ks <==> k in keys
    decreases |keys|
  {
    if keys == {} then []
    else
      assert exists k :: IsFirst(keys, k) by {
        var first := FirstExists(keys);
      }
      var k :| IsFirst(keys, k);
      [k] + InOrder(keys - {k})
  }

  lemma FirstIsUnique(keys: set<Key>, j: Key, k: Key)
    requires IsFirst(keys, j) && IsFirst(keys, k)
    ensures j == k
  {
    hide RibLess;
    RibLessIsStrictTotalOrder(j, k, j);
  }

  /** The iteration meets the first key first. */
  lemma InOrderStep(keys: set<Key>, k: Key)
    requires IsFirst(keys, k)
    ensures InOrder(keys) == [k] + InOrder(keys - {k})
  {
    hide RibLess;
    var first :| IsFirst(keys, first) && InOrder(keys) == [first] + InOrder(keys - {first});
    FirstIsUnique(keys, first, k);
  }

  lemma IsFirstBefore(keys: set<Key>, k: Key, j: Key)
    requires IsFirst(keys, k) && j in keys - {k}
    ensures RibLess(k, j)
  {
  }

  lemma {:induction false} InOrderIncreases(keys: set<Key>, i: nat, j: nat)
    requires i < j < |InOrder(keys)|
    ensures RibLess(InOrder(keys)[i], InOrder(keys)[j])
    decreases |keys|
  {
    hide RibLess, IsFirst;
    assert InOrder(keys)[0] in keys;
    var k := FirstExists(keys);
    InOrderStep(keys, k);
    hide InOrder;
    var rest := InOrder(keys - {k});
    if i == 0 {
      assert rest[j - 1] in keys - {k};
      IsFirstBefore(keys, k, rest[j - 1]);
    } else {
      assert k in keys by { FirstIsMember(keys, k); }
      InOrderIncreases(keys - {k}, i - 1, j - 1);
    }
  }

  lemma FirstIsMember(keys: set<Key>, k: Key)
    requires IsFirst(keys, k)
    ensures k in keys
  {
  }

  /** The entries under the keys of a sequence. */
  function EntriesAt(entries: map<Key, Update>, ks: seq<Key>): seq<Update>
    requires forall i :: 0 <= i < |ks| ==> ks[i] in entries
  {
    seq(|ks|, i requires 0 <= i < |ks| => entries[ks[i]])
  }

  /** The RIB as its iteration yields it. */
  ghost function Iterated(entries: map<Key, Update>): (us: seq<Update>) {
    EntriesAt(entries, InOrder(entries.Keys))
  }

  /** The iteration yields every entry, and nothing else. */
  lemma IteratedHas(entries: map<Key, Update>, u: Update)
    ensures u in Iterated(entries) <==> exists k :: k in entries && entries[k] == u
  {
    var ks := InOrder(entries.Keys);
    if k :| k in entries && entries[k] == u {
      assert k in ks;
      var i :| 0 <= i < |ks| && ks[i] == k;
      assert Iterated(entries)[i] == u;
    }
    if i :| 0 <= i < |ks| && Iterated(entries)[i] == u {
      assert ks[i] in entries && entries[ks[i]] == u;
    }
  }

  // ---------- the transition system ----------

  /**
   pending: peers whose flush has erased an entry that is not yet subtracted from their counter.
   flushed: how many entries each peer's flushes have subtracted so far.
   */
  datatype State = State(rib: Rib, db: Db, pending: set<Word32>, flushed: map<Word32, nat>)

  datatype Step =
    | Insert(update: Update)
    | Withdraw(update: Update)
    | FlushErase(peer: Word32, key: Key)
    | FlushDecrement(peer: Word32)
    | FlushDone(peer: Word32)

  function Initial(ids: set<Word32>): State {
    State(Rib(map[], map id | id in ids :: NO_STATS), OPENED, {}, map id | id in ids :: 0)
  }

  /**
   When a step is possible. An insert needs the database ready to write at the end of its file, and a
   withdraw that finds an entry needs the entry's peer: AlwaysPossible shows that both always hold.
   */
  ghost predicate Enabled(s: State, step: Step) {
    match step
    case Insert(_) => Ready(s.db)
    case Withdraw(u) => KeyOf(u) in s.rib.entries ==> KeyOf(u).bgpId in s.rib.peers
    case FlushErase(id, k) => id in s.rib.peers && id !in s.pending && FirstOfPeer(s.rib.entries, id, k)
    case FlushDecrement(id) => id in s.rib.peers && id in s.flushed && id in s.pending
    case FlushDone(id) => id in s.rib.peers && id !in s.pending && OfPeer(s.rib.entries, id) == {}
  }

  function Decremented(s: State, id: Word32): State
    requires id in s.rib.peers && id in s.flushed
  {
    var c := s.rib.peers[id];
    s.(rib := s.rib.(peers := s.rib.peers[id := c.(currentRx := c.currentRx - 1)]),
       pending := s.pending - {id},
       flushed := s.flushed[id := s.flushed[id] + 1])
  }

  ghost function After(s: State, step: Step): (t: State)
    requires Enabled(s, step)
  {
    match step
    case Insert(u) =>
      s.(rib := Announce(s.rib, u), db := InsertAll(s.db, Archived(s.rib, u)))
    case Withdraw(u) => s.(rib := Withdrawn(s.rib, KeyOf(u)))
    case FlushErase(id, k) =>
      s.(rib := s.rib.(entries := s.rib.entries - {k}), pending := s.pending + {id})
    case FlushDecrement(id) => Decremented(s, id)
    case FlushDone(_) => s
  }

  /** The steps can be taken one after another from s. */
  ghost predicate Runs(s: State, steps: seq<Step>)
    decreases |steps|, 0
  {
    steps != [] ==>
      var n := |steps| - 1;
      Runs(s, steps[..n]) && Enabled(Final(s, steps[..n]), steps[n])
  }

  ghost function Final(s: State, steps: seq<Step>): (t: State)
    requires Runs(s, steps)
    decreases |steps|, 1
  {
    if steps == [] then s
    else
      var n := |steps| - 1;
      After(Final(s, steps[..n]), steps[n])
  }

  // ---------- the invariant ----------

  /** What every reachable state satisfies. */
  ghost predicate Inv(s: State) {
    && WellKeyed(s.rib)
    && Ready(s.db)
    && s.pending <= s.rib.peers.Keys && s.flushed.Keys == s.rib.peers.Keys
    && forall id :: id in s.rib.peers ==> Balanced(s, id)
  }

  /** The counter equations of one peer. */
  ghost predicate Balanced(s: State, id: Word32)
    requires id in s.rib.peers && id in s.flushed
  {
    var c := s.rib.peers[id];
    && c.currentRx == |OfPeer(s.rib.entries, id)| + (if id in s.pending then 1 else 0)
    && c.prefixesRx == c.implicitRx + c.explicitRx + s.flushed[id] + c.currentRx
  }

  // ---------- every step keeps the counters exact ----------

  lemma CountAfterErase(entries: map<Key, Update>, k: Key, id: Word32)
    requires k in entries
    ensures |OfPeer(entries - {k}, id)|
         == |OfPeer(entries, id)| - (if entries[k].nlri.bgpId == id then 1 else 0)
  {
    var before, after := OfPeer(entries, id), OfPeer(entries - {k}, id);
    if entries[k].nlri.bgpId == id {
      assert before == after + {k};
    } else {
      assert before == after;
    }
  }

  lemma OwnedAfterStore(entries: map<Key, Update>, u: Update, id: Word32, k: Key)
    ensures k in OfPeer(entries[KeyOf(u) := u], id)
       <==> if k == KeyOf(u) then u.nlri.bgpId == id else k in OfPeer(entries, id)
  {
  }

  lemma CountAfterStore(entries: map<Key, Update>, u: Update, id: Word32)
    requires forall k :: k in entries ==> KeyOf(entries[k]) == k
    ensures |OfPeer(entries[KeyOf(u) := u], id)|
         == |OfPeer(entries, id)| + (if KeyOf(u) !in entries && u.nlri.bgpId == id then 1 else 0)
  {
    var before, after := OfPeer(entries, id), OfPeer(entries[KeyOf(u) := u], id);
    var k := KeyOf(u);
    assert k in before <==> k in entries && u.nlri.bgpId == id;
    hide OfPeer;
    forall j: Key
      ensures j in after <==> if j == k then u.nlri.bgpId == id else j in before
    {
      OwnedAfterStore(entries, u, id, j);
    }
    if k !in entries && u.nlri.bgpId == id {
      assert after == before + {k};
    } else {
      assert after == before;
    }
  }

  lemma CopiedKeepsKey(u: Update)
    ensures KeyOf(Copied(u)) == KeyOf(u) && Copied(u).nlri == u.nlri && Copied(Copied(u)) == Copied(u)
  {
  }

  /** A copy differs from the original only in an empty community list, which it drops. */
  lemma CopiedDropsOnly(u: Update)
    ensures Copied(u) == u <==> u.communities != Some([])
    ensures Copied(u).(communities := u.communities) == u
    ensures u.communities == Some([]) ==> Copied(u).communities == None
  {
  }

  lemma InsertBalances(s: State, u: Update, id: Word32)
    requires Inv(s) && id in s.rib.peers
    ensures var r := Announce(s.rib, u);
            && id in r.peers
            && r.peers[id].currentRx == |OfPeer(r.entries, id)| + (if id in s.pending then 1 else 0)
            && r.peers[id].prefixesRx
               == r.peers[id].implicitRx + r.peers[id].explicitRx + s.flushed[id] + r.peers[id].currentRx
  {
    hide Copied, OfPeer;
    assert Balanced(s, id);
    CopiedKeepsKey(u);
    CountAfterStore(s.rib.entries, Copied(u), id);
  }

  lemma InsertKeeps(s: State, u: Update)
    requires Inv(s) && Enabled(s, Insert(u))
    ensures Inv(After(s, Insert(u)))
  {
    hide InsertAll, OfPeer, Archived, Copied;
    var t := After(s, Insert(u));
    CopiedKeepsKey(u);
    forall id | id in t.rib.peers
      ensures Balanced(t, id)
    {
      InsertBalances(s, u, id);
    }
  }

  lemma WithdrawKeeps(s: State, u: Update)
    requires Inv(s) && Enabled(s, Withdraw(u))
    ensures Inv(After(s, Withdraw(u)))
  {
    var t := After(s, Withdraw(u));
    var k := KeyOf(u);
    if k in s.rib.entries {
      forall id | id in t.rib.peers
        ensures Balanced(t, id)
      {
        assert Balanced(s, id);
        CountAfterErase(s.rib.entries, k, id);
      }
    }
  }

  lemma FirstIsOwned(entries: map<Key, Update>, id: Word32, k: Key)
    requires FirstOfPeer(entries, id, k)
    ensures k in entries && entries[k].nlri.bgpId == id
  {
  }

  lemma EraseBalances(s: State, id: Word32, k: Key, i: Word32)
    requires i in s.rib.peers && i in s.flushed && Balanced(s, i)
    requires k in s.rib.entries && s.rib.entries[k].nlri.bgpId == id && id !in s.pending
    ensures Balanced(s.(rib := s.rib.(entries := s.rib.entries - {k}), pending := s.pending + {id}), i)
  {
    hide OfPeer;
    CountAfterErase(s.rib.entries, k, i);
  }

  lemma EraseKeeps(s: State, id: Word32, k: Key)
    requires Inv(s) && Enabled(s, FlushErase(id, k))
    ensures Inv(After(s, FlushErase(id, k)))
  {
    hide FirstOfPeer, Balanced;
    FirstIsOwned(s.rib.entries, id, k);
    var t := After(s, FlushErase(id, k));
    forall i | i in t.rib.peers
      ensures Balanced(t, i)
    {
      EraseBalances(s, id, k, i);
    }
  }

  lemma DecrementKeeps(s: State, id: Word32)
    requires Inv(s) && Enabled(s, FlushDecrement(id))
    ensures Inv(After(s, FlushDecrement(id)))
  {
    hide OfPeer;
    var t := After(s, FlushDecrement(id));
    forall i | i in t.rib.peers
      ensures Balanced(t, i)
    {
      assert Balanced(s, i);
    }
  }

  lemma DoneChangesNothing(s: State, id: Word32)
    requires Enabled(s, FlushDone(id))
    ensures After(s, FlushDone(id)) == s
  {
  }

  lemma StepKeeps(s: State, step: Step)
    requires Inv(s) && Enabled(s, step)
    ensures Inv(After(s, step))
  {
    hide Inv, Enabled, After;
    match step
    case Insert(u) => InsertKeeps(s, u);
    case Withdraw(u) => WithdrawKeeps(s, u);
    case FlushErase(id, k) => EraseKeeps(s, id, k);
    case FlushDecrement(id) => DecrementKeeps(s, id);
    case FlushDone(id) => assert After(s, step) == s by { DoneChangesNothing(s, id); }
  }

  lemma InitialInv(ids: set<Word32>)
    ensures Inv(Initial(ids))
  {
    forall id | id in ids
      ensures Balanced(Initial(ids), id)
    {
      assert OfPeer(map[], id) == {};
    }
  }

  // ---------- runs ----------

  lemma {:induction false} RunKeeps(ids: set<Word32>, steps: seq<Step>)
    requires Runs(Initial(ids), steps)
    ensures Inv(Final(Initial(ids), steps))
    decreases |steps|
  {
    hide Inv, Enabled, After;
    if steps == [] {
      InitialInv(ids);
    } else {
      var n := |steps| - 1;
      RunKeeps(ids, steps[..n]);
      StepKeeps(Final(Initial(ids), steps[..n]), steps[n]);
    }
  }

  /** In every reachable state any insert and any withdraw is possible: neither assumption ever fails. */
  lemma AlwaysPossible(ids: set<Word32>, steps: seq<Step>, u: Update)
    requires Runs(Initial(ids), steps)
    ensures Enabled(Final(Initial(ids), steps), Insert(u))
    ensures Enabled(Final(Initial(ids), steps), Withdraw(u))
  {
    hide Final;
    RunKeeps(ids, steps);
  }

  /**
   Under every interleaving, each peer's current counter is its number of RIB entries plus its
   pending flush decrement, it is never negative, and received prefixes are conserved.
   */
  lemma {:induction false} CountersExact(ids: set<Word32>, steps: seq<Step>, id: Word32)
    requires Runs(Initial(ids), steps) && id in ids
    ensures var t := Final(Initial(ids), steps);
            && id in t.rib.peers && id in t.flushed
            && var c := t.rib.peers[id];
               && c.currentRx == |OfPeer(t.rib.entries, id)| + (if id in t.pending then 1 else 0)
               && 0 <= c.currentRx
               && c.prefixesRx == c.implicitRx + c.explicitRx + t.flushed[id] + c.currentRx
  {
    hide Final;
    RunKeeps(ids, steps);
    PeersStay(Initial(ids), steps);
    assert Balanced(Final(Initial(ids), steps), id);
  }

  lemma {:induction false} PeersStay(s: State, steps: seq<Step>)
    requires Runs(s, steps)
    ensures Final(s, steps).rib.peers.Keys == s.rib.peers.Keys
    decreases |steps|
  {
    hide After, Enabled;
    if steps != [] {
      var n := |steps| - 1;
      PeersStay(s, steps[..n]);
      StepKeepsPeers(Final(s, steps[..n]), steps[n]);
    }
  }

  lemma StepKeepsPeers(s: State, step: Step)
    requires Enabled(s, step)
    ensures After(s, step).rib.peers.Keys == s.rib.peers.Keys
  {
    hide InsertAll, Archived, Copied, OfPeer;
  }

  /** Whenever a step is about to decrement a counter, the counter is positive and the peer exists. */
  lemma DecrementsAreSafe(s: State, step: Step)
    requires Inv(s) && Enabled(s, step)
    ensures step.Withdraw? && KeyOf(step.update) in s.rib.entries ==>
              var id := KeyOf(step.update).bgpId;
              id in s.rib.peers && s.rib.peers[id].currentRx >= 1
    ensures step.FlushDecrement? ==>
              step.peer in s.rib.peers && s.rib.peers[step.peer].currentRx >= 1
  {
    match step
    case Withdraw(u) =>
      var k := KeyOf(u);
      if k in s.rib.entries {
        assert Balanced(s, k.bgpId);
        assert k in OfPeer(s.rib.entries, k.bgpId);
      }
    case FlushDecrement(id) => assert Balanced(s, id);
    case _ =>
  }

  /** When the flush loop ends, the peer has no entry and its counter is zero. */
  lemma FlushEndsEmpty(s: State, id: Word32)
    requires Inv(s) && Enabled(s, FlushDone(id))
    ensures s.rib.peers[id].currentRx == 0
    ensures forall k :: k in s.rib.entries ==> k.bgpId != id
  {
    assert Balanced(s, id);
    forall k | k in s.rib.entries
      ensures k.bgpId != id
    {
      assert k !in OfPeer(s.rib.entries, id);
    }
  }

  /** Until a flush is done one of its steps is always possible: it never gets stuck. */
  lemma FlushProgress(s: State, id: Word32)
    requires Inv(s) && id in s.rib.peers
    ensures Enabled(s, FlushDecrement(id)) || Enabled(s, FlushDone(id)) || exists k :: Enabled(s, FlushErase(id, k))
  {
    if id !in s.pending && OfPeer(s.rib.entries, id) != {} {
      var k := FirstExists(OfPeer(s.rib.entries, id));
      assert Enabled(s, FlushErase(id, k));
    }
  }
}
