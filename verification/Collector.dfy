/**
 The BGP instance's RIB side as an object: the peers with their counters, the ordered map, the two
 queues and the database, updated in place. Each method is proved against RibEngine and MainLoop.
 */
module Collector {
  import opened Octets
  import opened Cidr
  import opened Messages
  import opened HistoryDb
  import opened DatabaseStore
  import opened RibEngine
  import opened MainLoop
  import opened LookupApi

  datatype PeerRecord = PeerRecord(bgpId: Word32, stats: PeerStats)

  /** The configured peers by identifier. */
  function PeerMap(q: seq<PeerRecord>): map<Word32, PeerStats> {
    if q == [] then map[]
    else PeerMap(q[..|q| - 1])[q[|q| - 1].bgpId := q[|q| - 1].stats]
  }

  ghost predicate DistinctIds(q: seq<PeerRecord>) {
    forall i, j :: 0 <= i < j < |q| ==> q[i].bgpId != q[j].bgpId
  }

  lemma {:induction false} PeerMapHas(q: seq<PeerRecord>, id: Word32)
    ensures id in PeerMap(q) <==> exists i :: 0 <= i < |q| && q[i].bgpId == id
    decreases |q|
  {
    if q != [] {
      var n := |q| - 1;
      PeerMapHas(q[..n], id);
      if i :| 0 <= i < |q| && q[i].bgpId == id {
        assert i < n ==> q[..n][i].bgpId == id;
      }
    }
  }

  lemma {:induction false} PeerMapAt(q: seq<PeerRecord>, i: nat)
    requires DistinctIds(q) && i < |q|
    ensures q[i].bgpId in PeerMap(q) && PeerMap(q)[q[i].bgpId] == q[i].stats
    decreases |q|
  {
    var n := |q| - 1;
    if i < n {
      PeerMapAt(q[..n], i);
    }
  }

  lemma {:induction false} PeerMapUpdate(q: seq<PeerRecord>, i: nat, s: PeerStats)
    requires DistinctIds(q) && i < |q|
    ensures PeerMap(q[i := PeerRecord(q[i].bgpId, s)]) == PeerMap(q)[q[i].bgpId := s]
    decreases |q|
  {
    var n := |q| - 1;
    var q' := q[i := PeerRecord(q[i].bgpId, s)];
    if i < n {
      PeerMapUpdate(q[..n], i, s);
      assert q'[..n] == q[..n][i := PeerRecord(q[i].bgpId, s)];
    } else {
      assert q'[..n] == q[..n];
    }
  }

  function AsAnnounces(us: seq<Update>): seq<Op> {
    seq(|us|, i requires 0 <= i < |us| => Announcing(us[i]))
  }

  function AsWithdraws(us: seq<Update>): seq<Op> {
    seq(|us|, i requires 0 <= i < |us| => Withdrawing(us[i]))
  }

  /** Only entries of the peer were erased. */
  ghost predicate OthersKept(was: map<Key, Update>, now: map<Key, Update>, id: Word32) {
    && (forall k :: k in now ==> k in was && now[k] == was[k])
    && (forall k :: k in was && was[k].nlri.bgpId != id ==> k in now)
  }

  lemma NotOfPeer(entries: map<Key, Update>, id: Word32, k: Key)
    requires k in entries && OfPeer(entries, id) == {}
    ensures entries[k].nlri.bgpId != id
  {
    assert k !in OfPeer(entries, id);
  }

  /** The database after the announcements us are entered in order, if it is open. */
  ghost function DbAfter(r: Rib, d: Db, isOpen: bool, us: seq<Update>): (e: Db)
    requires WellKeyed(r) && d.cursor <= |d.file|
    ensures e.cursor <= |e.file|
    decreases |us|
  {
    if us == [] then d
    else
      var n := |us| - 1;
      DbAfterOne(Replay(r, AsAnnounces(us[..n])), DbAfter(r, d, isOpen, us[..n]), isOpen, us[n])
  }

  ghost function DbAfterOne(r: Rib, d: Db, isOpen: bool, u: Update): (e: Db)
    requires d.cursor <= |d.file|
    ensures e.cursor <= |e.file|
  {
    if isOpen && Archived(r, u) != [] then HistoryDb.Insert(d, Archived(r, u)[0]) else d
  }

  lemma NothingDrained(r: Rib, d: Db, isOpen: bool)
    requires WellKeyed(r) && d.cursor <= |d.file|
    ensures Replay(r, []) == r && DbAfter(r, d, isOpen, []) == d
  {
  }

  lemma DrainedOneMore(r: Rib, d: Db, isOpen: bool, us: seq<Update>, i: nat)
    requires WellKeyed(r) && d.cursor <= |d.file| && i < |us|
    ensures var before := Replay(r, AsAnnounces(us[..i]));
            && Replay(r, AsAnnounces(us[..i + 1])) == Announce(before, us[i])
            && DbAfter(r, d, isOpen, us[..i + 1]) == DbAfterOne(before, DbAfter(r, d, isOpen, us[..i]), isOpen, us[i])
  {
    hide Announce, DbAfterOne, WellKeyed;
    assert us[..i + 1][..i] == us[..i];
    assert AsAnnounces(us[..i + 1])[..i] == AsAnnounces(us[..i]);
  }

  /** The entries superseded while the announcements us are entered in order. */
  ghost function DrainLog(r: Rib, us: seq<Update>): seq<Update>
    requires WellKeyed(r)
    decreases |us|
  {
    if us == [] then []
    else
      var n := |us| - 1;
      DrainLog(r, us[..n]) + Archived(Replay(r, AsAnnounces(us[..n])), us[n])
  }

  /** Draining into an open database that holds a log extends the log by the superseded entries. */
  lemma {:induction false} DrainExtendsLog(r: Rib, d: Db, log: seq<Update>, us: seq<Update>)
    requires WellKeyed(r) && Holds(d, log) && d.cursor <= |d.file|
    ensures Holds(DbAfter(r, d, true, us), log + DrainLog(r, us))
    decreases |us|
  {
    hide Holds, HistoryDb.Insert, Archived, Replay;
    if us == [] {
      assert log + [] == log;
    } else {
      var n := |us| - 1;
      DrainExtendsLog(r, d, log, us[..n]);
      var more := Archived(Replay(r, AsAnnounces(us[..n])), us[n]);
      assert log + DrainLog(r, us) == log + DrainLog(r, us[..n]) + more;
      if more != [] {
        AtMostOneArchived(Replay(r, AsAnnounces(us[..n])), us[n]);
        InsertHolds(DbAfter(r, d, true, us[..n]), log + DrainLog(r, us[..n]), more[0]);
        assert more == [more[0]];
      } else {
        assert log + DrainLog(r, us[..n]) + [] == log + DrainLog(r, us[..n]);
      }
    }
  }

  lemma AtMostOneArchived(r: Rib, u: Update)
    ensures |Archived(r, u)| <= 1
  {
  }

  /** The least key of a non-empty set: the next one an in-order traversal meets. */
  method LeastKey(keys: set<Key>) returns (least: Key)
    requires keys != {}
    ensures least in keys && forall j :: j in keys && j != least ==> RibLess(least, j)
  {
    hide RibLess;
    var first :| first in keys;
    least := first;
    var rest := keys - {least};
    while rest != {}
      invariant rest < keys && least in keys - rest
      invariant forall j :: j in keys - rest && j != least ==> RibLess(least, j)
      decreases rest
    {
      var x :| x in rest;
      if RibLess(x, least) {
        forall j | j in keys - rest && j != least
          ensures RibLess(x, j)
        {
          RibLessIsStrictTotalOrder(x, least, j);
        }
        RibLessIsStrictTotalOrder(x, least, least);
        least := x;
      } else {
        RibLessIsStrictTotalOrder(x, least, least);
      }
      rest := rest - {x};
    }
  }

  /** An iteration has met the keys of done, with these entries, and the others are ahead. */
  ghost predicate Walked(entries: map<Key, Update>, done: seq<Key>, ahead: set<Key>, us: seq<Update>) {
    && done + InOrder(ahead) == InOrder(entries.Keys)
    && (forall i :: 0 <= i < |done| ==> done[i] in entries)
    && us == EntriesAt(entries, done)
  }

  lemma WalkStarts(entries: map<Key, Update>)
    ensures Walked(entries, [], entries.Keys, [])
  {
    hide InOrder;
    assert [] + InOrder(entries.Keys) == InOrder(entries.Keys);
  }

  lemma WalkStep(entries: map<Key, Update>, done: seq<Key>, ahead: set<Key>, us: seq<Update>, k: Key)
    requires Walked(entries, done, ahead, us) && IsFirst(ahead, k) && k in entries
    ensures Walked(entries, done + [k], ahead - {k}, us + [entries[k]])
  {
    hide InOrder, IsFirst;
    InOrderStep(ahead, k);
    assert done + ([k] + InOrder(ahead - {k})) == done + [k] + InOrder(ahead - {k});
  }

  lemma WalkEnds(entries: map<Key, Update>, done: seq<Key>, us: seq<Update>)
    requires Walked(entries, done, {}, us)
    ensures us == Iterated(entries)
  {
    assert done + [] == done;
  }

  /** The entries as the ordered map is iterated: the least key left, each time. */
  method Iterate(entries: map<Key, Update>) returns (us: seq<Update>)
    ensures us == Iterated(entries)
  {
    hide RibLess, Walked, Iterated;
    us := [];
    var ahead := entries.Keys;
    ghost var done := [];
    WalkStarts(entries);
    while ahead != {}
      invariant ahead <= entries.Keys && Walked(entries, done, ahead, us)
      decreases ahead
    {
      var k := LeastKey(ahead);
      WalkStep(entries, done, ahead, us, k);
      us := us + [entries[k]];
      done := done + [k];
      ahead := ahead - {k};
    }
    WalkEnds(entries, done, us);
  }

  class Bgp {
    var threadQ: seq<PeerRecord>
    var adjRibIn: map<Key, Update>
    var adjRibInQ: seq<Update>
    var adjRibInWdrawQ: seq<Update>
    var tableVersion: nat
    /** How many updates were ever pushed to the two queues. */
    ghost var pushed: nat
    const db: Database

    ghost function RibState(): Rib
      reads this
    {
      Rib(adjRibIn, PeerMap(threadQ))
    }

    /** Pushes are conserved: each is either processed, counted by the table version, or still queued. */
    ghost predicate Valid()
      reads this, db
    {
      && db.Valid()
      && DistinctIds(threadQ)
      && WellKeyed(RibState())
      && pushed == tableVersion + |adjRibInQ| + |adjRibInWdrawQ|
    }

    constructor (peers: seq<PeerRecord>)
      requires DistinctIds(peers)
      ensures Valid() && fresh(db) && threadQ == peers && adjRibIn == map[]
      ensures adjRibInQ == [] && adjRibInWdrawQ == [] && tableVersion == 0
      ensures db.isOpen && db.State() == OPENED
    {
      threadQ, adjRibIn, adjRibInQ, adjRibInWdrawQ, tableVersion, pushed := peers, map[], [], [], 0, 0;
      var store := new Database();
      var ok := store.DbOpen("/tmp/wd_db");
      db := store;
    }

    /** The first peer with the identifier, or -1. */
    method GetPeerByBgpId(id: Word32) returns (found: int)
      requires Valid()
      ensures -1 <= found < |threadQ|
      ensures 0 <= found ==> threadQ[found].bgpId == id && id in RibState().peers
                             && RibState().peers[id] == threadQ[found].stats
      ensures found < 0 ==> id !in RibState().peers
    {
      var i := 0;
      while i < |threadQ|
        invariant 0 <= i <= |threadQ|
        invariant forall j :: 0 <= j < i ==> threadQ[j].bgpId != id
      {
        if threadQ[i].bgpId == id {
          PeerMapAt(threadQ, i);
          return i;
        }
        i := i + 1;
      }
      PeerMapHas(threadQ, id);
      found := -1;
    }

    method PushAdjRibInQ(u: Update)
      requires Valid()
      modifies this`adjRibInQ, this`pushed
      ensures Valid() && adjRibInQ == old(adjRibInQ) + [Copied(u)] && pushed == old(pushed) + 1
    {
      adjRibInQ := adjRibInQ + [Copied(u)];
      pushed := pushed + 1;
    }

    method PushAdjRibInWdrawQ(u: Update)
      requires Valid()
      modifies this`adjRibInWdrawQ, this`pushed
      ensures Valid() && adjRibInWdrawQ == old(adjRibInWdrawQ) + [Copied(u)] && pushed == old(pushed) + 1
    {
      adjRibInWdrawQ := adjRibInWdrawQ + [Copied(u)];
      pushed := pushed + 1;
    }

    /** Inserts or overwrites one entry; an overwritten entry is archived first. */
    method PeerEntry(u: Update)
      requires Valid()
      modifies this`threadQ, this`adjRibIn, db
      ensures Valid() && RibState() == Announce(old(RibState()), u)
      ensures db.isOpen == old(db.isOpen)
      ensures db.State() == DbAfterOne(old(RibState()), old(db.State()), old(db.isOpen), u)
    {
      hide HistoryDb.Insert, Copied, PeerMap;
      var k := KeyOf(u);
      var p := GetPeerByBgpId(u.nlri.bgpId);
      if p < 0 {
        return;
      }
      var s := threadQ[p].stats;
      if k in adjRibIn {
        s := s.(implicitRx := s.implicitRx + 1);
        db.DbInsert(adjRibIn[k]);
      } else {
        s := s.(currentRx := s.currentRx + 1);
      }
      s := s.(prefixesRx := s.prefixesRx + 1);
      PeerMapUpdate(threadQ, p, s);
      threadQ := threadQ[p := PeerRecord(threadQ[p].bgpId, s)];
      adjRibIn := adjRibIn[k := Copied(u)];
      CopiedKeepsKey(u);
    }

    /** Erases the entry of a withdrawn prefix, if present. */
    method Withdraw(u: Update)
      requires Valid()
      modifies this`threadQ, this`adjRibIn
      ensures Valid() && RibState() == Withdrawn(old(RibState()), KeyOf(u))
    {
      hide PeerMap;
      var k := KeyOf(u);
      if k in adjRibIn {
        var p := GetPeerByBgpId(u.nlri.bgpId);
        var s := threadQ[p].stats;
        s := s.(explicitRx := s.explicitRx + 1);
        s := s.(currentRx := s.currentRx - 1);
        PeerMapUpdate(threadQ, p, s);
        threadQ := threadQ[p := PeerRecord(threadQ[p].bgpId, s)];
        adjRibIn := adjRibIn - {k};
      }
    }

    /** Erases the first entry of the peer in map order; false when there is none left. */
    method FlushPeer(id: Word32) returns (rc: bool)
      requires Valid()
      modifies this`adjRibIn
      ensures Valid()
      ensures !rc ==> adjRibIn == old(adjRibIn) && OfPeer(adjRibIn, id) == {}
      ensures rc ==> exists k :: FirstOfPeer(old(adjRibIn), id, k) && adjRibIn == old(adjRibIn) - {k}
      ensures rc ==> |OfPeer(adjRibIn, id)| == |OfPeer(old(adjRibIn), id)| - 1
      ensures OthersKept(old(adjRibIn), adjRibIn, id)
    {
      hide PeerMap, RibLess;
      var ahead := adjRibIn.Keys;
      while ahead != {}
        invariant adjRibIn == old(adjRibIn) && ahead <= adjRibIn.Keys
        invariant forall j :: j in adjRibIn && j !in ahead ==> adjRibIn[j].nlri.bgpId != id
        decreases ahead
      {
        var k := LeastKey(ahead);
        if adjRibIn[k].nlri.bgpId == id {
          assert FirstOfPeer(adjRibIn, id, k);
          CountAfterErase(adjRibIn, k, id);
          adjRibIn := adjRibIn - {k};
          return true;
        }
        ahead := ahead - {k};
      }
      rc := false;
    }

    /** api_get_prefix: the entries that the range test accepts, in the order of the RIB. */
    method ApiGetPrefix(address: Word32) returns (matches: seq<Update>)
      requires Valid()
      ensures matches == Matching(Iterated(adjRibIn), address)
    {
      var us := Iterate(adjRibIn);
      matches := GetPrefix(us, address);
    }

    /** The caller's decrement after each erase. */
    method DecrementCurrent(p: nat)
      requires Valid() && p < |threadQ|
      modifies this`threadQ
      ensures Valid()
      ensures var was := old(threadQ)[p];
              threadQ == old(threadQ)[p := PeerRecord(was.bgpId, was.stats.(currentRx := was.stats.currentRx - 1))]
    {
      hide PeerMap;
      var s := threadQ[p].stats;
      PeerMapUpdate(threadQ, p, s.(currentRx := s.currentRx - 1));
      threadQ := threadQ[p := PeerRecord(threadQ[p].bgpId, s.(currentRx := s.currentRx - 1))];
    }

    /** The flush loop of a peer thread, run without interruption. */
    method FlushRoutes(p: nat)
      requires Valid() && p < |threadQ|
      modifies this`adjRibIn, this`threadQ
      ensures Valid()
      ensures var id := old(threadQ)[p].bgpId;
              && adjRibIn == (map k | k in old(adjRibIn) && old(adjRibIn)[k].nlri.bgpId != id :: old(adjRibIn)[k])
              && threadQ == old(threadQ)[p := PeerRecord(id, old(threadQ)[p].stats.(
                              currentRx := old(threadQ)[p].stats.currentRx - |OfPeer(old(adjRibIn), id)|))]
    {
      hide PeerMap, OfPeer, WellKeyed;
      var id := threadQ[p].bgpId;
      ghost var was, stats, erased := adjRibIn, threadQ[p].stats, 0;
      var more := FlushPeer(id);
      while more
        invariant Valid() && OthersKept(was, adjRibIn, id)
        invariant threadQ == old(threadQ)[p := PeerRecord(id, stats.(currentRx := stats.currentRx - erased))]
        invariant |OfPeer(was, id)| == |OfPeer(adjRibIn, id)| + erased + (if more then 1 else 0)
        invariant !more ==> OfPeer(adjRibIn, id) == {}
        decreases |OfPeer(adjRibIn, id)|, more
      {
        DecrementCurrent(p);
        erased := erased + 1;
        more := FlushPeer(id);
      }
      forall k | k in adjRibIn
        ensures adjRibIn[k].nlri.bgpId != id
      {
        NotOfPeer(adjRibIn, id, k);
      }
    }

    /** Drains the update queue in order, one table version per update. */
    method ProcAdjRibInQueue()
      requires Valid()
      modifies this`threadQ, this`adjRibIn, this`adjRibInQ, this`tableVersion, db
      ensures Valid() && adjRibInQ == []
      ensures RibState() == Replay(old(RibState()), AsAnnounces(old(adjRibInQ)))
      ensures tableVersion == old(tableVersion) + |old(adjRibInQ)|
      ensures db.isOpen == old(db.isOpen)
      ensures db.State() == DbAfter(old(RibState()), old(db.State()), old(db.isOpen), old(adjRibInQ))
    {
      hide PeerMap, Announce, WellKeyed, DbAfterOne, Copied, Replay, DbAfter;
      ghost var all := AsAnnounces(adjRibInQ);
      ghost var us := adjRibInQ;
      ghost var i := 0;
      assert all[..0] == [] && us[..0] == [];
      NothingDrained(RibState(), db.State(), db.isOpen);
      while adjRibInQ != []
        invariant 0 <= i <= |all| && Valid() && adjRibInQ == old(adjRibInQ)[i..]
        invariant RibState() == Replay(old(RibState()), all[..i])
        invariant tableVersion == old(tableVersion) + i
        invariant db.isOpen == old(db.isOpen)
        invariant db.State() == DbAfter(old(RibState()), old(db.State()), old(db.isOpen), us[..i])
        decreases |adjRibInQ|
      {
        DrainedOneMore(old(RibState()), old(db.State()), old(db.isOpen), us, i);
        assert AsAnnounces(us[..i]) == all[..i] && AsAnnounces(us[..i + 1]) == all[..i + 1];
        PeerEntry(adjRibInQ[0]);
        adjRibInQ := adjRibInQ[1..];
        tableVersion := tableVersion + 1;
        i := i + 1;
      }
      assert all[..i] == all && us[..i] == us;
    }

    /** Drains the withdraw queue in order. */
    method ProcAdjRibWdrawQueue()
      requires Valid()
      modifies this`threadQ, this`adjRibIn, this`adjRibInWdrawQ, this`tableVersion
      ensures Valid() && adjRibInWdrawQ == []
      ensures RibState() == Replay(old(RibState()), AsWithdraws(old(adjRibInWdrawQ)))
      ensures tableVersion == old(tableVersion) + |old(adjRibInWdrawQ)|
    {
      hide PeerMap, Withdrawn, WellKeyed;
      ghost var all := AsWithdraws(adjRibInWdrawQ);
      ghost var i := 0;
      assert all[..0] == [];
      while adjRibInWdrawQ != []
        invariant 0 <= i <= |all| && Valid() && adjRibInWdrawQ == old(adjRibInWdrawQ)[i..]
        invariant RibState() == Replay(old(RibState()), all[..i])
        invariant tableVersion == old(tableVersion) + i
        decreases |adjRibInWdrawQ|
      {
        assert all[..i + 1][..i] == all[..i];
        Withdraw(adjRibInWdrawQ[0]);
        adjRibInWdrawQ := adjRibInWdrawQ[1..];
        tableVersion := tableVersion + 1;
        i := i + 1;
      }
      assert all[..i] == all;
    }

    /** The two drains of one round: the batch ops, split into the queues, is drained as specified. */
    method ProcRibQueues(ghost ops: seq<Op>)
      requires Valid()
      requires AsAnnounces(adjRibInQ) == Announces(ops) && AsWithdraws(adjRibInWdrawQ) == Withdraws(ops)
      modifies this`threadQ, this`adjRibIn, this`adjRibInQ, this`adjRibInWdrawQ, this`tableVersion, db
      ensures Valid() && adjRibInQ == [] && adjRibInWdrawQ == []
      ensures RibState() == Drain(old(RibState()), ops)
      ensures tableVersion == pushed
      ensures db.isOpen == old(db.isOpen)
      ensures db.State() == DbAfter(old(RibState()), old(db.State()), old(db.isOpen), old(adjRibInQ))
    {
      hide PeerMap, Replay, Announces, Withdraws, WellKeyed, DbAfter;
      ProcAdjRibInQueue();
      ProcAdjRibWdrawQueue();
    }
  }
}
