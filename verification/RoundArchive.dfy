/**
 What one round of the main loop hands to the history database, and that under every key it does
 not depend on how the operations of different peers are merged.
 */
module RoundArchive {
  import opened Octets
  import opened Cidr
  import opened Messages
  import opened HistoryDb
  import opened RibEngine
  import opened MainLoop
  import opened Collector

  /** The announcements of a batch, in order: what the update queue holds. */
  function Announced(ops: seq<Op>): seq<Update> {
    UpdatesOf(Announces(ops))
  }

  function UpdatesOf(ops: seq<Op>): seq<Update> {
    seq(|ops|, i requires 0 <= i < |ops| => ops[i].update)
  }

  lemma AnnouncedIs(ops: seq<Op>, us: seq<Update>)
    requires Announces(ops) == AsAnnounces(us)
    ensures Announced(ops) == us
  {
    hide Announces;
    assert forall i :: 0 <= i < |us| ==> AsAnnounces(us)[i].update == us[i];
  }

  /** The log of an open database grows in a round by exactly the entries the batch supersedes. */
  lemma RoundExtendsLog(r: Rib, d: Db, log: seq<Update>, ops: seq<Op>)
    requires WellKeyed(r) && Holds(d, log)
    ensures Holds(DbAfter(r, d, true, Announced(ops)), log + DrainLog(r, Announced(ops)))
  {
    hide Announced, DbAfter, DrainLog, Stores, WellKeyed;
    DrainExtendsLog(r, d, log, Announced(ops));
  }

  // ---------- what a batch archives under one key ----------

  /** The updates of one peer, in their own order. */
  function OwnUpdates(us: seq<Update>, id: Word32): seq<Update> {
    if us == [] then []
    else
      var u := us[|us| - 1];
      OwnUpdates(us[..|us| - 1], id) + (if u.nlri.bgpId == id then [u] else [])
  }

  lemma AsAnnouncesSnoc(us: seq<Update>, u: Update)
    ensures AsAnnounces(us + [u]) == AsAnnounces(us) + [Announcing(u)]
  {
  }

  lemma {:induction false} OwnAnnounces(us: seq<Update>, id: Word32)
    ensures Project(AsAnnounces(us), id) == AsAnnounces(OwnUpdates(us, id))
    decreases |us|
  {
    if us != [] {
      hide Project, AsAnnounces;
      var rest, u := us[..|us| - 1], us[|us| - 1];
      assert rest + [u] == us;
      OwnAnnounces(rest, id);
      AsAnnouncesSnoc(rest, u);
      AsAnnouncesSnoc(OwnUpdates(rest, id), u);
      ProjectSnoc(AsAnnounces(rest), Announcing(u), id);
      assert OwnUpdates(rest, id) + [] == OwnUpdates(rest, id);
    }
  }

  lemma ArchivedIsLocal(a: Rib, b: Rib, u: Update)
    requires SameFor(a, b, u.nlri.bgpId)
    ensures Archived(a, u) == Archived(b, u)
  {
    assert Entry(a, KeyOf(u)) == Entry(b, KeyOf(u));
  }

  lemma ArchivedUnderKey(r: Rib, u: Update)
    requires WellKeyed(r)
    ensures |Archived(r, u)| <= 1 && (Archived(r, u) != [] ==> KeyOf(Archived(r, u)[0]) == KeyOf(u))
  {
  }

  lemma HistoryConcat(log: seq<Update>, more: seq<Update>, k: Key)
    requires |more| <= 1
    ensures History(log + more, k) == History(log, k) + (if more != [] && KeyOf(more[0]) == k then more else [])
  {
    if more == [] {
      assert log + more == log;
    } else {
      assert (log + more)[..|log|] == log;
    }
  }

  lemma DrainLogSnoc(r: Rib, us: seq<Update>, u: Update)
    requires WellKeyed(r)
    ensures DrainLog(r, us + [u]) == DrainLog(r, us) + Archived(Replay(r, AsAnnounces(us)), u)
  {
    hide WellKeyed, Archived, Replay;
    assert (us + [u])[..|us|] == us;
  }

  /** What is archived under a key depends only on the announcements of its own peer. */
  lemma {:induction false} HistoryIsLocal(r: Rib, us: seq<Update>, k: Key)
    requires WellKeyed(r)
    ensures History(DrainLog(r, us), k) == History(DrainLog(r, OwnUpdates(us, k.bgpId)), k)
    decreases |us|
  {
    if us != [] {
      hide WellKeyed, DrainLog, History, Archived, Replay, Project, SameFor;
      var rest, u := us[..|us| - 1], us[|us| - 1];
      assert rest + [u] == us;
      var own := OwnUpdates(rest, k.bgpId);
      assert own + [] == own;
      var more := Archived(Replay(r, AsAnnounces(rest)), u);
      HistoryIsLocal(r, rest, k);
      DrainLogSnoc(r, rest, u);
      ArchivedUnderKey(Replay(r, AsAnnounces(rest)), u);
      HistoryConcat(DrainLog(r, rest), more, k);
      if u.nlri.bgpId == k.bgpId {
        ReplayIsLocal(r, AsAnnounces(rest), k.bgpId);
        OwnAnnounces(rest, k.bgpId);
        ArchivedIsLocal(Replay(r, AsAnnounces(rest)), Replay(r, AsAnnounces(own)), u);
        DrainLogSnoc(r, own, u);
        HistoryConcat(DrainLog(r, own), more, k);
      } else {
        assert History(DrainLog(r, rest), k) + [] == History(DrainLog(r, rest), k);
      }
    }
  }

  lemma {:induction false} AllAnnouncing(ops: seq<Op>)
    ensures AsAnnounces(Announced(ops)) == Announces(ops)
    decreases |ops|
  {
    if ops != [] {
      var n := |ops| - 1;
      AllAnnouncing(ops[..n]);
      assert forall i :: 0 <= i < |Announces(ops[..n])| ==>
          Announces(ops[..n])[i] == AsAnnounces(Announced(ops[..n]))[i];
    }
  }

  lemma {:induction false} OwnOfAnnounces(us: seq<Update>, vs: seq<Update>)
    requires AsAnnounces(us) == AsAnnounces(vs)
    ensures us == vs
  {
    assert |us| == |AsAnnounces(us)| == |AsAnnounces(vs)| == |vs|;
    forall i | 0 <= i < |us|
      ensures us[i] == vs[i]
    {
      assert AsAnnounces(us)[i].update == us[i] && AsAnnounces(vs)[i].update == vs[i];
    }
  }

  /** Two merges of the same per-peer streams archive the same records under every key. */
  lemma MergesArchiveAlike(r: Rib, m: seq<Op>, n: seq<Op>, k: Key)
    requires WellKeyed(r) && Project(m, k.bgpId) == Project(n, k.bgpId)
    ensures History(DrainLog(r, Announced(m)), k) == History(DrainLog(r, Announced(n)), k)
  {
    hide WellKeyed, DrainLog, History, Project, Announced, Announces, AsAnnounces, OwnUpdates;
    var id := k.bgpId;
    HistoryIsLocal(r, Announced(m), k);
    HistoryIsLocal(r, Announced(n), k);
    AllAnnouncing(m);
    AllAnnouncing(n);
    AnnouncesOfProjection(m, id);
    AnnouncesOfProjection(n, id);
    OwnAnnounces(Announced(m), id);
    OwnAnnounces(Announced(n), id);
    OwnOfAnnounces(OwnUpdates(Announced(m), id), OwnUpdates(Announced(n), id));
  }
}
