/**
 What the history database holds after any run of the RIB engine: for each key exactly the
 announcements that another announcement of the key directly superseded.
 */
module Archive {
  import opened Octets
  import opened Cidr
  import opened Messages
  import opened RecordCodec
  import opened HistoryDb
  import opened QueryRuns
  import opened RibEngine

  // ---------- the reference: what happened to one key ----------

  datatype KeyEvent = Announced(update: Update) | Removed

  /** The events of one step for key k, given which peers are configured. */
  function StepEvents(peers: set<Word32>, step: Step, k: Key): seq<KeyEvent> {
    match step
    case Insert(u) => if KeyOf(u) == k && k.bgpId in peers then [Announced(Copied(u))] else []
    case Withdraw(u) => if KeyOf(u) == k then [Removed] else []
    case FlushErase(_, key) => if key == k then [Removed] else []
    case FlushDecrement(_) => []
    case FlushDone(_) => []
  }

  function Events(peers: set<Word32>, steps: seq<Step>, k: Key): seq<KeyEvent> {
    if steps == [] then []
    else Events(peers, steps[..|steps| - 1], k) + StepEvents(peers, steps[|steps| - 1], k)
  }

  /** The announcements immediately followed by another announcement. */
  function Superseded(es: seq<KeyEvent>): seq<Update> {
    if |es| < 2 then []
    else
      var n := |es| - 1;
      Superseded(es[..n]) + (if es[n].Announced? && es[n - 1].Announced? then [es[n - 1].update] else [])
  }

  /** The announcement in force. */
  function Current(es: seq<KeyEvent>): Option<Update> {
    if es == [] || es[|es| - 1].Removed? then None else Some(es[|es| - 1].update)
  }

  function Announcements(es: seq<KeyEvent>): seq<Update> {
    if es == [] then []
    else
      var n := |es| - 1;
      Announcements(es[..n]) + (if es[n].Announced? then [es[n].update] else [])
  }

  lemma SupersededSnoc(es: seq<KeyEvent>, e: KeyEvent)
    ensures Superseded(es + [e])
         == Superseded(es) + (if e.Announced? && Current(es).Some? then [Current(es).value] else [])
    ensures Current(es + [e]) == if e.Announced? then Some(e.update) else None
  {
    assert (es + [e])[..|es|] == es;
  }

  // ---------- what the engine archives ----------

  /** The updates handed to the database along a run, in order. */
  ghost function Log(s: State, steps: seq<Step>): seq<Update>
    requires Runs(s, steps)
    decreases |steps|
  {
    if steps == [] then []
    else
      var n := |steps| - 1;
      var before := Final(s, steps[..n]);
      Log(s, steps[..n]) + (if steps[n].Insert? then Archived(before.rib, steps[n].update) else [])
  }

  function CountOf(log: seq<Update>, id: Word32): nat {
    if log == [] then 0
    else CountOf(log[..|log| - 1], id) + (if log[|log| - 1].nlri.bgpId == id then 1 else 0)
  }

  /** The RIB, the log and the reference agree on one key. */
  ghost predicate Agrees(t: State, log: seq<Update>, es: seq<KeyEvent>, k: Key) {
    && (k in t.rib.entries <==> Current(es).Some?)
    && (k in t.rib.entries ==> t.rib.entries[k] == Current(es).value)
    && History(log, k) == Superseded(es)
  }

  lemma HistorySnoc(log: seq<Update>, u: Update, k: Key)
    ensures History(log + [u], k) == History(log, k) + (if KeyOf(u) == k then [u] else [])
  {
    assert (log + [u])[..|log|] == log;
  }

  lemma InsertAgrees(t: State, u: Update, log: seq<Update>, es: seq<KeyEvent>, k: Key)
    requires Inv(t) && Enabled(t, Insert(u)) && Agrees(t, log, es, k)
    ensures Agrees(After(t, Insert(u)), log + Archived(t.rib, u), es + StepEvents(t.rib.peers.Keys, Insert(u), k), k)
  {
    hide Copied, InsertAll, Superseded, History, Balanced;
    var more, events := Archived(t.rib, u), StepEvents(t.rib.peers.Keys, Insert(u), k);
    assert log + [] == log && es + [] == es;
    if events != [] {
      SupersededSnoc(es, events[0]);
    }
    if more != [] {
      HistorySnoc(log, more[0], k);
    }
  }

  lemma RemovalAgrees(t: State, step: Step, log: seq<Update>, es: seq<KeyEvent>, k: Key)
    requires Inv(t) && Enabled(t, step) && Agrees(t, log, es, k) && !step.Insert?
    ensures Agrees(After(t, step), log, es + StepEvents(t.rib.peers.Keys, step, k), k)
  {
    hide Superseded, History, Balanced, FirstOfPeer, OfPeer;
    var events := StepEvents(t.rib.peers.Keys, step, k);
    assert es + [] == es;
    if events != [] {
      SupersededSnoc(es, events[0]);
    }
  }

  /** One step keeps the agreement for every key. */
  lemma StepAgrees(t: State, step: Step, log: seq<Update>, es: seq<KeyEvent>, k: Key)
    requires Inv(t) && Enabled(t, step) && Agrees(t, log, es, k)
    ensures var more := if step.Insert? then Archived(t.rib, step.update) else [];
            Agrees(After(t, step), log + more, es + StepEvents(t.rib.peers.Keys, step, k), k)
  {
    hide Inv, Enabled, After, Agrees, StepEvents, Archived;
    if step.Insert? {
      InsertAgrees(t, step.update, log, es, k);
    } else {
      RemovalAgrees(t, step, log, es, k);
      assert log + [] == log;
    }
  }

  lemma {:induction false} RunAgrees(ids: set<Word32>, steps: seq<Step>, k: Key)
    requires Runs(Initial(ids), steps)
    ensures Agrees(Final(Initial(ids), steps), Log(Initial(ids), steps), Events(ids, steps, k), k)
    decreases |steps|
  {
    hide StepEvents, Archived, Agrees, Inv, Enabled, After;
    var s := Initial(ids);
    if steps == [] {
      AgreesInitially(ids, k);
    } else {
      var n := |steps| - 1;
      RunAgrees(ids, steps[..n], k);
      RunKeeps(ids, steps[..n]);
      PeersStay(s, steps[..n]);
      assert s.rib.peers.Keys == ids;
      StepAgrees(Final(s, steps[..n]), steps[n], Log(s, steps[..n]), Events(ids, steps[..n], k), k);
      assert Final(s, steps) == After(Final(s, steps[..n]), steps[n]);
    }
  }

  lemma AgreesInitially(ids: set<Word32>, k: Key)
    ensures Agrees(Initial(ids), [], [], k)
  {
  }

  // ---------- the database holds the log ----------

  lemma {:induction false} InsertAllHolds(db: Db, log: seq<Update>, us: seq<Update>)
    requires Holds(db, log)
    ensures Holds(InsertAll(db, us), log + us)
    decreases |us|
  {
    hide HistoryDb.Insert, Holds;
    assert Ready(db) by { HoldsAtEnd(db, log); }
    if us == [] {
      assert log + us == log;
    } else {
      var n := |us| - 1;
      InsertAllHolds(db, log, us[..n]);
      InsertHolds(InsertAll(db, us[..n]), log + us[..n], us[n]);
      assert log + us[..n] + [us[n]] == log + us;
    }
  }

  lemma HoldsAtEnd(db: Db, log: seq<Update>)
    requires Holds(db, log)
    ensures Ready(db)
  {
  }

  lemma {:induction false} DatabaseHoldsLog(ids: set<Word32>, steps: seq<Step>)
    requires Runs(Initial(ids), steps)
    ensures Holds(Final(Initial(ids), steps).db, Log(Initial(ids), steps))
    decreases |steps|
  {
    hide Archived, Inv, Enabled, Holds, InsertAll, Announce, Withdrawn;
    var s := Initial(ids);
    if steps == [] {
      HoldsNothing();
    } else {
      var n := |steps| - 1;
      var before, log := Final(s, steps[..n]), Log(s, steps[..n]);
      DatabaseHoldsLog(ids, steps[..n]);
      if steps[n].Insert? {
        InsertAllHolds(before.db, log, Archived(before.rib, steps[n].update));
      } else {
        assert log + [] == log;
      }
    }
  }

  lemma HoldsNothing()
    ensures Holds(OPENED, [])
  {
  }

  // ---------- main results ----------

  /**
   For every run of the engine and every key: the archived records of the key are exactly the
   announcements directly superseded by another announcement of it, in order; the RIB entry is the
   announcement in force.
   */
  lemma ArchiveIsExact(ids: set<Word32>, steps: seq<Step>, k: Key)
    requires Runs(Initial(ids), steps)
    ensures var es, t := Events(ids, steps, k), Final(Initial(ids), steps);
            && Holds(t.db, Log(Initial(ids), steps))
            && History(Log(Initial(ids), steps), k) == Superseded(es)
            && (k in t.rib.entries <==> Current(es).Some?)
            && (k in t.rib.entries ==> t.rib.entries[k] == Current(es).value)
  {
    hide Holds, Final, Log;
    RunAgrees(ids, steps, k);
    DatabaseHoldsLog(ids, steps);
  }

  /**
   End to end: a history query after any run returns the last 1000 superseded announcements of the
   key, newest first, if their records start below 2 GiB; while the file is below 4 GiB, only then.
   */
  lemma QueryAfterRun(ids: set<Word32>, steps: seq<Step>, k: Key)
    requires Runs(Initial(ids), steps)
    ensures var db, log := Final(Initial(ids), steps).db, Log(Initial(ids), steps);
            && (Addressable(log, k, 1000) ==>
                  && Query(db, k).Some?
                  && Query(db, k).value.0 == NewestFirst(Retained(Superseded(Events(ids, steps, k)), 1000)))
            && (|db.file| <= 0x1_0000_0000 ==> (Query(db, k).Some? <==> Addressable(log, k, 1000)))
            && (|db.file| <= 0x8000_0000 ==> Addressable(log, k, 1000))
  {
    hide Stores, Final, Log, Query, Superseded, Events, History, Retained, Addressable;
    ArchiveIsExact(ids, steps, k);
    CapStays(Initial(ids), steps);
    QueryReturnsHistory(Final(Initial(ids), steps).db, Log(Initial(ids), steps), k);
  }

  lemma {:induction false} CapStays(s: State, steps: seq<Step>)
    requires Runs(s, steps)
    ensures Final(s, steps).db.maxRecords == s.db.maxRecords
    decreases |steps|
  {
    hide Announce, Withdrawn, InsertAll;
    if steps != [] {
      CapStays(s, steps[..|steps| - 1]);
    }
  }

  lemma {:induction false} WithoutRemoval(es: seq<KeyEvent>)
    requires es != [] && KeyEvent.Removed !in es
    ensures Current(es).Some?
    ensures Superseded(es) + [Current(es).value] == Announcements(es)
    decreases |es|
  {
    var n := |es| - 1;
    assert es[n] in es;
    if n > 0 {
      assert es[n - 1] in es;
      WithoutRemoval(es[..n]);
      assert es[..n] + [es[n]] == es;
      SupersededSnoc(es[..n], es[n]);
    } else {
      assert es[..0] == [];
      assert Announcements(es[..0]) == [];
    }
  }

  /** The announcements of a key that a run enters, in order. */
  function Entered(steps: seq<Step>, k: Key): seq<Update> {
    if steps == [] then []
    else
      var step := steps[|steps| - 1];
      Entered(steps[..|steps| - 1], k) + (if step.Insert? && KeyOf(step.update) == k then [Copied(step.update)] else [])
  }

  predicate Removes(step: Step, k: Key) {
    (step.Withdraw? && KeyOf(step.update) == k) || (step.FlushErase? && step.key == k)
  }

  lemma {:induction false} EventsWithoutRemoval(ids: set<Word32>, steps: seq<Step>, k: Key)
    requires k.bgpId in ids && forall i :: 0 <= i < |steps| ==> !Removes(steps[i], k)
    ensures KeyEvent.Removed !in Events(ids, steps, k)
    ensures Announcements(Events(ids, steps, k)) == Entered(steps, k)
    ensures Events(ids, steps, k) == [] <==> Entered(steps, k) == []
    decreases |steps|
  {
    hide Copied;
    if steps != [] {
      var n := |steps| - 1;
      assert !Removes(steps[n], k);
      EventsWithoutRemoval(ids, steps[..n], k);
      AnnouncementsConcat(Events(ids, steps[..n], k), StepEvents(ids, steps[n], k));
    }
  }

  lemma AnnouncementsConcat(es: seq<KeyEvent>, more: seq<KeyEvent>)
    requires |more| <= 1
    ensures Announcements(es + more)
         == Announcements(es) + (if more != [] && more[0].Announced? then [more[0].update] else [])
  {
    if more == [] {
      assert es + more == es;
    } else {
      assert (es + more)[..|es|] == es;
    }
  }

  /**
   In every run without a withdraw or flush of the key, the archived records of the key followed by
   its RIB entry are all the announcements of it, in order.
   */
  lemma NothingIsLost(ids: set<Word32>, steps: seq<Step>, k: Key)
    requires Runs(Initial(ids), steps) && k.bgpId in ids
    requires forall i :: 0 <= i < |steps| ==> !Removes(steps[i], k)
    ensures var t, history := Final(Initial(ids), steps), History(Log(Initial(ids), steps), k);
            && (k in t.rib.entries <==> Entered(steps, k) != [])
            && (k in t.rib.entries ==> history + [t.rib.entries[k]] == Entered(steps, k))
            && (k !in t.rib.entries ==> history == [])
  {
    hide Final, Log, History, Removes, Announcements, Entered, Runs;
    var es := Events(ids, steps, k);
    ArchiveIsExact(ids, steps, k);
    EventsWithoutRemoval(ids, steps, k);
    if es != [] {
      WithoutRemoval(es);
    }
  }

  // ---------- after a flush ----------

  lemma {:induction false} EventsConcat(ids: set<Word32>, a: seq<Step>, b: seq<Step>, k: Key)
    ensures Events(ids, a + b, k) == Events(ids, a, k) + Events(ids, b, k)
    decreases |b|
  {
    hide StepEvents;
    if b == [] {
      assert a + b == a;
    } else {
      EventsConcat(ids, a, b[..|b| - 1], k);
      assert (a + b)[..|a + b| - 1] == a + b[..|b| - 1];
    }
  }

  lemma {:induction false} RunsBefore(s: State, before: seq<Step>, more: seq<Step>)
    requires Runs(s, before + more)
    ensures Runs(s, before)
    decreases |more|
  {
    hide After, Enabled;
    if more == [] {
      assert before + more == before;
    } else {
      assert (before + more)[..|before + more| - 1] == before + more[..|more| - 1];
      RunsBefore(s, before, more[..|more| - 1]);
    }
  }

  lemma FlushedIsEmpty(ids: set<Word32>, steps: seq<Step>, id: Word32, k: Key)
    requires Runs(Initial(ids), steps) && steps != [] && steps[|steps| - 1] == FlushDone(id) && k.bgpId == id
    ensures k !in Final(Initial(ids), steps).rib.entries
  {
    hide Inv;
    var n := |steps| - 1;
    RunKeeps(ids, steps[..n]);
    FlushEndsEmpty(Final(Initial(ids), steps[..n]), id);
  }

  /**
   After the last flush call of a peer, for every run that goes on from there: the RIB has an entry of
   the peer under a key exactly when the steps since then announced the key and did not remove it again.
   */
  lemma EmptyAfterFlushIff(ids: set<Word32>, before: seq<Step>, more: seq<Step>, k: Key)
    requires Runs(Initial(ids), before + more)
    requires before != [] && before[|before| - 1] == FlushDone(k.bgpId)
    ensures k in Final(Initial(ids), before + more).rib.entries <==> Current(Events(ids, more, k)).Some?
    ensures k in Final(Initial(ids), before + more).rib.entries ==>
              Final(Initial(ids), before + more).rib.entries[k] == Current(Events(ids, more, k)).value
  {
    hide Final, Runs, Log, Events, Superseded, History;
    RunsBefore(Initial(ids), before, more);
    FlushedIsEmpty(ids, before, k.bgpId, k);
    RunAgrees(ids, before, k);
    RunAgrees(ids, before + more, k);
    EventsConcat(ids, before, more, k);
  }

  /** So the peer stays without entries exactly when no key of it is announced and kept afterwards. */
  lemma StaysEmptyIff(ids: set<Word32>, before: seq<Step>, more: seq<Step>, id: Word32)
    requires Runs(Initial(ids), before + more) && before != [] && before[|before| - 1] == FlushDone(id)
    ensures OfPeer(Final(Initial(ids), before + more).rib.entries, id) == {}
       <==> forall k: Key :: k.bgpId == id ==> Current(Events(ids, more, k)).None?
  {
    hide Final, Runs, Events, Current, OfPeer;
    forall k: Key | k.bgpId == id
      ensures k in Final(Initial(ids), before + more).rib.entries <==> Current(Events(ids, more, k)).Some?
    {
      EmptyAfterFlushIff(ids, before, more, k);
    }
    RunKeeps(ids, before + more);
    OwnedByKey(Final(Initial(ids), before + more), id);
  }

  lemma OwnedByKey(t: State, id: Word32)
    requires Inv(t)
    ensures OfPeer(t.rib.entries, id) == {} <==> forall k: Key :: k.bgpId == id ==> k !in t.rib.entries
  {
    if OfPeer(t.rib.entries, id) == {} {
      forall k: Key | k.bgpId == id
        ensures k !in t.rib.entries
      {
        assert k !in OfPeer(t.rib.entries, id);
      }
    }
  }

  /** The smallest run: an announcement still queued when the flush ends brings the peer's route back. */
  lemma LateInsertSurvivesFlush(ids: set<Word32>, before: seq<Step>, u: Update)
    requires Runs(Initial(ids), before) && u.nlri.bgpId in ids
    requires before != [] && before[|before| - 1] == FlushDone(u.nlri.bgpId)
    ensures Runs(Initial(ids), before + [Insert(u)])
    ensures OfPeer(Final(Initial(ids), before + [Insert(u)]).rib.entries, u.nlri.bgpId) != {}
  {
    hide Final, Enabled, OfPeer, Current;
    var more, k := [Insert(u)], KeyOf(u);
    assert (before + more)[..|before|] == before;
    AlwaysPossible(ids, before, u);
    assert Current(Events(ids, more, k)).Some? by { OneAnnouncement(ids, u); }
    StaysEmptyIff(ids, before, more, k.bgpId);
  }

  lemma OneAnnouncement(ids: set<Word32>, u: Update)
    requires u.nlri.bgpId in ids
    ensures Current(Events(ids, [Insert(u)], KeyOf(u))).Some?
  {
    hide Copied;
    assert [Insert(u)][..0] == [];
    assert Events(ids, [Insert(u)], KeyOf(u)) == [] + StepEvents(ids, Insert(u), KeyOf(u));
  }

  // ---------- history queries between the steps ----------

  /** A step of the engine, or a history query of the API. */
  datatype Act = Engine(step: Step) | Asked(key: Key)

  function EngineSteps(acts: seq<Act>): seq<Step> {
    if acts == [] then []
    else
      var act := acts[|acts| - 1];
      EngineSteps(acts[..|acts| - 1]) + (if act.Engine? then [act.step] else [])
  }

  lemma EngineRunsBefore(s: State, acts: seq<Act>)
    requires acts != [] && Runs(s, EngineSteps(acts))
    ensures Runs(s, EngineSteps(acts[..|acts| - 1]))
  {
    hide Enabled;
    var before := EngineSteps(acts[..|acts| - 1]);
    if acts[|acts| - 1].Engine? {
      assert EngineSteps(acts)[..|before|] == before;
    } else {
      assert before + [] == before;
    }
  }

  /** What the acts do to the database: the engine inserts what it supersedes, the API queries. */
  ghost function DbSteps(s: State, acts: seq<Act>): seq<DbStep>
    requires Runs(s, EngineSteps(acts))
    decreases |acts|
  {
    if acts == [] then []
    else
      var before, act := acts[..|acts| - 1], acts[|acts| - 1];
      EngineRunsBefore(s, acts);
      DbSteps(s, before) +
      match act
      case Asked(k) => [Ask(k)]
      case Engine(step) =>
        if !step.Insert? then []
        else
          var a := Archived(Final(s, EngineSteps(before)).rib, step.update);
          if a == [] then [] else [Put(a[0])]
  }

  lemma StoredConcat(steps: seq<DbStep>, more: seq<DbStep>)
    requires |more| <= 1
    ensures Stored(steps + more) == Stored(steps) + (if more != [] && more[0].Put? then [more[0].update] else [])
  {
    if more == [] {
      assert steps + more == steps;
    } else {
      assert (steps + more)[..|steps|] == steps;
    }
  }

  lemma LogSnocStep(s: State, before: seq<Step>, step: Step)
    requires Runs(s, before + [step])
    ensures Runs(s, before)
    ensures var a := if step.Insert? then Archived(Final(s, before).rib, step.update) else [];
            Log(s, before + [step]) == Log(s, before) + a && |a| <= 1
  {
    hide Enabled, After;
    assert (before + [step])[..|before|] == before;
  }

  /** What is inserted is what the engine archives, whatever is queried in between. */
  lemma {:induction false} StoredIsLog(s: State, acts: seq<Act>)
    requires Runs(s, EngineSteps(acts))
    ensures Stored(DbSteps(s, acts)) == Log(s, EngineSteps(acts))
    decreases |acts|
  {
    hide Enabled, Archived, Runs, Log, Final, Stored;
    if acts == [] {
      NothingStored(s);
    } else {
      var before, act := acts[..|acts| - 1], acts[|acts| - 1];
      EngineRunsBefore(s, acts);
      StoredIsLog(s, before);
      var more := DbSteps(s, acts)[|DbSteps(s, before)|..];
      assert DbSteps(s, acts) == DbSteps(s, before) + more;
      StoredConcat(DbSteps(s, before), more);
      if act.Engine? {
        LogSnocStep(s, EngineSteps(before), act.step);
      } else {
        assert EngineSteps(before) + [] == EngineSteps(before);
      }
    }
  }

  lemma NothingStored(s: State)
    ensures Stored([]) == [] && Log(s, []) == []
  {
  }

  /**
   For every interleaving of engine steps and history queries: the database stands for the archive of
   the run if and only if every insert found the joint position at the end of the file. For runs up to
   4 GiB, or with addressable queries, the steps alone decide that.
   */
  lemma ArchiveWithQueriesIff(ids: set<Word32>, acts: seq<Act>)
    requires Runs(Initial(ids), EngineSteps(acts))
    requires DbRun(DbSteps(Initial(ids), acts)).Some?
    ensures var steps := DbSteps(Initial(ids), acts);
            && (Stores(DbRun(steps).value, Log(Initial(ids), EngineSteps(acts))) <==> WritesAtEnd(steps))
            && (Trusted(steps) ==> (WritesAtEnd(steps) <==> Clean(steps)))
  {
    hide Runs, DbRun, DbSteps, Log, Stores, Clean, EngineSteps, WritesAtEnd, Trusted;
    StoredIsLog(Initial(ids), acts);
    var steps := DbSteps(Initial(ids), acts);
    StoresIff(steps);
    if Trusted(steps) {
      CleanIff(steps);
    }
  }

  /** Then a query between the steps returns the superseded announcements of its key, newest first. */
  lemma QueryBetweenSteps(ids: set<Word32>, acts: seq<Act>, k: Key)
    requires Runs(Initial(ids), EngineSteps(acts))
    requires Clean(DbSteps(Initial(ids), acts)) && AsksAddressable(DbSteps(Initial(ids), acts))
    requires Addressable(Log(Initial(ids), EngineSteps(acts)), k, MAX_RECORDS)
    ensures var db, es := DbRun(DbSteps(Initial(ids), acts)), Events(ids, EngineSteps(acts), k);
            && db.Some? && Query(db.value, k).Some?
            && Query(db.value, k).value.0 == NewestFirst(Retained(Superseded(es), MAX_RECORDS))
  {
    hide Runs, DbRun, DbSteps, Log, Addressable, AsksAddressable, Clean, EngineSteps, Query, Retained, History;
    hide Events, Superseded, Holds;
    StoredIsLog(Initial(ids), acts);
    CleanRunReturns(DbSteps(Initial(ids), acts), k);
    ArchiveIsExact(ids, EngineSteps(acts), k);
  }

  // ---------- counters ----------

  /** The announcements that a run enters for a peer. */
  function EnteredBy(steps: seq<Step>, id: Word32): nat {
    if steps == [] then 0
    else
      var step := steps[|steps| - 1];
      EnteredBy(steps[..|steps| - 1], id) + (if step.Insert? && step.update.nlri.bgpId == id then 1 else 0)
  }

  lemma ReceivedStep(t: State, step: Step, id: Word32)
    requires Enabled(t, step) && id in t.rib.peers && id in After(t, step).rib.peers
    ensures After(t, step).rib.peers[id].prefixesRx
         == t.rib.peers[id].prefixesRx + (if step.Insert? && step.update.nlri.bgpId == id then 1 else 0)
  {
    hide InsertAll, Copied, Archived, OfPeer;
  }

  /** In every run, a peer's received counter is the number of announcements entered for it. */
  lemma {:induction false} ReceivedIsEntered(ids: set<Word32>, steps: seq<Step>, id: Word32)
    requires Runs(Initial(ids), steps) && id in ids
    ensures id in Final(Initial(ids), steps).rib.peers
    ensures Final(Initial(ids), steps).rib.peers[id].prefixesRx == EnteredBy(steps, id)
    decreases |steps|
  {
    hide Enabled, After;
    var s := Initial(ids);
    PeersStay(s, steps);
    if steps != [] {
      var n := |steps| - 1;
      PeersStay(s, steps[..n]);
      ReceivedIsEntered(ids, steps[..n], id);
      ReceivedStep(Final(s, steps[..n]), steps[n], id);
    }
  }


  lemma {:induction false} CountOfConcat(log: seq<Update>, u: Update, id: Word32)
    ensures CountOf(log + [u], id) == CountOf(log, id) + (if u.nlri.bgpId == id then 1 else 0)
  {
    assert (log + [u])[..|log|] == log;
  }

  /** A peer's implicit withdraws are exactly the records archived under its identifier. */
  lemma {:induction false} ImplicitWithdrawsAreArchived(ids: set<Word32>, steps: seq<Step>, id: Word32)
    requires Runs(Initial(ids), steps) && id in ids
    ensures id in Final(Initial(ids), steps).rib.peers
    ensures Final(Initial(ids), steps).rib.peers[id].implicitRx == CountOf(Log(Initial(ids), steps), id)
    decreases |steps|
  {
    hide InsertAll, Copied;
    var s := Initial(ids);
    PeersStay(s, steps);
    if steps != [] {
      var n := |steps| - 1;
      var before, log := Final(s, steps[..n]), Log(s, steps[..n]);
      PeersStay(s, steps[..n]);
      RunKeeps(ids, steps[..n]);
      ImplicitWithdrawsAreArchived(ids, steps[..n], id);
      ImplicitStep(before, steps[n], log, id);
      assert Final(s, steps) == After(before, steps[n]);
    }
  }

  lemma ImplicitStep(t: State, step: Step, log: seq<Update>, id: Word32)
    requires Inv(t) && Enabled(t, step) && id in t.rib.peers
    requires t.rib.peers[id].implicitRx == CountOf(log, id)
    ensures var more := if step.Insert? then Archived(t.rib, step.update) else [];
            && id in After(t, step).rib.peers
            && After(t, step).rib.peers[id].implicitRx == CountOf(log + more, id)
  {
    hide InsertAll, Copied, CountOf;
    var more := if step.Insert? then Archived(t.rib, step.update) else [];
    assert log + [] == log;
    if more != [] {
      CountOfConcat(log, more[0], id);
    }
  }
}
