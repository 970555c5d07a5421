/**
 The history database in use: inserts and queries in any order. A query moves the joint position
 that the next insert writes at, so the database stands for what was inserted only under a condition.
 */
module QueryRuns {
  import opened Octets
  import opened Cidr
  import opened Messages
  import opened RecordCodec
  import opened HistoryDb

  datatype DbStep = Put(update: Update) | Ask(key: Key)

  /** The updates inserted, in order. */
  function Stored(steps: seq<DbStep>): seq<Update> {
    if steps == [] then []
    else
      var step := steps[|steps| - 1];
      Stored(steps[..|steps| - 1]) + (if step.Put? then [step.update] else [])
  }

  lemma {:induction false} DecodeEndsInside(file: seq<Octet>, pos: nat, u: Update, code: Word32)
    ensures Decode(file, pos, u, code).Some? ==> Decode(file, pos, u, code).value.1.at <= |file|
    decreases |file| - pos
  {
    hide ReadField, Apply, Overwritten;
    if pos + 4 <= |file| && ReadWord(file, pos) != END_OF_RECORD {
      ReadFieldAdvances(ReadWord(file, pos), file, pos + 4);
      var r := ReadField(ReadWord(file, pos), file, pos + 4);
      if r.Some? {
        DecodeEndsInside(file, r.value.1, Apply(u, r.value.0), ReadWord(file, pos));
      }
    }
  }

  lemma {:induction false} FetchEndsInside(file: seq<Octet>, stop: Stop, positions: seq<int>)
    requires stop.at <= |file|
    ensures Fetch(file, stop, positions).Some? ==> Fetch(file, stop, positions).value.1.at <= |file|
    decreases |positions|
  {
    hide Decode, Copied;
    if positions != [] {
      var n := |positions| - 1;
      var r := RecordAt(file, positions[n]);
      if r.Some? {
        DecodeEndsInside(file, positions[n], BLANK, 0);
        FetchEndsInside(file, r.value.1, positions[..n]);
      }
    }
  }

  /** The database after the steps, or None once a query has not returned. */
  function DbRun(steps: seq<DbStep>): (r: Option<Db>)
    ensures r.Some? ==> r.value.cursor <= |r.value.file| && r.value.maxRecords == MAX_RECORDS
  {
    if steps == [] then Some(OPENED)
    else
      match DbRun(steps[..|steps| - 1])
      case None => None
      case Some(db) =>
        match steps[|steps| - 1]
        case Put(u) => Some(Insert(db, u))
        case Ask(k) =>
          FetchEndsInside(db.file, Stop(db.cursor, db.failed), Positions(db, k));
          if Query(db, k).None? then None else Some(AfterQuery(db, k))
  }

  /** From the steps alone: an insert would write at the end of the file. */
  predicate Settled(steps: seq<DbStep>) {
    steps == [] ||
    var before, step := steps[..|steps| - 1], steps[|steps| - 1];
    match step
    case Put(_) => true
    case Ask(k) =>
      var log := Stored(before);
      var kept := Retained(History(log, k), MAX_RECORDS);
      if kept == [] then Settled(before) else |kept| == 1 && log != [] && KeyOf(log[|log| - 1]) == k
  }

  /** Every insert comes when it writes at the end of the file. */
  predicate Clean(steps: seq<DbStep>) {
    steps == [] ||
    var before, step := steps[..|steps| - 1], steps[|steps| - 1];
    Clean(before) && (step.Put? ==> Settled(before))
  }

  lemma InsertSize(db: Db, u: Update)
    requires db.cursor <= |db.file|
    ensures |Insert(db, u).file| <= |db.file| + |Encode(u)|
    ensures !Ready(db) ==> |Insert(db, u).file| < |db.file| + |Encode(u)|
  {
    hide Encode;
    EncodeNonEmpty(u);
  }

  lemma InsertIsShort(db: Db, log: seq<Update>, u: Update)
    requires db.cursor <= |db.file| <= |Flatten(log)|
    requires !Ready(db) || |db.file| < |Flatten(log)|
    ensures |Insert(db, u).file| < |Flatten(log + [u])|
  {
    hide Encode, Insert, Flatten, Ready;
    InsertSize(db, u);
    LogSnoc(log, u);
  }

  lemma StoresMeans(db: Db, log: seq<Update>)
    ensures Stores(db, log) ==> db.file == Flatten(log)
    ensures Stores(db, log) && Ready(db) <==> Holds(db, log)
  {
  }

  lemma HistoryInside(log: seq<Update>, k: Key)
    ensures History(log, k) != [] ==> log != []
  {
  }

  /** Every insert found the stream good and the joint position at the end of the file. */
  predicate WritesAtEnd(steps: seq<DbStep>)
    requires DbRun(steps).Some?
  {
    steps == [] ||
    var before, step := steps[..|steps| - 1], steps[|steps| - 1];
    WritesAtEnd(before) && (step.Put? ==> Ready(DbRun(before).value))
  }

  // ---------- when the database stands for what was inserted ----------

  /** The log is stored, or the file is too short for it. */
  ghost predicate Judged(db: Db, log: seq<Update>, atEnd: bool) {
    && (atEnd ==> Stores(db, log))
    && (!atEnd ==> |db.file| < |Flatten(log)|)
  }

  lemma PutIsJudged(db: Db, log: seq<Update>, atEnd: bool, u: Update)
    requires db.cursor <= |db.file| && Judged(db, log, atEnd)
    ensures Judged(Insert(db, u), log + [u], atEnd && Ready(db))
  {
    hide Insert, Stores, Holds, Flatten;
    StoresMeans(db, log);
    if atEnd && Ready(db) {
      InsertHolds(db, log, u);
      StoresMeans(Insert(db, u), log + [u]);
    } else {
      InsertIsShort(db, log, u);
    }
  }

  lemma AskIsJudged(db: Db, log: seq<Update>, atEnd: bool, k: Key)
    requires Judged(db, log, atEnd) && Query(db, k).Some?
    ensures Judged(AfterQuery(db, k), log, atEnd)
  {
    hide Query, Flatten, Starts, Retained, AsInt32;
  }

  lemma {:induction false} RunIsJudged(steps: seq<DbStep>)
    requires DbRun(steps).Some?
    ensures Judged(DbRun(steps).value, Stored(steps), WritesAtEnd(steps))
    decreases |steps|
  {
    hide Judged, Insert, Query, AfterQuery;
    if steps == [] {
      NothingIsJudged();
    } else {
      var before, step := steps[..|steps| - 1], steps[|steps| - 1];
      RunIsJudged(before);
      var db, log := DbRun(before).value, Stored(before);
      assert log + [] == log;
      match step
      case Put(u) => PutIsJudged(db, log, WritesAtEnd(before), u);
      case Ask(k) => AskIsJudged(db, log, WritesAtEnd(before), k);
    }
  }

  lemma NothingIsJudged()
    ensures Judged(OPENED, [], true)
  {
  }

  /**
   For every run of inserts and queries: file and index stand for exactly what was inserted if and
   only if every insert found the stream good and the joint position at the end of the file. One that
   did not is never made up for: from then on the file is too short.
   */
  lemma StoresIff(steps: seq<DbStep>)
    requires DbRun(steps).Some?
    ensures Stores(DbRun(steps).value, Stored(steps)) <==> WritesAtEnd(steps)
    ensures !WritesAtEnd(steps) ==> |DbRun(steps).value.file| < |Flatten(Stored(steps))|
  {
    hide DbRun, Stores, Holds, Flatten, WritesAtEnd;
    RunIsJudged(steps);
    StoresMeans(DbRun(steps).value, Stored(steps));
  }

  // ---------- judged from the steps alone ----------

  /** Every query asks for a key whose retained records start below 2 GiB. */
  ghost predicate AsksAddressable(steps: seq<DbStep>) {
    steps == [] ||
    var before, step := steps[..|steps| - 1], steps[|steps| - 1];
    AsksAddressable(before) && (step.Ask? ==> Addressable(Stored(before), step.key, MAX_RECORDS))
  }

  /** The positions of the run can be trusted: by size, or key by key. */
  ghost predicate Trusted(steps: seq<DbStep>) {
    |Flatten(Stored(steps))| <= 0x1_0000_0000 || AsksAddressable(steps)
  }

  lemma FlattenGrows(before: seq<DbStep>, step: DbStep)
    ensures |Flatten(Stored(before))| <= |Flatten(Stored(before + [step]))|
  {
    hide Encode, Flatten;
    assert (before + [step])[..|before|] == before;
    if step.Put? {
      LogSnoc(Stored(before), step.update);
    } else {
      assert Stored(before) + [] == Stored(before);
    }
  }

  lemma TrustedBefore(steps: seq<DbStep>)
    requires steps != [] && Trusted(steps)
    ensures Trusted(steps[..|steps| - 1])
  {
    hide Flatten, Addressable;
    var before, step := steps[..|steps| - 1], steps[|steps| - 1];
    assert before + [step] == steps;
    FlattenGrows(before, step);
  }

  lemma AskIsSettled(db: Db, before: seq<DbStep>, k: Key)
    requires db.maxRecords == MAX_RECORDS && Stores(db, Stored(before)) && Query(db, k).Some?
    requires |Flatten(Stored(before))| <= 0x1_0000_0000 || Addressable(Stored(before), k, MAX_RECORDS)
    requires Ready(db) <==> Settled(before)
    ensures Ready(AfterQuery(db, k)) <==> Settled(before + [Ask(k)])
  {
    hide Query, Flatten, History, Retained, Addressable;
    var steps, log := before + [Ask(k)], Stored(before);
    assert steps[..|steps| - 1] == before;
    QueryReturnsHistory(db, log, k);
    QueryMovesCursor(db, log, k);
    HistoryInside(log, k);
  }

  /**
   For every run up to 4 GiB, and beyond it while queries ask for addressable records only: where the
   joint position is follows from the steps alone, and so does whether every insert found it at the end.
   */
  lemma {:induction false} CleanIff(steps: seq<DbStep>)
    requires DbRun(steps).Some? && Trusted(steps)
    ensures Clean(steps) <==> WritesAtEnd(steps)
    ensures Clean(steps) ==> (Ready(DbRun(steps).value) <==> Settled(steps))
    decreases |steps|
  {
    hide Insert, Query, AfterQuery, Flatten, Stores, Settled, Addressable;
    if steps == [] {
      SettledInitially();
    } else {
      var before, step := steps[..|steps| - 1], steps[|steps| - 1];
      assert before + [step] == steps;
      TrustedBefore(steps);
      CleanIff(before);
      var db := DbRun(before).value;
      match step
      case Put(u) =>
        SettledAfterPut(before, u);
        if Clean(steps) {
          AtEndAfterPut(db, u);
        }
      case Ask(k) =>
        if Clean(before) {
          StoresIff(before);
          FlattenGrows(before, step);
          AskIsSettled(db, before, k);
        }
    }
  }

  lemma SettledInitially()
    ensures Settled([]) && Ready(OPENED)
  {
  }

  lemma SettledAfterPut(before: seq<DbStep>, u: Update)
    ensures Settled(before + [Put(u)])
  {
    hide History, Retained;
    assert (before + [Put(u)])[..|before|] == before;
  }

  lemma AtEndAfterPut(db: Db, u: Update)
    requires Ready(db)
    ensures Ready(Insert(db, u))
  {
    hide Encode;
  }

  /** Below 2 GiB everything is addressable. */
  lemma {:induction false} SmallRunsAreAddressable(steps: seq<DbStep>)
    requires |Flatten(Stored(steps))| <= 0x8000_0000
    ensures AsksAddressable(steps) && forall k :: Addressable(Stored(steps), k, MAX_RECORDS)
    decreases |steps|
  {
    hide Flatten, Addressable;
    forall k
      ensures Addressable(Stored(steps), k, MAX_RECORDS)
    {
      SmallIsAddressable(Stored(steps), k, MAX_RECORDS);
    }
    if steps != [] {
      var before, step := steps[..|steps| - 1], steps[|steps| - 1];
      assert before + [step] == steps;
      FlattenGrows(before, step);
      SmallRunsAreAddressable(before);
    }
  }

  /**
   A clean run of addressable queries never hangs, and every further addressable query returns,
   newest first, the last 1000 updates inserted under its key.
   */
  lemma {:induction false} CleanRunReturns(steps: seq<DbStep>, k: Key)
    requires Clean(steps) && AsksAddressable(steps) && Addressable(Stored(steps), k, MAX_RECORDS)
    ensures DbRun(steps).Some?
    ensures Query(DbRun(steps).value, k).Some?
    ensures Query(DbRun(steps).value, k).value.0 == NewestFirst(Retained(History(Stored(steps), k), MAX_RECORDS))
    decreases |steps|
  {
    hide Stores, Insert, Query, AfterQuery, Flatten, Retained, History, Settled, Addressable, WritesAtEnd;
    if steps != [] {
      var before, step := steps[..|steps| - 1], steps[|steps| - 1];
      if step.Ask? {
        CleanRunReturns(before, step.key);
      } else {
        CleanRunRuns(before);
      }
    }
    CleanIff(steps);
    StoresIff(steps);
    QueryReturnsHistory(DbRun(steps).value, Stored(steps), k);
  }

  /** In particular the run itself comes to its end. */
  lemma {:induction false} CleanRunRuns(steps: seq<DbStep>)
    requires Clean(steps) && AsksAddressable(steps)
    ensures DbRun(steps).Some?
    decreases |steps|
  {
    hide Insert, Query, AfterQuery, Settled, Addressable;
    if steps != [] {
      var before, step := steps[..|steps| - 1], steps[|steps| - 1];
      if step.Ask? {
        CleanRunReturns(before, step.key);
      } else {
        CleanRunRuns(before);
      }
    }
  }
}
