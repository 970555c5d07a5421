/**
 The history database: one file with one joint read/write position, and per key the positions of
 the newest records, at most maxRecords of them.
 */
module HistoryDb {
  import opened Octets
  import opened Cidr
  import opened Messages
  import opened RecordCodec

  const MAX_RECORDS := 1000

  // ---------- specification of the operations ----------

  /** failed: the last read left the stream in a failed state, and every write does nothing. */
  datatype Db = Db(file: seq<Octet>, cursor: nat, index: map<Key, seq<int>>, maxRecords: nat, failed: bool)

  const OPENED := Db([], 0, map[], MAX_RECORDS, false)

  /** An insert would write at the end of the file. */
  predicate Ready(db: Db) {
    db.cursor == |db.file| && !db.failed
  }

  /** Positions are kept as 32-bit signed integers. */
  function Int32(p: nat): int {
    var m := p % 0x1_0000_0000;
    if m < 0x8000_0000 then m else m - 0x1_0000_0000
  }

  function Positions(db: Db, k: Key): seq<int> {
    if k in db.index then db.index[k] else []
  }

  function WriteAt(file: seq<Octet>, pos: nat, s: seq<Octet>): seq<Octet>
    requires pos <= |file|
  {
    file[..pos] + s + (if pos + |s| < |file| then file[pos + |s|..] else [])
  }

  function Capped<T>(s: seq<T>, max: nat): seq<T> {
    if |s| > max then s[1..] else s
  }

  /** The position that an insert records: a failed stream has none. */
  function Recorded(db: Db): int {
    if db.failed then -1 else Int32(db.cursor)
  }

  function Insert(db: Db, u: Update): Db
    requires db.cursor <= |db.file|
  {
    var noted := db.(index := db.index[KeyOf(u) := Capped(Positions(db, KeyOf(u)) + [Recorded(db)], db.maxRecords)]);
    if db.failed then noted
    else noted.(file := WriteAt(db.file, db.cursor, Encode(u)), cursor := db.cursor + |Encode(u)|)
  }

  /** A write replaces the octets under it, lengthens the file only beyond its end, and leaves every other octet. */
  lemma WriteAtIs(file: seq<Octet>, pos: nat, s: seq<Octet>, i: nat)
    requires pos <= |file| && i < |WriteAt(file, pos, s)|
    ensures |WriteAt(file, pos, s)| == if |file| < pos + |s| then pos + |s| else |file|
    ensures WriteAt(file, pos, s)[i] == if pos <= i < pos + |s| then s[i - pos] else file[i]
  {
  }

  /** Decoding at a recorded position; seeking to a negative one fails and the reader never returns. */
  function RecordAt(file: seq<Octet>, pos: int): Option<(Update, Stop)> {
    if pos < 0 then None else Decode(file, pos, BLANK, 0)
  }

  /** Newest first: copies of the records at the positions, and how the stream is left. */
  function Fetch(file: seq<Octet>, stop: Stop, positions: seq<int>): Option<(seq<Update>, Stop)>
    decreases |positions|
  {
    if positions == [] then Some(([], stop))
    else
      match RecordAt(file, positions[|positions| - 1])
      case None => None
      case Some((u, next)) =>
        match Fetch(file, next, positions[..|positions| - 1])
        case None => None
        case Some((us, end)) => Some(([Copied(u)] + us, end))
  }

  function Query(db: Db, k: Key): Option<(seq<Update>, Stop)> {
    Fetch(db.file, Stop(db.cursor, db.failed), Positions(db, k))
  }

  // ---------- the log that a database stands for ----------

  function Flatten(log: seq<Update>): seq<Octet> {
    if log == [] then [] else Flatten(log[..|log| - 1]) + Encode(log[|log| - 1])
  }

  /** The updates of the log with key k, oldest first. */
  function History(log: seq<Update>, k: Key): seq<Update> {
    if log == [] then []
    else
      var u := log[|log| - 1];
      History(log[..|log| - 1], k) + (if KeyOf(u) == k then [u] else [])
  }

  /** Where the records of key k start in the flattened log. */
  function Starts(log: seq<Update>, k: Key): (s: seq<nat>)
    ensures |s| == |History(log, k)|
  {
    if log == [] then []
    else
      var rest := log[..|log| - 1];
      Starts(rest, k) + (if KeyOf(log[|log| - 1]) == k then [|Flatten(rest)|] else [])
  }

  /** The last max elements, or all when there are fewer. */
  function Retained<T>(s: seq<T>, max: nat): (r: seq<T>)
    ensures |r| == if |s| < max then |s| else max
  {
    if |s| > max then s[|s| - max..] else s
  }

  /** What is retained is the newest part: only the oldest elements are missing. */
  lemma RetainedIsNewest<T>(s: seq<T>, max: nat)
    ensures var r := Retained(s, max); |r| <= |s| && r == s[|s| - |r|..]
  {
  }

  function AsInt32(s: seq<nat>): (r: seq<int>)
    ensures |r| == |s|
  {
    seq(|s|, i requires 0 <= i < |s| => Int32(s[i]))
  }

  /** An update as a query gives it back: what the record keeps, copied into the result. */
  function Restored(u: Update): Update {
    Copied(Persisted(u))
  }

  function NewestFirst(us: seq<Update>): (r: seq<Update>)
    ensures |r| == |us|
  {
    seq(|us|, i requires 0 <= i < |us| => Restored(us[|us| - 1 - i]))
  }

  /** File and index stand for the log: every record in order, the newest positions of each key. */
  ghost predicate Stores(db: Db, log: seq<Update>) {
    && db.file == Flatten(log)
    && forall k :: Positions(db, k) == AsInt32(Retained(Starts(log, k), db.maxRecords))
  }

  /** The database holds the log, and an insert would write at the end of the file. */
  ghost predicate Holds(db: Db, log: seq<Update>) {
    Stores(db, log) && Ready(db)
  }

  function InsertAll(db: Db, us: seq<Update>): (r: Db)
    requires Ready(db)
    ensures Ready(r) && r.maxRecords == db.maxRecords
  {
    if us == [] then db
    else
      var before := InsertAll(db, us[..|us| - 1]);
      Insert(before, us[|us| - 1])
  }

  // ---------- inserts keep the representation ----------

  lemma LogSnoc(log: seq<Update>, u: Update)
    ensures Flatten(log + [u]) == Flatten(log) + Encode(u)
    ensures forall k :: History(log + [u], k) == History(log, k) + (if KeyOf(u) == k then [u] else [])
    ensures forall k :: Starts(log + [u], k) == Starts(log, k) + (if KeyOf(u) == k then [|Flatten(log)|] else [])
  {
    hide Encode;
    assert (log + [u])[..|log + [u]| - 1] == log;
  }

  lemma RetainedSnoc(s: seq<nat>, x: nat, max: nat)
    ensures AsInt32(Retained(s + [x], max)) == Capped(AsInt32(Retained(s, max)) + [Int32(x)], max)
  {
  }

  lemma InsertHolds(db: Db, log: seq<Update>, u: Update)
    requires Holds(db, log)
    ensures Holds(Insert(db, u), log + [u])
  {
    hide Encode, Int32, Flatten, Starts, AsInt32, Retained, Capped;
    LogSnoc(log, u);
    forall k
      ensures Positions(Insert(db, u), k) == AsInt32(Retained(Starts(log + [u], k), db.maxRecords))
    {
      RetainedSnoc(Starts(log, k), |Flatten(log)|, db.maxRecords);
      assert Starts(log, k) + [] == Starts(log, k);
    }
  }

  /** Every run of inserts from a freshly opened database holds exactly the inserted updates. */
  lemma {:induction false} RunHolds(us: seq<Update>)
    ensures Holds(InsertAll(OPENED, us), us)
  {
    hide Encode, Insert;
    if us == [] {
    } else {
      RunHolds(us[..|us| - 1]);
      InsertHolds(InsertAll(OPENED, us[..|us| - 1]), us[..|us| - 1], us[|us| - 1]);
      assert us[..|us| - 1] + [us[|us| - 1]] == us;
    }
  }

  // ---------- positions are record boundaries ----------

  lemma {:induction false} StartsAreBoundaries(log: seq<Update>, k: Key, i: nat)
    requires i < |Starts(log, k)|
    ensures KeyOf(History(log, k)[i]) == k
    ensures At(Flatten(log), Starts(log, k)[i], Encode(History(log, k)[i]))
    ensures i + 1 < |Starts(log, k)|
        ==> Starts(log, k)[i] + |Encode(History(log, k)[i])| <= Starts(log, k)[i + 1]
    decreases |log|
  {
    hide Encode;
    var rest, u := log[..|log| - 1], log[|log| - 1];
    if i < |Starts(rest, k)| {
      StartsAreBoundaries(rest, k, i);
      AtExtended(Flatten(rest), Starts(rest, k)[i], Encode(History(rest, k)[i]), Encode(u));
    } else {
      assert (Flatten(rest) + Encode(u))[|Flatten(rest)|..] == Encode(u);
    }
  }

  lemma EncodeNonEmpty(u: Update)
    ensures |Encode(u)| >= 4
  {
    hide EncodeFields, Fields;
  }

  /** Each key's positions are strictly increasing starts of that key's records, in log order. */
  lemma {:induction false} StartsIncrease(log: seq<Update>, k: Key, i: nat, j: nat)
    requires i < j < |Starts(log, k)|
    ensures Starts(log, k)[i] < Starts(log, k)[j]
    decreases j
  {
    hide Encode, Starts, History;
    StartsAreBoundaries(log, k, j - 1);
    EncodeNonEmpty(History(log, k)[j - 1]);
    if i < j - 1 {
      StartsIncrease(log, k, i, j - 1);
    }
  }

  // ---------- queries ----------

  /** Fetching at true record positions gives the records newest first and stops after the oldest. */
  lemma {:induction false} FetchRecords(file: seq<Octet>, stop: Stop, starts: seq<nat>, us: seq<Update>)
    requires |starts| == |us|
    requires forall i :: 0 <= i < |starts| ==> At(file, starts[i], Encode(us[i])) && starts[i] < 0x8000_0000
    ensures Fetch(file, stop, AsInt32(starts))
         == Some((NewestFirst(us), if us == [] then stop else Stop(starts[0] + |Encode(us[0])|, false)))
    decreases |us|
  {
    hide Encode, Decode, Persisted, At, Copied;
    var n := |us|;
    if n > 0 {
      DecodeRecordAt(file, starts[n - 1], us[n - 1]);
      FetchRecords(file, Stop(starts[n - 1] + |Encode(us[n - 1])|, false), starts[..n - 1], us[..n - 1]);
      assert AsInt32(starts)[..n - 1] == AsInt32(starts[..n - 1]);
      assert NewestFirst(us) == [Restored(us[n - 1])] + NewestFirst(us[..n - 1]);
    }
  }

  lemma {:induction false} FetchFails(file: seq<Octet>, stop: Stop, positions: seq<int>, i: nat)
    requires i < |positions| && positions[i] < 0
    ensures Fetch(file, stop, positions).None?
    decreases |positions|
  {
    hide Decode;
    var last := |positions| - 1;
    if i < last && RecordAt(file, positions[last]).Some? {
      FetchFails(file, RecordAt(file, positions[last]).value.1, positions[..last], i);
    }
  }

  lemma RetainedRecords(log: seq<Update>, k: Key, max: nat)
    ensures var starts, us := Retained(Starts(log, k), max), Retained(History(log, k), max);
            && |starts| == |us|
            && (forall i :: 0 <= i < |starts| ==> At(Flatten(log), starts[i], Encode(us[i])))
            && (forall i, j :: 0 <= i < j < |starts| ==> starts[i] < starts[j])
  {
    hide Encode, Starts, History, Flatten, At;
    var starts, us := Retained(Starts(log, k), max), Retained(History(log, k), max);
    var skip := |Starts(log, k)| - |starts|;
    forall i | 0 <= i < |starts|
      ensures At(Flatten(log), starts[i], Encode(us[i]))
    {
      StartsAreBoundaries(log, k, skip + i);
    }
    forall i, j | 0 <= i < j < |starts|
      ensures starts[i] < starts[j]
    {
      StartsIncrease(log, k, skip + i, skip + j);
    }
  }

  /** All retained records of the key start below 2^31, so their recorded positions are exact. */
  ghost predicate Addressable(log: seq<Update>, k: Key, max: nat) {
    var starts := Retained(Starts(log, k), max);
    forall i :: 0 <= i < |starts| ==> starts[i] < 0x8000_0000
  }

  lemma SmallIsAddressable(log: seq<Update>, k: Key, max: nat)
    requires |Flatten(log)| <= 0x8000_0000
    ensures Addressable(log, k, max)
  {
    hide Encode, Starts, History, Flatten, Retained, At;
    RetainedRecords(log, k, max);
    var starts, kept := Retained(Starts(log, k), max), Retained(History(log, k), max);
    forall i | 0 <= i < |starts|
      ensures starts[i] < 0x8000_0000
    {
      StartBelowEnd(Flatten(log), starts[i], kept[i]);
    }
  }

  /**
   A query on a database that stands for a log returns, newest first, exactly the last maxRecords
   updates of the key as persisted. The recorded positions are the true ones if and only if all of
   these records start below 2 GiB; while the file is below 4 GiB the reader returns only then.
   */
  lemma QueryReturnsHistory(db: Db, log: seq<Update>, k: Key)
    requires Stores(db, log)
    ensures Addressable(log, k, db.maxRecords) ==>
              && Query(db, k).Some?
              && Query(db, k).value.0 == NewestFirst(Retained(History(log, k), db.maxRecords))
    ensures Positions(db, k) == Retained(Starts(log, k), db.maxRecords) <==> Addressable(log, k, db.maxRecords)
    ensures |db.file| <= 0x1_0000_0000 ==>
              (Query(db, k).Some? <==> Addressable(log, k, db.maxRecords))
    ensures |db.file| <= 0x8000_0000 ==> Addressable(log, k, db.maxRecords)
  {
    hide Encode, Starts, History, Flatten, Fetch, Retained;
    var starts, kept := Retained(Starts(log, k), db.maxRecords), Retained(History(log, k), db.maxRecords);
    RetainedRecords(log, k, db.maxRecords);
    if Addressable(log, k, db.maxRecords) {
      FetchRecords(db.file, Stop(db.cursor, db.failed), starts, kept);
    } else {
      var i :| 0 <= i < |starts| && starts[i] >= 0x8000_0000;
      StartBelowEnd(db.file, starts[i], kept[i]);
      assert Positions(db, k)[i] == Int32(starts[i]) != starts[i];
      if |db.file| <= 0x1_0000_0000 {
        FetchFails(db.file, Stop(db.cursor, db.failed), Positions(db, k), i);
      }
    }
  }

  /** The run theorem: open, insert any mix of keys, query any key. */
  lemma QueryAfterInserts(us: seq<Update>, k: Key)
    ensures var db := InsertAll(OPENED, us);
            && |Positions(db, k)| <= 1000
            && (Addressable(us, k, 1000) ==>
                  && Query(db, k).Some?
                  && Query(db, k).value.0 == NewestFirst(Retained(History(us, k), 1000)))
            && (|Flatten(us)| <= 0x1_0000_0000 ==> (Query(db, k).Some? <==> Addressable(us, k, 1000)))
            && (|Flatten(us)| <= 0x8000_0000 ==> Addressable(us, k, 1000))
  {
    hide Encode, Starts, History, Flatten, Query, Retained, Addressable, Insert;
    RunHolds(us);
    QueryReturnsHistory(InsertAll(OPENED, us), us, k);
  }

  lemma StartBelowEnd(file: seq<Octet>, pos: nat, u: Update)
    requires At(file, pos, Encode(u))
    ensures pos < |file|
  {
    EncodeNonEmpty(u);
  }

  // ---------- the joint position after a query ----------

  function AfterQuery(db: Db, k: Key): Db
    requires Query(db, k).Some?
  {
    var stop := Query(db, k).value.1;
    db.(cursor := stop.at, failed := stop.failed,
        index := if k in db.index then db.index else db.index[k := []])
  }

  /** No record of the key is retained, or its only retained record is the last one written. */
  predicate QueryIsHarmless(log: seq<Update>, k: Key, max: nat) {
    var kept := Retained(History(log, k), max);
    kept == [] || (|kept| == 1 && KeyOf(log[|log| - 1]) == k)
  }

  lemma RecordsEndInside(log: seq<Update>, k: Key, i: nat)
    requires i < |Starts(log, k)|
    ensures Starts(log, k)[i] + |Encode(History(log, k)[i])| <= |Flatten(log)|
  {
    hide Encode, Starts, History, Flatten;
    StartsAreBoundaries(log, k, i);
  }

  /** The newest record of a key ends the file exactly when the last insert had that key. */
  lemma NewestEndsFileIff(log: seq<Update>, k: Key)
    requires Starts(log, k) != []
    ensures var n := |Starts(log, k)| - 1;
            Starts(log, k)[n] + |Encode(History(log, k)[n])| == |Flatten(log)| <==> KeyOf(log[|log| - 1]) == k
  {
    hide Encode;
    var rest, n := log[..|log| - 1], |Starts(log, k)| - 1;
    EncodeNonEmpty(log[|log| - 1]);
    if KeyOf(log[|log| - 1]) != k {
      RecordsEndInside(rest, k, n);
    }
  }

  /** The oldest retained record of a key ends inside the file, and at its end only as its last record. */
  lemma OldestEnds(log: seq<Update>, k: Key, max: nat)
    requires Retained(History(log, k), max) != []
    ensures var starts, kept := Retained(Starts(log, k), max), Retained(History(log, k), max);
            var end := starts[0] + |Encode(kept[0])|;
            && end <= |Flatten(log)|
            && (end == |Flatten(log)| <==> |kept| == 1 && KeyOf(log[|log| - 1]) == k)
  {
    hide Encode, Starts, History, Flatten, At;
    var kept := Retained(History(log, k), max);
    var oldest := |Starts(log, k)| - |kept|;
    RecordsEndInside(log, k, oldest);
    if |kept| == 1 {
      NewestEndsFileIff(log, k);
    } else {
      StartsAreBoundaries(log, k, oldest);
      RecordsEndInside(log, k, oldest + 1);
      EncodeNonEmpty(History(log, k)[oldest + 1]);
    }
  }

  /**
   How a query leaves the stream: as it was, when the key has no retained record; else good, inside the
   file, and at its end exactly when the key's only retained record is the last written.
   */
  lemma QueryMovesCursor(db: Db, log: seq<Update>, k: Key)
    requires Stores(db, log) && Addressable(log, k, db.maxRecords)
    ensures Query(db, k).Some?
    ensures var kept, end := Retained(History(log, k), db.maxRecords), Query(db, k).value.1;
            if kept == [] then end == Stop(db.cursor, db.failed)
            else && end.at <= |db.file| && !end.failed
                 && (end.at == |db.file| <==> |kept| == 1 && KeyOf(log[|log| - 1]) == k)
  {
    hide Encode, Starts, History, Flatten, Fetch, At, Retained;
    var starts, kept := Retained(Starts(log, k), db.maxRecords), Retained(History(log, k), db.maxRecords);
    RetainedRecords(log, k, db.maxRecords);
    FetchRecords(db.file, Stop(db.cursor, db.failed), starts, kept);
    if kept != [] {
      OldestEnds(log, k, db.maxRecords);
    }
  }

  /** After a query the joint position is at the end of the file if and only if the query is harmless. */
  lemma QueryLeavesCursorAtEndIff(db: Db, log: seq<Update>, k: Key)
    requires Holds(db, log) && Addressable(log, k, db.maxRecords)
    ensures Query(db, k).Some?
    ensures Query(db, k).value.1 == Stop(|db.file|, false) <==> QueryIsHarmless(log, k, db.maxRecords)
  {
    hide Stores, Query, History, Retained;
    QueryMovesCursor(db, log, k);
  }

  /** An insert that follows a query extends the log if and only if the query was harmless. */
  lemma InsertAfterQueryIff(db: Db, log: seq<Update>, k: Key, u: Update)
    requires Holds(db, log) && Addressable(log, k, db.maxRecords)
    ensures Query(db, k).Some?
    ensures AfterQuery(db, k).cursor <= |db.file|
    ensures Holds(Insert(AfterQuery(db, k), u), log + [u]) <==> QueryIsHarmless(log, k, db.maxRecords)
  {
    hide Encode, Starts, History, Flatten, Query, QueryIsHarmless;
    QueryLeavesCursorAtEndIff(db, log, k);
    QueryMovesCursor(db, log, k);
    LogSnoc(log, u);
    var after := AfterQuery(db, k);
    EncodeNonEmpty(u);
    if after.cursor == |db.file| {
      assert Holds(after, log);
      InsertHolds(after, log, u);
    } else {
      assert |Insert(after, u).file| < |db.file| + |Encode(u)|;
    }
  }

  /** Two records of one key: the query lists the newer one first. */
  lemma NewerComesFirst(a: Update, b: Update)
    requires KeyOf(a) == KeyOf(b)
    ensures var r := Query(InsertAll(OPENED, [a, b]), KeyOf(a));
            r.Some? && r.value.0 == [Restored(b), Restored(a)]
  {
    hide Encode, Restored, Query, InsertAll, Flatten;
    var log, k := [a, b], KeyOf(a);
    assert log[..1] == [a] && [a][..0] == [];
    assert History([a], k) == History([], k) + [a] == [a];
    assert History(log, k) == History([a], k) + [b] == [a, b];
    TwoSmallRecords(a, b);
    QueryAfterInserts(log, k);
  }

  lemma TwoSmallRecords(a: Update, b: Update)
    ensures |Flatten([a, b])| <= 0x8000_0000
  {
    hide Encode;
    RecordSize(a);
    RecordSize(b);
    assert [a, b][..1] == [a] && [a][..0] == [];
    assert Flatten([a, b]) == Flatten([a]) + Encode(b);
    assert Flatten([a]) == Flatten([]) + Encode(a);
  }

  /** What comes back is never an empty community list, and otherwise what the record keeps. */
  lemma RestoredIs(u: Update)
    ensures Restored(u).communities != Some([])
    ensures u.communities != Some([]) ==> Restored(u) == Persisted(u)
  {
  }

  // ---------- a failed stream ----------

  /**
   A query that ends on a record cut off inside its end marker returns it, and leaves the stream failed:
   the next insert is lost, and the query after that never returns.
   */
  lemma CutRecordLosesTheNext(db: Db, k: Key, start: nat, fs: seq<Field>, cut: nat, u: Update)
    requires Positions(db, k) == [start] && start <= |db.file|
    requires Field.Skip !in fs && fs != [] && 1 <= cut <= 3
    requires db.file[start..] == EncodeFields(fs) + seq(cut, i => 0xFF)
    requires KeyOf(u) == k && db.maxRecords > 0 && db.cursor <= |db.file|
    ensures Query(db, k).Some? && Query(db, k).value.0 == [Copied(ApplyAll(BLANK, fs))]
    ensures AfterQuery(db, k).failed && AfterQuery(db, k).cursor <= |db.file|
    ensures Insert(AfterQuery(db, k), u).file == db.file
    ensures Query(Insert(AfterQuery(db, k), u), k) == None
  {
    hide Decode, ApplyAll, EncodeFields, Copied, WriteAt, Encode;
    CutEndMarker(db.file, start, BLANK, fs, 0, cut);
    assert Positions(db, k)[..0] == [];
    FetchOne(db.file, Stop(db.cursor, db.failed), start);
    var last := Insert(AfterQuery(db, k), u);
    var n := |Positions(last, k)| - 1;
    assert Positions(last, k)[n] == -1;
    FetchFails(last.file, Stop(last.cursor, last.failed), Positions(last, k), n);
  }

  lemma FetchOne(file: seq<Octet>, stop: Stop, start: nat)
    ensures Fetch(file, stop, [start])
         == if RecordAt(file, start).None? then None
            else Some(([Copied(RecordAt(file, start).value.0)], RecordAt(file, start).value.1))
  {
    hide RecordAt, Copied;
    var one: seq<int> := [start];
    assert one[..0] == [];
    var r := RecordAt(file, start);
    if r.Some? {
      assert Fetch(file, r.value.1, one[..0]) == Some(([], r.value.1));
      assert [Copied(r.value.0)] + [] == [Copied(r.value.0)];
    }
  }

  // ---------- a harmful query loses a record ----------

  /** The origin octet does not change the size of a record. */
  lemma SizeWithoutOrigin(u: Update, o: Octet)
    ensures |Encode(u.(origin := o))| == |Encode(u)|
  {
    hide EncodeFields, Memory;
    var v := u.(origin := o);
    var shared := Fields(u)[..|Fields(u)| - 1];
    assert Fields(u) == shared + [Origin(u.origin)];
    assert Fields(v) == shared + [Origin(o)];
    EncodeFieldsSnoc(shared, Origin(u.origin));
    EncodeFieldsSnoc(shared, Origin(o));
  }

  lemma FieldSize(f: Field)
    requires !f.Skip?
    ensures |EncodeField(f)| <= 3000
  {
    hide Memory, Words, CommunityWords;
  }

  lemma {:induction false} FieldsSize(fs: seq<Field>)
    requires Field.Skip !in fs
    ensures |EncodeFields(fs)| <= 3000 * |fs|
    decreases |fs|
  {
    hide EncodeField;
    if fs != [] {
      FieldSize(fs[0]);
      FieldsSize(fs[1..]);
    }
  }

  /** A record is far smaller than the range of a position. */
  lemma RecordSize(u: Update)
    ensures |Encode(u)| < 0x1_0000
  {
    hide EncodeFields;
    FieldsSize(Fields(u));
    assert |Fields(u)| <= 13;
  }

  /**
   For any two keys: archive a, then b, ask for the history of a, then archive b with another origin.
   The new record lands on top of the first record of b, whose history then lists the new one twice.
   */
  lemma QueryThenInsertOverwrites(a: Update, b: Update, o: Octet)
    requires KeyOf(a) != KeyOf(b) && o != b.origin
    ensures var db := InsertAll(OPENED, [a, b]);
            && Query(db, KeyOf(a)).Some? && AfterQuery(db, KeyOf(a)).cursor <= |db.file|
            && var c := b.(origin := o);
               var last := Insert(AfterQuery(db, KeyOf(a)), c);
               && Query(last, KeyOf(b)).Some?
               && Query(last, KeyOf(b)).value.0 == [Restored(c), Restored(c)]
               && Query(last, KeyOf(b)).value.0 != [Restored(c), Restored(b)]
  {
    hide Encode, Query, Insert;
    RecordSize(a);
    var c, start := b.(origin := o), |Encode(a)|;
    TwoInserts(a, b);
    QueryFirst(a, b);
    SizeWithoutOrigin(b, o);
    var db := InsertAll(OPENED, [a, b]);
    InsertOver(db.(cursor := start), a, b, c);
    var last := Insert(db.(cursor := start), c);
    assert last.file[start..start + |Encode(c)|] == Encode(c);
    FetchSame(last.file, Stop(last.cursor, last.failed), [start, start], c);
    assert Query(last, KeyOf(b)) == Fetch(last.file, Stop(last.cursor, last.failed), [start, start]) by {
      assert Positions(last, KeyOf(b)) == [start, start];
      QueryIsFetch(last, KeyOf(b));
    }
  }

  lemma QueryIsFetch(db: Db, k: Key)
    ensures Query(db, k) == Fetch(db.file, Stop(db.cursor, db.failed), Positions(db, k))
  {
  }

  lemma TwoInserts(a: Update, b: Update)
    requires KeyOf(a) != KeyOf(b) && |Encode(a)| < 0x8000_0000
    ensures InsertAll(OPENED, [a, b])
         == Db(Encode(a) + Encode(b), |Encode(a)| + |Encode(b)|,
               map[KeyOf(a) := [0], KeyOf(b) := [|Encode(a)|]], MAX_RECORDS, false)
  {
    hide Encode;
    assert [a, b][..1] == [a] && [a][..0] == [];
    assert InsertAll(OPENED, [a]) == Insert(InsertAll(OPENED, []), a);
    var one := Insert(OPENED, a);
    assert [] + [Int32(0)] == [0] && [] + [Int32(|Encode(a)|)] == [|Encode(a)|];
    assert one.file == Encode(a) && one.index == map[KeyOf(a) := [0]];
    var two := InsertAll(OPENED, [a, b]);
    assert two == Insert(one, b);
    assert two.file == Encode(a) + Encode(b);
    assert two.index == map[KeyOf(a) := [0], KeyOf(b) := [|Encode(a)|]];
  }

  lemma QueryFirst(a: Update, b: Update)
    requires KeyOf(a) != KeyOf(b) && |Encode(a)| < 0x8000_0000
    ensures var db := InsertAll(OPENED, [a, b]);
            Query(db, KeyOf(a)).Some? && AfterQuery(db, KeyOf(a)) == db.(cursor := |Encode(a)|)
  {
    hide Encode, Fetch, InsertAll;
    TwoInserts(a, b);
    var db := InsertAll(OPENED, [a, b]);
    assert db.file[0..|Encode(a)|] == Encode(a);
    FetchSame(db.file, Stop(db.cursor, db.failed), [0], a);
    assert Positions(db, KeyOf(a)) == [0];
  }

  lemma InsertOver(db: Db, a: Update, b: Update, c: Update)
    requires db == Db(Encode(a) + Encode(b), |Encode(a)|, map[KeyOf(a) := [0], KeyOf(b) := [|Encode(a)|]],
                      MAX_RECORDS, false)
    requires |Encode(c)| == |Encode(b)| && KeyOf(c) == KeyOf(b) && |Encode(a)| < 0x8000_0000
    ensures Insert(db, c).file == Encode(a) + Encode(c)
    ensures Positions(Insert(db, c), KeyOf(b)) == [|Encode(a)|, |Encode(a)|]
  {
    hide Encode;
    assert db.file[..|Encode(a)|] == Encode(a);
  }

  /** FetchRecords at positions that all hold the same record. */
  lemma FetchSame(file: seq<Octet>, stop: Stop, starts: seq<nat>, u: Update)
    requires starts != []
    requires forall i :: 0 <= i < |starts| ==> At(file, starts[i], Encode(u)) && starts[i] < 0x8000_0000
    ensures Fetch(file, stop, starts)
         == Some((seq(|starts|, i => Restored(u)), Stop(starts[0] + |Encode(u)|, false)))
  {
    hide Encode, Fetch, Restored, At;
    var us := seq(|starts|, i => u);
    FetchRecords(file, stop, starts, us);
    assert AsInt32(starts) == starts;
    assert NewestFirst(us) == seq(|starts|, i => Restored(u));
  }
}
