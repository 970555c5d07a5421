# log2BGP in Dafny

A model of the log2BGP route collector, from the octets a peer sends to the answer of a prefix query,
with proofs about every stage and about the stages together. `dafny verify dfyconfig.toml` checks all of it.

| stage | specification and theorems | object or loops proved against it |
|---|---|---|
| framing, OPEN, sessions and timers | `Framing`, `OpenCodec`, `PeerSession`, `Delivery`, `Definedness` | `PeerObject.BgpPeer`, `Framing.ReadMessages` |
| UPDATE parsing | `WireFormat`, `UpdateParser`, `OctetFacts` | `PacketWalker` |
| Adj-RIB-In, queues, main loop | `RibEngine`, `MainLoop` | `Collector.Bgp` |
| history database | `RecordCodec`, `RecordFacts`, `HistoryDb`, `QueryRuns`, `Archive` | `DatabaseStore.Database` |
| CIDR arithmetic and the API | `Cidr`, `LookupApi`, `RibQueries` | the loops of `LookupApi`, `Collector.Bgp.ApiGetPrefix` |
| everything joined | `RoundArchive`, `Pipeline`, `Turns`, `RoundFacts` | `Pipeline.ProcInQ`, `Pipeline.Round`, `Turns.TakeTurns` |

`Octets` holds words and their memory images, `Messages` the parsed update. `OctetFacts` and `RecordFacts` say what
the parser and the file format do with literal octets, codes and markers, without the functions that both the
encoder and the decoder use.

## How the model reads the source

- A `uint32_t` is the number its memory holds on a little-endian host; addresses, prefixes and identifiers
  stay in network order in memory, as in the source, and `Swap` is `ntohl`/`htonl`.
- An update is an immutable value. The deep copy of `bgp_update::assign` is `Copied`: it keeps everything
  except an allocated but empty community list, which it drops.
- Behaviour that C++ leaves undefined is a result, not a precondition: `None` (or `ok == false`) from the
  parser is an access outside the packet buffer or a copy that overruns a field; `None` from the message
  reader is a read that overruns its buffer; `None` from a session is one of the steps of
  `PeerSession.Undefined`; `ok == false` from an origin-AS query is the last element of an empty path; `None`
  from the database reader is a loop that never ends because every further read fails.
- Each critical section of the RIB lock is one step, so inserts, withdraws and flushes interleave freely.
  The decrement of `prefixes.current.rx` after each flush is its own step and is taken to be atomic,
  although the source does not take the peer lock for it. Peers that announce routes have distinct, stable
  BGP identifiers, and the set of configured peers is fixed.
- A connection attempt, a received message, a tick of the main loop and the end of a session are one step
  each. The reader tests connection and state before it blocks in a read, so a message may be processed after
  a tick has dropped the session; it may arrive at any time while the peer's thread is reading. The transient
  states Connect and Active are inside the connection step. Time is an input; one packet is parsed at one
  clock value. What a receive buffer holds beyond the payload is arbitrary.
- Writes on a closed connection do nothing, but the clock of a KEEPALIVE moves.
- The counters of a `bgp_peer` that the RIB engine updates are in `Collector.PeerRecord`, its session fields
  in `PeerObject.BgpPeer`.
- The history file has one joint position for reading and writing, and a failed state in which writes do
  nothing; both are explicit in the model.

## What turned out not to hold, and when it does

- A batch that withdraws a prefix and announces it again loses the route, because announcements are drained
  before withdrawals: `MainLoop.BatchOrderIff` and `MainLoop.RunOrderIff` give the exact condition,
  `MainLoop.ReannouncementIsLost` the smallest batch.
- The comment at `src/bgp_database.cpp:90` says inserts go to the end of the file. A history query moves the
  joint position, so the next insert may overwrite a record: `QueryRuns.StoresIff` says for every run of
  inserts and queries exactly when the database stands for what was inserted, `QueryRuns.CleanIff` from the
  steps alone, `Archive.ArchiveWithQueriesIff` for every run of the engine;
  `HistoryDb.QueryThenInsertOverwrites` shows the loss for any two keys.
- A record cut off inside its end marker is returned as if it were whole and leaves the stream failed; the next
  insert is lost and the query after it never returns: `HistoryDb.CutRecordLosesTheNext`.
- A peer is not free of routes after its last flush call for good: `Archive.StaysEmptyIff` says when it is,
  `Archive.LateInsertSurvivesFlush` is the smallest run in which it is not.
- Positions are cast to `int`, so records beyond 2 GiB cannot be read back: `HistoryDb.QueryReturnsHistory`.
- Four things leave a session undefined: a stream that cannot be opened or resized, so that a buffer is set on a
  null stream; an UPDATE over 4096 octets, copied unchecked into a queue element; a NOTIFICATION whose subcode
  has no text, from which a string is made; a live tick that parses an UPDATE without a defined parse.
  `Definedness.DefinedIff` says for everything that can happen that nothing else does. The inputs:
  `Definedness.LongUpdateOverruns`, `Definedness.NotificationWithoutText`, `Definedness.LongNextHopIsUndefined`.
  A peer that keeps to the standard causes none of them: `Definedness.WellFormedPeerIsSafe`.
- A header that claims fewer than 19 octets makes the reader overrun its buffer if and only if more octets
  follow than it claims: `Framing.ShortLengthOverrunsIff`.
- The hold time survives an OPEN if and only if it is below 256: `OpenCodec.OpenRoundTripIff`.
- A hold time of zero ends the session at the next tick instead of disabling the timer. A tick drops a peer
  even at the second of its last message if and only if both hold-time octets of its OPEN are zero:
  `PeerSession.ZeroHoldTimeIff`; `PeerSession.ZeroHoldTimeIsDropped` is the shortest run.
- An UPDATE is read completely if and only if it withdraws nothing, or announces nothing and its attributes
  take fewer than 256 octets: `UpdateParser.ParseInvertsIff`. `UpdateParser.AnnouncementIsLost` is the smallest
  message that loses a route, `UpdateParser.ParseInvertsWithdrawIff` the condition for its withdrawn routes.
- The range test of the prefix query is the bitwise prefix match if and only if the stored prefix has zero
  host bits, which the parser does not enforce: `Cidr.RangeTestIsPrefixMatchIff` for one prefix,
  `LookupApi.QueryIsBitwiseMatchIff` for a whole RIB. `Cidr.HostBitsBreakTheMatch` is 10.0.0.1/31, which a
  query for 10.0.0.0 misses.
- The origin-AS queries index the last AS number of an empty path: `LookupApi.AllFromAsn` says when, and
  `Pipeline.EmptyPathIsIndexed` gives the well-formed UPDATE that leads there.
- A message survives framing if and only if its payload has at most 65516 octets: `Framing.OneMessageIff`.
- The comments at `src/bgp_database.cpp:101` and `include/bgp_database.h:54` speak of the last 10 records; the
  code keeps 1000.

## Model

| member | source | states |
|---|---|---|
| RibEngine.CountersExact | src/bgp.cpp:544-652 | Under every interleaving of inserts, withdraws, flush erases and flush decrements, each peer's current counter is its number of RIB entries plus its pending decrement, is never negative, and received = implicit + explicit withdraws + flush decrements + current |
| RibEngine.AlwaysPossible | src/bgp.cpp:553-620 | In every reachable state the database position is at the end of the file at an insert, and the peer that a withdraw dereferences exists |
| RibEngine.StepKeeps | src/bgp.cpp:544-652 | Every step keeps the counter equations of every peer, the keying of the RIB and that every entry's peer is configured |
| RibEngine.InsertBalances | src/bgp.cpp:557-582 | An insert counts either as implicit withdraw or as one more current prefix, and keeps both equations for every peer |
| RibEngine.CopiedDropsOnly | include/bgp_msg.h:336-422 | A copied update differs from the original only in an empty community list, which it loses |
| RibEngine.DecrementsAreSafe | src/bgp.cpp:612-619 | Whenever a withdraw or a flush decrements a counter, the peer exists and the counter is at least 1 |
| RibEngine.FlushEndsEmpty | src/bgp.cpp:391 | When the flush call returns 0 the peer has no entry and its counter is 0 |
| RibEngine.FlushProgress | src/bgp.cpp:391 | A flush never gets stuck: it can decrement, erase the first entry of the peer in map order, or end |
| RibEngine.FirstExists | src/bgp.cpp:642-648 | A non-empty set of keys has a first one in the order of the RIB |
| Archive.ArchiveIsExact | src/bgp.cpp:558-582 | After any run, the records archived for a key are exactly the announcements directly superseded by another announcement of it, in order, and the RIB entry is the announcement in force |
| Archive.QueryAfterRun | src/bgp_database.cpp:250-460 | A history query after any run returns the last 1000 superseded announcements of the key, newest first, as persisted, if their records start below 2 GiB; in a file below 4 GiB it returns only then |
| Archive.NothingIsLost | src/bgp.cpp:569-582 | In every run without a withdraw or flush of a key, its archived records followed by its RIB entry are all its announcements, in order |
| Archive.EmptyAfterFlushIff | src/bgp.cpp:391-391 | In every run that goes on after a peer's last flush call, the RIB has an entry under a key of the peer iff the steps since then announced the key and did not remove it again, and it is the last such announcement |
| Archive.StaysEmptyIff | src/bgp.cpp:391-391 | The peer stays without entries iff no key of it is announced and kept after the flush |
| Archive.LateInsertSurvivesFlush | src/bgp.cpp:460-471 | After any run that ends with a peer's last flush call, one announcement still queued brings a route back |
| Archive.ArchiveWithQueriesIff | src/bgp_database.cpp:86-271 | With history queries anywhere between the steps, the database stands for the archive of the run iff every insert found the stream good and the joint position at the end, which up to 4 GiB the steps alone decide |
| Archive.QueryBetweenSteps | src/bgp_database.cpp:250-460 | Under that condition a query between the steps returns the superseded announcements of its key |
| Archive.StoredIsLog | src/bgp.cpp:558-571 | What is inserted does not depend on the queries: it is what the engine supersedes |
| Archive.ImplicitWithdrawsAreArchived | src/bgp.cpp:569-571 | A peer's implicit-withdraw counter equals the records archived under its identifier |
| Archive.ReceivedIsEntered | src/bgp.cpp:557-582 | In every run a peer's received counter is the number of announcements inserted for it |
| Archive.StepAgrees | src/bgp.cpp:544-652 | One step keeps, for every key, the agreement of RIB entry and archive with the key's event history |
| Archive.DatabaseHoldsLog | src/bgp_database.cpp:86-104 | The database of any run holds exactly the updates handed to it, with the position at the end of the file |
| MainLoop.BatchOrderIff | src/bgp.cpp:450-528 | For every RIB, batch and key, draining announcements before withdrawals gives the in-order entry iff the key has no withdrawal in the batch, or its last operation is a withdrawal, or its peer is unknown |
| MainLoop.RunOrderIff | src/bgp.cpp:87-99 | The same for any number of rounds: the last batch touching the key must satisfy the condition |
| MainLoop.ReannouncementIsLost | src/bgp.cpp:96-97 | Withdraw then announce in one batch: in-order replay has the route, the drain does not |
| MainLoop.EntryAfterReplay | src/bgp.cpp:544-629 | The entry of a key after any operations is what the last operation on the key leaves |
| MainLoop.EntryAfterDrain | src/bgp.cpp:450-528 | The entry of a key after a round: none if the batch withdraws it, else its last announcement, else unchanged |
| MainLoop.MergesAgree | src/bgp.cpp:544-629 | Two operation sequences with equal per-peer subsequences give the same RIB and counters |
| MainLoop.DrainedMergesAgree | src/bgp.cpp:92-97 | The same for a round of the main loop |
| MainLoop.VisitOrderIrrelevant | src/bgp.cpp:92-94 | The order in which the main loop visits the peers does not change the RIB |
| MainLoop.ReplayIsLocal | src/bgp.cpp:544-629 | A peer's entries and counters depend only on that peer's operations |
| Collector.LeastKey | include/bgp_adj_rib.h:30-45 | The next key of an in-order traversal is the least by rib_sort |
| Collector.Bgp.constructor | src/bgp.cpp:41-48 | An empty RIB with an open, empty database |
| Collector.Bgp.GetPeerByBgpId | src/bgp_thread-mgr.cpp:125-133 | Finds the peer with the identifier, or reports that none is configured |
| Collector.Bgp.PushAdjRibInQ | include/bgp.h:199-210 | Appends a copy to the update queue; pushes = table version + queued items |
| Collector.Bgp.PushAdjRibInWdrawQ | include/bgp.h:212-223 | Appends a copy to the withdraw queue; the same conservation |
| Collector.Bgp.PeerEntry | src/bgp.cpp:544-588 | The RIB becomes the specified announcement, and exactly the superseded entry goes to the database |
| Collector.Bgp.Withdraw | src/bgp.cpp:594-629 | The RIB becomes the specified withdrawal; the peer lookup never fails |
| Collector.Bgp.FlushPeer | src/bgp.cpp:635-652 | Erases the first entry of the peer in map order and no other, or reports that there is none |
| Collector.Bgp.DecrementCurrent | src/bgp.cpp:391 | Only the current counter of that peer changes, by one |
| Collector.Bgp.FlushRoutes | src/bgp.cpp:391 | Uninterrupted, the loop removes exactly the peer's entries and subtracts exactly their number |
| Collector.Bgp.ProcAdjRibInQueue | src/bgp.cpp:450-487 | Drains the queue in order, one table version each; RIB and database are those of the replayed announcements |
| Collector.Bgp.ProcAdjRibWdrawQueue | src/bgp.cpp:491-528 | Drains the withdraw queue in order, one table version each |
| Collector.Bgp.ProcRibQueues | src/bgp.cpp:96-97 | A batch split into the two queues is drained as specified, and the table version equals the pushes ever made |
| Collector.DrainExtendsLog | src/bgp.cpp:558-571 | Draining into a database that holds a log extends the log by exactly the superseded entries |
| RecordCodec.RecordRoundTrip | src/bgp_database.cpp:110-242 | Decoding at the start of a record restores every persisted field and stops exactly at its end, for all optional attributes and lengths up to 255, whatever octets surround or fill it |
| RecordCodec.CutEndMarker | src/bgp_database.cpp:276-280 | A record cut off inside its end marker is read as if it were whole, whatever its fields, and leaves the stream failed |
| RecordCodec.ReadFieldAt | src/bgp_database.cpp:282-442 | Every field is read back from its payload, also when payload octets equal a marker |
| RecordCodec.DecodeFieldsAt | src/bgp_database.cpp:276-443 | The reader's loop over any written fields applies them in order and stops after the end marker |
| RecordCodec.FieldsRestore | src/bgp_database.cpp:110-239 | The fields written for an update rebuild it from a blank one, for every combination of optional attributes |
| RecordFacts.FieldLayout | src/bgp_database.cpp:110-239 | Every field octet by octet, with its marker 0xFFFFFF01 to 0xFFFFFF15 written out |
| RecordFacts.RecordLayout | src/bgp_database.cpp:110-242 | The order of the fields of a record, which of them are optional, and the end marker |
| RecordFacts.WordsAre | src/bgp_database.cpp:142-170 | AS number i of a stored path is at octet 4i |
| RecordFacts.CommunityWordsAre | src/bgp_database.cpp:180-192 | A stored community is its AS and then its value |
| RecordFacts.PersistedIs | src/bgp_database.cpp:110-242 | A record loses the flags, the multi-protocol fields and the value of a non-zero ATOMIC_AGGREGATE, and nothing else |
| RecordFacts.UnknownMarkersAreSkipped | src/bgp_database.cpp:276-443 | Any other marker is passed over |
| HistoryDb.RunHolds | src/bgp_database.cpp:86-248 | After any run of inserts from an opened database, the file is the records in order, the position is at the end, and each key has the last 1000 record starts |
| HistoryDb.InsertHolds | src/bgp_database.cpp:95-104 | One insert at the end of the file extends the log and keeps every key's capped positions |
| HistoryDb.StartsIncrease | src/bgp_database.cpp:90-99 | A key's positions are strictly increasing |
| HistoryDb.StartsAreBoundaries | src/bgp_database.cpp:95-99 | A key's positions are starts of that key's records, which do not overlap |
| HistoryDb.RetainedRecords | src/bgp_database.cpp:101-104 | The retained positions are increasing starts of the newest records |
| HistoryDb.RetainedIsNewest | src/bgp_database.cpp:101-104 | Only the oldest positions are ever dropped |
| HistoryDb.WriteAtIs | src/bgp_database.cpp:110-245 | A write replaces the octets under it, lengthens the file only beyond its end, and keeps all others |
| HistoryDb.QueryReturnsHistory | src/bgp_database.cpp:264-450 | A query returns the retained updates newest first when they start below 2 GiB, which is exactly when the recorded positions are the true ones; in a file below 4 GiB it returns only then |
| HistoryDb.QueryAfterInserts | src/bgp_database.cpp:250-460 | The same stated for any run of inserts over any mix of keys |
| HistoryDb.NewerComesFirst | src/bgp_database.cpp:264-450 | Of two records of a key the newer one is returned first |
| HistoryDb.RestoredIs | src/bgp_database.cpp:444 | What a query returns is what the record keeps, but never an empty community list |
| HistoryDb.QueryMovesCursor | src/bgp_database.cpp:269-271 | A query leaves the joint position alone if the key has no retained record, and else at the end of the file iff its only retained record is the last written |
| HistoryDb.QueryLeavesCursorAtEndIff | src/bgp_database.cpp:269-271 | From the end of the file, a query leaves the joint position there iff the key has no retained record or only the last record of the file |
| HistoryDb.InsertAfterQueryIff | src/bgp_database.cpp:99-111 | An insert after a query extends the log iff that condition holds |
| HistoryDb.CutRecordLosesTheNext | src/bgp_database.cpp:99-280 | After a query that ends on such a record the next insert is lost, and the query after it never returns |
| HistoryDb.QueryThenInsertOverwrites | src/bgp_database.cpp:99-271 | For any two keys, two inserts, a query and a third insert leave a history that lists the new record in place of the old |
| QueryRuns.StoresIff | src/bgp_database.cpp:86-271 | For every run of inserts and queries: file and index stand for what was inserted iff every insert found the stream good and the joint position at the end; otherwise the file stays too short for ever |
| QueryRuns.CleanIff | src/bgp_database.cpp:99-271 | For every run up to 4 GiB, and beyond while queries ask for records below 2 GiB, the steps alone decide where the joint position is and whether that condition holds |
| QueryRuns.CleanRunReturns | src/bgp_database.cpp:250-460 | A run that meets the condition never hangs on records below 2 GiB, and every such query returns the history of its key |
| QueryRuns.SmallRunsAreAddressable | src/bgp_database.cpp:95-99 | In a run below 2 GiB all records are below 2 GiB for every key and query |
| QueryRuns.FetchEndsInside | src/bgp_database.cpp:264-443 | Whatever the file holds, a query that returns leaves the joint position inside the file |
| DatabaseStore.Database.constructor | src/bgp_database.cpp:26-30 | Closed, empty, capped at 1000 |
| DatabaseStore.Database.DbOpen | src/bgp_database.cpp:41-60 | Truncates the file and rewinds; the index is kept; an empty name changes nothing |
| DatabaseStore.Database.WriteRecord | src/bgp_database.cpp:110-245 | Writes exactly the record of the update at the joint position |
| DatabaseStore.Database.DbInsert | src/bgp_database.cpp:86-248 | The whole new state is the specified insert, or the old state when closed |
| DatabaseStore.Database.ReadOneField | src/bgp_database.cpp:282-442 | The switch stores what the marker announces and stops after it |
| DatabaseStore.Database.ReadRecord | src/bgp_database.cpp:269-443 | Reads the record at a recorded position and leaves the stream as specified, or reports that the reader never returns |
| DatabaseStore.Database.DbGetEntries | src/bgp_database.cpp:250-460 | Result, copied record by record, and new state are those of the specified query |
| UpdateParser.ParseInvertsAnnounce | src/bgp_update.cpp:84-284 | For every well-formed UPDATE without withdrawn routes: one entry per prefix, in order, all with the encoded attributes, and nothing else |
| UpdateParser.AttrLoopAt | src/bgp_update.cpp:104-283 | The attribute loop over encoded attributes computes their meaning and ends with read_len equal to the attribute length |
| UpdateParser.AttrStepAt | src/bgp_update.cpp:105-277 | One turn consumes exactly one encoded attribute and stores what it means |
| UpdateParser.StoreAt | src/bgp_update.cpp:111-277 | The switch decodes every attribute type, with AS_PATH, AS4_PATH and COMMUNITY element by element |
| UpdateParser.NlriLoopAt | src/bgp_update.cpp:408-442 | The prefix loop consumes an encoded prefix list and pushes exactly its routes |
| UpdateParser.ParseInvertsIff | src/bgp_update.cpp:84-284 | For every well-formed UPDATE: all withdrawn routes and all announcements are recovered iff it withdraws nothing, or announces nothing and its attributes take fewer than 256 octets; announcements beside withdrawn routes are always lost |
| UpdateParser.AnnouncementIsLost | src/bgp_update.cpp:90-95 | For any two prefixes, withdrawing one and announcing the other in one UPDATE loses the announcement |
| UpdateParser.ParseInvertsWithdrawIff | src/bgp_update.cpp:85-95 | For every UPDATE with withdrawn routes: exactly these are pushed to the withdraw queue and nothing to the update queue, iff the attributes take fewer than 256 octets |
| UpdateParser.WithdrawStopsAfterList | src/bgp_update.cpp:408-442 | Parsing then stops at offset 2 + withdrawn length |
| UpdateParser.PaddingSuffices | src/bgp_update.cpp:63-76 | On any payload the loop stays inside the padded buffer iff no length octet read exceeds 32, and ends at most 4 octets past the payload |
| UpdateParser.FivePaddingOctetsAreNeeded | src/bgp_update.cpp:63-76 | The bound is reached, and four octets of padding would not do |
| UpdateParser.UpdateNlriStaysInside | src/bgp_update.cpp:282-284 | The parser's own start offset meets the bound when the attribute length is at most the packet length |
| PacketWalker.ParseAsPath | src/bgp_update.cpp:351-370 | Decodes the first segment, or reports an access outside the buffer |
| PacketWalker.ParseAs4Path | src/bgp_update.cpp:323-343 | The same with four-octet numbers |
| PacketWalker.ParseCommunity | src/bgp_update.cpp:300-315 | Decodes as many values as the length holds |
| PacketWalker.StoreAttribute | src/bgp_update.cpp:111-277 | The switch, with its partial and overlong copies |
| PacketWalker.WalkAttributes | src/bgp_update.cpp:97-278 | The loop keeps i = 3 + read_len, never wraps its 16-bit counter, and computes the specified update |
| PacketWalker.ParseNlri | src/bgp_update.cpp:401-443 | Pushes and final offset are those of the specified loop |
| PacketWalker.ProcessPacket | src/bgp_update.cpp:58-287 | One packet is parsed as specified, for any payload the queue can hold |
| OctetFacts.OctetsForIs | src/bgp_update.cpp:412-417 | A prefix length of n bits is followed by the least number of octets that holds n bits |
| OctetFacts.OctetsForUnique | src/bgp_update.cpp:412-417 | No other number of octets is that one |
| OctetFacts.PrefixIsRead | src/bgp_update.cpp:408-442 | For any packet and offset: the pushed prefix has packet octet offset + 1 + i as octet i while 8i is below the length, and zeros behind; the next prefix is read right after; age or withdraw time is the clock |
| OctetFacts.Type1IsOrigin | src/bgp_update.cpp:112-117 | For all flags and prefixes x.y.z.0/24: an UPDATE whose one attribute has type 1 sets the origin to its octet and nothing else |
| OctetFacts.Type2IsAsPath | src/bgp_update.cpp:118-127 | Type 2 sets the AS_PATH: segment type, and AS numbers big-endian from two octets each |
| OctetFacts.Type3IsNextHop | src/bgp_update.cpp:128-137 | Type 3 sets the next hop to its four octets as they are in memory |
| OctetFacts.Type4IsMed | src/bgp_update.cpp:138-151 | Type 4 sets MED, big-endian, and nothing else |
| OctetFacts.Type5IsLocalPref | src/bgp_update.cpp:152-165 | Type 5 sets the local preference, big-endian, and nothing else |
| OctetFacts.Type6IsAtomicAggregate | src/bgp_update.cpp:166-169 | Type 6 without a body sets ATOMIC_AGGREGATE to 1 |
| OctetFacts.Type7IsAggregator | src/bgp_update.cpp:170-189 | Type 7 sets the aggregator: a two-octet AS number, and an address as it is in memory |
| OctetFacts.Type8IsCommunity | src/bgp_update.cpp:190-202 | Type 8 sets the communities: an AS number and a value of two octets each |
| OctetFacts.Type17IsAs4Path | src/bgp_update.cpp:236-246 | Type 17 sets the AS4_PATH, four octets for each AS number |
| OctetFacts.Type18IsAs4Aggregator | src/bgp_update.cpp:247-266 | Type 18 sets the AS4_AGGREGATOR: a four-octet AS number and an address |
| OctetFacts.OtherTypesAreSkipped | src/bgp_update.cpp:203-277 | Every other type leaves all attributes as they are |
| OctetFacts.FixedAdvances | src/bgp_update.cpp:112-169 | ORIGIN takes one octet and ATOMIC_AGGREGATE none, whatever length was sent |
| OctetFacts.NumbersIgnoreLength | src/bgp_update.cpp:138-165 | MED and local preference read four octets, whatever length was sent |
| OctetFacts.PathsIgnoreLength | src/bgp_update.cpp:351-370 | AS_PATH reads as many AS numbers as its second octet says, whatever length was sent, and is undefined iff they reach beyond the packet |
| OctetFacts.As4PathsIgnoreLength | src/bgp_update.cpp:323-343 | The same for AS4_PATH |
| OctetFacts.AggregatorsCopyTheRest | src/bgp_update.cpp:170-266 | What follows the AS number is copied as an address, as long as the length says |
| OctetFacts.NextHopKeepsTheRest | src/bgp_update.cpp:128-137 | A NEXT_HOP of fewer than four octets keeps the other octets of an earlier one; of more it overruns the field |
| OctetFacts.CommunityLength | src/bgp_update.cpp:300-315 | A community list has one value for every four octets; shorter than one it is undefined |
| OctetFacts.AsnsAre | src/bgp_update.cpp:351-370 | AS number i of a segment, by its octets |
| OctetFacts.Asns4Are | src/bgp_update.cpp:323-343 | Four-octet AS number i of a segment, by its octets |
| OctetFacts.CommunitiesAre | src/bgp_update.cpp:300-315 | AS and value of community i, by their octets |
| OctetFacts.WithdrawnRoute | src/bgp_update.cpp:84-95 | An UPDATE that withdraws x.y.z.0/24 pushes exactly that prefix to the withdraw queue |
| Framing.ReaderInvertsSender | src/bgp.cpp:255-287 | The reader recovers exactly the framed messages, also when the stream breaks off inside a further one |
| Framing.OneMessageIff | src/bgp_send.cpp:35-47 | A message survives iff its payload has at most 65516 octets |
| Framing.FrameLayout | src/bgp_send.cpp:32-49 | Marker of ones, a length that counts the whole message, type, payload: section 4.1 of RFC 4271 |
| Framing.ReaderTakes | src/bgp.cpp:255-287 | The next message of any stream, by its octets: length from octets 16 and 17, type from 18, payload from 19; the marker is not looked at |
| Framing.CutDeliversNothing | src/bgp.cpp:286-287 | A message cut short delivers nothing |
| Framing.ShortLengthOverrunsIff | src/bgp.cpp:263-287 | After any framed messages, a header claiming fewer than 19 octets makes the reader overrun its buffer iff more octets follow than it claims |
| Framing.ReadMessages | src/bgp.cpp:234-382 | The reader loop delivers what the specification says for any stream, or reports that it overruns its buffer |
| OpenCodec.OpenRoundTripIff | src/bgp_open.cpp:41-99 | Version, AS, identifier and option length are restored for all values, the hold time iff below 256 |
| OpenCodec.HoldTimeArrivesAs | src/bgp_open.cpp:92 | Any proposed hold time arrives less 255 seconds for each full 256 |
| OpenCodec.OpenLayout | src/bgp_open.cpp:41-59 | The ten octets of an OPEN, one by one |
| PeerSession.EstablishedMeansHandshake | src/bgp.cpp:289-322 | In every run, also when a message is processed after a tick has dropped the session, an Established peer has, since our last OPEN, received a matching OPEN and later a KEEPALIVE |
| PeerSession.OnlyKeepaliveEstablishes | src/bgp.cpp:308-317 | Established is entered only by a KEEPALIVE in OpenConfirm |
| PeerSession.OpenIsAdopted | src/bgp_open.cpp:144-163 | A matching OPEN's identifier is adopted, its hold time iff below 256, and keepalive is a third of the hold time |
| PeerSession.UpdatesAreConserved | src/bgp.cpp:339-410 | UPDATEs received = parsed + discarded + queued, and in_q minus the queue length is the number discarded, modulo 2^16 |
| PeerSession.QueueIsNewestReceived | src/bgp.cpp:339-350 | The queue is always the newest part of what was received, in order |
| Definedness.DefinedIff | src/bgp.cpp:143-382 | Over everything that can happen: every step is defined iff no stream fails, no UPDATE is longer than 4096 octets, no NOTIFICATION lacks a text, and no live tick meets an UPDATE without a defined parse that was received since the queue was last emptied; then every queued UPDATE fits its packet buffer |
| Definedness.RunsAreDefined | src/bgp.cpp:143-382 | The runs of the other session results are exactly what can happen with every step defined |
| Definedness.QueueIsPending | src/bgp.cpp:339-410 | In every run the queue holds exactly the UPDATEs received since a live tick or a session end last emptied it |
| Definedness.HarmlessIsDefined | src/bgp.cpp:289-377 | Whatever the timing, a session that receives only UPDATEs that fit and parse and NOTIFICATIONs with a text stays defined |
| Definedness.WellFormedPeerIsSafe | src/bgp.cpp:289-377 | The same for well-formed UPDATEs, with fewer than 256 attribute octets beside withdrawn routes |
| Definedness.NotificationWithoutText | src/bgp_notification.cpp:59-75 | Code 2 with subcode 0 right after connecting is undefined |
| Definedness.TextsAre | include/bgp_msg_text.h:52-83 | The subcodes that have a text, listed |
| Definedness.LongNextHopIsUndefined | src/bgp_update.cpp:128-150 | To any Established peer, an UPDATE whose NEXT_HOP claims 200 octets makes the next live tick undefined |
| UpdateParser.ParsesAlways | src/bgp_update.cpp:58-287 | Whether a packet has a defined parse depends on neither the peer nor the clock |
| Definedness.LongUpdateOverruns | src/bgp.cpp:342-345 | Every UPDATE of 4097 to 65516 octets passes the framing and overruns the queue element |
| PeerSession.ParsedOnlyWhenEstablished | src/bgp_update.cpp:35-81 | UPDATEs are parsed only by a tick that finds the peer Established and not expired, and then all of them |
| PeerSession.FarSideReadsWhatWasSent | src/bgp_send.cpp:25-49 | In every run the octets written on a connection are read by the far side as exactly the messages sent while connected |
| PeerSession.TickEnforcesHoldTime | src/bgp.cpp:430-440 | After every tick an Established peer was heard from within its hold time |
| PeerSession.HoldTimeIsAdopted | src/bgp_open.cpp:150-156 | In every run the hold time is the sum of the two hold-time octets of the last matching OPEN, and keep_alive a third of it |
| PeerSession.SilenceEndsSession | src/bgp.cpp:258-440 | In every run a tick drops an Established peer iff nothing was received for as many seconds as the hold-time octets of its last matching OPEN add up to |
| PeerSession.KeepaliveClockIsHonest | src/bgp_send.cpp:60-81 | Every step hands over exactly the message listed for it, with literal type numbers: our OPEN, a KEEPALIVE for an accepted OPEN or a KEEPALIVE, a NOTIFICATION for a rejected OPEN or an expiry, a due KEEPALIVE, else none; it is written exactly while connected, and the KEEPALIVE clock moves exactly when it is a KEEPALIVE |
| PeerSession.KeepaliveIsAnswered | src/bgp.cpp:308-320 | In every run a KEEPALIVE received in any state but Idle is answered with a KEEPALIVE and moves the clock |
| PeerSession.SendIs | src/bgp_send.cpp:25-85 | Nothing is sent while idle and never a message of type 2; otherwise one frame while connected |
| PeerSession.StateIs | src/bgp.cpp:143-440 | The state after every event |
| PeerSession.ConnectedIs | src/bgp.cpp:143-440 | Whether the session is connected after every event |
| PeerSession.PhaseIs | src/bgp.cpp:143-410 | Connecting, reading or clearing up after every event |
| PeerSession.PhaseAllows | src/bgp.cpp:143-410 | Which events each phase allows; the reader is left iff the connection is lost or the session idle |
| PeerSession.IdentifierIs | src/bgp_open.cpp:93-148 | The identifier is octets 5 to 8 of the accepted OPEN, in that order |
| PeerSession.NothingAfterEof | src/tcp_client.cpp:285-295 | In every run, nothing is written between the end of the stream and our next OPEN |
| PeerSession.LostSessionEnds | src/bgp.cpp:234-410 | In every run, a reading session can leave the reader iff it lost its connection or is idle, and then ends unconnected, with an empty queue, ready to connect |
| PeerSession.EofEndsSession | src/bgp.cpp:391-410 | So does every run that has reached the end of its stream |
| PeerSession.KeepalivesAreFrequent | src/bgp.cpp:442-444 | With ticks at most d apart, sends are less than max(keep_alive, 1) + d apart, and within the hold time if it is at least 3 and 3d is at most twice it |
| PeerSession.ZeroHoldTimeIff | src/bgp.cpp:430-440 | In every run a tick at the second of the last message drops an Established peer iff both hold-time octets of its last matching OPEN are zero |
| PeerSession.ZeroHoldTimeIsDropped | src/bgp.cpp:430-440 | The run that shows it: connect, an OPEN with hold time zero, KEEPALIVE, tick |
| Delivery.SessionHearsSender | src/bgp.cpp:255-350 | Whatever the far side framed, a session has at any time received a prefix of it, and all of it when the reader has taken all whole frames; the same for the UPDATEs |
| Delivery.HeardIsRead | src/bgp.cpp:234-382 | The messages of a session, taken off its stream one by one, are what the reader loop delivers for that stream |
| Delivery.NextCanBeReceived | src/bgp.cpp:255-287 | While a whole message is left on the stream a reading session can receive it |
| Delivery.CollectorsUnderstandEachOther | src/bgp_send.cpp:25-49 | What a session receives from another collector is a prefix of what that one sent in its run |
| Delivery.QueueStartsEmpty | src/bgp.cpp:404-410 | In every run a connection starts with an empty queue |
| Delivery.StreamToQueue | src/bgp.cpp:339-350 | In every run, once all whole frames of a connection are taken, the queue holds exactly the UPDATEs framed there but for those parsed or discarded since it was opened |
| PeerObject.BgpPeer.constructor | src/bgp_peer.cpp:25-44 | The initial session |
| PeerObject.BgpPeer.SendPacket | src/bgp_send.cpp:25-85 | Appends exactly the frame of the message while connected, nothing when idle or for an UPDATE, and keeps the clock |
| PeerObject.BgpPeer.WriteFrame | src/tcp_client.cpp:332-345 | The four writes append the whole frame, or nothing without a connection |
| PeerObject.BgpPeer.TryConnect | src/bgp.cpp:143-202 | A connection attempt as specified, or the report that a buffer is set on a null stream |
| PeerObject.BgpPeer.SendOpen | src/bgp_open.cpp:28-75 | Builds the ten octets and sends them |
| PeerObject.BgpPeer.DecodeOpenMessage | src/bgp_open.cpp:84-179 | Rejects or adopts an OPEN as specified |
| PeerObject.BgpPeer.ReceiveMessage | src/bgp.cpp:257-377 | One received message as specified, or the report that its copy overruns the queue element or its NOTIFICATION has no text |
| PeerObject.BgpPeer.DecodeNotification | src/bgp_notification.cpp:59-90 | Fails exactly for the subcodes without a text |
| PeerObject.BgpPeer.ReceiveKeepalive | src/bgp.cpp:308-320 | Establishes from OpenConfirm only, and answers |
| PeerObject.BgpPeer.QueueUpdate | src/bgp.cpp:335-350 | Appends the payload and counts it modulo 2^16, unless it overruns the packet buffer |
| PeerObject.BgpPeer.HoldTimerExpired | src/bgp.cpp:422-447 | Expiry, notification and keepalive as specified |
| PeerObject.BgpPeer.PopUpdate | src/bgp_update.cpp:76-81 | Takes the oldest UPDATE and decrements the 16-bit counter |
| PeerObject.BgpPeer.EndSession | src/bgp.cpp:404-410 | The step Discard: closes the connection and empties the queue without touching its counter |
| PeerObject.BgpPeer.ReadEnds | src/tcp_client.cpp:285-295 | The end of the stream is the step Eof |
| PeerObject.BgpPeer.KeepsReading | src/bgp.cpp:234 | The test of the reader loop takes the step EndReading exactly when it is possible |
| Pipeline.ProcInQ | src/bgp_update.cpp:32-292 | The session takes its tick, and both RIB queues grow by exactly what the due packets parse to |
| Pipeline.QueueSplit | src/bgp_update.cpp:56-288 | Splitting the arrival order of a queue gives exactly what is pushed to each RIB queue |
| Pipeline.VisitPeers | src/bgp.cpp:91-94 | All peers are visited in order and the queues hold the batch |
| Pipeline.Round | src/bgp.cpp:87-99 | A whole round: every session ticks, both queues end empty, the RIB is the drained batch of everything that arrived, the database is that of its announcements, and entries keep the blocks that were parsed |
| Pipeline.RoundKeepsBlocks | src/bgp.cpp:87-99 | Whatever arrives in a round, all entries hold the last address of their block |
| RoundArchive.RoundExtendsLog | src/bgp.cpp:558-571 | The log of the database grows in a round by exactly the entries the batch supersedes |
| RoundArchive.HistoryIsLocal | src/bgp.cpp:558-571 | What a batch archives under a key depends only on the announcements of the key's own peer |
| RoundArchive.MergesArchiveAlike | src/bgp.cpp:92-97 | Two merges of the same per-peer operations archive the same records under every key |
| Pipeline.RoundDefinedIff | src/bgp.cpp:91-94 | A round is defined iff the due packets of every peer are |
| Pipeline.TickIsDefinedIff | src/bgp_update.cpp:35-81 | A session takes a defined tick iff the round can parse what it has due |
| Pipeline.RoundOrderIrrelevant | src/bgp.cpp:91-97 | For peers with distinct identifiers, a round defined in one visiting order is defined in every other, gives the same RIB and archives the same records under every key |
| Turns.TakeTurns | src/bgp.cpp:87-99 | Any number of rounds with messages delivered in between: the RIB is the drained batches of the rounds in order, and every session is where its messages and ticks lead, or a step had no defined effect |
| Turns.TurnsOrderIff | src/bgp.cpp:87-99 | For everything that peers send over any number of rounds, the RIB entry of a key is that of in-order replay iff the last batch that touches the key is faithful to it, or its peer is unknown |
| RoundFacts.RoundFromWire | src/bgp.cpp:87-99 | For every round, whatever the other peers queued: the well-formed UPDATEs queued for a live session leave no route under an address that one of them withdraws, and otherwise the route of the newest UPDATE that announces it, or the old one |
| RoundFacts.QueueSays | src/bgp_update.cpp:32-292 | What the operations parsed from a queue of UPDATEs say about an address, in terms of the messages |
| RoundFacts.TurnsAreRuns | src/bgp.cpp:87-99 | Over any number of rounds with messages to all peers in between, each session ends where the run of its own messages and the ticks ends, so every result about session runs holds for every peer of the collector |
| RoundFacts.TurnBatch | src/bgp.cpp:91-94 | The batch of a round holds for each peer exactly the operations its own session has due after the messages of the turn |
| Pipeline.ParseTags | src/bgp_update.cpp:425-426 | Everything a packet pushes is tagged with the identifier of its peer |
| Pipeline.StreamReachesRound | src/bgp.cpp:255-350 | The framed UPDATEs of a connection that are not yet parsed or discarded are exactly the operations a live tick hands to the round |
| Pipeline.WireToQuery | src/bgp_update.cpp:84-443 | From the wire to a query: an announced prefix is stored with the decoded attributes, and the prefix query over the whole RIB returns it exactly for the addresses that share its top bits and are not below it |
| Pipeline.EmptyPathIsIndexed | api/bgp_api.cpp:184-190 | A well-formed UPDATE with an empty AS_PATH segment leaves a RIB on which the origin-AS query indexes an empty path |
| Pipeline.OriginIsLastAs | api/bgp_api.cpp:181-195 | For every UPDATE that announces x with the path xs, a: the entry it leaves in the RIB is returned by the origin-AS query iff it is asked for AS a with a length not below that of x, with the address and length of x |
| Cidr.RangeTestIsPrefixMatchIff | api/bgp_api.cpp:77-90 | The memcmp range test is the bitwise prefix match for all addresses iff the prefix has zero host bits |
| Cidr.HostBitsBreakTheMatch | src/bgp_update.cpp:408-432 | 10.0.0.1/31 covers 10.0.0.0, and a query for that address misses it |
| Cidr.RangeTestExactly | api/bgp_api.cpp:77-90 | For any prefix the test accepts the addresses that share its top bits and are not below it |
| Cidr.HighRangeValue | src/bgp_update.cpp:383-390 | The mask arithmetic yields the last address of the block |
| Cidr.NestedOrDisjoint | api/bgp_api.cpp:77-90 | Two blocks with zero host bits are nested or disjoint |
| Cidr.MemcmpIsNumeric | include/bgp_adj_rib.h:33-38 | memcmp on network-order octets is the numeric order of host-order values |
| Cidr.RibLessIsNumeric | include/bgp_adj_rib.h:33-38 | rib_sort is the numeric order of (prefix, identifier) |
| Cidr.RibLessIsStrictTotalOrder | include/bgp_adj_rib.h:33-38 | rib_sort is a strict total order |
| LookupApi.GetPrefix | api/bgp_api.cpp:76-90 | The matching loop returns the accepted entries of a traversal, in its order |
| RibEngine.InOrderIncreases | include/bgp_adj_rib.h:30-45 | The iteration of the RIB is strictly increasing by rib_sort |
| RibEngine.IteratedHas | include/bgp_adj_rib.h:30-45 | It yields every entry of the RIB and nothing else |
| Collector.Iterate | api/bgp_api.cpp:77-77 | Taking the least key left, each time, yields the entries in the order of the RIB |
| Collector.Bgp.ApiGetPrefix | api/bgp_api.cpp:76-90 | The query on the collector's own RIB returns the accepted entries in its order |
| LookupApi.QueryIsBitwiseMatchIff | api/bgp_api.cpp:76-90 | For every RIB filled by the parser, the query returns for every address exactly the entries covering it iff no entry has host bits set |
| LookupApi.MatchingIsFewer | api/bgp_api.cpp:76-90 | It never returns more than these, and all of them iff no single range test misses |
| LookupApi.MatchingConcat | api/bgp_api.cpp:76-90 | Entries are matched one by one, in order |
| RibQueries.ParseBlocks | src/bgp_update.cpp:408-437 | Every announcement that a packet pushes carries the last address of its block |
| RibQueries.RunKeepsBlocks | src/bgp.cpp:544-652 | In every run of the engine on parsed announcements, every RIB entry does |
| RibQueries.QueryOnReachableRib | api/bgp_api.cpp:76-90 | On every reachable RIB the query is exact for all addresses iff no entry has host bits, and returns an entry iff it covers the address and is not above it |
| LookupApi.IsRfc1918 | api/bgp_api.cpp:358-381 | True exactly for the three blocks of section 3 of RFC 1918, stated octet by octet |
| LookupApi.BlocksAreRfc1918 | api/bgp_api.cpp:344-381 | The three computed ranges are these blocks |
| LookupApi.AllFromAsn | api/bgp_api.cpp:181-195 | The prefixes whose path ends in the AS, in RIB order; undefined iff an entry within the length has an empty path |
| LookupApi.PublicFromAsn | api/bgp_api.cpp:399-416 | Those of the full result outside private space, in order; undefined iff such an entry outside private space has an empty path |
| LookupApi.PrivateFromAsn | api/bgp_api.cpp:463-480 | Those of the full result inside private space, in order; undefined iff such an entry inside private space has an empty path |
| LookupApi.SideHas | api/bgp_api.cpp:399-480 | The halves hold exactly the matches outside, or inside, the three private blocks |
| LookupApi.FromOneEntry | api/bgp_api.cpp:181-195 | An entry is returned, with its prefix and length, iff its path ends in the AS and it is not longer than asked |
| LookupApi.FromNoPath | api/bgp_api.cpp:181-195 | An entry without a path is never returned |
| LookupApi.FromAsnConcat | api/bgp_api.cpp:181-195 | Entries are judged one by one, in order |
| LookupApi.EmptyPathIff | api/bgp_api.cpp:181-195 | An entry with an empty path is indexed iff the length does not exclude it, and for the halves iff it is on that side |
| LookupApi.AllIsMerge | api/bgp_api.cpp:166-509 | The full result is an order-preserving merge of the disjoint public and private results |
| LookupApi.QueriesMerge | api/bgp_api.cpp:166-509 | For every RIB the full query is defined iff both halves are, and is their order-preserving merge |

## Left out

- Sockets, stdio, the CLI, JSON and syslog text, attribute aliases and the command parser: no property beyond formatting or library calls.
- `new`/`delete`, allocation failures, spin locks and leaked buffers: steps are atomic and memory is unlimited.
- Data races between the threads, such as a tick that closes the stream a reader is blocked on: a message is received in one step.
- Starting and deleting peers: the configured peers are fixed, so `delete_peer` is not modelled.
- Wrap-around of the 32-bit counters and of the table version: they are unbounded here; only `in_q`, `read_len`, the frame length and the index positions have their widths.
- Per-type transmit counters and byte counts of `send_packet`: they would only add easy members.
- MP_REACH_NLRI, MP_UNREACH_NLRI, ORIGINATOR_ID and CLUSTER_LIST contents: skipped by length, as in the source.
- IPv6 branches, debug and unit-test variants, and the output queue, which the source does not implement.
- Database records after a field read that fails part-way: the model says only that the reader does not return.
- The rejection of an OPEN for a bad identifier: it waits for `inet_ntoa` to fail, which it never does.
- The minimum of the two hold times and a state check on OPEN are in RFC 4271 but not in the source, and so not in the model.
