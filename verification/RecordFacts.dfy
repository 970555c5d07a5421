/**
 The record of the history file octet by octet, with the markers of include/bgp_database.h written out.
 */
module RecordFacts {
  import opened Octets
  import opened Messages
  import opened RecordCodec

  /** The four octets of a marker whose low octet is given: the other three are ones. */
  function MarkerIs(low: Octet): seq<Octet> {
    [low, 0xFF, 0xFF, 0xFF]
  }

  /** What follows the marker of a path: its length, its type, and four octets for each AS number. */
  function PathIs(p: PathSegment): seq<Octet> {
    [|p.asns|, p.segType] + Words(p.asns)
  }

  function AggregatorIs(a: Aggregator): seq<Octet> {
    Memory(a.asn, 4) + Memory(a.origin, 4)
  }

  function NlriIs(n: Nlri): seq<Octet> {
    Memory(n.age, 8) + Memory(n.bgpId, 4) + Memory(n.lastWithdrawTime, 8) + Memory(n.prefix, 4)
    + Memory(n.prefixHighest, 4) + [n.prefixLength] + Memory(n.received, 2) + Memory(n.subnetMask, 4)
    + Memory(n.withdrawn, 2)
  }

  /** Every field by its marker and the octets behind it. */
  lemma FieldLayout(f: Field)
    requires !f.Skip?
    ensures EncodeField(f)
         == match f
            case Origin(o) => MarkerIs(1) + [o]
            case AsPath(p) => MarkerIs(2) + PathIs(p)
            case NextHop(w) => MarkerIs(3) + Memory(w, 4)
            case Med(w) => MarkerIs(4) + Memory(w, 4)
            case LocalPref(w) => MarkerIs(5) + Memory(w, 4)
            case AtomicAggregate => MarkerIs(6)
            case AggregatorField(a) => MarkerIs(7) + AggregatorIs(a)
            case CommunityField(cs) => MarkerIs(8) + [|cs|] + Words(CommunityWords(cs))
            case As4Path(p) => MarkerIs(0x11) + PathIs(p)
            case As4AggregatorField(a) => MarkerIs(0x12) + AggregatorIs(a)
            case AddrFamily(w) => MarkerIs(0x13) + Memory(w, 2)
            case AddrFamilyId(o) => MarkerIs(0x14) + [o]
            case NlriField(n) => MarkerIs(0x15) + NlriIs(n)
  {
    hide Memory, Words, CommunityWords, NlriPayload, AggregatorPayload, NlriIs;
    MarkerOctetsAre(f);
    match f
    case AggregatorField(a) => AggregatorLayout(a);
    case As4AggregatorField(a) => AggregatorLayout(a);
    case NlriField(n) => NlriLayout(n);
    case CommunityField(cs) =>
      assert MarkerIs(8) + ([|cs|] + Words(CommunityWords(cs))) == MarkerIs(8) + [|cs|] + Words(CommunityWords(cs));
    case _ =>
  }

  lemma MarkerOctetsAre(f: Field)
    requires !f.Skip?
    ensures Marker(f) >= 0xFFFF_FF00 && Memory(Marker(f), 4) == MarkerIs(Marker(f) - 0xFFFF_FF00)
  {
    hide Memory;
    MemoryOfMarker(Marker(f));
  }

  lemma AggregatorLayout(a: Aggregator)
    ensures AggregatorPayload(a) == AggregatorIs(a)
  {
    hide Memory;
    assert [a.asn, a.origin][1..] == [a.origin] && [a.origin][1..] == [];
    assert Words([a.asn, a.origin]) == Memory(a.asn, 4) + (Memory(a.origin, 4) + Words([]));
  }

  lemma NlriLayout(n: Nlri)
    ensures NlriPayload(n) == NlriIs(n)
  {
    hide Memory;
    assert Memory(n.prefixLength, 1) == [n.prefixLength] by { OneOctet(n.prefixLength); }
    var tail := Memory(n.received, 2) + (Memory(n.subnetMask, 4) + Memory(n.withdrawn, 2));
    assert tail == Memory(n.received, 2) + Memory(n.subnetMask, 4) + Memory(n.withdrawn, 2);
    var head := Memory(n.age, 8) + Memory(n.bgpId, 4) + Memory(n.lastWithdrawTime, 8) + Memory(n.prefix, 4);
    assert NlriPayload(n) == head + (Memory(n.prefixHighest, 4) + ([n.prefixLength] + tail));
  }

  lemma OneOctet(o: Octet)
    ensures Memory(o, 1) == [o]
  {
    assert Memory(o, 1) == [o % 0x100] + Memory(o / 0x100, 0);
  }

  /** AS number i of a path, and word i of any list: four octets from 4i on. */
  lemma {:induction false} WordsAre(ws: seq<Word32>, i: nat)
    requires i < |ws|
    ensures Words(ws)[4 * i..4 * i + 4] == Memory(ws[i], 4)
    decreases |ws|
  {
    hide Memory;
    if i > 0 {
      WordsAre(ws[1..], i - 1);
      assert Words(ws)[4 * i..4 * i + 4] == Words(ws[1..])[4 * (i - 1)..4 * (i - 1) + 4];
    }
  }

  /** Community i: its AS in the word 2i and its value in the next. */
  lemma {:induction false} CommunityWordsAre(cs: seq<Community>, i: nat)
    requires i < |cs|
    ensures CommunityWords(cs)[2 * i] == cs[i].asn && CommunityWords(cs)[2 * i + 1] == cs[i].value
    decreases |cs|
  {
    if i > 0 {
      CommunityWordsAre(cs[1..], i - 1);
    }
  }

  /** The order of the fields: what is always written, what only when present, and then the end marker. */
  lemma RecordLayout(u: Update) returns (fs: seq<Field>)
    ensures fs == [AddrFamily(u.addrFamily), AddrFamilyId(u.addrFamilyId)]
                  + (if u.aggregator.Some? then [AggregatorField(u.aggregator.value)] else [])
                  + (if u.as4Aggregator.Some? then [As4AggregatorField(u.as4Aggregator.value)] else [])
                  + (if u.as4Path.Some? then [As4Path(u.as4Path.value)] else [])
                  + (if u.asPath.Some? then [AsPath(u.asPath.value)] else [])
                  + (if u.atomicAggregate != 0 then [AtomicAggregate] else [])
                  + (if u.communities.Some? then [CommunityField(u.communities.value)] else [])
                  + [NextHop(u.nextHop), LocalPref(u.localPref), Med(u.med), NlriField(u.nlri), Origin(u.origin)]
    ensures Field.Skip !in fs && Encode(u) == EncodeFields(fs) + [0xFF, 0xFF, 0xFF, 0xFF]
  {
    hide EncodeFields, Memory;
    fs := Fields(u);
    MemoryOfMarker(END_OF_RECORD);
  }

  /** What a record does not keep: the flags and the multi-protocol fields; ATOMIC_AGGREGATE only as present or not. */
  lemma PersistedIs(u: Update)
    ensures Persisted(u).(flags := u.flags, mpNextHopLength := u.mpNextHopLength, attachmentPoints := u.attachmentPoints,
                          atomicAggregate := u.atomicAggregate) == u
    ensures Persisted(u).flags == 0 && Persisted(u).mpNextHopLength == 0 && Persisted(u).attachmentPoints == 0
    ensures Persisted(u).atomicAggregate == 1 <==> u.atomicAggregate != 0
    ensures Persisted(u).atomicAggregate == 0 <==> u.atomicAggregate == 0
  {
  }

  /** Any other marker is read over: the next one is looked for right behind it. */
  lemma UnknownMarkersAreSkipped(marker: Word32, file: seq<Octet>, pos: nat)
    requires marker < 0xFFFF_FF01 || 0xFFFF_FF09 <= marker <= 0xFFFF_FF10 || 0xFFFF_FF16 <= marker < 0xFFFF_FFFF
    ensures ReadField(marker, file, pos) == Some((Skip, pos))
  {
  }
}
