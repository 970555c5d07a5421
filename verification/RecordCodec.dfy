/**
 The database record: markers followed by raw host-order fields, ended by an end-of-record marker.
 Markers are not escaped in payloads, so the decoder must never lose its place.
 */
module RecordCodec {
  import opened Octets
  import opened Messages

  const ORIGIN: Word32 := 0xFFFFFF01
  const AS_PATH: Word32 := 0xFFFFFF02
  const NEXT_HOP: Word32 := 0xFFFFFF03
  const MULTI_EXIT_DISC: Word32 := 0xFFFFFF04
  const LOCAL_PREF: Word32 := 0xFFFFFF05
  const ATOMIC_AGGREGATE: Word32 := 0xFFFFFF06
  const AGGREGATOR: Word32 := 0xFFFFFF07
  const COMMUNITY: Word32 := 0xFFFFFF08
  const AS4_PATH: Word32 := 0xFFFFFF11
  const AS4_AGGREGATOR: Word32 := 0xFFFFFF12
  const ADDR_FAMILY: Word32 := 0xFFFFFF13
  const ADDR_FAMILY_ID: Word32 := 0xFFFFFF14
  const NLRI: Word32 := 0xFFFFFF15
  const END_OF_RECORD: Word32 := 0xFFFFFFFF

  /** One tagged field of a record. Skip stands for a marker the reader ignores. */
  datatype Field =
    | Origin(origin: Octet)
    | AsPath(path: PathSegment)
    | NextHop(address: Word32)
    | Med(med: Word32)
    | LocalPref(pref: Word32)
    | AtomicAggregate
    | AggregatorField(aggregator: Aggregator)
    | CommunityField(communities: Communities)
    | As4Path(path: PathSegment)
    | As4AggregatorField(aggregator: Aggregator)
    | AddrFamily(afi: Word16)
    | AddrFamilyId(safi: Octet)
    | NlriField(nlri: Nlri)
    | Skip

  // ---------- encoding ----------

  function Words(ws: seq<Word32>): (s: seq<Octet>)
    ensures |s| == 4 * |ws|
  {
    if ws == [] then [] else Memory(ws[0], 4) + Words(ws[1..])
  }

  function CommunityWords(cs: seq<Community>): (ws: seq<Word32>)
    ensures |ws| == 2 * |cs|
  {
    if cs == [] then [] else [cs[0].asn, cs[0].value] + CommunityWords(cs[1..])
  }

  function PathPayload(p: PathSegment): seq<Octet> {
    [|p.asns|, p.segType] + Words(p.asns)
  }

  function CommunityPayload(cs: Communities): seq<Octet> {
    [|cs|] + Words(CommunityWords(cs))
  }

  function AggregatorPayload(a: Aggregator): seq<Octet> {
    Words([a.asn, a.origin])
  }

  /** An NLRI as runs of (value, width) in the order the source writes them. */
  function NlriPayload(n: Nlri): seq<Octet> {
    Memory(n.age, 8) + (Memory(n.bgpId, 4) + (Memory(n.lastWithdrawTime, 8) + (Memory(n.prefix, 4)
    + (Memory(n.prefixHighest, 4) + (Memory(n.prefixLength, 1) + (Memory(n.received, 2)
    + (Memory(n.subnetMask, 4) + Memory(n.withdrawn, 2))))))))
  }

  function Marker(f: Field): Word32
    requires !f.Skip?
  {
    match f
    case Origin(_) => ORIGIN
    case AsPath(_) => AS_PATH
    case NextHop(_) => NEXT_HOP
    case Med(_) => MULTI_EXIT_DISC
    case LocalPref(_) => LOCAL_PREF
    case AtomicAggregate => ATOMIC_AGGREGATE
    case AggregatorField(_) => AGGREGATOR
    case CommunityField(_) => COMMUNITY
    case As4Path(_) => AS4_PATH
    case As4AggregatorField(_) => AS4_AGGREGATOR
    case AddrFamily(_) => ADDR_FAMILY
    case AddrFamilyId(_) => ADDR_FAMILY_ID
    case NlriField(_) => NLRI
  }

  function Payload(f: Field): seq<Octet>
    requires !f.Skip?
  {
    match f
    case Origin(o) => [o]
    case AsPath(p) => PathPayload(p)
    case NextHop(w) => Memory(w, 4)
    case Med(w) => Memory(w, 4)
    case LocalPref(w) => Memory(w, 4)
    case AtomicAggregate => []
    case AggregatorField(a) => AggregatorPayload(a)
    case CommunityField(cs) => CommunityPayload(cs)
    case As4Path(p) => PathPayload(p)
    case As4AggregatorField(a) => AggregatorPayload(a)
    case AddrFamily(w) => Memory(w, 2)
    case AddrFamilyId(o) => [o]
    case NlriField(n) => NlriPayload(n)
  }

  function EncodeField(f: Field): seq<Octet>
    requires !f.Skip?
  {
    Memory(Marker(f), 4) + Payload(f)
  }

  function Optional<T>(o: Option<T>, f: T -> Field): seq<Field> {
    match o
    case None => []
    case Some(x) => [f(x)]
  }

  /** The fields of a record in the order they are written. */
  function Fields(u: Update): (fs: seq<Field>)
    ensures Field.Skip !in fs
  {
    [AddrFamily(u.addrFamily), AddrFamilyId(u.addrFamilyId)]
    + Optional(u.aggregator, a => AggregatorField(a))
    + Optional(u.as4Aggregator, a => As4AggregatorField(a))
    + Optional(u.as4Path, p => As4Path(p))
    + Optional(u.asPath, p => AsPath(p))
    + (if u.atomicAggregate != 0 then [AtomicAggregate] else [])
    + Optional(u.communities, c => CommunityField(c))
    + [NextHop(u.nextHop), LocalPref(u.localPref), Med(u.med), NlriField(u.nlri), Origin(u.origin)]
  }

  function EncodeFields(fs: seq<Field>): seq<Octet>
    requires Field.Skip !in fs
  {
    if fs == [] then [] else EncodeField(fs[0]) + EncodeFields(fs[1..])
  }

  function Encode(u: Update): seq<Octet> {
    EncodeFields(Fields(u)) + Memory(END_OF_RECORD, 4)
  }

  /** Fields follow one another without anything in between. */
  lemma {:induction false} EncodeFieldsSnoc(fs: seq<Field>, f: Field)
    requires Field.Skip !in fs && !f.Skip?
    ensures EncodeFields(fs + [f]) == EncodeFields(fs) + EncodeField(f)
    decreases |fs|
  {
    hide EncodeField;
    if fs == [] {
      assert fs + [f] == [f] && [f][1..] == [];
    } else {
      assert (fs + [f])[1..] == fs[1..] + [f];
      EncodeFieldsSnoc(fs[1..], f);
    }
  }

  // ---------- decoding ----------

  function Read(file: seq<Octet>, pos: nat, n: nat): nat
    requires pos + n <= |file|
  {
    Value(file[pos..pos + n])
  }

  function ReadWord(file: seq<Octet>, pos: nat): Word32
    requires pos + 4 <= |file|
  {
    Word(file[pos..pos + 4])
  }

  lemma ReadBound(file: seq<Octet>, pos: nat, n: nat)
    requires pos + n <= |file|
    ensures Read(file, pos, n) < Pow256(n)
  {
    MemoryOfValue(file[pos..pos + n]);
  }

  function ReadWords(file: seq<Octet>, pos: nat, count: nat): (ws: seq<Word32>)
    requires pos + 4 * count <= |file|
    ensures |ws| == count
    decreases count
  {
    if count == 0 then [] else [ReadWord(file, pos)] + ReadWords(file, pos + 4, count - 1)
  }

  function Pairs(ws: seq<Word32>): (cs: seq<Community>)
    requires |ws| % 2 == 0
    ensures 2 * |cs| == |ws|
  {
    if ws == [] then [] else [Community(ws[0], ws[1])] + Pairs(ws[2..])
  }

  function ReadPath(file: seq<Octet>, pos: nat): Option<(PathSegment, nat)> {
    if pos + 2 > |file| then None
    else
      var count: nat := file[pos];
      if pos + 2 + 4 * count > |file| then None
      else Some((PathSegment(file[pos + 1], ReadWords(file, pos + 2, count)), pos + 2 + 4 * count))
  }

  function ReadCommunities(file: seq<Octet>, pos: nat): Option<(Communities, nat)> {
    if pos + 1 > |file| then None
    else
      var count: nat := file[pos];
      if pos + 1 + 8 * count > |file| then None
      else Some((Pairs(ReadWords(file, pos + 1, 2 * count)), pos + 1 + 8 * count))
  }

  function ReadAggregator(file: seq<Octet>, pos: nat): Option<(Aggregator, nat)> {
    if pos + 8 > |file| then None
    else Some((Aggregator(ReadWord(file, pos), ReadWord(file, pos + 4)), pos + 8))
  }

  const NLRI_SIZE := 37

  function ReadNlri(file: seq<Octet>, pos: nat): Nlri
    requires pos + NLRI_SIZE <= |file|
  {
    Widths();
    ReadBound(file, pos, 8);
    ReadBound(file, pos + 12, 8);
    ReadBound(file, pos + 28, 1);
    ReadBound(file, pos + 29, 2);
    ReadBound(file, pos + 35, 2);
    Nlri(
      ReadWord(file, pos + 8), ReadWord(file, pos + 20), ReadWord(file, pos + 24), ReadWord(file, pos + 31),
      Read(file, pos + 28, 1), Read(file, pos + 35, 2), Read(file, pos + 29, 2),
      Read(file, pos, 8), Read(file, pos + 12, 8))
  }

  /**
   The switch of the record reader: the field that a marker announces and the position after it.
   None stands for a read past the end of the file, after which the reader's loop never ends.
   */
  function ReadField(marker: Word32, file: seq<Octet>, pos: nat): Option<(Field, nat)> {
    if marker == ORIGIN then
      if pos + 1 > |file| then None else Some((Origin(file[pos]), pos + 1))
    else if marker == AS_PATH then
      match ReadPath(file, pos)
      case None => None
      case Some((p, next)) => Some((AsPath(p), next))
    else if marker == NEXT_HOP then
      if pos + 4 > |file| then None else Some((NextHop(ReadWord(file, pos)), pos + 4))
    else if marker == MULTI_EXIT_DISC then
      if pos + 4 > |file| then None else Some((Med(ReadWord(file, pos)), pos + 4))
    else if marker == LOCAL_PREF then
      if pos + 4 > |file| then None else Some((LocalPref(ReadWord(file, pos)), pos + 4))
    else if marker == ATOMIC_AGGREGATE then
      Some((AtomicAggregate, pos))
    else if marker == AGGREGATOR then
      match ReadAggregator(file, pos)
      case None => None
      case Some((a, next)) => Some((AggregatorField(a), next))
    else if marker == COMMUNITY then
      match ReadCommunities(file, pos)
      case None => None
      case Some((cs, next)) => Some((CommunityField(cs), next))
    else if marker == AS4_PATH then
      match ReadPath(file, pos)
      case None => None
      case Some((p, next)) => Some((As4Path(p), next))
    else if marker == AS4_AGGREGATOR then
      match ReadAggregator(file, pos)
      case None => None
      case Some((a, next)) => Some((As4AggregatorField(a), next))
    else if marker == ADDR_FAMILY then
      if pos + 2 > |file| then None
      else
        Widths(); ReadBound(file, pos, 2);
        Some((AddrFamily(Read(file, pos, 2)), pos + 2))
    else if marker == ADDR_FAMILY_ID then
      if pos + 1 > |file| then None else Some((AddrFamilyId(file[pos]), pos + 1))
    else if marker == NLRI then
      if pos + NLRI_SIZE > |file| then None else Some((NlriField(ReadNlri(file, pos)), pos + NLRI_SIZE))
    else
      Some((Skip, pos))
  }

  function Apply(u: Update, f: Field): Update {
    match f
    case Origin(o) => u.(origin := o)
    case AsPath(p) => u.(asPath := Some(p))
    case NextHop(w) => u.(nextHop := w)
    case Med(w) => u.(med := w)
    case LocalPref(w) => u.(localPref := w)
    case AtomicAggregate => u.(atomicAggregate := 1)
    case AggregatorField(a) => u.(aggregator := Some(a))
    case CommunityField(cs) => u.(communities := Some(cs))
    case As4Path(p) => u.(as4Path := Some(p))
    case As4AggregatorField(a) => u.(as4Aggregator := Some(a))
    case AddrFamily(w) => u.(addrFamily := w)
    case AddrFamilyId(o) => u.(addrFamilyId := o)
    case NlriField(n) => u.(nlri := n)
    case Skip => u
  }

  /** How a read leaves the stream: its joint position, and whether it is in a failed state. */
  datatype Stop = Stop(at: nat, failed: bool)

  /** What a read of four octets leaves in code when only some are left: the low ones are replaced. */
  function Overwritten(code: Word32, octets: seq<Octet>): Word32
    requires |octets| <= 4
  {
    Word(octets + Memory(code, 4)[|octets|..])
  }

  /**
   Reads fields into u until the end-of-record marker; code is the marker read last. A marker cut off
   by the end of the file ends the loop only if what is left of it completes code to the end-of-record
   marker, and then leaves the stream failed; any other read beyond the end is repeated for ever.
   */
  function Decode(file: seq<Octet>, pos: nat, u: Update, code: Word32): Option<(Update, Stop)>
    decreases |file| - pos
  {
    if pos > |file| then None
    else if pos + 4 > |file| then
      if Overwritten(code, file[pos..]) == END_OF_RECORD then Some((u, Stop(|file|, true))) else None
    else
      var marker := ReadWord(file, pos);
      if marker == END_OF_RECORD then Some((u, Stop(pos + 4, false)))
      else
        ReadFieldAdvances(marker, file, pos + 4);
        match ReadField(marker, file, pos + 4)
        case None => None
        case Some((f, next)) => Decode(file, next, Apply(u, f), marker)
  }

  lemma ReadFieldAdvances(marker: Word32, file: seq<Octet>, pos: nat)
    requires pos <= |file|
    ensures var r := ReadField(marker, file, pos);
            r.Some? ==> pos <= r.value.1 <= |file|
  {
  }

  // ---------- reading what was written ----------

  lemma ReadAt(file: seq<Octet>, pos: nat, v: nat, n: nat)
    requires At(file, pos, Memory(v, n)) && v < Pow256(n)
    ensures Read(file, pos, n) == v
  {
    ValueOfMemory(v, n);
  }

  lemma ReadWordAt(file: seq<Octet>, pos: nat, w: Word32)
    requires At(file, pos, Memory(w, 4))
    ensures ReadWord(file, pos) == w
  {
    WordOfMemory(w);
  }

  lemma {:induction false} ReadWordsAt(file: seq<Octet>, pos: nat, ws: seq<Word32>)
    requires At(file, pos, Words(ws))
    ensures ReadWords(file, pos, |ws|) == ws
    decreases |ws|
  {
    if ws != [] {
      AtSplit(file, pos, Memory(ws[0], 4), Words(ws[1..]));
      ReadWordAt(file, pos, ws[0]);
      ReadWordsAt(file, pos + 4, ws[1..]);
    }
  }

  lemma {:induction false} PairsOfCommunityWords(cs: seq<Community>)
    ensures Pairs(CommunityWords(cs)) == cs
  {
    if cs != [] {
      PairsOfCommunityWords(cs[1..]);
      assert CommunityWords(cs)[2..] == CommunityWords(cs[1..]);
    }
  }

  lemma ReadPathAt(file: seq<Octet>, pos: nat, p: PathSegment)
    requires At(file, pos, PathPayload(p))
    ensures ReadPath(file, pos) == Some((p, pos + |PathPayload(p)|))
  {
    AtSplit(file, pos, [|p.asns|, p.segType], Words(p.asns));
    assert file[pos] == file[pos..pos + 2][0] && file[pos + 1] == file[pos..pos + 2][1];
    ReadWordsAt(file, pos + 2, p.asns);
  }

  lemma ReadAggregatorAt(file: seq<Octet>, pos: nat, a: Aggregator)
    requires At(file, pos, AggregatorPayload(a))
    ensures ReadAggregator(file, pos) == Some((a, pos + |AggregatorPayload(a)|))
  {
    assert Words([a.asn, a.origin]) == Memory(a.asn, 4) + Memory(a.origin, 4) by {
      assert [a.asn, a.origin][1..] == [a.origin];
      assert Words([a.origin]) == Memory(a.origin, 4) + Words([]);
    }
    AtSplit(file, pos, Memory(a.asn, 4), Memory(a.origin, 4));
    ReadWordAt(file, pos, a.asn);
    ReadWordAt(file, pos + 4, a.origin);
  }

  lemma ReadCommunitiesAt(file: seq<Octet>, pos: nat, cs: Communities)
    requires At(file, pos, CommunityPayload(cs))
    ensures ReadCommunities(file, pos) == Some((cs, pos + |CommunityPayload(cs)|))
  {
    hide Words, CommunityWords, ReadWords, Pairs;
    var count: seq<Octet>, words := [|cs|], CommunityWords(cs);
    AtSplit(file, pos, count, Words(words));
    assert file[pos] == file[pos..pos + 1][0] == |cs|;
    ReadWordsAt(file, pos + 1, words);
    PairsOfCommunityWords(cs);
  }

  lemma ReadNlriTailAt(file: seq<Octet>, pos: nat, n: Nlri)
    requires At(file, pos, Memory(n.prefixHighest, 4) + (Memory(n.prefixLength, 1) + (Memory(n.received, 2)
                       + (Memory(n.subnetMask, 4) + Memory(n.withdrawn, 2)))))
    ensures pos + 13 <= |file|
    ensures ReadWord(file, pos) == n.prefixHighest && Read(file, pos + 4, 1) == n.prefixLength
    ensures Read(file, pos + 5, 2) == n.received && ReadWord(file, pos + 7) == n.subnetMask
    ensures Read(file, pos + 11, 2) == n.withdrawn
  {
    Widths();
    var t4 := Memory(n.subnetMask, 4) + Memory(n.withdrawn, 2);
    var t3 := Memory(n.received, 2) + t4;
    var t2 := Memory(n.prefixLength, 1) + t3;
    AtSplit(file, pos, Memory(n.prefixHighest, 4), t2);
    AtSplit(file, pos + 4, Memory(n.prefixLength, 1), t3);
    AtSplit(file, pos + 5, Memory(n.received, 2), t4);
    AtSplit(file, pos + 7, Memory(n.subnetMask, 4), Memory(n.withdrawn, 2));
    ReadWordAt(file, pos, n.prefixHighest);
    ReadAt(file, pos + 4, n.prefixLength, 1);
    ReadAt(file, pos + 5, n.received, 2);
    ReadWordAt(file, pos + 7, n.subnetMask);
    ReadAt(file, pos + 11, n.withdrawn, 2);
  }

  lemma ReadNlriAt(file: seq<Octet>, pos: nat, n: Nlri)
    requires At(file, pos, NlriPayload(n))
    ensures pos + NLRI_SIZE <= |file| && ReadNlri(file, pos) == n
    ensures |NlriPayload(n)| == NLRI_SIZE
  {
    Widths();
    var t4 := Memory(n.prefixHighest, 4) + (Memory(n.prefixLength, 1) + (Memory(n.received, 2)
              + (Memory(n.subnetMask, 4) + Memory(n.withdrawn, 2))));
    var t3 := Memory(n.prefix, 4) + t4;
    var t2 := Memory(n.lastWithdrawTime, 8) + t3;
    AtSplit(file, pos, Memory(n.age, 8), Memory(n.bgpId, 4) + t2);
    AtSplit(file, pos + 8, Memory(n.bgpId, 4), t2);
    AtSplit(file, pos + 12, Memory(n.lastWithdrawTime, 8), t3);
    AtSplit(file, pos + 20, Memory(n.prefix, 4), t4);
    ReadAt(file, pos, n.age, 8);
    ReadWordAt(file, pos + 8, n.bgpId);
    ReadAt(file, pos + 12, n.lastWithdrawTime, 8);
    ReadWordAt(file, pos + 20, n.prefix);
    ReadNlriTailAt(file, pos + 24, n);
  }

  // ---------- round trips ----------

  /** Every field is read back from its payload, whatever the payload octets are. */
  lemma ReadFieldAt(file: seq<Octet>, pos: nat, f: Field)
    requires !f.Skip? && At(file, pos, Payload(f))
    ensures ReadField(Marker(f), file, pos) == Some((f, pos + |Payload(f)|))
  {
    hide Memory, Words, Value, Read, ReadWord, ReadPath, ReadAggregator, ReadCommunities, ReadNlri;
    hide PathPayload, AggregatorPayload, CommunityPayload, NlriPayload;
    match f
    case Origin(o) => assert file[pos] == file[pos..pos + 1][0];
    case AsPath(p) => ReadPathAt(file, pos, p);
    case NextHop(w) => ReadWordAt(file, pos, w);
    case Med(w) => ReadWordAt(file, pos, w);
    case LocalPref(w) => ReadWordAt(file, pos, w);
    case AtomicAggregate =>
    case AggregatorField(a) => ReadAggregatorAt(file, pos, a);
    case CommunityField(cs) => ReadCommunitiesAt(file, pos, cs);
    case As4Path(p) => ReadPathAt(file, pos, p);
    case As4AggregatorField(a) => ReadAggregatorAt(file, pos, a);
    case AddrFamily(w) => Widths(); ReadAt(file, pos, w, 2);
    case AddrFamilyId(o) => assert file[pos] == file[pos..pos + 1][0];
    case NlriField(n) => ReadNlriAt(file, pos, n);
  }

  function ApplyAll(u: Update, fs: seq<Field>): Update
    decreases |fs|
  {
    if fs == [] then u else ApplyAll(Apply(u, fs[0]), fs[1..])
  }

  lemma DecodeStep(file: seq<Octet>, pos: nat, u: Update, f: Field, code: Word32)
    requires !f.Skip? && At(file, pos, EncodeField(f))
    ensures Decode(file, pos, u, code) == Decode(file, pos + |EncodeField(f)|, Apply(u, f), Marker(f))
  {
    hide ReadField, Payload, Memory, Apply;
    AtSplit(file, pos, Memory(Marker(f), 4), Payload(f));
    ReadWordAt(file, pos, Marker(f));
    ReadFieldAt(file, pos + 4, f);
  }

  lemma {:induction false} DecodeFieldsAt(file: seq<Octet>, pos: nat, u: Update, fs: seq<Field>, code: Word32)
    requires Field.Skip !in fs
    requires At(file, pos, EncodeFields(fs) + Memory(END_OF_RECORD, 4))
    ensures Decode(file, pos, u, code) == Some((ApplyAll(u, fs), Stop(pos + |EncodeFields(fs)| + 4, false)))
    decreases |fs|
  {
    hide ReadField, Payload, Marker, Memory;
    var end := Memory(END_OF_RECORD, 4);
    if fs == [] {
      assert EncodeFields(fs) + end == end;
      ReadWordAt(file, pos, END_OF_RECORD);
    } else {
      var f, rest := EncodeField(fs[0]), EncodeFields(fs[1..]);
      assert EncodeFields(fs) + end == f + (rest + end);
      AtSplit(file, pos, f, rest + end);
      DecodeStep(file, pos, u, fs[0], code);
      DecodeFieldsAt(file, pos + |f|, Apply(u, fs[0]), fs[1..], Marker(fs[0]));
    }
  }

  /** All markers differ from the end-of-record marker in the low octet only. */
  lemma MarkerOctets(f: Field, k: nat)
    requires !f.Skip? && 1 <= k <= 3
    ensures Overwritten(Marker(f), seq(k, i => 0xFF)) == END_OF_RECORD
  {
    hide Word;
    MemoryOfMarker(Marker(f));
    MemoryOfMarker(END_OF_RECORD);
    var ones: seq<Octet> := seq(k, i => 0xFF);
    assert ones + Memory(Marker(f), 4)[k..] == Memory(END_OF_RECORD, 4);
    WordOfMemory(END_OF_RECORD);
  }

  lemma MemoryOfMarker(w: Word32)
    requires w >= 0xFFFF_FF00
    ensures Memory(w, 4) == [w - 0xFFFF_FF00, 0xFF, 0xFF, 0xFF]
  {
    assert Memory(w, 4) == [w % 0x100] + Memory(w / 0x100, 3);
    assert w / 0x100 == 0xFF_FFFF && w % 0x100 == w - 0xFFFF_FF00;
    assert Memory(0xFF_FFFF, 3) == [0xFF] + Memory(0xFFFF, 2);
    assert Memory(0xFFFF, 2) == [0xFF] + Memory(0xFF, 1);
    assert Memory(0xFF, 1) == [0xFF] + Memory(0, 0);
  }

  /**
   A record cut off inside its end-of-record marker is read as if it were whole, whatever its fields,
   but leaves the stream failed.
   */
  lemma {:induction false} CutEndMarker(file: seq<Octet>, pos: nat, u: Update, fs: seq<Field>, code: Word32, k: nat)
    requires Field.Skip !in fs && 1 <= k <= 3
    requires fs == [] ==> Overwritten(code, seq(k, i => 0xFF)) == END_OF_RECORD
    requires pos <= |file| && file[pos..] == EncodeFields(fs) + seq(k, i => 0xFF)
    ensures Decode(file, pos, u, code) == Some((ApplyAll(u, fs), Stop(|file|, true)))
    decreases |fs|
  {
    hide ReadField, Payload, Marker, Memory, Overwritten;
    if fs == [] {
      assert file[pos..] == seq(k, i => 0xFF);
    } else {
      var f, rest := EncodeField(fs[0]), EncodeFields(fs[1..]);
      assert file[pos..] == f + (rest + seq(k, i => 0xFF));
      assert file[pos..pos + |f|] == f && file[pos + |f|..] == rest + seq(k, i => 0xFF);
      DecodeStep(file, pos, u, fs[0], code);
      MarkerOctets(fs[0], k);
      CutEndMarker(file, pos + |f|, Apply(u, fs[0]), fs[1..], Marker(fs[0]), k);
    }
  }

  /** What a record keeps of an update: flags and the multi-protocol fields are not written. */
  function Persisted(u: Update): Update {
    u.(flags := 0, mpNextHopLength := 0, attachmentPoints := 0,
       atomicAggregate := if u.atomicAggregate != 0 then 1 else 0)
  }

  lemma {:induction false} ApplyAllConcat(u: Update, fs: seq<Field>, gs: seq<Field>)
    ensures ApplyAll(u, fs + gs) == ApplyAll(ApplyAll(u, fs), gs)
    decreases |fs|
  {
    if fs == [] {
      assert fs + gs == gs;
    } else {
      assert (fs + gs)[1..] == fs[1..] + gs;
      ApplyAllConcat(Apply(u, fs[0]), fs[1..], gs);
    }
  }

  lemma ApplyAllOne(u: Update, f: Field)
    ensures ApplyAll(u, [f]) == Apply(u, f)
  {
    assert ApplyAll(u, [f]) == ApplyAll(Apply(u, f), [f][1..]);
  }

  /** A field that is written only when present is applied, or nothing is. */
  lemma OneOrNone(v: Update, fs: seq<Field>)
    requires |fs| <= 1
    ensures ApplyAll(v, fs) == if fs == [] then v else Apply(v, fs[0])
  {
    hide Apply;
    if fs == [] {
      ApplyNone(v);
    } else {
      assert fs == [fs[0]];
      ApplyAllOne(v, fs[0]);
    }
  }

  lemma AggregatorFields(v: Update, u: Update, f1: seq<Field>, f2: seq<Field>)
    requires v.aggregator.None? && v.as4Aggregator.None?
    requires f1 == if u.aggregator.Some? then [AggregatorField(u.aggregator.value)] else []
    requires f2 == if u.as4Aggregator.Some? then [As4AggregatorField(u.as4Aggregator.value)] else []
    ensures ApplyAll(ApplyAll(v, f1), f2) == v.(aggregator := u.aggregator, as4Aggregator := u.as4Aggregator)
  {
    hide ApplyAll;
    OneOrNone(v, f1);
    OneOrNone(ApplyAll(v, f1), f2);
  }

  lemma PathFields(v: Update, u: Update, f3: seq<Field>, f4: seq<Field>)
    requires v.as4Path.None? && v.asPath.None?
    requires f3 == if u.as4Path.Some? then [As4Path(u.as4Path.value)] else []
    requires f4 == if u.asPath.Some? then [AsPath(u.asPath.value)] else []
    ensures ApplyAll(ApplyAll(v, f3), f4) == v.(as4Path := u.as4Path, asPath := u.asPath)
  {
    hide ApplyAll;
    OneOrNone(v, f3);
    OneOrNone(ApplyAll(v, f3), f4);
  }

  lemma AtomicAndCommunityFields(v: Update, u: Update, f5: seq<Field>, f6: seq<Field>)
    requires v.atomicAggregate == 0 && v.communities.None?
    requires f5 == if u.atomicAggregate != 0 then [AtomicAggregate] else []
    requires f6 == if u.communities.Some? then [CommunityField(u.communities.value)] else []
    ensures ApplyAll(ApplyAll(v, f5), f6)
         == v.(atomicAggregate := if u.atomicAggregate != 0 then 1 else 0, communities := u.communities)
  {
    hide ApplyAll;
    OneOrNone(v, f5);
    OneOrNone(ApplyAll(v, f5), f6);
  }

  /** Folding the written fields over a blank update restores exactly what is persisted. */
  lemma FieldsRestore(u: Update)
    ensures ApplyAll(BLANK, Fields(u)) == Persisted(u)
  {
    hide ApplyAll;
    var f0 := [AddrFamily(u.addrFamily), AddrFamilyId(u.addrFamilyId)];
    var f1 := Optional(u.aggregator, a => AggregatorField(a));
    var f2 := Optional(u.as4Aggregator, a => As4AggregatorField(a));
    var f3 := Optional(u.as4Path, p => As4Path(p));
    var f4 := Optional(u.asPath, p => AsPath(p));
    var f5 := if u.atomicAggregate != 0 then [AtomicAggregate] else [];
    var f6 := Optional(u.communities, c => CommunityField(c));
    var f7 := [NextHop(u.nextHop), LocalPref(u.localPref), Med(u.med), NlriField(u.nlri), Origin(u.origin)];
    assert Fields(u) == f0 + f1 + f2 + f3 + f4 + f5 + f6 + f7;
    ApplyAllConcat(BLANK, f0 + f1 + f2 + f3 + f4 + f5 + f6, f7);
    ApplyAllConcat(BLANK, f0 + f1 + f2 + f3 + f4 + f5, f6);
    ApplyAllConcat(BLANK, f0 + f1 + f2 + f3 + f4, f5);
    ApplyAllConcat(BLANK, f0 + f1 + f2 + f3, f4);
    ApplyAllConcat(BLANK, f0 + f1 + f2, f3);
    ApplyAllConcat(BLANK, f0 + f1, f2);
    ApplyAllConcat(BLANK, f0, f1);
    var u0 := FirstFields(u, f0);
    AggregatorFields(u0, u, f1, f2);
    var u2 := ApplyAll(ApplyAll(u0, f1), f2);
    PathFields(u2, u, f3, f4);
    AtomicAndCommunityFields(ApplyAll(ApplyAll(u2, f3), f4), u, f5, f6);
    LastFields(ApplyAll(BLANK, f0 + f1 + f2 + f3 + f4 + f5 + f6), u, f7);
  }

  lemma ApplyNone(u: Update)
    ensures ApplyAll(u, []) == u
  {
  }

  lemma FirstFields(u: Update, f0: seq<Field>) returns (u0: Update)
    requires f0 == [AddrFamily(u.addrFamily), AddrFamilyId(u.addrFamilyId)]
    ensures u0 == ApplyAll(BLANK, f0)
    ensures u0 == BLANK.(addrFamily := u.addrFamily, addrFamilyId := u.addrFamilyId)
  {
    u0 := ApplyAll(BLANK, f0);
    assert f0 == [f0[0]] + [f0[1]];
    ApplyAllConcat(BLANK, [f0[0]], [f0[1]]);
    ApplyAllOne(BLANK, f0[0]);
    ApplyAllOne(Apply(BLANK, f0[0]), f0[1]);
  }

  lemma LastFields(v: Update, u: Update, f7: seq<Field>)
    requires f7 == [NextHop(u.nextHop), LocalPref(u.localPref), Med(u.med), NlriField(u.nlri), Origin(u.origin)]
    ensures ApplyAll(v, f7)
         == v.(nextHop := u.nextHop, localPref := u.localPref, med := u.med, nlri := u.nlri, origin := u.origin)
  {
    var v1 := Apply(v, f7[0]);
    var v2 := Apply(v1, f7[1]);
    var v3 := Apply(v2, f7[2]);
    var v4 := Apply(v3, f7[3]);
    assert f7[1..][1..] == f7[2..] && f7[2..][1..] == f7[3..] && f7[3..][1..] == f7[4..] == [f7[4]];
    assert ApplyAll(v, f7) == ApplyAll(v1, f7[1..]);
    assert ApplyAll(v1, f7[1..]) == ApplyAll(v2, f7[2..]);
    assert ApplyAll(v2, f7[2..]) == ApplyAll(v3, f7[3..]);
    assert ApplyAll(v3, f7[3..]) == ApplyAll(v4, f7[4..]);
    ApplyAllOne(v4, f7[4]);
  }

  /**
   Decoding at the start of a record restores every persisted field and stops exactly at the
   record's end, wherever the record lies in the file and whatever surrounds it.
   */
  lemma RecordRoundTrip(before: seq<Octet>, u: Update, after: seq<Octet>)
    ensures Decode(before + Encode(u) + after, |before|, BLANK, 0)
         == Some((Persisted(u), Stop(|before| + |Encode(u)|, false)))
  {
    var file := before + Encode(u) + after;
    hide Encode, Decode, Persisted;
    assert file[|before|..|before| + |Encode(u)|] == Encode(u);
    DecodeRecordAt(file, |before|, u);
  }

  lemma DecodeRecordAt(file: seq<Octet>, pos: nat, u: Update)
    requires At(file, pos, Encode(u))
    ensures Decode(file, pos, BLANK, 0) == Some((Persisted(u), Stop(pos + |Encode(u)|, false)))
  {
    hide Fields, EncodeFields, Decode, ApplyAll, Persisted, Memory;
    DecodeFieldsAt(file, pos, BLANK, Fields(u), 0);
    FieldsRestore(u);
  }
}
