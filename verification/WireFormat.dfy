/**
 The wire format of an UPDATE as the standards define it: section 4.3 of RFC 4271, section 3 of
 RFC 6793 for the four-octet attributes, and the COMMUNITIES attribute of RFC 1997. This is the
 specification that the parser is proved to invert.
 */
module WireFormat {
  import opened Octets
  import opened Cidr
  import opened Messages

  /** Attribute flags with the extended-length bit clear: the length is one octet. */
  type Flags = f: Octet | f / 16 % 2 == 0

  const ORIGIN: Octet := 0x01
  const AS_PATH: Octet := 0x02
  const NEXT_HOP: Octet := 0x03
  const MULTI_EXIT_DISC: Octet := 0x04
  const LOCAL_PREF: Octet := 0x05
  const ATOMIC_AGGREGATE: Octet := 0x06
  const AGGREGATOR: Octet := 0x07
  const COMMUNITY: Octet := 0x08
  const AS4_PATH: Octet := 0x11
  const AS4_AGGREGATOR: Octet := 0x12

  const DECODED := {ORIGIN, AS_PATH, NEXT_HOP, MULTI_EXIT_DISC, LOCAL_PREF, ATOMIC_AGGREGATE,
                    AGGREGATOR, COMMUNITY, AS4_PATH, AS4_AGGREGATOR}

  type Asns16 = s: seq<Word16> | |s| < 0x100

  datatype Segment16 = Segment16(segType: Octet, asns: Asns16)
  datatype CommunityValue = CommunityValue(asn: Word16, value: Word16)

  /** A path attribute. Segments holds what follows the first segment of a path, if anything. */
  datatype Attr =
    | Origin(flags: Flags, origin: Octet)
    | EmptyPath(flags: Flags)
    | AsPath(flags: Flags, first: Segment16, others: seq<Octet>)
    | NextHop(flags: Flags, address: Word32)
    | Med(flags: Flags, med: Word32)
    | LocalPref(flags: Flags, pref: Word32)
    | AtomicAggregate(flags: Flags)
    | AggregatorAttr(flags: Flags, asn: Word16, speaker: Word32)
    | CommunityAttr(flags: Flags, values: seq<CommunityValue>)
    | As4Path(flags: Flags, first4: PathSegment, others: seq<Octet>)
    | As4AggregatorAttr(flags: Flags, asn4: Word32, speaker: Word32)
    | Other(flags: Flags, code: Octet, body: seq<Octet>)

  function NetAsns(ws: seq<Word16>): (s: seq<Octet>)
    ensures |s| == 2 * |ws|
  {
    if ws == [] then [] else Net16(ws[0]) + NetAsns(ws[1..])
  }

  function NetAsns4(ws: seq<Word32>): (s: seq<Octet>)
    ensures |s| == 4 * |ws|
  {
    if ws == [] then [] else Net32(ws[0]) + NetAsns4(ws[1..])
  }

  function NetCommunities(vs: seq<CommunityValue>): (s: seq<Octet>)
    ensures |s| == 4 * |vs|
  {
    if vs == [] then [] else Net16(vs[0].asn) + Net16(vs[0].value) + NetCommunities(vs[1..])
  }

  function Code(a: Attr): Octet {
    match a
    case Origin(_, _) => ORIGIN
    case EmptyPath(_) => AS_PATH
    case AsPath(_, _, _) => AS_PATH
    case NextHop(_, _) => NEXT_HOP
    case Med(_, _) => MULTI_EXIT_DISC
    case LocalPref(_, _) => LOCAL_PREF
    case AtomicAggregate(_) => ATOMIC_AGGREGATE
    case AggregatorAttr(_, _, _) => AGGREGATOR
    case CommunityAttr(_, _) => COMMUNITY
    case As4Path(_, _, _) => AS4_PATH
    case As4AggregatorAttr(_, _, _) => AS4_AGGREGATOR
    case Other(_, code, _) => code
  }

  /** Addresses travel in the order they are held in memory. */
  function Body(a: Attr): seq<Octet> {
    match a
    case Origin(_, o) => [o]
    case EmptyPath(_) => []
    case AsPath(_, s, others) => [s.segType, |s.asns|] + NetAsns(s.asns) + others
    case NextHop(_, w) => Memory(w, 4)
    case Med(_, w) => Net32(w)
    case LocalPref(_, w) => Net32(w)
    case AtomicAggregate(_) => []
    case AggregatorAttr(_, asn, speaker) => Net16(asn) + Memory(speaker, 4)
    case CommunityAttr(_, vs) => NetCommunities(vs)
    case As4Path(_, s, others) => [s.segType, |s.asns|] + NetAsns4(s.asns) + others
    case As4AggregatorAttr(_, asn, speaker) => Net32(asn) + Memory(speaker, 4)
    case Other(_, _, body) => body
  }

  /** The body length fits its octet, and Other really is another type. */
  predicate WellFormed(a: Attr) {
    |Body(a)| < 0x100 && (a.Other? ==> a.code !in DECODED)
  }

  function EncodeAttr(a: Attr): seq<Octet>
    requires WellFormed(a)
  {
    [a.flags, Code(a), |Body(a)|] + Body(a)
  }

  predicate AllWellFormed(attrs: seq<Attr>) {
    forall i :: 0 <= i < |attrs| ==> WellFormed(attrs[i])
  }

  function EncodeAttrs(attrs: seq<Attr>): seq<Octet>
    requires AllWellFormed(attrs)
  {
    if attrs == [] then [] else EncodeAttr(attrs[0]) + EncodeAttrs(attrs[1..])
  }

  /** A prefix: its length and just the octets that the length needs. */
  datatype WirePrefix = WirePrefix(length: PrefixLength, octets: seq<Octet>)

  function OctetsFor(length: nat): nat {
    length / 8 + (if length % 8 != 0 then 1 else 0)
  }

  predicate ValidPrefix(p: WirePrefix) {
    |p.octets| == OctetsFor(p.length)
  }

  predicate ValidPrefixes(ps: seq<WirePrefix>) {
    forall i :: 0 <= i < |ps| ==> ValidPrefix(ps[i])
  }

  function EncodePrefixes(ps: seq<WirePrefix>): seq<Octet> {
    if ps == [] then [] else [ps[0].length] + ps[0].octets + EncodePrefixes(ps[1..])
  }

  /** A whole UPDATE message, without the header. */
  datatype Message = Message(withdrawn: seq<WirePrefix>, attrs: seq<Attr>, nlri: seq<WirePrefix>)

  predicate ValidMessage(m: Message) {
    && ValidPrefixes(m.withdrawn) && AllWellFormed(m.attrs) && ValidPrefixes(m.nlri)
    && |EncodePrefixes(m.withdrawn)| < 0x1_0000 && |EncodeAttrs(m.attrs)| < 0x1_0000
  }

  function EncodeMessage(m: Message): seq<Octet>
    requires ValidMessage(m)
  {
    Net16(|EncodePrefixes(m.withdrawn)|) + EncodePrefixes(m.withdrawn)
    + (Net16(|EncodeAttrs(m.attrs)|) + EncodeAttrs(m.attrs) + EncodePrefixes(m.nlri))
  }

  // ---------- what a message means ----------

  function Widen(ws: Asns16): Asns {
    seq(|ws|, i requires 0 <= i < |ws| => ws[i])
  }

  function CommunityValues(vs: seq<CommunityValue>): seq<Community> {
    seq(|vs|, i requires 0 <= i < |vs| => Community(vs[i].asn, vs[i].value))
  }

  /** The effect of an attribute on the route being described; an empty path or list sets nothing. */
  function Meaning(u: Update, a: Attr): Update
    requires WellFormed(a)
  {
    match a
    case Origin(_, o) => u.(origin := o)
    case EmptyPath(_) => u
    case AsPath(_, s, _) => u.(asPath := Some(PathSegment(s.segType, Widen(s.asns))))
    case NextHop(_, w) => u.(nextHop := w)
    case Med(_, w) => u.(med := w)
    case LocalPref(_, w) => u.(localPref := w)
    case AtomicAggregate(_) => u.(atomicAggregate := 1)
    case AggregatorAttr(_, asn, speaker) => u.(aggregator := Some(Aggregator(asn, speaker)))
    case CommunityAttr(_, vs) => if vs == [] then u else u.(communities := Some(CommunityValues(vs)))
    case As4Path(_, s, _) => u.(as4Path := Some(s))
    case As4AggregatorAttr(_, asn, speaker) => u.(as4Aggregator := Some(Aggregator(asn, speaker)))
    case Other(_, _, _) => u
  }

  function MeaningOf(u: Update, attrs: seq<Attr>): Update
    requires AllWellFormed(attrs)
    decreases |attrs|
  {
    if attrs == [] then u else MeaningOf(Meaning(u, attrs[0]), attrs[1..])
  }

  /** The address of a prefix: missing octets are zero. */
  function Address(octets: seq<Octet>): Word32
    requires |octets| <= 4
  {
    Word(octets + seq(4 - |octets|, i => 0))
  }
}
