/**
 The values that flow through the collector: a parsed UPDATE for one prefix. They are immutable,
 so a queued copy never depends on the parser's scratch object.
 */
module Messages {
  import opened Octets
  import opened Cidr

  /** The packet buffer of a queue element; a longer UPDATE would overrun it. */
  const MAX_PACKET := 4096

  datatype Option<+T> = None | Some(value: T)

  /** Sequences whose length the source keeps in one octet. */
  type Asns = s: seq<Word32> | |s| < 0x100
  type Communities = s: seq<Community> | |s| < 0x100

  datatype PathSegment = PathSegment(segType: Octet, asns: Asns)
  datatype Aggregator = Aggregator(asn: Word32, origin: Word32)
  datatype Community = Community(asn: Word32, value: Word32)

  /** Network layer reachability information; addresses are held in network order. */
  datatype Nlri = Nlri(
    bgpId: Word32, prefix: Word32, prefixHighest: Word32, subnetMask: Word32, prefixLength: Octet,
    withdrawn: Word16, received: Word16, age: Word64, lastWithdrawTime: Word64)

  datatype Update = Update(
    flags: Octet, origin: Octet,
    asPath: Option<PathSegment>, as4Path: Option<PathSegment>,
    nextHop: Word32, med: Word32, localPref: Word32, atomicAggregate: Octet,
    aggregator: Option<Aggregator>, as4Aggregator: Option<Aggregator>,
    communities: Option<Communities>,
    addrFamily: Word16, addrFamilyId: Octet, mpNextHopLength: Octet, attachmentPoints: Octet,
    nlri: Nlri)

  const BLANK_NLRI := Nlri(0, 0, 0, 0, 0, 0, 0, 0, 0)

  /** A default-constructed update. */
  const BLANK := Update(0, 0, None, None, 0, 0, 0, 0, None, None, None, 0, 0, 0, 0, BLANK_NLRI)

  /** The key of the RIB and of the database index. The prefix length is not part of it. */
  function KeyOf(u: Update): Key {
    Key(u.nlri.prefix, u.nlri.bgpId)
  }

  /** What the copy constructor keeps: everything, except an allocated but empty community list. */
  function Copied(u: Update): Update {
    if u.communities == Some([]) then u.(communities := None) else u
  }
}
