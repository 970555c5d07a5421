/**
 The API's lookups over the RIB in iteration order: all entries covering an address, and the
 prefixes that originate in an AS, split by RFC 1918.
 */
module LookupApi {
  import opened Octets
  import opened Cidr
  import opened Messages

  // ---------- entries covering an address ----------

  /** The entries the range test accepts, in order. */
  function Matching(rib: seq<Update>, address: Word32): seq<Update> {
    if rib == [] then []
    else
      var u := rib[|rib| - 1];
      Matching(rib[..|rib| - 1], address)
      + (if InRange(u.nlri.prefix, u.nlri.prefixHighest, address) then [u] else [])
  }

  /** The matching loop of api_get_prefix. */
  method GetPrefix(rib: seq<Update>, address: Word32) returns (matches: seq<Update>)
    ensures matches == Matching(rib, address)
  {
    hide InRange;
    matches := [];
    for i := 0 to |rib|
      invariant matches == Matching(rib[..i], address)
    {
      assert rib[..i + 1][..i] == rib[..i];
      if InRange(rib[i].nlri.prefix, rib[i].nlri.prefixHighest, address) {
        matches := matches + [rib[i]];
      }
    }
    assert rib[..|rib|] == rib;
  }

  /** The block of an entry as the parser stores it; host bits may be set. */
  predicate ParsedBlock(u: Update) {
    && 1 <= u.nlri.prefixLength <= 32
    && u.nlri.prefixHighest == HighRange(u.nlri.prefix, u.nlri.prefixLength)
  }

  predicate AllParsedBlocks(rib: seq<Update>) {
    forall i :: 0 <= i < |rib| ==> ParsedBlock(rib[i])
  }

  /** The address shares the top bits of the entry's prefix, as many as its length says. */
  ghost predicate Contains(u: Update, address: Word32)
    requires ParsedBlock(u)
  {
    TopBitsAgree(u.nlri.prefix, address, u.nlri.prefixLength)
  }

  ghost predicate NoHostBits(u: Update)
    requires ParsedBlock(u)
  {
    ZeroHostBits(u.nlri.prefix, u.nlri.prefixLength)
  }

  /** The reference: keep exactly the entries that cover the address. */
  ghost function Covering(rib: seq<Update>, address: Word32): seq<Update>
    requires AllParsedBlocks(rib)
  {
    if rib == [] then []
    else
      var u := rib[|rib| - 1];
      assert ParsedBlock(u);
      Covering(rib[..|rib| - 1], address) + (if Contains(u, address) then [u] else [])
  }

  predicate Accepts(u: Update, address: Word32) {
    InRange(u.nlri.prefix, u.nlri.prefixHighest, address)
  }

  lemma AcceptsMeans(u: Update, address: Word32)
    requires ParsedBlock(u)
    ensures Accepts(u, address) <==> Contains(u, address) && Swap(u.nlri.prefix) <= Swap(address)
  {
    RangeTestExactly(u.nlri.prefix, u.nlri.prefixLength, address);
  }

  /** Host bits are what makes the test miss a covered address: the network address of the block. */
  lemma HostBitsMiss(u: Update) returns (address: Word32)
    requires ParsedBlock(u)
    ensures NoHostBits(u) ==> forall a: Word32 :: Accepts(u, a) <==> Contains(u, a)
    ensures !NoHostBits(u) ==> Contains(u, address) && !Accepts(u, address)
  {
    RangeTestIsPrefixMatchIff(u.nlri.prefix, u.nlri.prefixLength);
    address := NetworkAddress(u.nlri.prefix, u.nlri.prefixLength);
    AcceptsMeans(u, address);
  }

  /** The query never returns more than the covering entries, and all of them only if no test misses. */
  lemma {:induction false} MatchingIsFewer(rib: seq<Update>, address: Word32)
    requires AllParsedBlocks(rib)
    ensures |Matching(rib, address)| <= |Covering(rib, address)|
    ensures |Matching(rib, address)| == |Covering(rib, address)|
       <==> forall i :: 0 <= i < |rib| ==> (Accepts(rib[i], address) <==> Contains(rib[i], address))
    ensures |Matching(rib, address)| == |Covering(rib, address)| ==> Matching(rib, address) == Covering(rib, address)
    decreases |rib|
  {
    hide InRange, ParsedBlock, Contains;
    if rib != [] {
      var n := |rib| - 1;
      MatchingIsFewer(rib[..n], address);
      AcceptsMeans(rib[n], address);
    }
  }

  /** For every address the query returns exactly the entries covering it. */
  ghost predicate ExactForAll(rib: seq<Update>)
    requires AllParsedBlocks(rib)
  {
    forall address: Word32 :: Matching(rib, address) == Covering(rib, address)
  }

  ghost predicate NoneHasHostBits(rib: seq<Update>)
    requires AllParsedBlocks(rib)
  {
    forall i :: 0 <= i < |rib| ==> NoHostBits(rib[i])
  }

  lemma ExactHasNoHostBits(rib: seq<Update>, i: nat)
    requires AllParsedBlocks(rib) && i < |rib| && ExactForAll(rib)
    ensures NoHostBits(rib[i])
  {
    hide Accepts, Contains, NoHostBits, ParsedBlock;
    var address := HostBitsMiss(rib[i]);
    assert Matching(rib, address) == Covering(rib, address);
    MatchingIsFewer(rib, address);
  }

  lemma NoHostBitsIsExact(rib: seq<Update>, address: Word32)
    requires AllParsedBlocks(rib) && NoneHasHostBits(rib)
    ensures Matching(rib, address) == Covering(rib, address)
  {
    hide Matching, Covering, Accepts, Contains, NoHostBits, ParsedBlock;
    forall i | 0 <= i < |rib|
      ensures Accepts(rib[i], address) <==> Contains(rib[i], address)
    {
      var _ := HostBitsMiss(rib[i]);
    }
    MatchingIsFewer(rib, address);
  }

  /**
   For every RIB that the parser filled: the query returns, for every address, exactly the entries
   covering it, if and only if no entry has host bits set.
   */
  lemma QueryIsBitwiseMatchIff(rib: seq<Update>)
    requires AllParsedBlocks(rib)
    ensures ExactForAll(rib) <==> NoneHasHostBits(rib)
  {
    hide Matching, Covering, NoHostBits, ParsedBlock;
    if ExactForAll(rib) {
      forall i | 0 <= i < |rib|
        ensures NoHostBits(rib[i])
      {
        ExactHasNoHostBits(rib, i);
      }
    }
    if NoneHasHostBits(rib) {
      forall address: Word32
        ensures Matching(rib, address) == Covering(rib, address)
      {
        NoHostBitsIsExact(rib, address);
      }
    }
  }

  /** Entry by entry, for any address. */
  lemma {:induction false} MatchingHas(rib: seq<Update>, address: Word32, u: Update)
    ensures u in Matching(rib, address) <==> u in rib && Accepts(u, address)
    decreases |rib|
  {
    hide InRange;
    if rib != [] {
      var n := |rib| - 1;
      MatchingHas(rib[..n], address, u);
      assert u in rib <==> u in rib[..n] || u == rib[n];
    }
  }

  // ---------- RFC 1918 ----------

  datatype IpClass = IpClass(prefix: Word32, range: Word32, length: PrefixLength)

  function Block(prefix: seq<Octet>, length: PrefixLength): IpClass
    requires |prefix| == 4
  {
    IpClass(Word(prefix), HighRange(Word(prefix), length), length)
  }

  /** Section 3 of RFC 1918, octet by octet: 10/8, 172.16/12 and 192.168/16. */
  predicate InPrivateSpace(address: Word32) {
    var m := Memory(address, 4);
    || m[0] == 10
    || (m[0] == 172 && 16 <= m[1] <= 31)
    || (m[0] == 192 && m[1] == 168)
  }

  predicate InBlock(b: IpClass, address: Word32) {
    InRange(b.prefix, b.range, address)
  }

  /** is_rfc1918: fill the three blocks, then scan them. */
  method IsRfc1918(address: Word32) returns (found: bool)
    ensures found == InPrivateSpace(address)
  {
    hide InRange, HighRange, InPrivateSpace, Word, Memory;
    var blocks := new IpClass[3](i => Block([10, 0, 0, 0], 8));
    blocks[1] := Block([172, 16, 0, 0], 12);
    blocks[2] := Block([192, 168, 0, 0], 16);
    BlocksAreRfc1918(address);
    found := false;
    var i := 0;
    while i < 3
      invariant 0 <= i <= 3 && !found
      invariant forall j :: 0 <= j < i ==> !InBlock(blocks[j], address)
    {
      if InBlock(blocks[i], address) {
        return true;
      }
      i := i + 1;
    }
    assert !InBlock(blocks[0], address) && !InBlock(blocks[1], address) && !InBlock(blocks[2], address);
  }

  lemma {:induction false} BaseOfMultiple(q: nat, k: nat)
    ensures Base(q * Pow2(k), k) == q * Pow2(k)
  {
    if k > 0 {
      assert q * Pow2(k) == 2 * (q * Pow2(k - 1));
      BaseOfMultiple(q, k - 1);
    }
  }

  lemma SwapOfOctets(prefix: seq<Octet>)
    requires |prefix| == 4
    ensures Swap(Word(prefix)) == Big32(prefix[0], prefix[1], prefix[2], prefix[3])
  {
    hide Memory;
  }

  /** A block as a numeric interval of host-order addresses. */
  lemma BlockIsInterval(prefix: seq<Octet>, length: PrefixLength, q: nat, address: Word32)
    requires |prefix| == 4 && Big32(prefix[0], prefix[1], prefix[2], prefix[3]) == q * Pow2(32 - length)
    ensures InBlock(Block(prefix, length), address)
       <==> q * Pow2(32 - length) <= Swap(address) <= q * Pow2(32 - length) + Pow2(32 - length) - 1
  {
    hide Memory, HighRange, Memcmp, Word, Swap;
    var p := Word(prefix);
    SwapOfOctets(prefix);
    BaseOfMultiple(q, 32 - length);
    HighRangeValue(p, length);
    MemcmpIsNumeric(p, address);
    MemcmpIsNumeric(HighRange(p, length), address);
  }

  lemma Powers()
    ensures Pow2(16) == 0x1_0000 && Pow2(20) == 0x10_0000 && Pow2(24) == 0x100_0000
  {
    assert Pow2(8) == 0x100 by { assert Pow2(4) == 16; }
    assert Pow2(12) == 0x1000;
  }

  lemma BlocksAreRfc1918(address: Word32)
    ensures InPrivateSpace(address)
       <==> || InBlock(Block([10, 0, 0, 0], 8), address)
            || InBlock(Block([172, 16, 0, 0], 12), address)
            || InBlock(Block([192, 168, 0, 0], 16), address)
  {
    hide Memory, InBlock, Block, Pow2;
    Powers();
    BlockIsInterval([10, 0, 0, 0], 8, 0x0A, address);
    BlockIsInterval([172, 16, 0, 0], 12, 0xAC1, address);
    BlockIsInterval([192, 168, 0, 0], 16, 0xC0A8, address);
    var m := Memory(address, 4);
    assert Swap(address) == Big32(m[0], m[1], m[2], m[3]);
  }

  // ---------- prefixes by origin AS ----------

  datatype PrefixMatch = PrefixMatch(ip: Word32, length: Octet)

  /**
   The loops index the last AS number of a path once its length test has passed. An empty path has
   none, and the access is undefined.
   */
  predicate ReadsNothing(u: Update, length: Word32) {
    u.asPath.Some? && u.asPath.value.asns == [] && u.nlri.prefixLength <= length
  }

  predicate AllReadable(rib: seq<Update>, length: Word32) {
    forall i :: 0 <= i < |rib| ==> !ReadsNothing(rib[i], length)
  }

  /** The same for the loops that first test for private space. */
  predicate SideReadable(rib: seq<Update>, length: Word32, private: bool) {
    forall i :: 0 <= i < |rib| && InPrivateSpace(rib[i].nlri.prefix) == private ==> !ReadsNothing(rib[i], length)
  }

  predicate Originates(u: Update, asn: Word32, length: Word32) {
    && u.asPath.Some? && u.asPath.value.asns != []
    && u.nlri.prefixLength <= length
    && u.asPath.value.asns[|u.asPath.value.asns| - 1] == asn
  }

  function MatchOf(u: Update): PrefixMatch {
    PrefixMatch(u.nlri.prefix, u.nlri.prefixLength)
  }

  /** The prefixes of at most the given length whose path ends in the AS, in RIB order. */
  function FromAsn(rib: seq<Update>, asn: Word32, length: Word32): seq<PrefixMatch> {
    if rib == [] then []
    else
      var u := rib[|rib| - 1];
      FromAsn(rib[..|rib| - 1], asn, length) + (if Originates(u, asn, length) then [MatchOf(u)] else [])
  }

  /** The matches that are in private space, or those that are not. */
  function Side(ms: seq<PrefixMatch>, private: bool): seq<PrefixMatch> {
    if ms == [] then []
    else
      var m := ms[|ms| - 1];
      Side(ms[..|ms| - 1], private) + (if InPrivateSpace(m.ip) == private then [m] else [])
  }

  lemma SideSnoc(ms: seq<PrefixMatch>, m: PrefixMatch, private: bool)
    ensures Side(ms + [m], private) == Side(ms, private) + (if InPrivateSpace(m.ip) == private then [m] else [])
  {
    hide InPrivateSpace;
    assert (ms + [m])[..|ms|] == ms;
  }

  /** Each side keeps exactly the matches whose address is, or is not, in the blocks of section 3 of RFC 1918. */
  lemma {:induction false} SideHas(ms: seq<PrefixMatch>, m: PrefixMatch)
    ensures m in Side(ms, true) <==> m in ms && InPrivateSpace(m.ip)
    ensures m in Side(ms, false) <==> m in ms && !InPrivateSpace(m.ip)
    decreases |ms|
  {
    hide InPrivateSpace;
    if ms != [] {
      var n := |ms| - 1;
      SideHas(ms[..n], m);
      assert ms == ms[..n] + [ms[n]];
    }
  }

  /** all-from-asn; ok is false when an empty path is indexed. */
  method AllFromAsn(rib: seq<Update>, asn: Word32, length: Word32) returns (ok: bool, ms: seq<PrefixMatch>)
    ensures ok == AllReadable(rib, length)
    ensures ok ==> ms == FromAsn(rib, asn, length)
  {
    ok, ms := true, [];
    for i := 0 to |rib|
      invariant ok && AllReadable(rib[..i], length)
      invariant ms == FromAsn(rib[..i], asn, length)
    {
      assert rib[..i + 1][..i] == rib[..i];
      if rib[i].asPath.Some? {
        var path := rib[i].asPath.value.asns;
        if rib[i].nlri.prefixLength <= length {
          if path == [] {
            return false, [];
          }
          if path[|path| - 1] == asn {
            ms := ms + [PrefixMatch(rib[i].nlri.prefix, rib[i].nlri.prefixLength)];
          }
        }
      }
    }
    assert rib[..|rib|] == rib;
  }

  /** One turn of the loops that test for private space. */
  lemma SideTurn(rib: seq<Update>, i: nat, asn: Word32, length: Word32, private: bool)
    requires i < |rib|
    ensures var u := rib[i];
            && Side(FromAsn(rib[..i + 1], asn, length), private)
               == Side(FromAsn(rib[..i], asn, length), private)
                  + (if Originates(u, asn, length) && InPrivateSpace(u.nlri.prefix) == private then [MatchOf(u)] else [])
            && (SideReadable(rib[..i + 1], length, private)
                <==> SideReadable(rib[..i], length, private)
                     && (InPrivateSpace(u.nlri.prefix) == private ==> !ReadsNothing(u, length)))
  {
    hide InPrivateSpace, Originates, ReadsNothing, Side;
    assert rib[..i + 1][..i] == rib[..i] && rib[..i + 1][i] == rib[i];
    var before := FromAsn(rib[..i], asn, length);
    SideSnoc(before, MatchOf(rib[i]), private);
    assert before + [] == before && Side(before, private) + [] == Side(before, private);
    assert forall j :: 0 <= j < i ==> rib[..i + 1][j] == rib[..i][j];
  }

  lemma NoSide(asn: Word32, length: Word32, private: bool)
    ensures Side(FromAsn([], asn, length), private) == [] && SideReadable([], length, private)
  {
  }

  /** If one element of a RIB is unreadable, so is the RIB. */
  lemma SideStops(rib: seq<Update>, i: nat, length: Word32, private: bool)
    requires i <= |rib| && !SideReadable(rib[..i], length, private)
    ensures !SideReadable(rib, length, private)
  {
    hide InPrivateSpace, ReadsNothing;
    var j :| 0 <= j < i && InPrivateSpace(rib[..i][j].nlri.prefix) == private && ReadsNothing(rib[..i][j], length);
    assert rib[j] == rib[..i][j];
  }

  /** public-from-asn: the same loop, skipping private space. */
  method PublicFromAsn(rib: seq<Update>, asn: Word32, length: Word32) returns (ok: bool, ms: seq<PrefixMatch>)
    ensures ok == SideReadable(rib, length, false)
    ensures ok ==> ms == Side(FromAsn(rib, asn, length), false)
  {
    hide InPrivateSpace, FromAsn, Side, SideReadable;
    ok, ms := true, [];
    assert rib[..0] == [];
    NoSide(asn, length, false);
    for i := 0 to |rib|
      invariant ok && SideReadable(rib[..i], length, false)
      invariant ms == Side(FromAsn(rib[..i], asn, length), false)
    {
      SideTurn(rib, i, asn, length, false);
      if rib[i].asPath.Some? {
        var path := rib[i].asPath.value.asns;
        var private := IsRfc1918(rib[i].nlri.prefix);
        if !private {
          if rib[i].nlri.prefixLength <= length {
            if path == [] {
              SideStops(rib, i + 1, length, false);
              return false, [];
            }
            if path[|path| - 1] == asn {
              ms := ms + [PrefixMatch(rib[i].nlri.prefix, rib[i].nlri.prefixLength)];
            }
          }
        }
      }
    }
    assert rib[..|rib|] == rib;
  }

  /** private-from-asn: the same loop, keeping private space. */
  method PrivateFromAsn(rib: seq<Update>, asn: Word32, length: Word32) returns (ok: bool, ms: seq<PrefixMatch>)
    ensures ok == SideReadable(rib, length, true)
    ensures ok ==> ms == Side(FromAsn(rib, asn, length), true)
  {
    hide InPrivateSpace, FromAsn, Side, SideReadable;
    ok, ms := true, [];
    assert rib[..0] == [];
    NoSide(asn, length, true);
    for i := 0 to |rib|
      invariant ok && SideReadable(rib[..i], length, true)
      invariant ms == Side(FromAsn(rib[..i], asn, length), true)
    {
      SideTurn(rib, i, asn, length, true);
      if rib[i].asPath.Some? {
        var path := rib[i].asPath.value.asns;
        var private := IsRfc1918(rib[i].nlri.prefix);
        if private {
          if rib[i].nlri.prefixLength <= length {
            if path == [] {
              SideStops(rib, i + 1, length, true);
              return false, [];
            }
            if path[|path| - 1] == asn {
              ms := ms + [PrefixMatch(rib[i].nlri.prefix, rib[i].nlri.prefixLength)];
            }
          }
        }
      }
    }
    assert rib[..|rib|] == rib;
  }

  /** Parts of a RIB are asked one after the other. */
  lemma {:induction false} FromAsnConcat(a: seq<Update>, b: seq<Update>, asn: Word32, length: Word32)
    ensures FromAsn(a + b, asn, length) == FromAsn(a, asn, length) + FromAsn(b, asn, length)
    decreases |b|
  {
    hide Originates;
    if b == [] {
      assert a + b == a;
    } else {
      FromAsnConcat(a, b[..|b| - 1], asn, length);
      assert (a + b)[..|a + b| - 1] == a + b[..|b| - 1];
    }
  }

  /** One entry: its prefix and length are returned exactly when its path ends in the AS and it is not too long. */
  lemma FromOneEntry(u: Update, front: seq<Word32>, last: Word32, asn: Word32, length: Word32)
    requires u.asPath.Some? && u.asPath.value.asns == front + [last]
    ensures FromAsn([u], asn, length)
         == if asn == last && u.nlri.prefixLength <= length
            then [PrefixMatch(ip := u.nlri.prefix, length := u.nlri.prefixLength)] else []
  {
    assert [u][..0] == [];
    assert FromAsn([u], asn, length) == [] + (if Originates(u, asn, length) then [MatchOf(u)] else []);
  }

  /** One entry with an empty path: asking is undefined exactly when the length does not exclude it. */
  lemma EmptyPathIff(u: Update, length: Word32)
    requires u.asPath.Some? && u.asPath.value.asns == []
    ensures AllReadable([u], length) <==> length < u.nlri.prefixLength
    ensures SideReadable([u], length, true) <==> length < u.nlri.prefixLength || !InPrivateSpace(u.nlri.prefix)
    ensures SideReadable([u], length, false) <==> length < u.nlri.prefixLength || InPrivateSpace(u.nlri.prefix)
  {
    hide InPrivateSpace;
    assert [u][0] == u;
  }

  /** An entry without a path is never returned. */
  lemma FromNoPath(u: Update, asn: Word32, length: Word32)
    requires u.asPath.None?
    ensures FromAsn([u], asn, length) == []
  {
    assert [u][..0] == [];
  }

  /** The same for the prefix query: part by part, and one entry by the range test. */
  lemma {:induction false} MatchingConcat(a: seq<Update>, b: seq<Update>, address: Word32)
    ensures Matching(a + b, address) == Matching(a, address) + Matching(b, address)
    decreases |b|
  {
    hide InRange;
    if b == [] {
      assert a + b == a;
    } else {
      MatchingConcat(a, b[..|b| - 1], address);
      assert (a + b)[..|a + b| - 1] == a + b[..|b| - 1];
    }
  }

  /** x is an order-preserving merge of a and b. */
  ghost predicate Merge<T(!new)>(x: seq<T>, a: seq<T>, b: seq<T>)
    decreases |x|
  {
    if x == [] then a == [] && b == []
    else
      var n := |x| - 1;
      || (a != [] && a[|a| - 1] == x[n] && Merge(x[..n], a[..|a| - 1], b))
      || (b != [] && b[|b| - 1] == x[n] && Merge(x[..n], a, b[..|b| - 1]))
  }

  /** The full result is an order-preserving merge of the disjoint public and private results. */
  lemma {:induction false} AllIsMerge(ms: seq<PrefixMatch>)
    ensures Merge(ms, Side(ms, false), Side(ms, true))
    ensures forall m :: m in Side(ms, true) ==> InPrivateSpace(m.ip)
    ensures forall m :: m in Side(ms, false) ==> !InPrivateSpace(m.ip)
    decreases |ms|
  {
    hide InPrivateSpace;
    if ms != [] {
      var n := |ms| - 1;
      AllIsMerge(ms[..n]);
      var public, private := Side(ms[..n], false), Side(ms[..n], true);
      assert (public + [ms[n]])[..|public|] == public && public + [] == public;
      assert (private + [ms[n]])[..|private|] == private && private + [] == private;
    }
  }

  /** The full query is defined exactly when both halves are; then it is their order-preserving merge. */
  lemma QueriesMerge(rib: seq<Update>, asn: Word32, length: Word32)
    ensures AllReadable(rib, length) <==> SideReadable(rib, length, false) && SideReadable(rib, length, true)
    ensures var all := FromAsn(rib, asn, length); Merge(all, Side(all, false), Side(all, true))
  {
    hide InPrivateSpace, FromAsn, ReadsNothing;
    AllIsMerge(FromAsn(rib, asn, length));
    forall i | 0 <= i < |rib| && SideReadable(rib, length, false) && SideReadable(rib, length, true)
      ensures !ReadsNothing(rib[i], length)
    {
      assert InPrivateSpace(rib[i].nlri.prefix) == true || InPrivateSpace(rib[i].nlri.prefix) == false;
    }
  }
}
