/**
 The prefix query on the RIB that the engine maintains: every entry holds a block as the parser
 computed it, so the range test over the iterated map can be judged against the bits.
 */
module RibQueries {
  import opened Octets
  import opened Cidr
  import opened Messages
  import opened WireFormat
  import opened UpdateParser
  import opened PacketWalker
  import opened HistoryDb
  import opened RibEngine
  import opened LookupApi

  // ---------- every entry holds the block that was parsed ----------

  ghost predicate AllBlocks(us: seq<Update>) {
    forall i :: 0 <= i < |us| ==> ParsedBlock(us[i])
  }

  lemma {:induction false} LoopBlocks(p: seq<Octet>, offset: nat, u: Update, peer: Word32, now: Word64, mode: Mode)
    ensures var r := NlriLoop(p, offset, u, peer, now, mode);
            r.Some? ==> AllBlocks(r.value.0)
    decreases |p| - offset
  {
    hide Address, HighRange;
    if offset < |p| && p[offset] != 0 && p[offset] <= 32 && offset + 1 + OctetsFor(p[offset]) <= |p| {
      LoopBlocks(p, offset + 1 + OctetsFor(p[offset]), u, peer, now, mode);
      NlriTurn(p, offset, u, peer, now, mode);
    }
  }

  /** Every announcement a packet pushes carries the last address of its block. */
  lemma ParseBlocks(payload: seq<Octet>, peer: Word32, now: Word64)
    ensures var r := ParsePacket(payload, peer, now);
            r.Some? ==> AllBlocks(r.value.announced)
  {
    hide NlriLoop, AttrLoop, Big16, ParsedBlock;
    var p := Padded(payload, PADDING);
    var total := Big16(p[2], p[3]);
    var a := AttrLoop(p, 0, total, BLANK);
    if a.Some? {
      LoopBlocks(p, total as int + 4, a.value.0.(addrFamily := AF_INET), peer, now, Updating);
    }
  }

  /** The parser pushed the update for some packet. */
  ghost predicate FromWire(u: Update) {
    exists payload: seq<Octet>, peer: Word32, now: Word64 ::
      ParsePacket(payload, peer, now).Some? && u in ParsePacket(payload, peer, now).value.announced
  }

  lemma FromWireIsBlock(u: Update)
    requires FromWire(u)
    ensures ParsedBlock(u)
  {
    hide ParsePacket, ParsedBlock;
    var payload: seq<Octet>, peer: Word32, now: Word64 :|
      ParsePacket(payload, peer, now).Some? && u in ParsePacket(payload, peer, now).value.announced;
    ParseBlocks(payload, peer, now);
  }

  ghost predicate EntriesAreBlocks(r: Rib) {
    forall k :: k in r.entries ==> ParsedBlock(r.entries[k])
  }

  lemma StepKeepsBlocks(s: State, step: Step)
    requires Enabled(s, step) && EntriesAreBlocks(s.rib) && (step.Insert? ==> ParsedBlock(step.update))
    ensures EntriesAreBlocks(After(s, step).rib)
  {
    hide HighRange, InsertAll, Archived, FirstOfPeer, OfPeer;
  }

  /** In every run of the engine whose announcements come from the parser. */
  lemma {:induction false} RunKeepsBlocks(ids: set<Word32>, steps: seq<Step>)
    requires Runs(Initial(ids), steps)
    requires forall i :: 0 <= i < |steps| && steps[i].Insert? ==> FromWire(steps[i].update)
    ensures EntriesAreBlocks(Final(Initial(ids), steps).rib)
    decreases |steps|
  {
    hide Enabled, After, ParsedBlock, FromWire;
    if steps != [] {
      var n := |steps| - 1;
      RunKeepsBlocks(ids, steps[..n]);
      if steps[n].Insert? {
        FromWireIsBlock(steps[n].update);
      }
      StepKeepsBlocks(Final(Initial(ids), steps[..n]), steps[n]);
    }
  }

  lemma IteratedAreBlocks(r: Rib)
    requires EntriesAreBlocks(r)
    ensures AllParsedBlocks(Iterated(r.entries))
  {
    hide ParsedBlock, InOrder;
    var rib := Iterated(r.entries);
    forall i | 0 <= i < |rib|
      ensures ParsedBlock(rib[i])
    {
      assert InOrder(r.entries.Keys)[i] in r.entries;
    }
  }

  /**
   The prefix query on every reachable RIB: it returns for every address exactly the entries covering
   it if and only if no entry has host bits set; and it returns an entry exactly when the entry covers
   the address and its stored prefix is not above the address.
   */
  lemma QueryOnReachableRib(ids: set<Word32>, steps: seq<Step>, k: Key, address: Word32)
    requires Runs(Initial(ids), steps)
    requires forall i :: 0 <= i < |steps| && steps[i].Insert? ==> FromWire(steps[i].update)
    ensures var entries := Final(Initial(ids), steps).rib.entries;
            && AllParsedBlocks(Iterated(entries))
            && (ExactForAll(Iterated(entries)) <==> NoneHasHostBits(Iterated(entries)))
            && (k in entries ==>
                  && ParsedBlock(entries[k])
                  && (entries[k] in Matching(Iterated(entries), address)
                      <==> Contains(entries[k], address) && Swap(k.prefix) <= Swap(address)))
  {
    hide Final, ParsedBlock, Contains, Matching, FromWire, Iterated, ExactForAll, NoneHasHostBits;
    RunKeepsBlocks(ids, steps);
    RunKeeps(ids, steps);
    var r := Final(Initial(ids), steps).rib;
    IteratedAreBlocks(r);
    QueryIsBitwiseMatchIff(Iterated(r.entries));
    if k in r.entries {
      MatchingHas(Iterated(r.entries), address, r.entries[k]);
      IteratedHas(r.entries, r.entries[k]);
      AcceptsMeans(r.entries[k], address);
      assert KeyOf(r.entries[k]) == k;
    }
  }

  // ---------- one entry ----------

  /** The query over the RIB returns the entry exactly when its block covers the address from the prefix on. */
  ghost predicate FoundExactly(entries: map<Key, Update>, e: Update, length: PrefixLength, address: Word32) {
    var found, prefix := e in Matching(Iterated(entries), address), e.nlri.prefix;
    && (found <==> TopBitsAgree(prefix, address, length) && Swap(prefix) <= Swap(address))
    && (ZeroHostBits(prefix, length) ==> (found <==> TopBitsAgree(prefix, address, length)))
  }

  lemma QueryFinds(entries: map<Key, Update>, k: Key, length: PrefixLength, address: Word32)
    requires k in entries && entries[k].nlri.prefixHighest == HighRange(entries[k].nlri.prefix, length)
    ensures FoundExactly(entries, entries[k], length, address)
  {
    hide HighRange, InRange, TopBitsAgree, ZeroHostBits, Matching, Iterated;
    var e := entries[k];
    MatchingHas(Iterated(entries), address, e);
    IteratedHas(entries, e);
    RangeTestExactly(e.nlri.prefix, length, address);
    RangeTestIsPrefixMatchIff(e.nlri.prefix, length);
  }
}
