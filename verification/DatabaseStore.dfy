/**
 The database object: a file with a moving joint position and an index that its methods update in
 place. Every method is proved against the specification in HistoryDb and RecordCodec.
 */
module DatabaseStore {
  import opened Octets
  import opened Cidr
  import opened Messages
  import opened RecordCodec
  import opened HistoryDb

  lemma WriteTwice(file: seq<Octet>, pos: nat, s: seq<Octet>, t: seq<Octet>)
    requires pos <= |file|
    ensures pos + |s| <= |WriteAt(file, pos, s)|
    ensures WriteAt(WriteAt(file, pos, s), pos + |s|, t) == WriteAt(file, pos, s + t)
  {
    var once := WriteAt(file, pos, s);
    assert once[..pos + |s|] == file[..pos] + s;
    if pos + |s| < |file| {
      assert once[pos + |s|..] == file[pos + |s|..];
    }
  }

  lemma {:induction false} WordsSnoc(ws: seq<Word32>, w: Word32)
    ensures Words(ws + [w]) == Words(ws) + Memory(w, 4)
  {
    hide Memory;
    if ws == [] {
      assert [w][1..] == [];
      assert ws + [w] == [w];
    } else {
      assert (ws + [w])[1..] == ws[1..] + [w];
      WordsSnoc(ws[1..], w);
    }
  }

  lemma {:induction false} CommunityWordsSnoc(cs: seq<Community>, c: Community)
    ensures CommunityWords(cs + [c]) == CommunityWords(cs) + [c.asn] + [c.value]
  {
    if cs != [] {
      assert (cs + [c])[1..] == cs[1..] + [c];
      CommunityWordsSnoc(cs[1..], c);
    }
  }

  lemma {:induction false} ReadWordsSnoc(file: seq<Octet>, pos: nat, count: nat)
    requires pos + 4 * count + 4 <= |file|
    ensures ReadWords(file, pos, count + 1) == ReadWords(file, pos, count) + [ReadWord(file, pos + 4 * count)]
    decreases count
  {
    hide ReadWord;
    if count > 0 {
      ReadWordsSnoc(file, pos + 4, count - 1);
    }
  }

  lemma {:induction false} PairsSnoc(ws: seq<Word32>, a: Word32, b: Word32)
    requires |ws| % 2 == 0
    ensures Pairs(ws + [a] + [b]) == Pairs(ws) + [Community(a, b)]
    decreases |ws|
  {
    if ws == [] {
      assert (ws + [a] + [b])[2..] == [];
    } else {
      assert (ws + [a] + [b])[2..] == ws[2..] + [a] + [b];
      PairsSnoc(ws[2..], a, b);
    }
  }

  class Database {
    var isOpen: bool
    var file: seq<Octet>
    var cursor: nat
    var index: map<Key, seq<int>>
    var maxRecords: nat
    /** The last read failed; reads and writes do nothing until the state is cleared. */
    var failed: bool

    ghost predicate Valid()
      reads this
    {
      cursor <= |file|
    }

    function State(): Db
      reads this
    {
      Db(file, cursor, index, maxRecords, failed)
    }

    constructor ()
      ensures Valid() && !isOpen && State() == OPENED && maxRecords == 1000
    {
      isOpen, file, cursor, index, maxRecords, failed := false, [], 0, map[], MAX_RECORDS, false;
    }

    /** Opening truncates the file and puts the joint position at its start; the index is kept. */
    method DbOpen(name: string) returns (ok: bool)
      requires Valid()
      modifies this
      ensures Valid() && ok == (name != [])
      ensures ok ==> isOpen && State() == old(State()).(file := [], cursor := 0, failed := false)
      ensures !ok ==> isOpen == old(isOpen) && State() == old(State())
    {
      ok := name != [];
      if ok {
        isOpen, file, cursor, failed := true, [], 0, false;
      }
    }

    // ---------- stream primitives ----------

    method Write(s: seq<Octet>)
      requires Valid()
      modifies this`file, this`cursor
      ensures Valid()
      ensures file == WriteAt(old(file), old(cursor), s) && cursor == old(cursor) + |s|
    {
      file := WriteAt(file, cursor, s);
      cursor := cursor + |s|;
    }

    method ReadBytes(n: nat) returns (ok: bool, s: seq<Octet>)
      requires Valid()
      modifies this`cursor
      ensures Valid() && ok == (old(cursor) + n <= |file|)
      ensures ok ==> cursor == old(cursor) + n && s == file[old(cursor)..cursor]
      ensures !ok ==> cursor == old(cursor)
    {
      ok, s := cursor + n <= |file|, [];
      if ok {
        s := file[cursor..cursor + n];
        cursor := cursor + n;
      }
    }

    // ---------- insertion ----------

    method WriteWords(ws: seq<Word32>)
      requires Valid()
      modifies this`file, this`cursor
      ensures Valid()
      ensures file == WriteAt(old(file), old(cursor), Words(ws)) && cursor == old(cursor) + |Words(ws)|
    {
      hide Words, Memory;
      assert Words([]) == [] by { WordsEmpty(); }
      assert WriteAt(file, cursor, []) == file;
      var i := 0;
      while i < |ws|
        invariant 0 <= i <= |ws| && Valid()
        invariant file == WriteAt(old(file), old(cursor), Words(ws[..i]))
        invariant cursor == old(cursor) + |Words(ws[..i])|
      {
        WordsSnoc(ws[..i], ws[i]);
        assert ws[..i + 1] == ws[..i] + [ws[i]];
        WriteTwice(old(file), old(cursor), Words(ws[..i]), Memory(ws[i], 4));
        Write(Memory(ws[i], 4));
        i := i + 1;
      }
      assert ws[..i] == ws;
    }

    method WriteCommunities(cs: Communities)
      requires Valid()
      modifies this`file, this`cursor
      ensures Valid()
      ensures file == WriteAt(old(file), old(cursor), Words(CommunityWords(cs)))
      ensures cursor == old(cursor) + |Words(CommunityWords(cs))|
    {
      hide Words, Memory, WriteAt, CommunityWords;
      WriteNothing(file, cursor);
      assert CommunityWords([]) == [] by { NoCommunityWords(); }
      assert Words([]) == [] by { WordsEmpty(); }
      assert cs[..0] == [];
      var i := 0;
      while i < |cs|
        invariant 0 <= i <= |cs| && Valid()
        invariant file == WriteAt(old(file), old(cursor), Words(CommunityWords(cs[..i])))
        invariant cursor == old(cursor) + |Words(CommunityWords(cs[..i]))|
      {
        var done := CommunityWords(cs[..i]);
        assert cs[..i + 1] == cs[..i] + [cs[i]];
        CommunityWordsSnoc(cs[..i], cs[i]);
        WordsSnoc(done, cs[i].asn);
        WordsSnoc(done + [cs[i].asn], cs[i].value);
        WriteTwice(old(file), old(cursor), Words(done), Memory(cs[i].asn, 4));
        Write(Memory(cs[i].asn, 4));
        WriteTwice(old(file), old(cursor), Words(done + [cs[i].asn]), Memory(cs[i].value, 4));
        Write(Memory(cs[i].value, 4));
        i := i + 1;
      }
      assert cs[..i] == cs;
    }

    method WritePath(p: PathSegment)
      requires Valid()
      modifies this`file, this`cursor
      ensures Valid()
      ensures file == WriteAt(old(file), old(cursor), PathPayload(p)) && cursor == old(cursor) + |PathPayload(p)|
    {
      hide Words, WriteAt;
      var length: seq<Octet> := [|p.asns|];
      WriteTwice(file, cursor, length, [p.segType]);
      WriteTwice(file, cursor, length + [p.segType], Words(p.asns));
      assert length + [p.segType] + Words(p.asns) == PathPayload(p);
      Write(length);
      Write([p.segType]);
      WriteWords(p.asns);
    }

    /** Since position p of file f, exactly the octets s have been written. */
    ghost predicate Wrote(f: seq<Octet>, p: nat, s: seq<Octet>)
      reads this
    {
      p <= |f| && file == WriteAt(f, p, s) && cursor == p + |s|
    }

    method Append(t: seq<Octet>, ghost f: seq<Octet>, ghost p: nat, ghost s: seq<Octet>)
      requires Valid() && Wrote(f, p, s)
      modifies this`file, this`cursor
      ensures Valid() && Wrote(f, p, s + t)
    {
      WriteTwice(f, p, s, t);
      Write(t);
    }

    method WriteNlri(n: Nlri)
      requires Valid()
      modifies this`file, this`cursor
      ensures Valid()
      ensures file == WriteAt(old(file), old(cursor), NlriPayload(n)) && cursor == old(cursor) + |NlriPayload(n)|
    {
      hide Memory, NlriPayload;
      ghost var f, p := file, cursor;
      assert WriteAt(file, cursor, []) == file;
      ghost var s := [];
      Append(Memory(n.age, 8), f, p, s);
      s := s + Memory(n.age, 8);
      Append(Memory(n.bgpId, 4), f, p, s);
      s := s + Memory(n.bgpId, 4);
      Append(Memory(n.lastWithdrawTime, 8), f, p, s);
      s := s + Memory(n.lastWithdrawTime, 8);
      Append(Memory(n.prefix, 4), f, p, s);
      s := s + Memory(n.prefix, 4);
      Append(Memory(n.prefixHighest, 4), f, p, s);
      s := s + Memory(n.prefixHighest, 4);
      Append(Memory(n.prefixLength, 1), f, p, s);
      s := s + Memory(n.prefixLength, 1);
      Append(Memory(n.received, 2), f, p, s);
      s := s + Memory(n.received, 2);
      Append(Memory(n.subnetMask, 4), f, p, s);
      s := s + Memory(n.subnetMask, 4);
      Append(Memory(n.withdrawn, 2), f, p, s);
      NlriPayloadFlat(n);
    }

    /** The number of communities and then each of them. */
    method WriteCommunityList(cs: Communities)
      requires Valid()
      modifies this`file, this`cursor
      ensures Valid()
      ensures file == WriteAt(old(file), old(cursor), Payload(CommunityField(cs)))
      ensures cursor == old(cursor) + |Payload(CommunityField(cs))|
    {
      hide Words, CommunityWords;
      WriteTwice(file, cursor, [|cs|], Words(CommunityWords(cs)));
      Write([|cs|]);
      WriteCommunities(cs);
    }

    /** A payload of one number or octet, or none. */
    method WriteScalar(fld: Field)
      requires Valid() && !fld.Skip?
      requires fld.Origin? || fld.NextHop? || fld.Med? || fld.LocalPref? || fld.AtomicAggregate?
            || fld.AddrFamily? || fld.AddrFamilyId?
      modifies this`file, this`cursor
      ensures Valid() && file == WriteAt(old(file), old(cursor), Payload(fld)) && cursor == old(cursor) + |Payload(fld)|
    {
      hide Memory, WriteAt;
      match fld
      case Origin(o) => Write([o]);
      case NextHop(w) => Write(Memory(w, 4));
      case Med(w) => Write(Memory(w, 4));
      case LocalPref(w) => Write(Memory(w, 4));
      case AtomicAggregate => Write([]);
      case AddrFamily(w) => Write(Memory(w, 2));
      case AddrFamilyId(o) => Write([o]);
    }

    /** A payload of several numbers. */
    method WriteCompound(fld: Field)
      requires Valid()
      requires fld.AsPath? || fld.As4Path? || fld.AggregatorField? || fld.As4AggregatorField? || fld.CommunityField?
            || fld.NlriField?
      modifies this`file, this`cursor
      ensures Valid() && file == WriteAt(old(file), old(cursor), Payload(fld)) && cursor == old(cursor) + |Payload(fld)|
    {
      hide WriteAt, PathPayload, NlriPayload, Words, CommunityPayload;
      match fld
      case AsPath(p) => WritePath(p);
      case As4Path(p) => WritePath(p);
      case AggregatorField(a) => WriteWords([a.asn, a.origin]);
      case As4AggregatorField(a) => WriteWords([a.asn, a.origin]);
      case CommunityField(cs) => WriteCommunityList(cs);
      case NlriField(n) => WriteNlri(n);
    }

    /** A marker and the payload it announces. */
    method WriteField(fld: Field)
      requires Valid() && !fld.Skip?
      modifies this`file, this`cursor
      ensures Valid()
      ensures file == WriteAt(old(file), old(cursor), EncodeField(fld)) && cursor == old(cursor) + |EncodeField(fld)|
    {
      hide Memory, Marker, Payload, WriteAt;
      WriteTwice(file, cursor, Memory(Marker(fld), 4), Payload(fld));
      Write(Memory(Marker(fld), 4));
      if fld.AsPath? || fld.As4Path? || fld.AggregatorField? || fld.As4AggregatorField? || fld.CommunityField?
         || fld.NlriField? {
        WriteCompound(fld);
      } else {
        WriteScalar(fld);
      }
    }

    /** Since position p of file f, exactly the fields fs have been written. */
    ghost predicate WroteFields(f: seq<Octet>, p: nat, fs: seq<Field>)
      reads this
    {
      Field.Skip !in fs && Wrote(f, p, EncodeFields(fs))
    }

    method AppendField(fld: Field, ghost f: seq<Octet>, ghost p: nat, ghost fs: seq<Field>)
      returns (ghost gs: seq<Field>)
      requires Valid() && !fld.Skip? && WroteFields(f, p, fs)
      modifies this`file, this`cursor
      ensures Valid() && gs == fs + [fld] && WroteFields(f, p, gs)
    {
      hide EncodeFields, EncodeField;
      EncodeFieldsSnoc(fs, fld);
      WriteTwice(f, p, EncodeFields(fs), EncodeField(fld));
      WriteField(fld);
      gs := fs + [fld];
    }

    /** An attribute that is written only when present. */
    method AppendIfPresent(o: seq<Field>, ghost f: seq<Octet>, ghost p: nat, ghost fs: seq<Field>)
      returns (ghost gs: seq<Field>)
      requires Valid() && |o| <= 1 && Field.Skip !in o && WroteFields(f, p, fs)
      modifies this`file, this`cursor
      ensures Valid() && gs == fs + o && WroteFields(f, p, gs)
    {
      gs := fs;
      if o != [] {
        gs := AppendField(o[0], f, p, gs);
        assert o == [o[0]];
      }
    }

    /** The record of an update, attribute by attribute, at the joint position. */
    method WriteRecord(u: Update)
      requires Valid()
      modifies this`file, this`cursor
      ensures Valid()
      ensures file == WriteAt(old(file), old(cursor), Encode(u)) && cursor == old(cursor) + |Encode(u)|
    {
      hide Memory, WriteAt, EncodeFields, Wrote;
      ghost var f, p := file, cursor;
      NothingWritten();
      ghost var fs := AppendField(AddrFamily(u.addrFamily), f, p, []);
      fs := AppendField(AddrFamilyId(u.addrFamilyId), f, p, fs);
      assert fs == [AddrFamily(u.addrFamily), AddrFamilyId(u.addrFamilyId)];
      fs := AppendIfPresent(Optional(u.aggregator, a => AggregatorField(a)), f, p, fs);
      fs := AppendIfPresent(Optional(u.as4Aggregator, a => As4AggregatorField(a)), f, p, fs);
      fs := AppendIfPresent(Optional(u.as4Path, q => As4Path(q)), f, p, fs);
      fs := AppendIfPresent(Optional(u.asPath, q => AsPath(q)), f, p, fs);
      fs := AppendIfPresent(if u.atomicAggregate != 0 then [AtomicAggregate] else [], f, p, fs);
      fs := AppendIfPresent(Optional(u.communities, c => CommunityField(c)), f, p, fs);
      fs := WriteMandatoryFields(u, f, p, fs);
      FinishRecord(u, f, p, fs);
    }

    method WriteMandatoryFields(u: Update, ghost f: seq<Octet>, ghost p: nat, ghost fs: seq<Field>)
      returns (ghost gs: seq<Field>)
      requires Valid() && WroteFields(f, p, fs)
      modifies this`file, this`cursor
      ensures Valid() && WroteFields(f, p, gs)
      ensures gs == fs + [NextHop(u.nextHop), LocalPref(u.localPref), Med(u.med), NlriField(u.nlri), Origin(u.origin)]
    {
      hide WroteFields;
      gs := AppendField(NextHop(u.nextHop), f, p, fs);
      gs := AppendField(LocalPref(u.localPref), f, p, gs);
      gs := AppendField(Med(u.med), f, p, gs);
      gs := AppendField(NlriField(u.nlri), f, p, gs);
      gs := AppendField(Origin(u.origin), f, p, gs);
    }

    method FinishRecord(u: Update, ghost f: seq<Octet>, ghost p: nat, ghost fs: seq<Field>)
      requires Valid() && p <= |f| && WroteFields(f, p, fs) && fs == Fields(u)
      modifies this`file, this`cursor
      ensures Valid() && file == WriteAt(f, p, Encode(u)) && cursor == p + |Encode(u)|
    {
      hide Memory, WriteAt, EncodeFields, Fields;
      Append(Memory(END_OF_RECORD, 4), f, p, EncodeFields(fs));
    }

    /** Before anything is written, nothing has been written since here. */
    ghost method NothingWritten()
      requires Valid()
      ensures WroteFields(file, cursor, [])
    {
      assert EncodeFields([]) == [];
      assert WriteAt(file, cursor, []) == file;
    }

    /**
     Archives one update: records where it starts, drops the oldest position beyond the cap, then
     writes the record at the joint position.
     */
    method DbInsert(u: Update)
      requires Valid()
      modifies this
      ensures Valid() && isOpen == old(isOpen)
      ensures State() == if old(isOpen) then Insert(old(State()), u) else old(State())
    {
      hide Int32, WriteAt, Encode;
      if !isOpen {
        return;
      }
      var k := KeyOf(u);
      var position := if failed then -1 else Int32(cursor);
      var positions := (if k in index then index[k] else []) + [position];
      if |positions| > maxRecords {
        positions := positions[1..];
      }
      index := index[k := positions];
      if !failed {
        WriteRecord(u);
      }
    }

    // ---------- retrieval ----------

    method ReadWordList(count: nat) returns (ok: bool, ws: seq<Word32>)
      requires Valid()
      modifies this`cursor
      ensures Valid() && ok == (old(cursor) + 4 * count <= |file|)
      ensures ok ==> cursor == old(cursor) + 4 * count && ws == ReadWords(file, old(cursor), count)
    {
      hide ReadWord;
      ok, ws := true, [];
      var i := 0;
      while i < count
        invariant 0 <= i <= count && Valid() && ok
        invariant cursor == old(cursor) + 4 * i && ws == ReadWords(file, old(cursor), i)
      {
        var word;
        ok, word := ReadBytes(4);
        if !ok {
          return;
        }
        ReadWordsSnoc(file, old(cursor), i);
        assert Word(word) == ReadWord(file, old(cursor) + 4 * i) by { ReadWordIsWord(file, old(cursor) + 4 * i); }
        ws := ws + [Word(word)];
        i := i + 1;
      }
    }

    method ReadPathSegment() returns (ok: bool, p: PathSegment)
      requires Valid()
      modifies this`cursor
      ensures Valid() && ok == ReadPath(file, old(cursor)).Some?
      ensures ok ==> ReadPath(file, old(cursor)) == Some((p, cursor))
    {
      hide ReadWords;
      p := PathSegment(0, []);
      var length, segType, ws;
      ok, length := ReadBytes(1);
      if !ok { return; }
      ok, segType := ReadBytes(1);
      if !ok { return; }
      ok, ws := ReadWordList(length[0]);
      if !ok { return; }
      p := PathSegment(segType[0], ws);
    }

    method ReadAggregatorSegment() returns (ok: bool, a: Aggregator)
      requires Valid()
      modifies this`cursor
      ensures Valid() && ok == ReadAggregator(file, old(cursor)).Some?
      ensures ok ==> ReadAggregator(file, old(cursor)) == Some((a, cursor))
    {
      a := Aggregator(0, 0);
      var asn, origin;
      ok, asn := ReadBytes(4);
      if !ok { return; }
      ok, origin := ReadBytes(4);
      if !ok { return; }
      a := Aggregator(Word(asn), Word(origin));
    }

    method ReadCommunityList() returns (ok: bool, cs: Communities)
      requires Valid()
      modifies this`cursor
      ensures Valid() && ok == ReadCommunities(file, old(cursor)).Some?
      ensures ok ==> ReadCommunities(file, old(cursor)) == Some((cs, cursor))
    {
      hide ReadWords, Pairs;
      cs := [];
      var count, asn, value;
      ok, count := ReadBytes(1);
      if !ok { return; }
      ghost var first := cursor;
      var n: nat := count[0];
      var i := 0;
      assert ReadWords(file, first, 0) == [] && Pairs([]) == [] by { NothingRead(file, first); }
      while i < n
        invariant 0 <= i <= n && Valid() && ok
        invariant cursor == first + 8 * i
        invariant |cs| == i && cs == Pairs(ReadWords(file, first, 2 * i))
        modifies this`cursor
      {
        ok, asn := ReadBytes(4);
        if !ok { return; }
        ok, value := ReadBytes(4);
        if !ok { return; }
        ReadWordsSnoc(file, first, 2 * i);
        ReadWordsSnoc(file, first, 2 * i + 1);
        PairsSnoc(ReadWords(file, first, 2 * i), Word(asn), Word(value));
        cs := cs + [Community(Word(asn), Word(value))];
        i := i + 1;
      }
    }

    /** One field of an NLRI, as the number its octets hold. */
    method ReadNumber(n: nat) returns (ok: bool, v: nat)
      requires Valid()
      modifies this`cursor
      ensures Valid() && ok == (old(cursor) + n <= |file|)
      ensures ok ==> cursor == old(cursor) + n && v == Read(file, old(cursor), n) && v < Pow256(n)
      ensures !ok ==> cursor == old(cursor)
    {
      hide Pow256, Value;
      v := 0;
      var s;
      ok, s := ReadBytes(n);
      if ok {
        MemoryOfValue(s);
        v := Value(s);
      }
    }

    method ReadNlriFields() returns (ok: bool, n: Nlri)
      requires Valid()
      modifies this`cursor
      ensures Valid() && ok == (old(cursor) + NLRI_SIZE <= |file|)
      ensures ok ==> n == ReadNlri(file, old(cursor)) && cursor == old(cursor) + NLRI_SIZE
    {
      hide Read, Pow256, Memory, Word, Value;
      n := BLANK_NLRI;
      Widths();
      var age, bgpId, lastWithdraw, prefix, highest, length, received, mask, withdrawn;
      ok, age := ReadNumber(8);
      if !ok { return; }
      ok, bgpId := ReadBytes(4);
      if !ok { return; }
      ok, lastWithdraw := ReadNumber(8);
      if !ok { return; }
      ok, prefix := ReadBytes(4);
      if !ok { return; }
      ok, highest := ReadBytes(4);
      if !ok { return; }
      ok, length := ReadNumber(1);
      if !ok { return; }
      ok, received := ReadNumber(2);
      if !ok { return; }
      ok, mask := ReadBytes(4);
      if !ok { return; }
      ok, withdrawn := ReadNumber(2);
      if !ok { return; }
      n := Nlri(Word(bgpId), Word(prefix), Word(highest), Word(mask), length, withdrawn, received, age, lastWithdraw);
    }

    /** The switch of the reader: what follows a marker is read and stored into the result. */
    method ReadOneField(code: Word32, u: Update) returns (ok: bool, v: Update)
      requires Valid()
      modifies this`cursor
      ensures Valid() && ok == ReadField(code, file, old(cursor)).Some?
      ensures ok ==>
        var r := ReadField(code, file, old(cursor)).value;
        v == Apply(u, r.0) && cursor == r.1
    {
      hide ReadPath, ReadCommunities, ReadAggregator, ReadNlri, Value;
      ok, v := true, u;
      var s;
      if code == ORIGIN {
        ok, s := ReadBytes(1);
        if ok { v := u.(origin := s[0]); }
      } else if code == AS_PATH {
        var p;
        ok, p := ReadPathSegment();
        if ok { v := u.(asPath := Some(p)); }
      } else if code == NEXT_HOP {
        ok, s := ReadBytes(4);
        if ok { v := u.(nextHop := Word(s)); }
      } else if code == MULTI_EXIT_DISC {
        ok, s := ReadBytes(4);
        if ok { v := u.(med := Word(s)); }
      } else if code == LOCAL_PREF {
        ok, s := ReadBytes(4);
        if ok { v := u.(localPref := Word(s)); }
      } else if code == ATOMIC_AGGREGATE {
        v := u.(atomicAggregate := 1);
      } else if code == AGGREGATOR {
        var a;
        ok, a := ReadAggregatorSegment();
        if ok { v := u.(aggregator := Some(a)); }
      } else if code == COMMUNITY {
        var cs;
        ok, cs := ReadCommunityList();
        if ok { v := u.(communities := Some(cs)); }
      } else if code == AS4_PATH {
        var p;
        ok, p := ReadPathSegment();
        if ok { v := u.(as4Path := Some(p)); }
      } else if code == AS4_AGGREGATOR {
        var a;
        ok, a := ReadAggregatorSegment();
        if ok { v := u.(as4Aggregator := Some(a)); }
      } else if code == ADDR_FAMILY {
        ok, s := ReadBytes(2);
        if ok {
          Widths();
          MemoryOfValue(s);
          v := u.(addrFamily := Value(s));
        }
      } else if code == ADDR_FAMILY_ID {
        ok, s := ReadBytes(1);
        if ok { v := u.(addrFamilyId := s[0]); }
      } else if code == NLRI {
        var n;
        ok, n := ReadNlriFields();
        if ok { v := u.(nlri := n); }
      }
    }

    /**
     Reads one record from a recorded position. ok is false when the reader would never return: after a
     read beyond the end, unless it cuts off the end-of-record marker.
     */
    method ReadRecord(pos: int) returns (ok: bool, u: Update)
      requires Valid()
      modifies this`cursor, this`failed
      ensures Valid() && ok == RecordAt(file, pos).Some?
      ensures ok ==> RecordAt(file, pos) == Some((u, Stop(cursor, failed)))
    {
      hide ReadField, Apply, Word, Memory;
      ok, u, failed := 0 <= pos <= |file|, BLANK, false;
      if !ok {
        return;
      }
      cursor := pos;
      var code: Word32 := 0;
      while code != END_OF_RECORD
        invariant Valid() && ok
        invariant code != END_OF_RECORD ==> !failed && Decode(file, cursor, u, code) == Decode(file, pos, BLANK, 0)
        invariant code == END_OF_RECORD ==> Decode(file, pos, BLANK, 0) == Some((u, Stop(cursor, failed)))
        decreases code != END_OF_RECORD, |file| - cursor
      {
        var word;
        ok, word := ReadBytes(4);
        if !ok {
          code := Overwritten(code, file[cursor..]);
          cursor, failed, ok := |file|, true, code == END_OF_RECORD;
          return;
        }
        code := Word(word);
        if code != END_OF_RECORD {
          ReadFieldAdvances(code, file, cursor);
          ok, u := ReadOneField(code, u);
          if !ok {
            return;
          }
        }
      }
    }

    /**
     The records of a key, newest first, at most maxRecords of them. Reading moves the joint
     position; None stands for a reader that never returns.
     */
    method DbGetEntries(k: Key) returns (r: Option<seq<Update>>)
      requires Valid()
      modifies this`cursor, this`failed, this`index
      ensures Valid()
      ensures r.Some? == Query(old(State()), k).Some?
      ensures r.Some? ==>
        && r.value == Query(old(State()), k).value.0
        && State() == AfterQuery(old(State()), k)
        && index == if k in old(index) then old(index) else old(index)[k := []]
    {
      hide RecordAt, Fetch, Copied;
      if k !in index {
        index := index[k := []];
      }
      var positions := index[k];
      ghost var all := Query(old(State()), k);
      assert positions == Positions(old(State()), k);
      var us: seq<Update> := [];
      var i := |positions|;
      assert positions[..i] == positions;
      while i > 0
        invariant 0 <= i <= |positions| && Valid()
        invariant var rest := Fetch(file, Stop(cursor, failed), positions[..i]);
                  && rest.Some? == all.Some?
                  && (rest.Some? ==> all.value.0 == us + rest.value.0 && all.value.1 == rest.value.1)
        modifies this`cursor, this`failed
      {
        FetchLast(file, Stop(cursor, failed), positions, i - 1);
        var ok, u := ReadRecord(positions[i - 1]);
        if !ok {
          return None;
        }
        us := us + [Copied(u)];
        i := i - 1;
      }
      FetchNothing(file, Stop(cursor, failed), positions);
      r := Some(us);
    }
  }

  /** One turn of the loop over the positions, from the newest on. */
  lemma FetchLast(file: seq<Octet>, stop: Stop, positions: seq<int>, i: nat)
    requires i < |positions|
    ensures var first := RecordAt(file, positions[i]);
            && (first.None? ==> Fetch(file, stop, positions[..i + 1]).None?)
            && (first.Some? ==>
                  var rest := Fetch(file, first.value.1, positions[..i]);
                  && rest.Some? == Fetch(file, stop, positions[..i + 1]).Some?
                  && (rest.Some? ==> Fetch(file, stop, positions[..i + 1])
                                     == Some(([Copied(first.value.0)] + rest.value.0, rest.value.1))))
  {
    hide RecordAt, Copied;
    assert positions[..i + 1][..i] == positions[..i];
  }

  lemma FetchNothing(file: seq<Octet>, stop: Stop, positions: seq<int>)
    ensures Fetch(file, stop, positions[..0]) == Some(([], stop))
  {
  }

  lemma NlriPayloadFlat(n: Nlri)
    ensures NlriPayload(n)
         == [] + Memory(n.age, 8) + Memory(n.bgpId, 4) + Memory(n.lastWithdrawTime, 8) + Memory(n.prefix, 4)
            + Memory(n.prefixHighest, 4) + Memory(n.prefixLength, 1) + Memory(n.received, 2)
            + Memory(n.subnetMask, 4) + Memory(n.withdrawn, 2)
  {
    hide Memory;
    var t5 := Memory(n.prefixLength, 1) + (Memory(n.received, 2) + (Memory(n.subnetMask, 4) + Memory(n.withdrawn, 2)));
    assert t5 == Memory(n.prefixLength, 1) + Memory(n.received, 2) + Memory(n.subnetMask, 4) + Memory(n.withdrawn, 2);
    var s4 := [] + Memory(n.age, 8) + Memory(n.bgpId, 4) + Memory(n.lastWithdrawTime, 8) + Memory(n.prefix, 4);
    assert NlriPayload(n) == s4 + (Memory(n.prefixHighest, 4) + t5);
  }

  lemma WriteNothing(file: seq<Octet>, pos: nat)
    requires pos <= |file|
    ensures WriteAt(file, pos, []) == file
  {
  }

  lemma NoCommunityWords()
    ensures CommunityWords([]) == []
  {
  }

  lemma WordsEmpty()
    ensures Words([]) == []
  {
  }

  lemma NothingRead(file: seq<Octet>, pos: nat)
    requires pos <= |file|
    ensures ReadWords(file, pos, 0) == [] && Pairs([]) == []
  {
  }

  lemma ReadWordIsWord(file: seq<Octet>, pos: nat)
    requires pos + 4 <= |file|
    ensures ReadWord(file, pos) == Word(file[pos..pos + 4])
  {
  }
}
