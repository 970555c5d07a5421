/**
 The OPEN message, section 4.2 of RFC 4271, as the collector writes and reads it. The reader adds
 the two hold-time octets without shifting the first.
 */
module OpenCodec {
  import opened Octets

  datatype Open = Open(version: Octet, asn: Word16, holdTime: Word16, bgpId: Word32, optLen: Octet)

  const OPEN_SIZE := 10

  /** The ten octets of send_open. The identifier is held in network order already. */
  function EncodeOpen(o: Open): (s: seq<Octet>)
    ensures |s| == OPEN_SIZE
  {
    [o.version] + Net16(o.asn) + Net16(o.holdTime) + Memory(o.bgpId, 4) + [o.optLen]
  }

  /** The fields that decode_open takes from the receive buffer, which always has ten octets. */
  function DecodeOpen(b: seq<Octet>): Open
    requires |b| >= OPEN_SIZE
  {
    Open(b[0], Big16(b[1], b[2]), b[4] as int + b[3] as int, Word(b[5..9]), b[9])
  }

  /**
   Decoding an encoded OPEN restores version, AS, identifier and option length for all values, and
   the hold time if and only if it is below 256 seconds.
   */
  lemma OpenRoundTripIff(o: Open)
    ensures DecodeOpen(EncodeOpen(o)).(holdTime := 0) == o.(holdTime := 0)
    ensures DecodeOpen(EncodeOpen(o)) == o <==> o.holdTime < 0x100
  {
    hide Memory;
    var s := EncodeOpen(o);
    assert s[5..9] == Memory(o.bgpId, 4);
    WordOfMemory(o.bgpId);
    assert s[3] == o.holdTime / 0x100 && s[4] == o.holdTime % 0x100;
  }

  /** What any proposed hold time arrives as: 255 seconds are lost for each full 256, so 3600 becomes 30. */
  lemma HoldTimeArrivesAs(o: Open)
    ensures DecodeOpen(EncodeOpen(o)).holdTime == o.holdTime - 255 * (o.holdTime / 0x100)
  {
    hide Memory, Word;
    assert EncodeOpen(o)[3] == o.holdTime / 0x100 && EncodeOpen(o)[4] == o.holdTime % 0x100;
  }

  /** Section 4.2 of RFC 4271, octet by octet; the identifier goes out in the order it is held. */
  lemma OpenLayout(o: Open)
    ensures EncodeOpen(o)
         == [o.version, o.asn / 0x100, o.asn % 0x100, o.holdTime / 0x100, o.holdTime % 0x100,
             o.bgpId % 0x100, o.bgpId / 0x100 % 0x100, o.bgpId / 0x100 / 0x100 % 0x100,
             o.bgpId / 0x100 / 0x100 / 0x100 % 0x100, o.optLen]
  {
    hide Memory;
    FourOctets(o.bgpId);
  }
}
