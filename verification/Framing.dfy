/**
 Message framing, section 4.1 of RFC 4271: a sixteen-octet marker, a two-octet length that counts
 the nineteen header octets, a type octet and the payload.
 */
module Framing {
  import opened Octets
  import opened Messages

  const HEADER := 19

  const OPEN: Octet := 1
  const UPDATE: Octet := 2
  const NOTIFICATION: Octet := 3
  const KEEPALIVE: Octet := 4

  datatype Msg = Msg(kind: Octet, payload: seq<Octet>)

  const MARKER: seq<Octet> := [0xFF, 0xFF, 0xFF, 0xFF, 0xFF, 0xFF, 0xFF, 0xFF,
                               0xFF, 0xFF, 0xFF, 0xFF, 0xFF, 0xFF, 0xFF, 0xFF]

  /** The length field is sixteen bits wide. */
  function Header(m: Msg): (s: seq<Octet>)
    ensures |s| == HEADER
  {
    MARKER + Net16((|m.payload| + HEADER) % 0x1_0000) + [m.kind]
  }

  /** What send_packet writes for a message. */
  function Frame(m: Msg): seq<Octet> {
    Header(m) + m.payload
  }

  function Frames(ms: seq<Msg>): seq<Octet> {
    if ms == [] then [] else Frame(ms[0]) + Frames(ms[1..])
  }

  /** The payload leaves room for the header in the length field. */
  predicate Fits(m: Msg) {
    |m.payload| + HEADER < 0x1_0000
  }

  predicate AllFit(ms: seq<Msg>) {
    forall i :: 0 <= i < |ms| ==> Fits(ms[i])
  }

  /**
   The reader loop on a received stream: what it delivers until the stream ends. A short read
   delivers nothing. A length below nineteen asks for a huge payload: all that follows is read into
   a buffer of that many octets, and None stands for an overrun of that buffer.
   */
  function ReadStream(s: seq<Octet>): Option<seq<Msg>> {
    if |s| < HEADER then Some([])
    else
      var length := Big16(s[16], s[17]);
      if length < HEADER then if |s| - HEADER > length then None else Some([])
      else if length > |s| then Some([])
      else Delivering([Msg(s[18], s[HEADER..length])], ReadStream(s[length..]))
  }

  /** Messages in front of what is delivered after them. */
  function Delivering(ms: seq<Msg>, rest: Option<seq<Msg>>): Option<seq<Msg>> {
    if rest.None? then None else Some(ms + rest.value)
  }

  lemma DeliveringMore(a: seq<Msg>, b: seq<Msg>, rest: Option<seq<Msg>>)
    ensures Delivering(a, Delivering(b, rest)) == Delivering(a + b, rest)
    ensures Delivering([], rest) == rest && Delivering(a, Some([])) == Some(a)
  {
    assert a + [] == a;
    if rest.Some? {
      assert a + (b + rest.value) == a + b + rest.value && [] + rest.value == rest.value;
    }
  }

  lemma HeaderFields(m: Msg, s: seq<Octet>)
    requires At(s, 0, Header(m))
    ensures |s| >= HEADER && Big16(s[16], s[17]) == (|m.payload| + HEADER) % 0x1_0000 && s[18] == m.kind
  {
    hide Big16;
    var length := Net16((|m.payload| + HEADER) % 0x1_0000);
    AtSplit(s, 0, MARKER + length, [m.kind]);
    AtSplit(s, 0, MARKER, length);
    AtIndex(s, 16, length, 0);
    AtIndex(s, 16, length, 1);
    AtIndex(s, 18, [m.kind], 0);
  }

  /** Section 4.1 of RFC 4271: sixteen octets of ones, the length of the whole message, its type, its payload. */
  lemma FrameLayout(m: Msg)
    requires Fits(m)
    ensures var s := Frame(m);
            && |s| == 19 + |m.payload|
            && (forall i :: 0 <= i < 16 ==> s[i] == 0xFF)
            && 0x100 * s[16] as int + s[17] as int == |s| && s[18] == m.kind && s[19..] == m.payload
  {
    var s := Frame(m);
    assert s[0..HEADER] == Header(m);
    HeaderFields(m, s);
    forall i | 0 <= i < 16
      ensures s[i] == 0xFF
    {
      assert s[i] == MARKER[i];
    }
  }

  /** One frame in front of a stream is delivered first and consumed exactly. */
  lemma ReadOne(m: Msg, rest: seq<Octet>)
    requires Fits(m)
    ensures ReadStream(Frame(m) + rest) == Delivering([m], ReadStream(rest))
  {
    hide Header, Big16, ReadStream, Delivering;
    var s := Frame(m) + rest;
    var n := |m.payload| + HEADER;
    assert s[0..HEADER] == Header(m);
    HeaderFields(m, s);
    ReadHead(s);
    assert s[HEADER..n] == m.payload;
    assert s[n..] == rest;
  }

  /** A message cut short after n octets delivers nothing. */
  lemma CutDeliversNothing(m: Msg, n: nat)
    requires Fits(m) && n < |Frame(m)|
    ensures ReadStream(Frame(m)[..n]) == Some([])
  {
    hide Header, Big16;
    var tail := Frame(m)[..n];
    if n >= HEADER {
      assert tail[0..HEADER] == Header(m);
      HeaderFields(m, tail);
    }
  }

  /** Frames in front of a stream are delivered first, in order. */
  lemma {:induction false} ReadFrames(ms: seq<Msg>, rest: seq<Octet>)
    requires AllFit(ms)
    ensures ReadStream(Frames(ms) + rest) == Delivering(ms, ReadStream(rest))
    decreases |ms|
  {
    hide ReadStream, Frame, Delivering;
    if ms == [] {
      assert Frames(ms) + rest == rest;
      DeliveringMore([], [], ReadStream(rest));
    } else {
      assert [ms[0]] + ms[1..] == ms;
      DeliveringMore([ms[0]], ms[1..], ReadStream(rest));
      assert Frames(ms) + rest == Frame(ms[0]) + (Frames(ms[1..]) + rest);
      ReadOne(ms[0], Frames(ms[1..]) + rest);
      ReadFrames(ms[1..], rest);
    }
  }

  /**
   For every sequence of messages framed by the sender, the reader recovers exactly that sequence,
   also when the stream breaks off after n octets of a further message.
   */
  lemma ReaderInvertsSender(ms: seq<Msg>, next: Msg, n: nat)
    requires AllFit(ms) && Fits(next) && n < |Frame(next)|
    ensures ReadStream(Frames(ms) + Frame(next)[..n]) == Some(ms)
  {
    hide ReadStream, Frame, Frames;
    ReadFrames(ms, Frame(next)[..n]);
    CutDeliversNothing(next, n);
    DeliveringMore(ms, [], Some([]));
  }

  /**
   A header that claims fewer than nineteen octets, after any framed messages: the reader overruns
   its buffer if and only if more octets follow than the header claims.
   */
  lemma ShortLengthOverrunsIff(ms: seq<Msg>, length: Word16, kind: Octet, rest: seq<Octet>)
    requires AllFit(ms) && length < HEADER
    ensures ReadStream(Frames(ms) + (MARKER + Net16(length) + [kind] + rest))
         == if |rest| > length then None else Some(ms)
  {
    hide Net16, Big16, Frames;
    var s := MARKER + Net16(length) + [kind] + rest;
    assert s[16] == Net16(length)[0] && s[17] == Net16(length)[1];
    assert Big16(s[16], s[17]) == length by { Net16RoundTrip(length); }
    ReadFrames(ms, s);
    DeliveringMore(ms, [], Some([]));
  }

  lemma Net16RoundTrip(w: Word16)
    ensures Big16(Net16(w)[0], Net16(w)[1]) == w
  {
  }

  /** A stream of whole frames. */
  lemma ReaderReadsAll(ms: seq<Msg>)
    requires AllFit(ms)
    ensures ReadStream(Frames(ms)) == Some(ms)
  {
    hide ReadStream, Frames;
    ReaderInvertsSender(ms, Msg(KEEPALIVE, []), 0);
    assert Frames(ms) + Frame(Msg(KEEPALIVE, []))[..0] == Frames(ms);
  }

  /** A single message survives if and only if its payload is at most 65516 octets. */
  lemma OneMessageIff(m: Msg)
    ensures ReadStream(Frame(m)) == Some([m]) <==> |m.payload| <= 65516
  {
    hide Header, Big16;
    var s := Frame(m);
    assert s + [] == s;
    if Fits(m) {
      ReadOne(m, []);
      DeliveringMore([m], [], Some([]));
    } else {
      assert s[0..HEADER] == Header(m);
      HeaderFields(m, s);
      if ReadStream(s).Some? && ReadStream(s).value != [] {
        assert |ReadStream(s).value[0].payload| < |m.payload|;
      }
    }
  }

  lemma {:induction false} FramesSnoc(ms: seq<Msg>, m: Msg)
    ensures Frames(ms + [m]) == Frames(ms) + Frame(m)
    decreases |ms|
  {
    hide Frame;
    if ms == [] {
      assert ms + [m] == [m] && [m][1..] == [];
    } else {
      assert (ms + [m])[1..] == ms[1..] + [m];
      FramesSnoc(ms[1..], m);
    }
  }

  lemma ReadHead(s: seq<Octet>)
    ensures |s| < HEADER ==> ReadStream(s) == Some([])
    ensures |s| >= HEADER ==>
              var length := Big16(s[16], s[17]);
              ReadStream(s)
              == if length < HEADER && |s| - HEADER > length then None
                 else if length < HEADER || length > |s| then Some([])
                 else Delivering([Msg(s[18], s[HEADER..length])], ReadStream(s[length..]))
  {
    hide Big16;
  }

  /** What the reader takes for the next message, by its octets: the marker is not looked at. */
  lemma ReaderTakes(s: seq<Octet>)
    requires |s| >= 19 && 19 <= 0x100 * s[16] as int + s[17] as int <= |s|
    ensures var n := 0x100 * s[16] as int + s[17] as int;
            ReadStream(s) == Delivering([Msg(s[18], s[19..n])], ReadStream(s[n..]))
  {
    hide ReadStream, Delivering;
    ReadHead(s);
  }

  lemma SliceOfSlice(s: seq<Octet>, pos: nat, a: nat, b: nat)
    requires a <= b && pos + b <= |s|
    ensures s[pos..][a..b] == s[pos + a..pos + b] && s[pos..][b..] == s[pos + b..]
  {
  }

  /** One turn of the reader at position pos. */
  lemma ReadTurn(stream: seq<Octet>, pos: nat)
    requires pos <= |stream|
    ensures pos + HEADER > |stream| ==> ReadStream(stream[pos..]) == Some([])
    ensures pos + HEADER <= |stream| ==>
              var length := Big16(stream[pos + 16], stream[pos + 17]);
              ReadStream(stream[pos..])
              == if length < HEADER && |stream| - pos - HEADER > length then None
                 else if length < HEADER || pos + length > |stream| then Some([])
                 else Delivering([Msg(stream[pos + 18], stream[pos + HEADER..pos + length])],
                                 ReadStream(stream[pos + length..]))
  {
    hide Big16, ReadStream, Delivering;
    ReadHead(stream[pos..]);
    if pos + HEADER <= |stream| {
      var length: nat := Big16(stream[pos + 16], stream[pos + 17]);
      if HEADER <= length && pos + length <= |stream| {
        SliceOfSlice(stream, pos, HEADER, length);
      }
    }
  }

  /** The reader as a loop with a read position; ok is false when it overruns its buffer. */
  method ReadMessages(stream: seq<Octet>) returns (ok: bool, ms: seq<Msg>)
    ensures ok == ReadStream(stream).Some?
    ensures ok ==> ReadStream(stream) == Some(ms)
  {
    hide Big16, ReadStream, Delivering;
    ok, ms := true, [];
    var pos := 0;
    DeliveringMore([], [], ReadStream(stream));
    assert stream[0..] == stream;
    while pos + HEADER <= |stream|
      invariant 0 <= pos <= |stream| && ok
      invariant ReadStream(stream) == Delivering(ms, ReadStream(stream[pos..]))
    {
      ReadTurn(stream, pos);
      var length: nat := Big16(stream[pos + 16], stream[pos + 17]);
      if length < HEADER || pos + length > |stream| {
        ok := length >= HEADER || |stream| - pos - HEADER <= length;
        DeliveringMore(ms, [], Some([]));
        assert Delivering(ms, None) == None by { NothingAfterOverrun(ms); }
        return;
      }
      var m := Msg(stream[pos + 18], stream[pos + HEADER..pos + length]);
      DeliveringMore(ms, [m], ReadStream(stream[pos + length..]));
      ms := ms + [m];
      pos := pos + length;
    }
    ReadTurn(stream, pos);
    DeliveringMore(ms, [], Some([]));
  }

  lemma NothingAfterOverrun(ms: seq<Msg>)
    ensures Delivering(ms, None) == None
  {
  }
}
