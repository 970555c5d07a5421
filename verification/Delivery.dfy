/**
 The octets of a connection joined to the session that reads them: the messages a session receives
 are what the reader makes of the stream, so its UPDATE queue holds what the far side framed.
 */
module Delivery {
  import opened Octets
  import opened Framing
  import OpenCodec
  import opened PeerSession

  /** The messages received in the events, in order. */
  function Heard(events: seq<Timed>): seq<Msg> {
    if events == [] then []
    else
      var e := events[|events| - 1].event;
      Heard(events[..|events| - 1])
      + (if e.Receive? && e.length <= |e.buffer| then [Msg(e.kind, e.buffer[..e.length])] else [])
  }

  /** How many octets of the stream the reader took for them. */
  function Taken(events: seq<Timed>): nat {
    if events == [] then 0
    else
      var e := events[|events| - 1].event;
      Taken(events[..|events| - 1]) + (if e.Receive? then HEADER + e.length else 0)
  }

  /** At pos the stream holds a header and the whole payload that it announces, which the event receives. */
  predicate TakenAt(stream: seq<Octet>, pos: nat, e: Event) {
    e.Receive? ==>
      && e.length <= |e.buffer| && pos + HEADER + e.length <= |stream|
      && Big16(stream[pos + 16], stream[pos + 17]) == HEADER + e.length
      && stream[pos + 18] == e.kind
      && stream[pos + HEADER..pos + HEADER + e.length] == e.buffer[..e.length]
  }

  /** Every message of the events was taken off the stream, one after the other. */
  predicate FedBy(stream: seq<Octet>, events: seq<Timed>) {
    events == [] ||
    var n := |events| - 1;
    FedBy(stream, events[..n]) && TakenAt(stream, Taken(events[..n]), events[n].event)
  }

  lemma {:induction false} TakenInside(stream: seq<Octet>, events: seq<Timed>)
    requires FedBy(stream, events)
    ensures Taken(events) <= |stream|
    decreases |events|
  {
    hide Big16;
    if events != [] {
      TakenInside(stream, events[..|events| - 1]);
    }
  }

  /** What the reader delivers for the stream is what was received so far and then the rest. */
  lemma {:induction false} HeardIsRead(stream: seq<Octet>, events: seq<Timed>)
    requires FedBy(stream, events)
    ensures Taken(events) <= |stream|
    ensures ReadStream(stream) == Delivering(Heard(events), ReadStream(stream[Taken(events)..]))
    decreases |events|
  {
    hide ReadStream, Delivering, Big16;
    TakenInside(stream, events);
    if events == [] {
      assert stream[0..] == stream;
      DeliveringMore([], [], ReadStream(stream));
    } else {
      var before, e := events[..|events| - 1], events[|events| - 1].event;
      HeardIsRead(stream, before);
      if e.Receive? {
        var pos := Taken(before);
        ReadTurn(stream, pos);
        DeliveringMore(Heard(before), [Msg(e.kind, e.buffer[..e.length])], ReadStream(stream[Taken(events)..]));
      } else {
        assert Heard(before) + [] == Heard(before);
      }
    }
  }

  /** The payloads of the UPDATEs among the messages. */
  function Updates(ms: seq<Msg>): seq<seq<Octet>> {
    if ms == [] then []
    else
      var m := ms[|ms| - 1];
      Updates(ms[..|ms| - 1]) + (if m.kind == UPDATE then [m.payload] else [])
  }

  lemma {:induction false} ReceivedIsHeard(events: seq<Timed>)
    ensures Received(events) == Updates(Heard(events))
    decreases |events|
  {
    if events != [] {
      var before, e := events[..|events| - 1], events[|events| - 1].event;
      ReceivedIsHeard(before);
      if e.Receive? && e.length <= |e.buffer| {
        var m := Msg(e.kind, e.buffer[..e.length]);
        assert (Heard(before) + [m])[..|Heard(before)|] == Heard(before);
      } else {
        assert Heard(before) + [] == Heard(before) && Received(before) + [] == Received(before);
      }
    }
  }

  lemma UpdatesSnoc(ms: seq<Msg>, m: Msg)
    ensures Updates(ms + [m]) == if m.kind == UPDATE then Updates(ms) + [m.payload] else Updates(ms)
  {
    assert (ms + [m])[..|ms|] == ms;
  }

  lemma Regroup<T>(a: seq<T>, b: seq<T>, c: seq<T>)
    ensures a + b + c == a + (b + c)
  {
  }

  lemma {:induction false} UpdatesConcat(a: seq<Msg>, b: seq<Msg>)
    ensures Updates(a + b) == Updates(a) + Updates(b)
    decreases |b|
  {
    if b == [] {
      assert a + b == a;
    } else {
      hide Updates;
      var rest, m := b[..|b| - 1], b[|b| - 1];
      UpdatesConcat(a, rest);
      UpdatesSnoc(a + rest, m);
      UpdatesSnoc(rest, m);
      Regroup(a, rest, [m]);
      Regroup(Updates(a), Updates(rest), [m.payload]);
      assert b == rest + [m];
    }
  }

  /**
   Far side to session, for every sequence of framed messages whose stream breaks off inside a further
   one: at any time the session has received a prefix of the messages, hence of their UPDATEs; and all
   of them when the reader has taken all whole frames.
   */
  lemma SessionHearsSender(ms: seq<Msg>, next: Msg, cut: nat, events: seq<Timed>)
    requires AllFit(ms) && Fits(next) && cut < |Frame(next)|
    requires FedBy(Frames(ms) + Frame(next)[..cut], events)
    ensures Heard(events) <= ms && Received(events) <= Updates(ms)
    ensures Taken(events) == |Frames(ms)| ==> Heard(events) == ms && Received(events) == Updates(ms)
  {
    hide Frame, Frames, FedBy, Heard, Updates, Received, ReadStream;
    var stream := Frames(ms) + Frame(next)[..cut];
    ReaderInvertsSender(ms, next, cut);
    HeardIsRead(stream, events);
    var rest := ReadStream(stream[Taken(events)..]).value;
    assert ms == Heard(events) + rest;
    ReceivedIsHeard(events);
    UpdatesConcat(Heard(events), rest);
    if Taken(events) == |Frames(ms)| {
      assert stream[Taken(events)..] == Frame(next)[..cut];
      CutDeliversNothing(next, cut);
      assert ms == Heard(events);
    }
  }

  /** While a whole message is left on the stream, the reading session can receive it. */
  lemma NextCanBeReceived(s: Session, stream: seq<Octet>, pos: nat, buffer: seq<Octet>)
    requires s.phase == Reading && pos + HEADER <= |stream|
    requires var length := Big16(stream[pos + 16], stream[pos + 17]);
             HEADER <= length == |buffer| && pos + length <= |stream|
             && buffer[..length - HEADER] == stream[pos + HEADER..pos + length]
    ensures var e := Receive(stream[pos + 18], buffer, |buffer| - HEADER);
            Possible(s, e) && TakenAt(stream, pos, e)
  {
    hide Big16;
  }

  /** Two collectors: what one has received on a connection is a prefix of what the other has sent on it. */
  lemma CollectorsUnderstandEachOther(c: Config, events: seq<Timed>, other: seq<Timed>)
    requires Runs(c, events) && FedBy(Final(c, events).tx, other)
    ensures Heard(other) <= Final(c, events).sent
  {
    hide Final, FedBy, Heard, ReadStream;
    FarSideReadsWhatWasSent(c, events);
    HeardIsRead(Final(c, events).tx, other);
  }

  // ---------- the queue of a connection ----------

  lemma EmptyStep(c: Config, s: Session, e: Timed)
    requires Possible(s, e.event) && (s.phase == Starting ==> s.inQueue == [])
    ensures After(c, s, e).phase == Starting || SendsOpen(e.event) ==> After(c, s, e).inQueue == []
  {
    hide Frame, OpenCodec.EncodeOpen, OpenCodec.DecodeOpen;
  }

  /** A connection starts with an empty queue: what an earlier one left was parsed or discarded. */
  lemma {:induction false} QueueStartsEmpty(c: Config, events: seq<Timed>)
    requires Runs(c, events)
    ensures Final(c, events).phase == Starting ==> Final(c, events).inQueue == []
    ensures events != [] && SendsOpen(events[|events| - 1].event) ==> Final(c, events).inQueue == []
    decreases |events|
  {
    hide After, Possible, Undefined, SendsOpen;
    if events != [] {
      var n := |events| - 1;
      QueueStartsEmpty(c, events[..n]);
      EmptyStep(c, Final(c, events[..n]), events[n]);
    }
  }

  lemma {:induction false} PrefixRuns(c: Config, before: seq<Timed>, more: seq<Timed>)
    requires Runs(c, before + more)
    ensures Runs(c, before)
    decreases |more|
  {
    hide After, Possible, Undefined;
    if more == [] {
      assert before + more == before;
    } else {
      assert (before + more)[..|before + more| - 1] == before + more[..|more| - 1];
      PrefixRuns(c, before, more[..|more| - 1]);
    }
  }

  lemma {:induction false} ReceivedConcat(a: seq<Timed>, b: seq<Timed>)
    ensures Received(a + b) == Received(a) + Received(b)
    decreases |b|
  {
    if b == [] {
      assert a + b == a;
    } else {
      ReceivedConcat(a, b[..|b| - 1]);
      assert (a + b)[..|a + b| - 1] == a + b[..|b| - 1];
    }
  }

  /** From an empty queue on, the queue is the newest part of what was received since. */
  lemma {:induction false} QueueSince(c: Config, before: seq<Timed>, more: seq<Timed>)
    requires Runs(c, before + more)
    requires Runs(c, before) && Final(c, before).inQueue == []
    ensures IsSuffix(Final(c, before + more).inQueue, Received(more))
    decreases |more|
  {
    hide After, Possible, Undefined, IsSuffix;
    if more == [] {
      assert before + more == before;
      EmptyIsSuffix();
    } else {
      var n := |more| - 1;
      assert (before + more)[..|before + more| - 1] == before + more[..n];
      QueueSince(c, before, more[..n]);
      QueueStep(c, Final(c, before + more[..n]), more[n], Received(more[..n]));
    }
  }

  /**
   From the stream to the queue, in every run: on the connection opened by the last event of before,
   once the reader has taken all whole frames of the far side, the queue holds exactly the UPDATEs
   framed there, in order, but for those parsed or discarded since the connection was opened.
   */
  lemma StreamToQueue(c: Config, before: seq<Timed>, more: seq<Timed>, ms: seq<Msg>, next: Msg, cut: nat)
    requires Runs(c, before + more) && before != [] && SendsOpen(before[|before| - 1].event)
    requires AllFit(ms) && Fits(next) && cut < |Frame(next)|
    requires FedBy(Frames(ms) + Frame(next)[..cut], more) && Taken(more) == |Frames(ms)|
    ensures Runs(c, before)
    ensures var s, t := Final(c, before), Final(c, before + more);
            var done := (t.parsed + t.discarded) - (s.parsed + s.discarded);
            0 <= done <= |Updates(ms)| && t.inQueue == Updates(ms)[done..]
  {
    hide Final, Received, FedBy, Frames, Frame, Updates, Taken, Heard, Runs, SendsOpen;
    PrefixRuns(c, before, more);
    QueueStartsEmpty(c, before);
    SessionHearsSender(ms, next, cut, more);
    QueueSince(c, before, more);
    ReceivedConcat(before, more);
    QueueIsNewestReceived(c, before);
    QueueIsNewestReceived(c, before + more);
    UpdatesAreConserved(c, before);
    UpdatesAreConserved(c, before + more);
  }
}
