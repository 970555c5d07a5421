/**
 What a session may be sent. C++ leaves some reactions undefined; here is exactly which events lead
 there, over everything that can happen, and that a peer which keeps to the standard never does.
 */
module Definedness {
  import opened Octets
  import opened Messages
  import opened Framing
  import opened OpenCodec
  import opened WireFormat
  import opened UpdateParser
  import opened PeerSession

  // ---------- everything that can happen ----------

  /** The events can happen in this order; after an undefined step anything can. */
  predicate Happens(c: Config, events: seq<Timed>)
    decreases |events|, 0
  {
    events == [] ||
    var n := |events| - 1;
    && Happens(c, events[..n])
    && (Outcome(c, events[..n]).Some? ==> Possible(Outcome(c, events[..n]).value, events[n].event))
    && (n > 0 ==> events[n - 1].now <= events[n].now)
  }

  /** The session after the events, or None once a step had no defined effect. */
  function Outcome(c: Config, events: seq<Timed>): Option<Session>
    requires Happens(c, events)
    decreases |events|, 1
  {
    if events == [] then Some(NEW_PEER)
    else
      var n := |events| - 1;
      match Outcome(c, events[..n])
      case None => None
      case Some(s) => if Undefined(s, events[n]) then None else Some(After(c, s, events[n]))
  }

  /** The runs are exactly what can happen with a defined effect. */
  lemma {:induction false} RunsAreDefined(c: Config, events: seq<Timed>)
    ensures Runs(c, events) <==> Happens(c, events) && Outcome(c, events).Some?
    ensures Runs(c, events) ==> Outcome(c, events) == Some(Final(c, events))
    decreases |events|
  {
    hide After, Possible, Undefined;
    if events != [] {
      RunsAreDefined(c, events[..|events| - 1]);
    }
  }

  // ---------- the queue, by the events ----------

  /** The event takes everything off the queue. */
  predicate Empties(s: Session, e: Timed) {
    e.event.Discard? || LiveTick(s, e)
  }

  /** Event j received an UPDATE, and nothing has emptied the queue since. */
  predicate Pending(c: Config, events: seq<Timed>, j: int)
    requires Runs(c, events)
    decreases |events|
  {
    && 0 <= j < |events|
    && var n := |events| - 1;
       if j == n then ReceivesUpdate(events[n].event)
       else Pending(c, events[..n], j) && !Empties(Final(c, events[..n]), events[n])
  }

  lemma {:induction false} PendingReceives(c: Config, events: seq<Timed>, j: int)
    requires Runs(c, events) && Pending(c, events, j)
    ensures ReceivesUpdate(events[j].event) && events[j].event.length <= |events[j].event.buffer|
    decreases |events|
  {
    hide After, Undefined, Empties;
    var n := |events| - 1;
    if j < n {
      PendingReceives(c, events[..n], j);
    }
  }

  function Payload(e: Event): seq<Octet>
    requires ReceivesUpdate(e) && e.length <= |e.buffer|
  {
    e.buffer[..e.length]
  }

  /** Event j is pending with the payload p. */
  ghost predicate PendingWith(c: Config, events: seq<Timed>, j: int, p: seq<Octet>)
    requires Runs(c, events)
  {
    && Pending(c, events, j)
    && ReceivesUpdate(events[j].event) && events[j].event.length <= |events[j].event.buffer|
    && Payload(events[j].event) == p
  }

  lemma PendingStep(c: Config, events: seq<Timed>, j: int, p: seq<Octet>)
    requires Runs(c, events) && events != []
    ensures var n := |events| - 1;
            PendingWith(c, events, j, p)
            <==> if j == n then ReceivesUpdate(events[n].event) && Payload(events[n].event) == p
                 else PendingWith(c, events[..n], j, p) && !Empties(Final(c, events[..n]), events[n])
  {
    hide After, Undefined, Empties;
    var n := |events| - 1;
    assert 0 <= j < n ==> events[..n][j] == events[j];
  }

  lemma QueueMembers(c: Config, s: Session, e: Timed, p: seq<Octet>)
    requires Possible(s, e.event)
    ensures p in After(c, s, e).inQueue
       <==> || (ReceivesUpdate(e.event) && Payload(e.event) == p)
            || (p in s.inQueue && !Empties(s, e))
  {
    hide After;
    QueueFields(c, s, e);
  }

  /** In every run the queue holds exactly the payloads of the pending UPDATEs. */
  lemma {:induction false} QueueIsPending(c: Config, events: seq<Timed>, p: seq<Octet>)
    requires Runs(c, events)
    ensures p in Final(c, events).inQueue <==> exists j :: PendingWith(c, events, j, p)
    decreases |events|
  {
    if events != [] {
      hide After, Undefined, Empties, PendingWith, Payload;
      var n := |events| - 1;
      QueueIsPending(c, events[..n], p);
      QueueMembers(c, Final(c, events[..n]), events[n], p);
      PendingStep(c, events, n, p);
      if j :| PendingWith(c, events[..n], j, p) {
        PendingInside(c, events[..n], j, p);
        PendingStep(c, events, j, p);
      }
      if j :| PendingWith(c, events, j, p) {
        PendingStep(c, events, j, p);
      }
    } else {
      forall j
        ensures !PendingWith(c, events, j, p)
      {
      }
    }
  }

  lemma PendingInside(c: Config, events: seq<Timed>, j: int, p: seq<Octet>)
    requires Runs(c, events) && PendingWith(c, events, j, p)
    ensures 0 <= j < |events|
  {
  }

  // ---------- exactly when everything is defined ----------

  /** Event i is a live tick that parses a pending UPDATE without a defined parse. */
  ghost predicate ParsesUnreadable(c: Config, events: seq<Timed>, i: nat)
    requires i < |events|
  {
    && Runs(c, events[..i]) && LiveTick(Final(c, events[..i]), events[i])
    && exists j, p :: PendingWith(c, events[..i], j, p) && !Parses(p)
  }

  /** Event i is one that a peer, or the system, must not cause. */
  ghost predicate Offends(c: Config, events: seq<Timed>, i: nat)
    requires i < |events|
  {
    || events[i].event.StreamFails?
    || Overruns(events[i].event)
    || Textless(events[i].event)
    || ParsesUnreadable(c, events, i)
  }

  ghost predicate NoneOffends(c: Config, events: seq<Timed>) {
    forall i :: 0 <= i < |events| ==> !Offends(c, events, i)
  }

  lemma UnreadableIff(c: Config, events: seq<Timed>)
    requires Runs(c, events)
    ensures !AllParse(Final(c, events).inQueue) <==> exists j, p :: PendingWith(c, events, j, p) && !Parses(p)
  {
    hide Final, PendingWith, Parses, Runs;
    if p :| p in Final(c, events).inQueue && !Parses(p) {
      QueueIsPending(c, events, p);
      var j :| PendingWith(c, events, j, p);
    }
    if j, p :| PendingWith(c, events, j, p) && !Parses(p) {
      QueueIsPending(c, events, p);
    }
  }

  lemma OffendsIff(c: Config, events: seq<Timed>)
    requires events != [] && Runs(c, events[..|events| - 1])
    ensures Offends(c, events, |events| - 1)
       <==> Undefined(Final(c, events[..|events| - 1]), events[|events| - 1])
  {
    hide Final, PendingWith, Runs, LiveTick, AllParse;
    UnreadableIff(c, events[..|events| - 1]);
  }

  lemma OffendsEarlier(c: Config, events: seq<Timed>, n: nat, i: nat)
    requires i < n <= |events|
    ensures Offends(c, events[..n], i) <==> Offends(c, events, i)
  {
    hide Runs, Final, LiveTick, PendingWith;
    assert events[..n][..i] == events[..i] && events[..n][i] == events[i];
  }

  lemma NoneOffendsSnoc(c: Config, events: seq<Timed>)
    requires events != []
    ensures NoneOffends(c, events)
       <==> NoneOffends(c, events[..|events| - 1]) && !Offends(c, events, |events| - 1)
  {
    hide Offends;
    var n := |events| - 1;
    forall i | 0 <= i < n
      ensures Offends(c, events[..n], i) <==> Offends(c, events, i)
    {
      OffendsEarlier(c, events, n, i);
    }
  }

  /**
   Over everything that can happen: each step has a defined effect, and every queued UPDATE fits the
   packet buffer it is parsed from, if and only if no stream fails, no UPDATE is longer than 4096 octets,
   no NOTIFICATION lacks a text, and no live tick meets a pending UPDATE without a defined parse.
   */
  lemma {:induction false} DefinedIff(c: Config, events: seq<Timed>)
    requires Happens(c, events)
    ensures Outcome(c, events).Some? <==> NoneOffends(c, events)
    ensures Outcome(c, events).Some? ==> AllBounded(Outcome(c, events).value.inQueue)
    decreases |events|
  {
    hide After, Possible, Offends, NoneOffends;
    if events == [] {
      NothingOffends(c);
    } else {
      var n := |events| - 1;
      DefinedIff(c, events[..n]);
      NoneOffendsSnoc(c, events);
      RunsAreDefined(c, events[..n]);
      if Outcome(c, events[..n]).Some? {
        OffendsIff(c, events);
        if !Undefined(Final(c, events[..n]), events[n]) {
          BoundedStep(c, Final(c, events[..n]), events[n]);
        }
      }
    }
  }

  lemma NothingOffends(c: Config)
    ensures NoneOffends(c, [])
  {
  }

  // ---------- a peer that keeps to the standard ----------

  /** What a peer may send: UPDATEs that fit and parse, NOTIFICATIONs that have a text. */
  predicate Harmless(e: Event) {
    && !e.StreamFails? && !Overruns(e) && !Textless(e)
    && (ReceivesUpdate(e) && e.length <= |e.buffer| ==> Parses(Payload(e)))
  }

  lemma HarmlessPending(c: Config, events: seq<Timed>, i: nat, j: int, p: seq<Octet>)
    requires i <= |events| && Runs(c, events[..i]) && PendingWith(c, events[..i], j, p)
    requires forall i :: 0 <= i < |events| ==> Harmless(events[i].event)
    ensures Parses(p)
  {
    hide Runs, Final, Parses, Overruns, Textless;
    PendingInside(c, events[..i], j, p);
    assert events[..i][j] == events[j] && Harmless(events[j].event);
  }

  lemma HarmlessTick(c: Config, events: seq<Timed>, i: nat)
    requires i < |events| && forall i :: 0 <= i < |events| ==> Harmless(events[i].event)
    ensures !ParsesUnreadable(c, events, i)
  {
    hide Runs, Final, Parses, PendingWith, Harmless, LiveTick;
    if Runs(c, events[..i]) {
      forall j, p | PendingWith(c, events[..i], j, p)
        ensures Parses(p)
      {
        HarmlessPending(c, events, i, j, p);
      }
    }
  }

  /** If all that is received is harmless, every step is defined, whatever the timing. */
  lemma HarmlessIsDefined(c: Config, events: seq<Timed>)
    requires Happens(c, events) && forall i :: 0 <= i < |events| ==> Harmless(events[i].event)
    ensures Outcome(c, events).Some?
  {
    hide Happens, Outcome, Runs, Final, Parses, Overruns, Textless;
    forall i | 0 <= i < |events|
      ensures !Offends(c, events, i)
    {
      assert Harmless(events[i].event);
      HarmlessTick(c, events, i);
    }
    DefinedIff(c, events);
  }

  /** Section 4.5 of RFC 4271, with the deprecated subcode 5 of an OPEN error left out. */
  predicate HasText(code: Octet, subcode: Octet) {
    && (code == 1 ==> subcode in {1, 2, 3})
    && (code == 2 ==> subcode in {1, 2, 3, 4, 6, 7})
    && (code == 3 ==> subcode in {1, 2, 3, 4, 5, 6, 7, 8, 9, 10, 11})
  }

  lemma TextsAre(code: Octet, subcode: Octet)
    ensures HasNoText(code, subcode) <==> !HasText(code, subcode)
  {
  }

  /** The payload of a received UPDATE is the encoding of a message that the parser has to read. */
  ghost predicate WellFormedUpdate(p: seq<Octet>) {
    exists m: Message ::
      && ValidMessage(m) && EncodeMessage(m) == p
      && (m.withdrawn == [] || |EncodeAttrs(m.attrs)| < 0x100)
  }

  /**
   A peer that sends only well-formed UPDATEs of at most 4096 octets, with fewer than 256 octets of
   attributes beside withdrawn routes, and only NOTIFICATIONs with a text, keeps every session defined.
   */
  lemma WellFormedPeerIsSafe(c: Config, events: seq<Timed>)
    requires Happens(c, events)
    requires forall i :: 0 <= i < |events| ==>
               var e := events[i].event;
               && !e.StreamFails?
               && (e.Receive? && e.kind == 3 && |e.buffer| >= 2 ==> HasText(e.buffer[0], e.buffer[1]))
               && (ReceivesUpdate(e) ==> e.length <= 4096)
               && (ReceivesUpdate(e) && e.length <= |e.buffer| ==> WellFormedUpdate(Payload(e)))
    ensures Outcome(c, events).Some?
  {
    hide Happens, Outcome, Parses, EncodeMessage, EncodeAttrs, HasText, HasNoText;
    forall i | 0 <= i < |events|
      ensures Harmless(events[i].event)
    {
      var e := events[i].event;
      if e.Receive? && |e.buffer| >= 2 {
        TextsAre(e.buffer[0], e.buffer[1]);
      }
      if ReceivesUpdate(e) && e.length <= |e.buffer| {
        var m: Message :| ValidMessage(m) && EncodeMessage(m) == Payload(e)
                          && (m.withdrawn == [] || |EncodeAttrs(m.attrs)| < 0x100);
        WellFormedParses(m);
      }
    }
    HarmlessIsDefined(c, events);
  }

  // ---------- the inputs that lead there ----------

  lemma OutcomeStep(c: Config, events: seq<Timed>, n: nat)
    requires n < |events|
    ensures n == 0 ==> Happens(c, events[..0]) && Outcome(c, events[..0]) == Some(NEW_PEER)
    ensures && (n > 0 ==> events[n - 1].now <= events[n].now)
            && Happens(c, events[..n]) && Outcome(c, events[..n]).Some?
            && Possible(Outcome(c, events[..n]).value, events[n].event)
            ==> && Happens(c, events[..n + 1])
                && Outcome(c, events[..n + 1])
                   == if Undefined(Outcome(c, events[..n]).value, events[n]) then None
                      else Some(After(c, Outcome(c, events[..n]).value, events[n]))
  {
    hide After, Possible, Undefined;
    assert events[..n + 1][..n] == events[..n];
  }

  /** Any UPDATE of 4097 to 65516 octets, which framing lets through, overruns its queue element. */
  lemma LongUpdateOverruns(c: Config, payload: seq<Octet>, buffer: seq<Octet>, now: int)
    requires 4096 < |payload| <= 65516 && |payload| <= |buffer| && buffer[..|payload|] == payload
    ensures ReadStream(Frame(Msg(UPDATE, payload))) == Some([Msg(UPDATE, payload)])
    ensures var events := [Timed(now, Connect(true, true)), Timed(now, Receive(UPDATE, buffer, |payload|))];
            Happens(c, events) && Outcome(c, events) == None
  {
    hide Frame, EncodeOpen, ReadStream, AllParse;
    OneMessageIff(Msg(UPDATE, payload));
    var events := [Timed(now, Connect(true, true)), Timed(now, Receive(UPDATE, buffer, |payload|))];
    OutcomeStep(c, events, 0);
    OutcomeStep(c, events, 1);
    assert events[..2] == events;
  }

  /** A NOTIFICATION with open error 2 and subcode 0, right after connecting. */
  lemma NotificationWithoutText(c: Config, buffer: seq<Octet>, length: nat, now: int)
    requires |buffer| >= HEADER && length <= |buffer| && buffer[0] == 2 && buffer[1] == 0
    ensures var events := [Timed(now, Connect(true, true)), Timed(now, Receive(NOTIFICATION, buffer, length))];
            Happens(c, events) && Outcome(c, events) == None
  {
    hide Frame, EncodeOpen, AllParse;
    var events := [Timed(now, Connect(true, true)), Timed(now, Receive(NOTIFICATION, buffer, length))];
    OutcomeStep(c, events, 0);
    OutcomeStep(c, events, 1);
    assert events[..2] == events;
  }

  /**
   A NEXT_HOP attribute that claims 200 octets, in an UPDATE that any Established peer may send: the
   next live tick has no defined effect.
   */
  lemma LongNextHopIsUndefined(c: Config, events: seq<Timed>, flags: Octet, rest: seq<Octet>, now: int)
    requires Runs(c, events) && Final(c, events).state == Established && Final(c, events).phase == Reading
    requires events != [] && events[|events| - 1].now <= now && Final(c, events).holdTime > 0
    requires HEADER <= 7 + |rest| <= MAX_PACKET
    ensures var p: seq<Octet> := [0, 0, 0, 203, flags, NEXT_HOP, 200] + rest;
            var more := events + [Timed(now, Receive(UPDATE, p, |p|)), Timed(now, Tick)];
            Happens(c, more) && Outcome(c, more) == None
  {
    hide Frame, EncodeOpen, DecodeOpen, Runs, Final, Happens, Outcome, Parses;
    var p: seq<Octet> := [0, 0, 0, 203, flags, NEXT_HOP, 200] + rest;
    var more := events + [Timed(now, Receive(UPDATE, p, |p|)), Timed(now, Tick)];
    var n := |events|;
    RunsAreDefined(c, events);
    assert more[..n] == events && more[n] == Timed(now, Receive(UPDATE, p, |p|)) && more[n + 1] == Timed(now, Tick);
    OutcomeStep(c, more, n);
    OutcomeStep(c, more, n + 1);
    assert more[..n + 2] == more;
    LongNextHop(flags, 203, 200, rest);
    var s := Final(c, events);
    var t := After(c, s, more[n]);
    assert p[..|p|] == p && t.inQueue == s.inQueue + [p];
    assert p in t.inQueue;
  }
}
