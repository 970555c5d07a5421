/**
 One peer's session as a transition system: connecting, the OPEN and KEEPALIVE handshake, the
 message reader, the timers that the main loop checks, and the queue of received UPDATEs.
 Each received message and each tick is one step; each step carries the clock value it reads.
 */
module PeerSession {
  import opened Octets
  import opened Messages
  import opened Framing
  import opened OpenCodec
  import UpdateParser

  datatype FsmState = Idle | OpenSent | OpenConfirm | Established

  /** Where the peer's thread is: connecting, reading messages, or flushing after the session. */
  datatype Phase = Starting | Reading | Closing

  /** What is configured: our own OPEN, and the AS number expected of the peer. */
  datatype Config = Config(open: Open, peerAs: Word16)

  datatype Session = Session(
    state: FsmState, phase: Phase, connected: bool,
    bgpId: Word32, holdTime: Word16, keepAlive: Word16,
    lastRead: int, lastKeepaliveTx: int,
    inQueue: seq<seq<Octet>>, inQ: Word16,
    updatesRx: nat, parsed: nat, discarded: nat,
    tx: seq<Octet>, sent: seq<Msg>)

  const NEW_PEER := Session(Idle, Starting, false, 0, 180, 60, 0, 0, [], 0, 0, 0, 0, [], [])

  datatype Event =
    | Connect(connects: bool, buffersResize: bool)
    | StreamFails
    | Receive(kind: Octet, buffer: seq<Octet>, length: nat)
    | Eof
    | EndReading
    | Discard
    | Tick

  datatype Timed = Timed(now: int, event: Event)

  // ---------- the steps ----------

  /**
   send_packet: nothing is sent while idle, and UPDATEs are never sent. Without a connection the
   writes do nothing, but the clock of a KEEPALIVE moves.
   */
  function Send(s: Session, m: Msg, now: int): Session {
    if s.state == Idle || m.kind == UPDATE then s
    else
      var t := if s.connected then s.(tx := s.tx + Frame(m), sent := s.sent + [m]) else s;
      if m.kind == KEEPALIVE then t.(lastKeepaliveTx := now) else t
  }

  const KEEPALIVE_MSG := Msg(KEEPALIVE, [])

  /** What sending does: nothing while idle and never for an UPDATE, whose type is 2; else one frame, while connected. */
  lemma SendIs(s: Session, m: Msg, now: int)
    ensures s.state == Idle || m.kind == 2 ==> Send(s, m, now) == s
    ensures s.state != Idle && m.kind != 2 ==>
              && Send(s, m, now).tx == s.tx + (if s.connected then Frame(m) else [])
              && Send(s, m, now).sent == s.sent + (if s.connected then [m] else [])
              && Send(s, m, now).lastKeepaliveTx == if m.kind == 4 then now else s.lastKeepaliveTx
  {
    hide Frame;
    assert s.tx + [] == s.tx && s.sent + [] == s.sent;
  }

  function Notify(s: Session, code: Octet, subcode: Octet, now: int): Session {
    Send(s, Msg(NOTIFICATION, [code, subcode]), now)
  }

  function Drop(s: Session): Session {
    s.(state := Idle, connected := false)
  }

  /** A connection attempt; on success our OPEN goes out. A failed buffer resize starts over. */
  function AfterConnect(c: Config, s: Session, connects: bool, buffersResize: bool, now: int): Session {
    if !connects || !buffersResize then Drop(s)
    else
      var linked := s.(state := OpenSent, phase := Reading, connected := true, tx := [], sent := []);
      Send(linked, Msg(OPEN, EncodeOpen(c.open)), now)
  }

  /** decode_open: any state; version first, then AS, then the timers are taken over. */
  function AfterOpen(c: Config, s: Session, buffer: seq<Octet>, now: int): Session
    requires |buffer| >= OPEN_SIZE
  {
    var o := DecodeOpen(buffer);
    if o.version != c.open.version then Drop(Notify(s, 2, 1, now))
    else if o.asn != c.peerAs then Drop(Notify(s, 2, 2, now))
    else
      var t := s.(bgpId := o.bgpId, holdTime := o.holdTime, keepAlive := o.holdTime / 3, state := OpenConfirm);
      Send(t, KEEPALIVE_MSG, now)
  }

  function AfterKeepalive(s: Session, now: int): Session {
    var t := if s.state == OpenConfirm then s.(state := Established) else s;
    Send(t, KEEPALIVE_MSG, now)
  }

  /** A received message: the receive buffer is at least a header long, whatever the payload. */
  function AfterReceive(c: Config, s: Session, kind: Octet, buffer: seq<Octet>, length: nat, now: int): Session
    requires |buffer| >= HEADER && length <= |buffer|
  {
    var t := s.(lastRead := now);
    if kind == OPEN then AfterOpen(c, t, buffer, now)
    else if kind == KEEPALIVE then AfterKeepalive(t, now)
    else if kind == UPDATE then
      t.(updatesRx := t.updatesRx + 1, inQueue := t.inQueue + [buffer[..length]], inQ := (t.inQ + 1) % 0x1_0000)
    else t
  }

  /** Every queued UPDATE is popped and parsed. */
  function AllParsed(s: Session): Session {
    s.(parsed := s.parsed + |s.inQueue|, inQueue := [], inQ := (s.inQ - |s.inQueue|) % 0x1_0000)
  }

  /** proc_in_q: the timers first; only a live Established session has its queue parsed. */
  function AfterTick(s: Session, now: int): Session {
    if s.state != Established then s
    else if now - s.lastRead >= s.holdTime then Drop(Notify(s, 4, 0, now))
    else
      var t := if now - s.lastKeepaliveTx >= s.keepAlive then Send(s, KEEPALIVE_MSG, now) else s;
      AllParsed(t)
  }

  /**
   When an event can happen. The reader checks connection and state before it blocks in a read, so
   a message can still arrive after a tick has dropped the session.
   */
  predicate Possible(s: Session, e: Event) {
    match e
    case Connect(_, _) => s.phase == Starting
    case StreamFails => s.phase == Starting
    case Receive(_, buffer, length) => s.phase == Reading && |buffer| >= HEADER && length <= |buffer|
    case Eof => s.phase == Reading
    case EndReading => s.phase == Reading && (!s.connected || s.state == Idle)
    case Discard => s.phase == Closing
    case Tick => true
  }

  /** What the steps keep in their books, whether or not C++ defines the rest. */
  function After(c: Config, s: Session, e: Timed): Session
    requires Possible(s, e.event)
  {
    match e.event
    case Connect(connects, buffers) => AfterConnect(c, s, connects, buffers, e.now)
    case StreamFails => s
    case Receive(kind, buffer, length) => AfterReceive(c, s, kind, buffer, length, e.now)
    case Eof => s.(connected := false)
    case EndReading => s.(phase := Closing)
    case Discard =>
      s.(connected := false, phase := Starting, discarded := s.discarded + |s.inQueue|, inQueue := [])
    case Tick => AfterTick(s, e.now)
  }

  // ---------- what C++ leaves undefined ----------

  /** A received UPDATE is copied unchecked into the packet buffer of a queue element. */
  predicate Overruns(e: Event) {
    e.Receive? && e.kind == UPDATE && e.length > MAX_PACKET
  }

  /** decode_notification makes a string of the text of a subcode; these have none, or lie beyond the table. */
  predicate HasNoText(code: Octet, subcode: Octet) {
    || (code == 1 && (subcode == 0 || subcode > 3))
    || (code == 2 && (subcode == 0 || subcode == 5 || subcode > 7))
    || (code == 3 && (subcode == 0 || subcode > 11))
  }

  predicate Textless(e: Event) {
    e.Receive? && e.kind == NOTIFICATION && |e.buffer| >= 2 && HasNoText(e.buffer[0], e.buffer[1])
  }

  /** A live tick: Established, and heard from within the hold time. */
  predicate LiveTick(s: Session, e: Timed) {
    e.event.Tick? && s.state == Established && e.now - s.lastRead < s.holdTime
  }

  predicate AllParse(packets: seq<seq<Octet>>) {
    forall p :: p in packets ==> UpdateParser.Parses(p)
  }

  /**
   The step has no defined effect: a connection whose stream cannot be opened or whose receive buffer
   cannot be resized, so that a buffer is set on a null stream; an UPDATE that overruns a queue element;
   a NOTIFICATION without a text; a tick that parses a packet without a defined parse.
   */
  predicate Undefined(s: Session, e: Timed) {
    || e.event.StreamFails?
    || Overruns(e.event)
    || Textless(e.event)
    || (LiveTick(s, e) && !AllParse(s.inQueue))
  }

  /** The event can happen, and C++ defines what it does. */
  predicate Enabled(s: Session, e: Timed) {
    Possible(s, e.event) && !Undefined(s, e)
  }

  // ---------- runs ----------

  /** The events can happen in this order, each with a defined effect, on a clock that does not run backwards. */
  predicate Runs(c: Config, events: seq<Timed>)
    decreases |events|, 0
  {
    events == [] ||
    var n := |events| - 1;
    && Runs(c, events[..n])
    && Enabled(Final(c, events[..n]), events[n])
    && (n > 0 ==> events[n - 1].now <= events[n].now)
  }

  function Final(c: Config, events: seq<Timed>): Session
    requires Runs(c, events)
    decreases |events|, 1
  {
    if events == [] then NEW_PEER
    else
      var n := |events| - 1;
      After(c, Final(c, events[..n]), events[n])
  }

  // ---------- the handshake ----------

  predicate SendsOpen(e: Event) {
    e.Connect? && e.connects && e.buffersResize
  }

  /** An OPEN with our version and the configured AS. */
  predicate MatchingOpen(c: Config, e: Event) {
    && e.Receive? && e.kind == 1 && |e.buffer| >= OPEN_SIZE
    && DecodeOpen(e.buffer).version == c.open.version && DecodeOpen(e.buffer).asn == c.peerAs
  }

  predicate IsKeepalive(e: Event) {
    e.Receive? && e.kind == 4
  }

  /** Event s is the last one so far that sent our OPEN. */
  predicate LastSend(events: seq<Timed>, s: int) {
    && 0 <= s < |events| && SendsOpen(events[s].event)
    && forall j :: s < j < |events| ==> !SendsOpen(events[j].event)
  }

  ghost predicate SentSince(events: seq<Timed>) {
    exists s :: LastSend(events, s)
  }

  ghost predicate OpenedSince(c: Config, events: seq<Timed>) {
    exists s, o :: LastSend(events, s) && s < o < |events| && MatchingOpen(c, events[o].event)
  }

  /** Since our last OPEN: a matching OPEN was received and after it a KEEPALIVE. */
  ghost predicate HandshakeSince(c: Config, events: seq<Timed>) {
    exists s, o, k ::
      LastSend(events, s) && s < o < k < |events| && MatchingOpen(c, events[o].event) && IsKeepalive(events[k].event)
  }

  lemma LastSendStays(events: seq<Timed>, e: Timed, s: int)
    requires LastSend(events, s) && !SendsOpen(e.event)
    ensures LastSend(events + [e], s)
  {
  }

  lemma SentGrows(c: Config, events: seq<Timed>, e: Timed)
    requires !SendsOpen(e.event) && SentSince(events)
    ensures SentSince(events + [e])
    ensures MatchingOpen(c, e.event) ==> OpenedSince(c, events + [e])
  {
    hide SendsOpen, MatchingOpen, LastSend;
    var more := events + [e];
    var s :| LastSend(events, s);
    LastSendStays(events, e, s);
    LastSendInside(events, s);
    assert more[|events|] == e;
  }

  lemma OpenedGrows(c: Config, events: seq<Timed>, e: Timed)
    requires !SendsOpen(e.event) && OpenedSince(c, events)
    ensures OpenedSince(c, events + [e])
    ensures IsKeepalive(e.event) ==> HandshakeSince(c, events + [e])
  {
    hide SendsOpen, MatchingOpen, IsKeepalive;
    var more := events + [e];
    var s, o :| LastSend(events, s) && s < o < |events| && MatchingOpen(c, events[o].event);
    LastSendStays(events, e, s);
    LastSendInside(events, s);
    assert more[o] == events[o] && more[|events|] == e;
  }

  lemma HandshakeGrows(c: Config, events: seq<Timed>, e: Timed)
    requires !SendsOpen(e.event) && HandshakeSince(c, events)
    ensures HandshakeSince(c, events + [e])
  {
    hide SendsOpen, MatchingOpen, IsKeepalive;
    var more := events + [e];
    var s, o, k :| LastSend(events, s) && s < o < k < |events|
                   && MatchingOpen(c, events[o].event) && IsKeepalive(events[k].event);
    LastSendStays(events, e, s);
    LastSendInside(events, s);
    assert more[o] == events[o] && more[k] == events[k];
  }

  lemma LastSendInside(events: seq<Timed>, s: int)
    requires LastSend(events, s)
    ensures 0 <= s < |events|
  {
  }

  /** What the state of the session says about the events so far. */
  ghost predicate Explained(c: Config, s: Session, events: seq<Timed>) {
    && (s.phase != Starting ==> SentSince(events))
    && (s.state == OpenConfirm ==> OpenedSince(c, events))
    && (s.state == Established ==> HandshakeSince(c, events))
  }

  lemma StepStates(c: Config, s: Session, e: Timed)
    requires Possible(s, e.event)
    ensures var t := After(c, s, e);
            && (t.phase != Starting ==> s.phase != Starting || SendsOpen(e.event))
            && (SendsOpen(e.event) ==> t.state == OpenSent)
            && (t.state == OpenConfirm ==> s.state == OpenConfirm || (s.phase != Starting && MatchingOpen(c, e.event)))
            && (t.state == Established ==>
                  s.state == Established || (s.state == OpenConfirm && IsKeepalive(e.event)))
  {
    hide Frame, EncodeOpen, DecodeOpen;
  }

  lemma StepExplained(c: Config, s: Session, events: seq<Timed>, e: Timed)
    requires Explained(c, s, events) && Possible(s, e.event)
    ensures Explained(c, After(c, s, e), events + [e])
  {
    hide After, Possible, Undefined, SentSince, OpenedSince, HandshakeSince, MatchingOpen;
    StepStates(c, s, e);
    if SendsOpen(e.event) {
      SentNow(events, e);
    } else {
      if SentSince(events) { SentGrows(c, events, e); }
      if OpenedSince(c, events) { OpenedGrows(c, events, e); }
      if HandshakeSince(c, events) { HandshakeGrows(c, events, e); }
    }
  }

  lemma SentNow(events: seq<Timed>, e: Timed)
    requires SendsOpen(e.event)
    ensures SentSince(events + [e])
  {
    assert LastSend(events + [e], |events|);
  }

  lemma {:induction false} RunExplained(c: Config, events: seq<Timed>)
    requires Runs(c, events)
    ensures Explained(c, Final(c, events), events)
    decreases |events|
  {
    hide After, Possible, Undefined, Explained;
    if events == [] {
      ExplainedInitially(c);
    } else {
      var n := |events| - 1;
      RunExplained(c, events[..n]);
      StepExplained(c, Final(c, events[..n]), events[..n], events[n]);
      assert events[..n] + [events[n]] == events;
    }
  }

  lemma ExplainedInitially(c: Config)
    ensures Explained(c, NEW_PEER, [])
  {
  }

  /**
   In every run: an Established peer has, since our last OPEN, received an OPEN with matching
   version and AS and later a KEEPALIVE.
   */
  lemma EstablishedMeansHandshake(c: Config, events: seq<Timed>)
    requires Runs(c, events) && Final(c, events).state == Established
    ensures HandshakeSince(c, events)
  {
    hide Final, HandshakeSince;
    RunExplained(c, events);
  }

  /** Established is entered only by a KEEPALIVE received in OpenConfirm. */
  lemma OnlyKeepaliveEstablishes(c: Config, s: Session, e: Timed)
    requires Possible(s, e.event) && s.state != Established && After(c, s, e).state == Established
    ensures IsKeepalive(e.event) && s.state == OpenConfirm
  {
    hide After, Possible, Undefined;
    StepStates(c, s, e);
  }

  /**
   An OPEN is accepted if and only if version and AS match. A rejected one drops the session after
   the notification that section 6.2 of RFC 4271 names, and changes no timer.
   */
  lemma OpenIsJudged(c: Config, s: Session, buffer: seq<Octet>, now: int)
    requires |buffer| >= OPEN_SIZE && s.state != Idle
    ensures var t, o := AfterOpen(c, s, buffer, now), DecodeOpen(buffer);
            && (t.state == OpenConfirm <==> o.version == c.open.version && o.asn == c.peerAs)
            && (t.state != OpenConfirm ==>
                  && t.state == Idle && !t.connected
                  && t.holdTime == s.holdTime && t.keepAlive == s.keepAlive && t.bgpId == s.bgpId
                  && (s.connected ==>
                        t.sent == s.sent + [Msg(NOTIFICATION, [2, if o.version != c.open.version then 1 else 2])]))
            && (t.state == OpenConfirm ==>
                  t.connected == s.connected && (s.connected ==> t.sent == s.sent + [KEEPALIVE_MSG]))
  {
    hide Frame, DecodeOpen;
  }

  /** A matching OPEN from another collector: its identifier is adopted, its hold time iff below 256. */
  lemma OpenIsAdopted(c: Config, s: Session, o: Open, rest: seq<Octet>, now: int)
    requires o.version == c.open.version && o.asn == c.peerAs
    ensures var t := AfterOpen(c, s, EncodeOpen(o) + rest, now);
            && t.state == OpenConfirm && t.bgpId == o.bgpId
            && (t.holdTime == o.holdTime <==> o.holdTime < 0x100)
            && t.keepAlive == t.holdTime / 3
  {
    hide Frame, EncodeOpen, Word;
    OpenRoundTripIff(o);
    OpenPrefix(o, rest);
  }

  lemma OpenPrefix(o: Open, rest: seq<Octet>)
    ensures DecodeOpen(EncodeOpen(o) + rest) == DecodeOpen(EncodeOpen(o))
  {
    hide EncodeOpen, Word;
    assert (EncodeOpen(o) + rest)[5..9] == EncodeOpen(o)[5..9];
  }

  // ---------- the queue of UPDATEs ----------

  /** UPDATEs are conserved; the 16-bit counter drifts from the queue by what was discarded. */
  predicate Conserved(s: Session) {
    && s.updatesRx == s.parsed + s.discarded + |s.inQueue|
    && s.inQ == (|s.inQueue| + s.discarded) % 0x1_0000
  }

  lemma ModStep(a: int, b: int)
    ensures (a % 0x1_0000 + b) % 0x1_0000 == (a + b) % 0x1_0000
  {
  }

  predicate ReceivesUpdate(e: Event) {
    e.Receive? && e.kind == 2
  }

  predicate SameQueue(s: Session, t: Session) {
    && t.inQueue == s.inQueue && t.inQ == s.inQ && t.updatesRx == s.updatesRx
    && t.parsed == s.parsed && t.discarded == s.discarded
  }

  lemma SendKeepsQueue(s: Session, m: Msg, now: int)
    ensures SameQueue(s, Send(s, m, now))
  {
    hide Frame;
  }

  lemma OpenKeepsQueue(c: Config, s: Session, buffer: seq<Octet>, now: int)
    requires |buffer| >= OPEN_SIZE
    ensures SameQueue(s, AfterOpen(c, s, buffer, now))
  {
    hide Send, DecodeOpen;
    var o := DecodeOpen(buffer);
    SendKeepsQueue(s, Msg(NOTIFICATION, [2, 1]), now);
    SendKeepsQueue(s, Msg(NOTIFICATION, [2, 2]), now);
    SendKeepsQueue(s.(bgpId := o.bgpId, holdTime := o.holdTime, keepAlive := o.holdTime / 3, state := OpenConfirm),
                   KEEPALIVE_MSG, now);
  }

  lemma KeepaliveKeepsQueue(s: Session, now: int)
    ensures SameQueue(s, AfterKeepalive(s, now))
  {
    hide Send;
    SendKeepsQueue(s, KEEPALIVE_MSG, now);
    SendKeepsQueue(s.(state := Established), KEEPALIVE_MSG, now);
  }

  lemma ConnectKeepsQueue(c: Config, s: Session, connects: bool, buffersResize: bool, now: int)
    ensures SameQueue(s, AfterConnect(c, s, connects, buffersResize, now))
  {
    hide Send, EncodeOpen;
    SendKeepsQueue(s.(state := OpenSent, phase := Reading, connected := true, tx := [], sent := []),
                   Msg(OPEN, EncodeOpen(c.open)), now);
  }

  lemma QueueFields(c: Config, s: Session, e: Timed)
    requires Possible(s, e.event)
    ensures var t, n := After(c, s, e), |s.inQueue|;
            if ReceivesUpdate(e.event) then
              && t.inQueue == s.inQueue + [e.event.buffer[..e.event.length]] && t.inQ == (s.inQ + 1) % 0x1_0000
              && t.updatesRx == s.updatesRx + 1 && t.parsed == s.parsed && t.discarded == s.discarded
            else if LiveTick(s, e) then
              && t.inQueue == [] && t.inQ == (s.inQ - n) % 0x1_0000 && t.updatesRx == s.updatesRx
              && t.parsed == s.parsed + n && t.discarded == s.discarded
            else if e.event.Discard? then
              && t.inQueue == [] && t.inQ == s.inQ && t.updatesRx == s.updatesRx
              && t.parsed == s.parsed && t.discarded == s.discarded + n
            else
              SameQueue(s, t)
  {
    hide Send, AfterOpen, AfterKeepalive, AfterConnect;
    match e.event
    case Connect(connects, buffers) => ConnectKeepsQueue(c, s, connects, buffers, e.now);
    case Receive(kind, buffer, _) =>
      if kind == OPEN {
        OpenKeepsQueue(c, s.(lastRead := e.now), buffer, e.now);
      } else if kind == KEEPALIVE {
        KeepaliveKeepsQueue(s.(lastRead := e.now), e.now);
      }
    case Tick =>
      SendKeepsQueue(s, Msg(NOTIFICATION, [4, 0]), e.now);
      SendKeepsQueue(s, KEEPALIVE_MSG, e.now);
    case _ =>
  }

  lemma StepConserves(c: Config, s: Session, e: Timed)
    requires Possible(s, e.event) && Conserved(s)
    ensures Conserved(After(c, s, e))
  {
    hide After;
    QueueFields(c, s, e);
    var n, d := |s.inQueue|, s.discarded;
    ModStep(n + d, 1);
    ModStep(n + d, -n);
  }

  lemma {:induction false} RunConserves(c: Config, events: seq<Timed>)
    requires Runs(c, events)
    ensures Conserved(Final(c, events))
    decreases |events|
  {
    hide After, Possible, Undefined, Conserved;
    if events == [] {
      assert Conserved(NEW_PEER) by { ConservedInitially(); }
    } else {
      var n := |events| - 1;
      RunConserves(c, events[..n]);
      StepConserves(c, Final(c, events[..n]), events[n]);
    }
  }

  lemma ConservedInitially()
    ensures Conserved(NEW_PEER)
  {
  }

  /**
   Over every run: UPDATEs received = parsed + discarded + still queued, and the queue counter
   minus the queue length is the number discarded, modulo 2^16.
   */
  lemma UpdatesAreConserved(c: Config, events: seq<Timed>)
    requires Runs(c, events)
    ensures var s := Final(c, events);
            && s.updatesRx == s.parsed + s.discarded + |s.inQueue|
            && (s.inQ - |s.inQueue|) % 0x1_0000 == s.discarded % 0x1_0000
  {
    hide Final;
    RunConserves(c, events);
    var s := Final(c, events);
    ModStep(|s.inQueue| + s.discarded, -|s.inQueue|);
  }

  /** The payloads of the UPDATEs received so far, in order. */
  function Received(events: seq<Timed>): seq<seq<Octet>> {
    if events == [] then []
    else
      var e := events[|events| - 1].event;
      Received(events[..|events| - 1])
      + (if e.Receive? && e.kind == UPDATE && e.length <= |e.buffer| then [e.buffer[..e.length]] else [])
  }

  ghost predicate IsSuffix<T>(s: seq<T>, all: seq<T>) {
    |s| <= |all| && s == all[|all| - |s|..]
  }

  lemma QueueStep(c: Config, s: Session, e: Timed, all: seq<seq<Octet>>)
    requires Possible(s, e.event) && IsSuffix(s.inQueue, all)
    ensures var v := e.event;
            var more := if v.Receive? && v.kind == UPDATE && v.length <= |v.buffer| then [v.buffer[..v.length]] else [];
            IsSuffix(After(c, s, e).inQueue, all + more) && After(c, s, e).updatesRx == s.updatesRx + |more|
  {
    hide After;
    QueueFields(c, s, e);
    assert all + [] == all;
  }

  /** First in, first out: what is queued is always the newest part of what was received, in order. */
  lemma {:induction false} QueueIsNewestReceived(c: Config, events: seq<Timed>)
    requires Runs(c, events)
    ensures IsSuffix(Final(c, events).inQueue, Received(events))
    ensures Final(c, events).updatesRx == |Received(events)|
    decreases |events|
  {
    hide After, Possible, Undefined, IsSuffix;
    if events == [] {
      assert IsSuffix(NEW_PEER.inQueue, Received([])) by { EmptyIsSuffix(); }
    } else {
      var n := |events| - 1;
      QueueIsNewestReceived(c, events[..n]);
      QueueStep(c, Final(c, events[..n]), events[n], Received(events[..n]));
    }
  }

  predicate AllBounded(packets: seq<seq<Octet>>) {
    forall i :: 0 <= i < |packets| ==> |packets[i]| <= MAX_PACKET
  }

  lemma BoundedStep(c: Config, s: Session, e: Timed)
    requires Possible(s, e.event) && !Overruns(e.event) && AllBounded(s.inQueue)
    ensures AllBounded(After(c, s, e).inQueue)
  {
    hide After;
    QueueFields(c, s, e);
  }

  lemma EmptyIsSuffix()
    ensures IsSuffix(NEW_PEER.inQueue, Received([]))
  {
  }

  /** UPDATEs are parsed only by a tick that finds the peer Established and its hold timer running. */
  lemma ParsedOnlyWhenEstablished(c: Config, s: Session, e: Timed)
    requires Possible(s, e.event) && After(c, s, e).parsed != s.parsed
    ensures e.event.Tick? && s.state == Established && e.now - s.lastRead < s.holdTime
    ensures After(c, s, e).parsed == s.parsed + |s.inQueue|
  {
    hide After;
    QueueFields(c, s, e);
  }

  // ---------- what the other side reads ----------

  /** The bytes written on the connection are the frames of the messages sent on it. */
  ghost predicate TxIsFramed(s: Session) {
    s.tx == Frames(s.sent) && AllFit(s.sent)
  }

  lemma SendKeepsFraming(s: Session, m: Msg, now: int)
    requires TxIsFramed(s) && Fits(m)
    ensures TxIsFramed(Send(s, m, now))
  {
    hide Frame, Frames;
    FramesSnoc(s.sent, m);
  }

  lemma StepKeepsFraming(c: Config, s: Session, e: Timed)
    requires Possible(s, e.event) && TxIsFramed(s)
    ensures TxIsFramed(After(c, s, e))
  {
    hide Send, EncodeOpen, DecodeOpen, TxIsFramed;
    match e.event
    case Connect(_, _) =>
      var linked := s.(state := OpenSent, phase := Reading, connected := true, tx := [], sent := []);
      FramingStays(s, Drop(s));
      EmptyIsFramed(linked);
      SendKeepsFraming(linked, Msg(OPEN, EncodeOpen(c.open)), e.now);
    case Receive(kind, buffer, length) =>
      var t := s.(lastRead := e.now);
      FramingStays(s, t);
      ReceiveKeepsFraming(c, t, kind, buffer, length, e.now);
      FramingStays(t, AfterReceive(c, s, kind, buffer, length, e.now));
    case Tick =>
      SendKeepsFraming(s, KEEPALIVE_MSG, e.now);
      SendKeepsFraming(s, Msg(NOTIFICATION, [4, 0]), e.now);
      FramingStays(s, AllParsed(s));
      FramingStays(Send(s, KEEPALIVE_MSG, e.now), AllParsed(Send(s, KEEPALIVE_MSG, e.now)));
      FramingStays(Notify(s, 4, 0, e.now), Drop(Notify(s, 4, 0, e.now)));
    case _ => FramingStays(s, After(c, s, e));
  }

  lemma ReceiveKeepsFraming(c: Config, t: Session, kind: Octet, buffer: seq<Octet>, length: nat, now: int)
    requires TxIsFramed(t) && t.lastRead == now && |buffer| >= HEADER && length <= |buffer|
    ensures TxIsFramed(AfterReceive(c, t, kind, buffer, length, now))
  {
    hide Send, DecodeOpen, TxIsFramed;
    var r := AfterReceive(c, t, kind, buffer, length, now);
    if kind == OPEN {
      var o := DecodeOpen(buffer);
      var u := t.(bgpId := o.bgpId, holdTime := o.holdTime, keepAlive := o.holdTime / 3, state := OpenConfirm);
      FramingStays(t, u);
      SendKeepsFraming(u, KEEPALIVE_MSG, now);
      SendKeepsFraming(t, Msg(NOTIFICATION, [2, 1]), now);
      SendKeepsFraming(t, Msg(NOTIFICATION, [2, 2]), now);
      FramingStays(Notify(t, 2, 1, now), Drop(Notify(t, 2, 1, now)));
      FramingStays(Notify(t, 2, 2, now), Drop(Notify(t, 2, 2, now)));
    } else if kind == KEEPALIVE {
      FramingStays(t, t.(state := Established));
      SendKeepsFraming(t, KEEPALIVE_MSG, now);
      SendKeepsFraming(t.(state := Established), KEEPALIVE_MSG, now);
    } else {
      FramingStays(t, r);
    }
  }

  lemma FramingStays(s: Session, t: Session)
    ensures TxIsFramed(s) && t.tx == s.tx && t.sent == s.sent ==> TxIsFramed(t)
  {
  }

  lemma EmptyIsFramed(s: Session)
    requires s.tx == [] && s.sent == []
    ensures TxIsFramed(s)
  {
  }

  lemma {:induction false} RunKeepsFraming(c: Config, events: seq<Timed>)
    requires Runs(c, events)
    ensures TxIsFramed(Final(c, events))
    decreases |events|
  {
    hide After, Possible, Undefined;
    if events != [] {
      var n := |events| - 1;
      RunKeepsFraming(c, events[..n]);
      StepKeepsFraming(c, Final(c, events[..n]), events[n]);
    }
  }

  /** In every run, the reader on the far side recovers exactly the messages sent on the connection. */
  lemma FarSideReadsWhatWasSent(c: Config, events: seq<Timed>)
    requires Runs(c, events)
    ensures ReadStream(Final(c, events).tx) == Some(Final(c, events).sent)
  {
    hide Final, Frames, ReadStream;
    var s := Final(c, events);
    RunKeepsFraming(c, events);
    ReaderReadsAll(s.sent);
  }

  // ---------- timers ----------

  /** After a tick, an Established peer has been heard from within its hold time. */
  lemma {:induction false} TickEnforcesHoldTime(c: Config, events: seq<Timed>)
    requires Runs(c, events) && events != [] && events[|events| - 1].event.Tick?
    requires Final(c, events).state == Established
    ensures events[|events| - 1].now - Final(c, events).lastRead < Final(c, events).holdTime
  {
    hide Frame;
  }

  /**
   Section 6.5 of RFC 4271: a tick ends an Established session exactly when nothing was read for the
   hold time, and says so in a notification before the connection is dropped.
   */
  lemma HoldExpiryNotifies(s: Session, now: int)
    requires s.state == Established
    ensures var t := AfterTick(s, now);
            && (t.state == Idle <==> now - s.lastRead >= s.holdTime)
            && (t.state == Idle ==>
                  && !t.connected && t.inQueue == s.inQueue
                  && (s.connected ==> t.sent == s.sent + [Msg(NOTIFICATION, [4, 0])]))
            && (t.state != Idle ==> t.state == Established && t.connected == s.connected && t.inQueue == [])
  {
    hide Frame;
  }

  /** When the last message of any kind was received. */
  function LastReceive(events: seq<Timed>): int {
    if events == [] then 0
    else
      var e := events[|events| - 1];
      if e.event.Receive? then e.now else LastReceive(events[..|events| - 1])
  }

  lemma ReadClockStep(c: Config, s: Session, e: Timed)
    requires Possible(s, e.event)
    ensures After(c, s, e).lastRead == if e.event.Receive? then e.now else s.lastRead
  {
    hide Frame, EncodeOpen, DecodeOpen;
  }

  lemma {:induction false} ReadClockIsHonest(c: Config, events: seq<Timed>)
    requires Runs(c, events)
    ensures Final(c, events).lastRead == LastReceive(events)
    decreases |events|
  {
    hide After, Possible, Undefined;
    if events != [] {
      var n := |events| - 1;
      ReadClockIsHonest(c, events[..n]);
      ReadClockStep(c, Final(c, events[..n]), events[n]);
    }
  }

  /** Event o is the last matching OPEN so far. */
  predicate LastOpen(c: Config, events: seq<Timed>, o: int) {
    && 0 <= o < |events| && MatchingOpen(c, events[o].event)
    && forall j :: o < j < |events| ==> !MatchingOpen(c, events[j].event)
  }

  /** The sum of the two hold-time octets of an OPEN. */
  function HoldOctets(e: Event): int
    requires e.Receive? && |e.buffer| >= OPEN_SIZE
  {
    e.buffer[3] as int + e.buffer[4] as int
  }

  lemma HoldTimeStep(c: Config, s: Session, e: Timed)
    requires Possible(s, e.event)
    ensures After(c, s, e).holdTime == if MatchingOpen(c, e.event) then HoldOctets(e.event) else s.holdTime
    ensures After(c, s, e).keepAlive == if MatchingOpen(c, e.event) then HoldOctets(e.event) / 3 else s.keepAlive
  {
    hide Frame, EncodeOpen, Word;
  }

  /** The hold time is that of the last matching OPEN, its two octets added up. */
  lemma {:induction false} HoldTimeIsAdopted(c: Config, events: seq<Timed>, o: int)
    requires Runs(c, events) && LastOpen(c, events, o)
    ensures Final(c, events).holdTime == HoldOctets(events[o].event)
    ensures Final(c, events).keepAlive == HoldOctets(events[o].event) / 3
    decreases |events|
  {
    hide After, Possible, Undefined, MatchingOpen;
    var n := |events| - 1;
    HoldTimeStep(c, Final(c, events[..n]), events[n]);
    if o < n {
      assert LastOpen(c, events[..n], o) by {
        forall j | o < j < n
          ensures !MatchingOpen(c, events[..n][j].event)
        {
          assert events[..n][j] == events[j];
        }
      }
      HoldTimeIsAdopted(c, events[..n], o);
    }
  }

  lemma {:induction false} LastOpenExists(c: Config, events: seq<Timed>, i: nat) returns (o: int)
    requires i < |events| && MatchingOpen(c, events[i].event)
    ensures LastOpen(c, events, o)
    decreases |events|
  {
    hide MatchingOpen;
    var n := |events| - 1;
    if MatchingOpen(c, events[n].event) {
      o := n;
    } else {
      o := LastOpenExists(c, events[..n], i);
      forall j | o < j < |events|
        ensures !MatchingOpen(c, events[j].event)
      {
        assert j < n ==> events[..n][j] == events[j];
      }
    }
  }

  /**
   In every run an Established peer has sent a matching OPEN, and a tick drops it exactly when nothing
   was received for as many seconds as the hold-time octets of the last such OPEN add up to.
   */
  lemma {:induction false} SilenceEndsSession(c: Config, events: seq<Timed>, now: int) returns (o: int)
    requires Runs(c, events) && Final(c, events).state == Established
    ensures LastOpen(c, events, o)
    ensures AfterTick(Final(c, events), now).state == Idle
       <==> now - LastReceive(events) >= HoldOctets(events[o].event)
  {
    hide Final, AfterTick, MatchingOpen, IsKeepalive;
    EstablishedMeansHandshake(c, events);
    var s, i, k :| LastSend(events, s) && s < i < k < |events|
                   && MatchingOpen(c, events[i].event) && IsKeepalive(events[k].event);
    o := LastOpenExists(c, events, i);
    HoldTimeIsAdopted(c, events, o);
    ReadClockIsHonest(c, events);
    HoldExpiryNotifies(Final(c, events), now);
  }

  /**
   RFC 4271 lets a hold time of zero disable the timer. Here a tick drops an Established peer even at
   the very second of its last message, if and only if both hold-time octets of its OPEN are zero.
   */
  lemma ZeroHoldTimeIff(c: Config, events: seq<Timed>) returns (o: int)
    requires Runs(c, events) && Final(c, events).state == Established
    ensures LastOpen(c, events, o)
    ensures AfterTick(Final(c, events), LastReceive(events)).state == Idle
       <==> events[o].event.buffer[3] == 0 && events[o].event.buffer[4] == 0
  {
    hide Final, AfterTick, MatchingOpen;
    o := SilenceEndsSession(c, events, LastReceive(events));
    assert MatchingOpen(c, events[o].event);
    OpenHasOctets(c, events[o].event);
  }

  lemma OpenHasOctets(c: Config, e: Event)
    requires MatchingOpen(c, e)
    ensures e.Receive? && |e.buffer| >= OPEN_SIZE
  {
  }

  /** The sessions along a handshake whose OPEN proposes hold time zero, and after a tick. */
  lemma ZeroHandshake(c: Config, open: Timed, keepalive: Timed, now: int)
    returns (s1: Session, s2: Session, s3: Session)
    requires open.event.Receive? && |open.event.buffer| >= HEADER && open.event.length <= |open.event.buffer|
    requires MatchingOpen(c, open.event) && open.event.buffer[3] == 0 && open.event.buffer[4] == 0
    requires IsKeepalive(keepalive.event) && |keepalive.event.buffer| >= HEADER
    requires keepalive.event.length <= |keepalive.event.buffer| && keepalive.now <= now
    ensures s1 == After(c, NEW_PEER, Timed(open.now, Connect(true, true))) && s1.phase == Reading && s1.inQueue == []
    ensures s2 == After(c, s1, open) && s2.phase == Reading && s2.inQueue == []
    ensures s3 == After(c, s2, keepalive) && s3.state == Established && s3.holdTime == 0 && s3.lastRead == keepalive.now
    ensures s3.inQueue == [] && AfterTick(s3, now).state == Idle
  {
    hide Send, EncodeOpen, Word;
    s1 := After(c, NEW_PEER, Timed(open.now, Connect(true, true)));
    var linked := NEW_PEER.(state := OpenSent, phase := Reading, connected := true);
    SendKeepsRest(linked, Msg(OPEN, EncodeOpen(c.open)), open.now);
    s2 := After(c, s1, open);
    var o := DecodeOpen(open.event.buffer);
    var adopted := s1.(lastRead := open.now, bgpId := o.bgpId, holdTime := o.holdTime, keepAlive := o.holdTime / 3,
                       state := OpenConfirm);
    SendKeepsRest(adopted, KEEPALIVE_MSG, open.now);
    s3 := After(c, s2, keepalive);
    SendKeepsRest(s2.(lastRead := keepalive.now, state := Established), KEEPALIVE_MSG, keepalive.now);
  }

  lemma SendKeepsRest(s: Session, m: Msg, now: int)
    ensures var t := Send(s, m, now);
            && t.state == s.state && t.phase == s.phase && t.inQueue == s.inQueue
            && t.holdTime == s.holdTime && t.lastRead == s.lastRead
  {
    hide Frame;
  }

  /** The shortest such run: a handshake that proposes hold time zero is undone by the next tick. */
  lemma ZeroHoldTimeIsDropped(c: Config, open: seq<Octet>, keepalive: seq<Octet>, now: int)
    requires |open| >= HEADER && |keepalive| >= HEADER && MatchingOpen(c, Receive(OPEN, open, OPEN_SIZE))
    requires open[3] == 0 && open[4] == 0
    ensures var events := [Timed(now, Connect(true, true)), Timed(now, Receive(OPEN, open, OPEN_SIZE)),
                           Timed(now, Receive(KEEPALIVE, keepalive, 0)), Timed(now, Tick)];
            && Runs(c, events[..3]) && Final(c, events[..3]).state == Established
            && Runs(c, events) && Final(c, events).state == Idle
  {
    hide AfterConnect, AfterReceive, AfterTick, AllParse, Runs, Final;
    var events := [Timed(now, Connect(true, true)), Timed(now, Receive(OPEN, open, OPEN_SIZE)),
                   Timed(now, Receive(KEEPALIVE, keepalive, 0)), Timed(now, Tick)];
    var s1, s2, s3 := ZeroHandshake(c, events[1], events[2], now);
    RunStep(c, events, 0);
    RunStep(c, events, 1);
    RunStep(c, events, 2);
    RunStep(c, events, 3);
    assert events[..4] == events;
  }

  /** One more event of a run. */
  lemma RunStep(c: Config, events: seq<Timed>, n: nat)
    requires n < |events|
    ensures n == 0 ==> Runs(c, events[..0]) && Final(c, events[..0]) == NEW_PEER
    ensures && (n > 0 ==> events[n - 1].now <= events[n].now)
            && Runs(c, events[..n]) && Enabled(Final(c, events[..n]), events[n])
            ==> && Runs(c, events[..n + 1])
                && Final(c, events[..n + 1]) == After(c, Final(c, events[..n]), events[n])
  {
    hide After, Possible, Undefined;
    assert events[..n + 1][..n] == events[..n];
  }

  /** From s to t the messages ms were handed over at time now: written if connected, and the clock shows it. */
  ghost predicate Sent(s: Session, t: Session, ms: seq<Msg>, now: int) {
    && |ms| <= 1 && t.sent == s.sent + (if s.connected then ms else [])
    && t.lastKeepaliveTx == if ms != [] && ms[0].kind == KEEPALIVE then now else s.lastKeepaliveTx
  }

  lemma SendIsSent(s: Session, m: Msg, now: int)
    requires m.kind != UPDATE
    ensures Sent(s, Send(s, m, now), if s.state == Idle then [] else [m], now)
  {
    hide Frame;
    assert s.sent + [] == s.sent;
  }

  lemma SentSame(s: Session, s': Session, t: Session, t': Session, ms: seq<Msg>, now: int)
    requires Sent(s, t, ms, now)
    requires s.sent == s'.sent && s.lastKeepaliveTx == s'.lastKeepaliveTx && s.connected == s'.connected
    requires t.sent == t'.sent && t.lastKeepaliveTx == t'.lastKeepaliveTx
    ensures Sent(s', t', ms, now)
  {
  }

  lemma NothingSent(s: Session, t: Session, now: int)
    requires s.sent == t.sent && s.lastKeepaliveTx == t.lastKeepaliveTx
    ensures Sent(s, t, [], now)
  {
    assert s.sent + [] == s.sent;
  }

  /** Version and AS of an OPEN, from its octets. */
  predicate Accepted(c: Config, buffer: seq<Octet>)
    requires |buffer| >= 3
  {
    buffer[0] == c.open.version && 0x100 * buffer[1] as int + buffer[2] as int == c.peerAs
  }

  /**
   The message that an event makes us hand over, with the type numbers of section 4.1 and the error codes
   of section 4.5 of RFC 4271: our OPEN on a new connection; a KEEPALIVE for an accepted OPEN, and unless
   idle a NOTIFICATION for a rejected one; a KEEPALIVE for every KEEPALIVE unless idle; and from a tick of
   an Established session a NOTIFICATION when the hold time has passed, or a KEEPALIVE when one is due.
   */
  function HandedOver(c: Config, s: Session, e: Timed): seq<Msg>
    requires Possible(s, e.event)
  {
    match e.event
    case Connect(connects, buffersResize) => if connects && buffersResize then [Msg(1, EncodeOpen(c.open))] else []
    case Receive(kind, buffer, _) =>
      if kind == 1 then
        if Accepted(c, buffer) then [Msg(4, [])]
        else if s.state == Idle then []
        else [Msg(3, [2, if buffer[0] != c.open.version then 1 else 2])]
      else if kind == 4 && s.state != Idle then [Msg(4, [])]
      else []
    case Tick =>
      if s.state != Established then []
      else if e.now - s.lastRead >= s.holdTime then [Msg(3, [4, 0])]
      else if e.now - s.lastKeepaliveTx >= s.keepAlive then [Msg(4, [])]
      else []
    case _ => []
  }

  lemma OpenClock(c: Config, s: Session, buffer: seq<Octet>, length: nat, now: int)
    requires s.phase == Reading && |buffer| >= HEADER && length <= |buffer|
    ensures Sent(s, AfterOpen(c, s, buffer, now), HandedOver(c, s, Timed(now, Receive(1, buffer, length))), now)
  {
    hide Send, Word, Sent;
    var o, t := DecodeOpen(buffer), AfterOpen(c, s, buffer, now);
    var ms := HandedOver(c, s, Timed(now, Receive(1, buffer, length)));
    if o.version != c.open.version {
      SendIsSent(s, Msg(NOTIFICATION, [2, 1]), now);
      SentSame(s, s, Notify(s, 2, 1, now), t, ms, now);
    } else if o.asn != c.peerAs {
      SendIsSent(s, Msg(NOTIFICATION, [2, 2]), now);
      SentSame(s, s, Notify(s, 2, 2, now), t, ms, now);
    } else {
      var adopted :=
        s.(bgpId := o.bgpId, holdTime := o.holdTime, keepAlive := o.holdTime / 3, state := OpenConfirm);
      SendIsSent(adopted, KEEPALIVE_MSG, now);
      SentSame(adopted, s, t, t, ms, now);
    }
  }

  lemma ReceiveClock(c: Config, s: Session, kind: Octet, buffer: seq<Octet>, length: nat, now: int)
    requires s.phase == Reading && |buffer| >= HEADER && length <= |buffer|
    ensures Sent(s, AfterReceive(c, s, kind, buffer, length, now),
                 HandedOver(c, s, Timed(now, Receive(kind, buffer, length))), now)
  {
    hide Send, AfterOpen, Sent;
    var heard, t := s.(lastRead := now), AfterReceive(c, s, kind, buffer, length, now);
    var ms := HandedOver(c, s, Timed(now, Receive(kind, buffer, length)));
    if kind == OPEN {
      OpenClock(c, heard, buffer, length, now);
      SentSame(heard, s, t, t, ms, now);
    } else if kind == KEEPALIVE {
      var up := if s.state == OpenConfirm then heard.(state := Established) else heard;
      SendIsSent(up, KEEPALIVE_MSG, now);
      SentSame(up, s, t, t, ms, now);
    } else {
      NothingSent(s, t, now);
    }
  }

  lemma TickClock(c: Config, s: Session, now: int)
    ensures Sent(s, AfterTick(s, now), HandedOver(c, s, Timed(now, Tick)), now)
  {
    hide Send, Sent;
    var t := AfterTick(s, now);
    var ms := HandedOver(c, s, Timed(now, Tick));
    if s.state != Established {
      NothingSent(s, t, now);
    } else if now - s.lastRead >= s.holdTime {
      SendIsSent(s, Msg(NOTIFICATION, [4, 0]), now);
      SentSame(s, s, Notify(s, 4, 0, now), t, ms, now);
    } else if now - s.lastKeepaliveTx >= s.keepAlive {
      SendIsSent(s, KEEPALIVE_MSG, now);
      SentSame(s, s, Send(s, KEEPALIVE_MSG, now), t, ms, now);
    } else {
      NothingSent(s, t, now);
    }
  }

  /**
   Every step hands over exactly the message of HandedOver. It is written exactly while connected, and the
   KEEPALIVE clock moves to the step's time exactly when it is a KEEPALIVE. A new connection starts with
   our OPEN alone and leaves the clock alone.
   */
  lemma KeepaliveClockIsHonest(c: Config, s: Session, e: Timed)
    requires Possible(s, e.event)
    ensures SendsOpen(e.event) ==>
              && After(c, s, e).sent == HandedOver(c, s, e) == [Msg(1, EncodeOpen(c.open))]
              && After(c, s, e).lastKeepaliveTx == s.lastKeepaliveTx
    ensures !SendsOpen(e.event) ==> Sent(s, After(c, s, e), HandedOver(c, s, e), e.now)
  {
    hide Frame, EncodeOpen, AfterReceive, AfterTick, Sent;
    match e.event
    case Connect(_, _) =>
      if !SendsOpen(e.event) {
        NothingSent(s, After(c, s, e), e.now);
      }
    case Receive(kind, buffer, length) => ReceiveClock(c, s, kind, buffer, length, e.now);
    case Tick => TickClock(c, s, e.now);
    case _ => NothingSent(s, After(c, s, e), e.now);
  }

  /** In every run, a KEEPALIVE that reaches a session which is not idle is answered with one. */
  lemma KeepaliveIsAnswered(c: Config, events: seq<Timed>, e: Timed)
    requires Runs(c, events + [e]) && Runs(c, events)
    requires e.event.Receive? && e.event.kind == 4 && Final(c, events).state != Idle
    ensures var s, t := Final(c, events), Final(c, events + [e]);
            t.lastKeepaliveTx == e.now && t.sent == s.sent + (if s.connected then [Msg(4, [])] else [])
  {
    hide After, Possible, Undefined;
    assert (events + [e])[..|events|] == events;
    KeepaliveClockIsHonest(c, Final(c, events), e);
  }

  // ---------- every field, event by event ----------

  /** Which state each event leads to; all others keep it. */
  lemma StateIs(c: Config, s: Session, e: Timed)
    requires Possible(s, e.event)
    ensures After(c, s, e).state
         == match e.event
            case Connect(connects, buffersResize) => (if connects && buffersResize then OpenSent else Idle)
            case Receive(kind, buffer, _) =>
              (if kind == 1 then (if Accepted(c, buffer) then OpenConfirm else Idle)
               else if kind == 4 && s.state == OpenConfirm then Established
               else s.state)
            case Tick => (if s.state == Established && e.now - s.lastRead >= s.holdTime then Idle else s.state)
            case _ => s.state
  {
    hide Frame, EncodeOpen, Word;
  }

  /** Only a new connection connects; a failed one, a rejected OPEN, the end of the stream and expiry disconnect. */
  lemma ConnectedIs(c: Config, s: Session, e: Timed)
    requires Possible(s, e.event)
    ensures After(c, s, e).connected
         == match e.event
            case Connect(connects, buffersResize) => connects && buffersResize
            case Receive(kind, buffer, _) => s.connected && (kind == 1 ==> Accepted(c, buffer))
            case Eof => false
            case Discard => false
            case Tick => s.connected && !(s.state == Established && e.now - s.lastRead >= s.holdTime)
            case _ => s.connected
  {
    hide Frame, EncodeOpen, Word;
  }

  lemma PhaseIs(c: Config, s: Session, e: Timed)
    requires Possible(s, e.event)
    ensures After(c, s, e).phase
         == match e.event
            case Connect(connects, buffersResize) => (if connects && buffersResize then Reading else s.phase)
            case EndReading => Closing
            case Discard => Starting
            case _ => s.phase
  {
    hide Frame, EncodeOpen, DecodeOpen;
  }

  /** The identifier is taken from an accepted OPEN, in the order of its octets. */
  lemma IdentifierIs(c: Config, s: Session, e: Timed)
    requires Possible(s, e.event)
    ensures After(c, s, e).bgpId
         == if e.event.Receive? && e.event.kind == 1 && Accepted(c, e.event.buffer)
            then Word(e.event.buffer[5..9]) else s.bgpId
  {
    hide Frame, EncodeOpen, Word;
  }

  /** What each phase allows: connecting, reading until the connection is lost or dropped, clearing up; ticks always. */
  lemma PhaseAllows(s: Session, e: Event)
    ensures s.phase == Starting ==> (Possible(s, e) <==> e.Connect? || e.StreamFails? || e.Tick?)
    ensures s.phase == Reading ==>
              (Possible(s, e) <==> || e.Eof? || e.Tick?
                                   || (e.Receive? && |e.buffer| >= 19 && e.length <= |e.buffer|)
                                   || (e.EndReading? && (!s.connected || s.state == Idle)))
    ensures s.phase == Closing ==> (Possible(s, e) <==> e.Discard? || e.Tick?)
  {
  }

  // ---------- the end of the stream ----------

  lemma ClosedStep(c: Config, s: Session, e: Timed)
    requires Possible(s, e.event) && !s.connected && !SendsOpen(e.event)
    ensures var t := After(c, s, e); !t.connected && t.tx == s.tx && t.sent == s.sent
  {
    hide Frame, EncodeOpen, DecodeOpen;
  }

  /** After the end of the stream, nothing is written until our next OPEN, whatever happens. */
  lemma {:induction false} NothingAfterEof(c: Config, before: seq<Timed>, more: seq<Timed>)
    requires Runs(c, before + more) && Runs(c, before) && before != [] && before[|before| - 1].event.Eof?
    requires forall i :: 0 <= i < |more| ==> !SendsOpen(more[i].event)
    ensures var s, t := Final(c, before), Final(c, before + more);
            !t.connected && t.tx == s.tx && t.sent == s.sent
    decreases |more|
  {
    hide Possible, Undefined, SendsOpen;
    if more == [] {
      assert before + more == before;
    } else {
      hide After;
      var n := |more| - 1;
      assert (before + more)[..|before + more| - 1] == before + more[..n];
      NothingAfterEof(c, before, more[..n]);
      ClosedStep(c, Final(c, before + more[..n]), more[n]);
    }
  }

  /**
   A session that is reading and has lost its connection, or was dropped, can leave the reader and throw
   its queue away; it then waits for a new connection with an empty queue and no connection.
   */
  lemma LostSessionEnds(c: Config, events: seq<Timed>, now: int)
    requires Runs(c, events) && events != [] && events[|events| - 1].now <= now
    requires Final(c, events).phase == Reading
    ensures !Final(c, events).connected || Final(c, events).state == Idle <==>
              Runs(c, events + [Timed(now, EndReading)])
    ensures !Final(c, events).connected || Final(c, events).state == Idle ==>
              var more := events + [Timed(now, EndReading), Timed(now, Discard)];
              && Runs(c, more) && Final(c, more).phase == Starting
              && Final(c, more).inQueue == [] && !Final(c, more).connected
  {
    hide AfterConnect, AfterReceive, AfterTick, AllParse;
    var n := |events|;
    var one := events + [Timed(now, EndReading)];
    assert one[..n] == events;
    if !Final(c, events).connected || Final(c, events).state == Idle {
      var more := events + [Timed(now, EndReading), Timed(now, Discard)];
      assert more[..n + 1] == one && more[..n + 2] == more;
      RunStep(c, more, n + 1);
    }
  }

  /** In particular after the end of the stream. */
  lemma EofEndsSession(c: Config, events: seq<Timed>, now: int)
    requires Runs(c, events) && events != [] && events[|events| - 1].event.Eof? && events[|events| - 1].now <= now
    ensures var more := events + [Timed(now, EndReading), Timed(now, Discard)];
            && Runs(c, more) && Final(c, more).phase == Starting
            && Final(c, more).inQueue == [] && !Final(c, more).connected
  {
    hide AfterConnect, AfterReceive, AfterTick, AllParse;
    LostSessionEnds(c, events, now);
  }

  function Max(a: int, b: int): int {
    if a > b then a else b
  }

  /** The clock value of the last tick; the run's first event stands in before any tick. */
  function LastTick(events: seq<Timed>): int
    requires events != []
  {
    var n := |events| - 1;
    if events[n].event.Tick? || n == 0 then events[n].now else LastTick(events[..n])
  }

  /** No event happens more than d seconds after the last tick. */
  predicate TicksWithin(events: seq<Timed>, d: nat) {
    events == [] || |events| == 1 ||
    var n := |events| - 1;
    TicksWithin(events[..n], d) && events[n].now <= LastTick(events[..n]) + d
  }

  /** The timing facts every reachable state has. */
  predicate Timely(s: Session, tick: int, now: int) {
    && s.keepAlive == s.holdTime / 3
    && tick <= now
    && (s.state == Established ==> tick - s.lastKeepaliveTx < Max(s.keepAlive, 1))
  }

  lemma StepTimely(c: Config, s: Session, tick: int, now: int, e: Timed)
    requires Possible(s, e.event) && Timely(s, tick, now) && now <= e.now
    ensures Timely(After(c, s, e), if e.event.Tick? then e.now else tick, e.now)
  {
    hide Frame, EncodeOpen, DecodeOpen;
  }

  lemma {:induction false} RunTimely(c: Config, events: seq<Timed>)
    requires Runs(c, events) && events != []
    ensures Timely(Final(c, events), LastTick(events), events[|events| - 1].now)
    decreases |events|
  {
    hide After, Possible, Undefined, Timely;
    var n := |events| - 1;
    var e := events[n];
    if n == 0 {
      assert events[..0] == [];
      TimelyInitially(e.now);
      StepTimely(c, NEW_PEER, e.now, e.now, e);
    } else {
      RunTimely(c, events[..n]);
      StepTimely(c, Final(c, events[..n]), LastTick(events[..n]), events[n - 1].now, e);
    }
  }

  lemma TimelyInitially(now: int)
    ensures Timely(NEW_PEER, now, now)
  {
  }

  /**
   If ticks are at most d apart, then whenever anything happens to an Established peer, its last
   KEEPALIVE is less than max(keep_alive, 1) + d old; so successive sends are closer than that.
   With hold_time >= 3 and 3d <= 2 hold_time they are within the hold time.
   */
  lemma KeepalivesAreFrequent(c: Config, events: seq<Timed>, d: nat)
    requires Runs(c, events) && |events| >= 2 && TicksWithin(events, d)
    requires Final(c, events[..|events| - 1]).state == Established
    ensures var s := Final(c, events[..|events| - 1]);
            var gap := events[|events| - 1].now - s.lastKeepaliveTx;
            && gap < Max(s.keepAlive, 1) + d
            && (s.holdTime >= 3 && 3 * d <= 2 * s.holdTime ==> gap < s.holdTime)
  {
    hide Final;
    var n := |events| - 1;
    RunTimely(c, events[..n]);
  }
}
