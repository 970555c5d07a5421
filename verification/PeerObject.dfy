/**
 The peer as an object whose fields the FSM thread and the main loop update in place. Each method
 is proved against the session steps of PeerSession.
 */
module PeerObject {
  import opened Octets
  import opened Messages
  import opened Framing
  import opened OpenCodec
  import opened PeerSession

  lemma OpenOctets(o: Open, s: seq<Octet>)
    requires |s| == OPEN_SIZE && s[0] == o.version && s[9] == o.optLen
    requires s[1] == o.asn / 0x100 && s[2] == o.asn % 0x100
    requires s[3] == o.holdTime / 0x100 && s[4] == o.holdTime % 0x100
    requires var id := Memory(o.bgpId, 4); s[5] == id[0] && s[6] == id[1] && s[7] == id[2] && s[8] == id[3]
    ensures s == EncodeOpen(o)
  {
    hide Memory;
  }

  lemma FrameParts(tx: seq<Octet>, headerLength: Word16, kind: Octet, payload: seq<Octet>)
    requires headerLength == (|payload| + HEADER) % 0x1_0000
    ensures tx + MARKER + Net16(headerLength) + [kind] + payload == tx + Frame(Msg(kind, payload))
  {
    hide Net16;
    assert tx + MARKER + Net16(headerLength) + [kind] == tx + Header(Msg(kind, payload));
  }

  class BgpPeer {
    var state: FsmState
    var phase: Phase
    var connected: bool
    var bgpId: Word32
    var holdTime: Word16
    var keepAlive: Word16
    var lastRead: int
    var lastKeepaliveTx: int
    var inQueue: seq<seq<Octet>>
    var inQ: Word16
    var updatesRx: nat
    var tx: seq<Octet>
    ghost var parsed: nat
    ghost var discarded: nat
    ghost var sent: seq<Msg>

    ghost function State(): Session
      reads this
    {
      Session(state, phase, connected, bgpId, holdTime, keepAlive, lastRead, lastKeepaliveTx,
              inQueue, inQ, updatesRx, parsed, discarded, tx, sent)
    }

    constructor ()
      ensures State() == NEW_PEER
      ensures state == Idle && !connected && holdTime == 180 && keepAlive == 60 && inQueue == [] && inQ == 0 && tx == []
    {
      state, phase, connected, bgpId, holdTime, keepAlive := Idle, Starting, false, 0, 180, 60;
      lastRead, lastKeepaliveTx, inQueue, inQ, updatesRx, tx := 0, 0, [], 0, 0, [];
      parsed, discarded, sent := 0, 0, [];
    }

    /** The stream takes octets only while connected. */
    method WriteStream(octets: seq<Octet>)
      modifies this`tx
      ensures tx == if connected then old(tx) + octets else old(tx)
    {
      if connected {
        tx := tx + octets;
      }
    }

    /** Marker, length, type and payload, one write after the other. */
    method WriteFrame(headerLength: Word16, kind: Octet, payload: seq<Octet>)
      requires headerLength == (|payload| + HEADER) % 0x1_0000
      modifies this`tx
      ensures tx == if connected then old(tx) + Frame(Msg(kind, payload)) else old(tx)
    {
      hide Net16;
      WriteStream(MARKER);
      WriteStream(Net16(headerLength));
      WriteStream([kind]);
      WriteStream(payload);
      FrameParts(old(tx), headerLength, kind, payload);
    }

    /** Writes marker, length, type and payload; returns the length of the message, or 0. */
    method SendPacket(payload: seq<Octet>, kind: Octet, now: int) returns (length: nat)
      modifies this`tx, this`sent, this`lastKeepaliveTx
      ensures State() == Send(old(State()), Msg(kind, payload), now)
      ensures length == if state == Idle || kind == UPDATE then 0 else (|payload| + HEADER) % 0x1_0000
    {
      hide Frame;
      if state == Idle {
        return 0;
      }
      if kind == UPDATE {
        return 0;
      }
      var headerLength: Word16 := (|payload| + HEADER) % 0x1_0000;
      WriteFrame(headerLength, kind, payload);
      if connected {
        sent := sent + [Msg(kind, payload)];
      }
      if kind == KEEPALIVE {
        lastKeepaliveTx := now;
      }
      length := headerLength;
    }

    method Notification(code: Octet, subcode: Octet, now: int)
      modifies this`tx, this`sent, this`lastKeepaliveTx
      ensures State() == Notify(old(State()), code, subcode, now)
    {
      var n := SendPacket([code, subcode], NOTIFICATION, now);
    }

    method Disconnect()
      modifies this`connected
      ensures State() == old(State()).(connected := false)
    {
      connected := false;
    }

    /**
     One connection attempt of init_peer_states, with our OPEN on success. streams: both streams open
     and the receive buffer can be resized; ok is false when a buffer is set on a null stream instead.
     */
    method TryConnect(c: Config, connects: bool, streams: bool, buffersResize: bool, now: int) returns (ok: bool)
      requires phase == Starting
      modifies this
      ensures ok == (!connects || streams)
      ensures ok ==> State() == AfterConnect(c, old(State()), connects, buffersResize, now)
    {
      hide Send, EncodeOpen;
      state := Idle;
      ok := !connects || streams;
      if !connects || !streams || !buffersResize {
        Disconnect();
        return;
      }
      Link();
      SendOpen(c, now);
    }

    /** A fresh connection: nothing has been written on it yet. */
    method Link()
      modifies this`connected, this`phase, this`tx, this`sent
      ensures State() == old(State()).(connected := true, phase := Reading, tx := [], sent := [])
    {
      connected, phase, tx, sent := true, Reading, [], [];
    }

    /** Builds the ten octets octet by octet and sends them. */
    method SendOpen(c: Config, now: int)
      modifies this`state, this`tx, this`sent, this`lastKeepaliveTx
      ensures State() == Send(old(State()).(state := OpenSent), Msg(OPEN, EncodeOpen(c.open)), now)
    {
      hide Frame, Memory, EncodeOpen;
      var message := new Octet[10](i => 0);
      message[0] := c.open.version;
      message[1] := c.open.asn / 0x100;
      message[2] := c.open.asn % 0x100;
      message[3] := c.open.holdTime / 0x100;
      message[4] := c.open.holdTime % 0x100;
      var id := Memory(c.open.bgpId, 4);
      message[5] := id[0];
      message[6] := id[1];
      message[7] := id[2];
      message[8] := id[3];
      message[9] := c.open.optLen;
      OpenOctets(c.open, message[..]);
      state := OpenSent;
      var n := SendPacket(message[..], OPEN, now);
    }

    /** Checks version and AS, then takes over the identifier and the timers. */
    method DecodeOpenMessage(c: Config, buffer: seq<Octet>, now: int)
      requires |buffer| >= OPEN_SIZE
      modifies this
      ensures State() == AfterOpen(c, old(State()), buffer, now)
    {
      hide Frame, Word;
      var version := buffer[0];
      var asn := Big16(buffer[1], buffer[2]);
      var hold: Word16 := buffer[4] as int + buffer[3] as int;
      var id := Word(buffer[5..9]);
      if version != c.open.version {
        Notification(2, 1, now);
        state := Idle;
        Disconnect();
        return;
      }
      if asn != c.peerAs {
        Notification(2, 2, now);
        state := Idle;
        Disconnect();
        return;
      }
      bgpId := id;
      holdTime := hold;
      keepAlive := hold;
      keepAlive := keepAlive / 3;
      state := OpenConfirm;
      var n := SendPacket([], KEEPALIVE, now);
    }

    /** The body of the reader loop for one complete message; ok is false when a copy overruns. */
    method ReceiveMessage(c: Config, kind: Octet, buffer: seq<Octet>, length: nat, now: int) returns (ok: bool)
      requires |buffer| >= HEADER && length <= |buffer|
      modifies this
      ensures ok == !(Overruns(Receive(kind, buffer, length)) || Textless(Receive(kind, buffer, length)))
      ensures ok ==> State() == AfterReceive(c, old(State()), kind, buffer, length, now)
    {
      hide AfterOpen, AfterKeepalive;
      lastRead := now;
      ok := true;
      if kind == OPEN {
        DecodeOpenMessage(c, buffer, now);
      } else if kind == KEEPALIVE {
        ReceiveKeepalive(now);
      } else if kind == UPDATE {
        ok := QueueUpdate(buffer, length);
      } else if kind == NOTIFICATION {
        ok := DecodeNotification(buffer[0], buffer[1]);
      }
    }

    /** Logs a NOTIFICATION by its texts; false when the subcode of the error has none. */
    method DecodeNotification(code: Octet, subcode: Octet) returns (ok: bool)
      ensures ok == !HasNoText(code, subcode)
    {
      ok := true;
      if code == 1 {
        ok := 1 <= subcode <= 3;
      } else if code == 2 {
        ok := 1 <= subcode <= 7 && subcode != 5;
      } else if code == 3 {
        ok := 1 <= subcode <= 11;
      }
    }

    /** A KEEPALIVE establishes the session once the OPEN is confirmed, and is answered. */
    method ReceiveKeepalive(now: int)
      modifies this`state, this`tx, this`sent, this`lastKeepaliveTx
      ensures State() == AfterKeepalive(old(State()), now)
    {
      hide Send;
      if state == OpenConfirm {
        state := Established;
      }
      var n := SendPacket([], KEEPALIVE, now);
    }

    /** Copies an UPDATE into a queue element; false when it overruns the packet buffer. */
    method QueueUpdate(buffer: seq<Octet>, length: nat) returns (ok: bool)
      requires length <= |buffer|
      modifies this`updatesRx, this`inQueue, this`inQ
      ensures ok == (length <= MAX_PACKET)
      ensures ok ==> State() == old(State()).(updatesRx := old(updatesRx) + 1,
                                              inQueue := old(inQueue) + [buffer[..length]],
                                              inQ := (old(inQ) as int + 1) % 0x1_0000)
    {
      updatesRx := updatesRx + 1;
      ok := length <= MAX_PACKET;
      if ok {
        inQueue := inQueue + [buffer[..length]];
        inQ := (inQ as int + 1) % 0x1_0000;
      }
    }

    /** Checks the hold time and sends KEEPALIVEs; true when the queue must not be processed. */
    method HoldTimerExpired(now: int) returns (expired: bool)
      modifies this`state, this`connected, this`tx, this`sent, this`lastKeepaliveTx
      ensures expired == (old(state) != Established || now - lastRead >= holdTime)
      ensures var s := old(State());
              State() == if s.state != Established then s
                         else if expired then Drop(Notify(s, 4, 0, now))
                         else if now - s.lastKeepaliveTx >= s.keepAlive then Send(s, KEEPALIVE_MSG, now)
                         else s
    {
      hide Frame;
      if state != Established {
        return true;
      }
      if now - lastRead >= holdTime {
        Notification(4, 0, now);
        state := Idle;
        Disconnect();
        return true;
      }
      if now - lastKeepaliveTx >= keepAlive {
        var n := SendPacket([], KEEPALIVE, now);
      }
      expired := false;
    }

    /** Takes the next UPDATE off the queue; the counter is decremented, modulo 2^16. */
    method PopUpdate() returns (packet: seq<Octet>)
      requires inQueue != []
      modifies this`inQueue, this`inQ, this`parsed
      ensures packet == old(inQueue)[0]
      ensures State() == old(State()).(inQueue := old(inQueue)[1..], inQ := (old(inQ) as int - 1) % 0x1_0000,
                                       parsed := old(parsed) + 1)
    {
      packet := inQueue[0];
      inQueue := inQueue[1..];
      inQ := (inQ as int - 1) % 0x1_0000;
      parsed := parsed + 1;
    }

    /** The stream is at its end: from now on there is no connection, for reading or for writing. */
    method ReadEnds()
      requires phase == Reading
      modifies this`connected
      ensures forall c: Config, now: int :: State() == After(c, old(State()), Timed(now, Eof))
    {
      connected := false;
    }

    /** The test of the reader loop: true when it goes on reading. */
    method KeepsReading() returns (more: bool)
      requires phase == Reading
      modifies this`phase
      ensures more == !Possible(old(State()), EndReading)
      ensures more ==> State() == old(State())
      ensures !more ==> forall c: Config, now: int :: State() == After(c, old(State()), Timed(now, EndReading))
    {
      more := connected && state != Idle;
      if !more {
        phase := Closing;
      }
    }

    /** The end of peer_established: the queue is emptied without touching its counter. */
    method EndSession()
      requires phase == Closing
      modifies this`connected, this`inQueue, this`discarded, this`phase
      ensures forall c: Config, now: int :: State() == After(c, old(State()), Timed(now, Discard))
      ensures State() == old(State()).(connected := false, phase := Starting,
                                       discarded := old(discarded) + |old(inQueue)|, inQueue := [])
    {
      Disconnect();
      while inQueue != []
        invariant discarded + |inQueue| == old(discarded) + |old(inQueue)|
        invariant State() == old(State()).(connected := false, discarded := discarded, inQueue := inQueue)
        decreases |inQueue|
      {
        inQueue := inQueue[1..];
        discarded := discarded + 1;
      }
      phase := Starting;
    }
  }
}
