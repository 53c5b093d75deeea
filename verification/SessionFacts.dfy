/** What becomes of single packets: which ones have parsers, and what a callback does with a whole frame. */
module SessionFacts {
  import opened Basics
  import opened WireCodec
  import opened WireBytes
  import opened StreamReassembly
  import opened PacketBodies
  import opened PacketLayout
  import opened ClientSession

  /** The packets that a client may send, by the state it is in and their id; the parsers of status request
      and ping always succeed. */
  lemma Registered(state: int, m: Msg)
    ensures ParserOf(state, m) == Unknown <==>
      !((state == 0 && m.id == 0) || (state == 1 && (m.id == 0 || m.id == 1)) ||
        (state == 2 && (m.id == 0 || m.id == 1)) || (state == 3 && (m.id == 0 || m.id == 1)))
    ensures state == 1 && (m.id == 0 || m.id == 1) ==> ParserOf(state, m) == Parsed
  {
    hide ParseHandshake, ParseLoginStart, ParseEncryption, ParseKeepAlive, ParseChat;
  }

  /** A status request or a ping, whatever its payload, is handled, and the client is read again unless the
      handling disconnected it. */
  lemma StatusIsHandled(s: Session, id: int32, payload: seq<byte>, handling: Handling)
    requires s.status == Reading && s.receiver.buffer == [] && CanFrame(Msg(id, payload))
    requires id == 0 || id == 1
    ensures Callback(s, FrameOf(Msg(id, payload)), 1, handling) ==
      Session(Receiver([], s.receiver.delivered + [Msg(id, payload)]), s.handled + [Msg(id, payload)],
              if handling == Completes then Reading else Dead)
  {
    FrameTakenOff(s, Msg(id, payload), 1, handling);
    Registered(1, Msg(id, payload));
    hide ParserOf;
  }

  /** The frame of a status request is the two bytes 1 and 0. */
  lemma StatusRequestBytes()
    ensures CanFrame(Msg(0, [])) && FrameOf(Msg(0, [])) == [1, 0]
  {
    assert VarInt(0) == [0] && VarInt(1) == [1];
  }

  /** A packet that has no parser in the state of the client is skipped, and the client is read again. */
  lemma UnknownIsSkipped(s: Session, m: Msg, state: int, handling: Handling)
    requires s.status == Reading && s.receiver.buffer == [] && CanFrame(m)
    requires !((state == 0 && m.id == 0) || (1 <= state <= 3 && (m.id == 0 || m.id == 1)))
    ensures Callback(s, FrameOf(m), state, handling) ==
      Session(Receiver([], s.receiver.delivered + [m]), s.handled, Reading)
  {
    FrameTakenOff(s, m, state, handling);
    Registered(state, m);
    hide ParserOf;
  }

  /** A login with any name, an answer to an encryption request, a keep-alive, a chat message and a handshake,
      as their senders lay them out, are handled in the states that they belong to. */
  lemma WellFormedIsHandled(s: Session, m: Msg, state: int, handling: Handling, a: seq<byte>, b: seq<byte>,
                            n: int32, k: int32, low: byte, high: byte)
    requires s.status == Reading && s.receiver.buffer == [] && CanFrame(m) && Fits(a) && Fits(b)
    requires
      || (state == 0 && m == Msg(0, VarInt(ToUnsigned(n)) + (StringBytes(a) + ([low, high] + VarInt(ToUnsigned(k))))))
      || (state == 2 && m == Msg(0, StringBytes(a)))
      || (state == 2 && m == Msg(1, StringBytes(a) + StringBytes(b)))
      || (state == 3 && m == Msg(0, VarInt(ToUnsigned(n))))
      || (state == 3 && m == Msg(1, StringBytes(a)))
    ensures Callback(s, FrameOf(m), state, handling) ==
      Session(Receiver([], s.receiver.delivered + [m]), s.handled + [m],
              if handling == Completes then Reading else Dead)
  {
    FrameTakenOff(s, m, state, handling);
    WellFormedIsParsed(m, state, a, b, n, k, low, high);
    hide ParserOf, StringBytes;
  }

  lemma WellFormedIsParsed(m: Msg, state: int, a: seq<byte>, b: seq<byte>, n: int32, k: int32, low: byte, high: byte)
    requires Fits(a) && Fits(b)
    requires
      || (state == 0 && m == Msg(0, VarInt(ToUnsigned(n)) + (StringBytes(a) + ([low, high] + VarInt(ToUnsigned(k))))))
      || (state == 2 && m == Msg(0, StringBytes(a)))
      || (state == 2 && m == Msg(1, StringBytes(a) + StringBytes(b)))
      || (state == 3 && m == Msg(0, VarInt(ToUnsigned(n))))
      || (state == 3 && m == Msg(1, StringBytes(a)))
    ensures ParserOf(state, m) == Parsed
  {
    if state == 0 {
      HandshakeIsRead(n, a, low, high, k);
    } else if state == 2 && m.id == 0 {
      StringIsThere(|a|, a);
    } else if state == 2 {
      EncryptionIsRead(a, b, []);
      assert StringBytes(b) + [] == StringBytes(b);
    } else if m.id == 0 {
      KeepAliveRoundTrip(0, n);
    } else {
      StringIsThere(|a|, a);
    }
    hide ParseHandshake, ParseLoginStart, ParseEncryption, ParseKeepAlive, ParseChat;
  }

  /** An overlong length leaves the client alive and unread, with the bytes still in the buffer. */
  lemma OverlongLengthHalts(s: Session, data: seq<byte>, state: int, handling: Handling)
    requires s.status == Reading && IsOverlong(s.receiver.buffer + data)
    ensures Callback(s, data, state, handling) ==
      Session(Receiver(s.receiver.buffer + data, s.receiver.delivered), s.handled, Halted)
  {
    OverlongThrows(s.receiver.buffer + data);
    hide OnBytes, IsOverlong;
  }

  /** An empty frame is passed over, and bytes that make no frame yet are kept. */
  lemma NoPacket(s: Session, data: seq<byte>, state: int, handling: Handling)
    requires s.status == Reading
    ensures s.receiver.buffer + data == [0] ==>
      Callback(s, data, state, handling) == Session(Receiver([], s.receiver.delivered), s.handled, Reading)
    ensures OnBytes(s.receiver.buffer + data) == Waits ==>
      Callback(s, data, state, handling) ==
        Session(Receiver(s.receiver.buffer + data, s.receiver.delivered), s.handled, Reading)
  {
    EmptyFrame([]);
    assert [0] + [] == [0];
    hide OnBytes;
  }
}
