/** The receive path of a client as far as the bytes go: how Client::onLengthReceive of
    Client Gateway/Client.cpp, in plain text and without compression, and the consuming constructor of
    MCPacket/Packet.cpp take packets off the stream.  What becomes of the packets is in ClientSession. */
module StreamReassembly {
  import opened Basics
  import opened WireCodec

  /** A packet as it is taken off the stream. */
  datatype Msg = Msg(id: int32, payload: seq<byte>)

  /** What one callback does with the bytes it finds: nothing yet; a packet taken off, leaving the rest; a
      frame of an empty buffer; an exception; or behaviour that C++ leaves undefined. */
  datatype Step =
    | Waits
    | Takes(msg: Msg, rest: seq<byte>)
    | TakesNothing(rest: seq<byte>)
    | Throws(rest: seq<byte>)
    | Undefined

  /** parsePacket on the bytes after a frame's length.  The length is a size_t. */
  function Parse(length: nat, bytes: seq<byte>): Step {
    if bytes == [] then TakesNothing([])
    else
      match ReadVarInt(bytes)
      case TooBig => Throws(bytes)
      case Incomplete(partial) =>
        if length <= |bytes| then Takes(Msg(partial, bytes[..length]), bytes[length..]) else Undefined
      case Read(id, idSize) =>
        if idSize <= length <= |bytes| then Takes(Msg(id, bytes[idSize..length]), bytes[length..]) else Undefined
  }

  /** What a callback does once it has appended its data.  The comparison is made on size_t, so that a
      negative length wraps around. */
  function OnBytes(bytes: seq<byte>): Step {
    match ReadVarInt(bytes)
    case TooBig => Throws(bytes)
    case Incomplete(_) => Waits
    case Read(length, size) =>
      ReadIsTight(bytes);
      if |bytes| >= (length + size) % TWO_TO_THE_64 then
        Parse(length % TWO_TO_THE_64, bytes[size..])
      else Waits
  }

  // ----- a stream of packets -----

  /** A packet that framePacket accepts. */
  predicate CanFrame(m: Msg) {
    |Body(m.id, m.payload)| < TWO_TO_THE_21
  }

  function FrameOf(m: Msg): seq<byte>
    requires CanFrame(m)
  {
    Frame(Body(m.id, m.payload))
  }

  predicate AllCanFrame(msgs: seq<Msg>) {
    forall i :: 0 <= i < |msgs| ==> CanFrame(msgs[i])
  }

  /** The bytes that carry a list of packets. */
  function Stream(msgs: seq<Msg>): seq<byte>
    requires AllCanFrame(msgs)
  {
    if msgs == [] then [] else FrameOf(msgs[0]) + Stream(msgs[1..])
  }

  lemma TakesBody(m: Msg, more: seq<byte>)
    ensures var body := Body(m.id, m.payload); Parse(|body|, body + more) == Takes(m, more)
  {
    var head, body := VarInt(ToUnsigned(m.id)), Body(m.id, m.payload);
    assert body + more == head + (m.payload + more);
    ReadInvertsWrite(ToUnsigned(m.id), m.payload + more);
    hide VarInt, ReadVarInt;
    assert (body + more)[|head|..|body|] == m.payload;
    assert (body + more)[|body|..] == more;
  }

  /** Length first: with the length there, the callback looks whether the body is. */
  lemma LengthRead(length: uint32, tail: seq<byte>)
    requires length < TWO_TO_THE_21
    ensures OnBytes(VarInt(length) + tail) == if |tail| >= length then Parse(length, tail) else Waits
  {
    var head := VarInt(length);
    ReadInvertsWrite(length, tail);
    hide VarInt, ReadVarInt, Parse;
    assert (head + tail)[|head|..] == tail;
  }

  lemma LengthMissing(length: uint32, bytes: seq<byte>)
    requires bytes < VarInt(length)
    ensures OnBytes(bytes) == Waits
  {
    CutShort(length, |bytes|, 0, 0);
    assert bytes == VarInt(length)[..|bytes|];
  }

  /** On any initial part of a stream of packets, a callback takes off the first packet if all of its
      frame is there, and waits if not. */
  lemma TakesFirstFrame(msgs: seq<Msg>, bytes: seq<byte>)
    requires AllCanFrame(msgs) && bytes <= Stream(msgs)
    ensures OnBytes(bytes) ==
      if msgs != [] && FrameOf(msgs[0]) <= bytes then Takes(msgs[0], bytes[|FrameOf(msgs[0])|..]) else Waits
  {
    if msgs == [] {
      assert ReadVarInt([]) == Incomplete(0);
    } else {
      TakesFrame(msgs[0], Stream(msgs[1..]), bytes);
    }
  }

  lemma TakesFrame(m: Msg, later: seq<byte>, bytes: seq<byte>)
    requires CanFrame(m) && bytes <= FrameOf(m) + later
    ensures OnBytes(bytes) == if FrameOf(m) <= bytes then Takes(m, bytes[|FrameOf(m)|..]) else Waits
  {
    var body := Body(m.id, m.payload);
    var head := VarInt(|body|);
    var whole := FrameOf(m) + later;
    hide VarInt, ReadVarInt, OnBytes, Parse, Body;
    assert whole == head + (body + later);
    if |bytes| < |head| {
      assert bytes < head;
      LengthMissing(|body|, bytes);
    } else {
      var tail := bytes[|head|..];
      assert bytes == head + tail;
      LengthRead(|body|, tail);
      assert tail <= body + later by {
        assert whole[|head|..] == body + later;
      }
      if |tail| >= |body| {
        var more := tail[|body|..];
        assert tail == body + more;
        TakesBody(m, more);
        assert bytes == FrameOf(m) + more;
      }
    }
  }

  // ----- whole runs -----

  /** What the callbacks have made of the bytes so far: the contents of the buffer and the packets taken
      off, as OnLengthReceive leaves them while the client stays alive. */
  datatype Receiver = Receiver(buffer: seq<byte>, delivered: seq<Msg>)

  function AfterCallback(r: Receiver, data: seq<byte>): Receiver {
    match OnBytes(r.buffer + data)
    case Waits => Receiver(r.buffer + data, r.delivered)
    case Takes(msg, rest) => Receiver(rest, r.delivered + [msg])
    case TakesNothing(rest) => Receiver(rest, r.delivered)
    case Throws(rest) => Receiver(rest, r.delivered)
    case Undefined => r
  }

  function AfterAll(chunks: seq<seq<byte>>): Receiver {
    if chunks == [] then Receiver([], [])
    else AfterCallback(AfterAll(chunks[..|chunks| - 1]), chunks[|chunks| - 1])
  }

  lemma AfterOneMore(chunks: seq<seq<byte>>, i: nat)
    requires i < |chunks|
    ensures AfterAll(chunks[..i + 1]) == AfterCallback(AfterAll(chunks[..i]), chunks[i])
  {
    assert chunks[..i + 1][..i] == chunks[..i];
  }

  function Concat(chunks: seq<seq<byte>>): seq<byte> {
    if chunks == [] then [] else Concat(chunks[..|chunks| - 1]) + chunks[|chunks| - 1]
  }

  /** How many frames of a stream are there in full. */
  function Complete(msgs: seq<Msg>, bytes: seq<byte>): (n: nat)
    requires AllCanFrame(msgs)
    ensures n <= |msgs|
  {
    if msgs != [] && FrameOf(msgs[0]) <= bytes then 1 + Complete(msgs[1..], bytes[|FrameOf(msgs[0])|..]) else 0
  }

  /** The state of the receiver when d packets of a stream were delivered: they are the first d packets,
      their frames and the buffer are all the bytes received. */
  ghost predicate InStep(msgs: seq<Msg>, received: seq<byte>, r: Receiver)
    requires AllCanFrame(msgs)
  {
    var d := |r.delivered|;
    && d <= |msgs| && r.delivered == msgs[..d]
    && received == Stream(msgs[..d]) + r.buffer
    && r.buffer <= Stream(msgs[d..])
  }

  lemma {:induction false} StreamSplit(msgs: seq<Msg>, d: nat)
    requires AllCanFrame(msgs) && d <= |msgs|
    ensures Stream(msgs) == Stream(msgs[..d]) + Stream(msgs[d..])
  {
    if d == 0 {
      assert msgs[0..] == msgs;
    } else {
      StreamSplit(msgs[1..], d - 1);
      assert msgs[1..][..d - 1] == msgs[..d][1..] && msgs[1..][d - 1..] == msgs[d..];
      hide FrameOf;
      assert Stream(msgs[..d]) == FrameOf(msgs[0]) + Stream(msgs[..d][1..]);
    }
  }

  lemma {:induction false} CompleteSplit(msgs: seq<Msg>, d: nat, more: seq<byte>)
    requires AllCanFrame(msgs) && d <= |msgs|
    ensures Complete(msgs, Stream(msgs[..d]) + more) == d + Complete(msgs[d..], more)
  {
    if d == 0 {
      assert msgs[0..] == msgs && Stream(msgs[..0]) + more == more;
    } else {
      var frame, bytes := FrameOf(msgs[0]), Stream(msgs[..d]) + more;
      hide FrameOf;
      assert msgs[..d][1..] == msgs[1..][..d - 1] && msgs[1..][d - 1..] == msgs[d..];
      ConcatAssociates(frame, Stream(msgs[1..][..d - 1]), more);
      assert bytes[|frame|..] == Stream(msgs[1..][..d - 1]) + more;
      CompleteSplit(msgs[1..], d - 1, more);
    }
  }

  function Min(a: int, b: int): int {
    if a <= b then a else b
  }

  lemma CallbackKeepsStep(msgs: seq<Msg>, received: seq<byte>, r: Receiver, data: seq<byte>)
    requires AllCanFrame(msgs) && received + data <= Stream(msgs)
    requires InStep(msgs, received, r)
    ensures var r' := AfterCallback(r, data);
      && InStep(msgs, received + data, r')
      && |r'.delivered| == Min(|r.delivered| + 1, Complete(msgs, received + data))
    ensures OnBytes(r.buffer + data).Waits? || OnBytes(r.buffer + data).Takes?
  {
    hide FrameOf, OnBytes, Complete, Stream;
    var d, bytes := |r.delivered|, r.buffer + data;
    StreamSplit(msgs, d);
    CompleteSplit(msgs, d, bytes);
    assert received + data == Stream(msgs[..d]) + bytes;
    RestOfPrefix(Stream(msgs[..d]), bytes, Stream(msgs[d..]));
    TakesFirstFrame(msgs[d..], bytes);
    if d < |msgs| && FrameOf(msgs[d]) <= bytes {
      FrameTaken(msgs, d, bytes);
      StepTakes(msgs, received + data, Receiver(bytes[|FrameOf(msgs[d])|..], r.delivered + [msgs[d]]), d);
    } else {
      NoFrame(msgs[d..], bytes);
      StepWaits(msgs, received + data, Receiver(bytes, r.delivered), d);
    }
  }

  lemma StepTakes(msgs: seq<Msg>, received: seq<byte>, r: Receiver, d: nat)
    requires AllCanFrame(msgs) && d < |msgs| && r.delivered == msgs[..d] + [msgs[d]]
    requires r.buffer <= Stream(msgs[d + 1..]) && received == Stream(msgs[..d + 1]) + r.buffer
    ensures InStep(msgs, received, r) && |r.delivered| == d + 1
  {
    hide Stream;
    assert r.delivered == msgs[..d + 1];
  }

  lemma StepWaits(msgs: seq<Msg>, received: seq<byte>, r: Receiver, d: nat)
    requires AllCanFrame(msgs) && d <= |msgs| && r.delivered == msgs[..d]
    requires r.buffer <= Stream(msgs[d..]) && received == Stream(msgs[..d]) + r.buffer
    ensures InStep(msgs, received, r) && |r.delivered| == d
  {
    hide Stream;
  }

  lemma RestOfPrefix(a: seq<byte>, b: seq<byte>, c: seq<byte>)
    requires a + b <= a + c
    ensures b <= c
  {
    assert (a + b)[|a|..] == b && (a + c)[|a|..] == c;
  }

  lemma NoFrame(msgs: seq<Msg>, bytes: seq<byte>)
    requires AllCanFrame(msgs) && (msgs == [] || !(FrameOf(msgs[0]) <= bytes))
    ensures Complete(msgs, bytes) == 0
  {
  }

  lemma FrameTaken(msgs: seq<Msg>, d: nat, bytes: seq<byte>)
    requires AllCanFrame(msgs) && d < |msgs| && bytes <= Stream(msgs[d..]) && FrameOf(msgs[d]) <= bytes
    ensures var rest := bytes[|FrameOf(msgs[d])|..];
      && msgs[..d] + [msgs[d]] == msgs[..d + 1]
      && rest <= Stream(msgs[d + 1..])
      && Stream(msgs[..d]) + bytes == Stream(msgs[..d + 1]) + rest
      && Complete(msgs[d..], bytes) >= 1
  {
    var frame := FrameOf(msgs[d]);
    var rest := bytes[|frame|..];
    assert bytes == frame + rest;
    assert msgs[d..][1..] == msgs[d + 1..];
    StreamSplit(msgs[..d + 1], d);
    assert msgs[..d + 1][..d] == msgs[..d] && msgs[..d + 1][d..] == [msgs[d]];
    assert Stream([msgs[d]]) == frame by {
      assert [msgs[d]][1..] == [];
      assert frame + [] == frame;
    }
    hide FrameOf;
    assert Stream(msgs[d..]) == frame + Stream(msgs[d + 1..]);
    RestOfPrefix(frame, rest, Stream(msgs[d + 1..]));
    assert Stream(msgs[..d]) + (frame + rest) == (Stream(msgs[..d]) + frame) + rest;
  }

  /** The number of frames received in full after the first j callbacks. */
  function CompleteAfter(msgs: seq<Msg>, chunks: seq<seq<byte>>, j: nat): nat
    requires AllCanFrame(msgs) && j <= |chunks|
  {
    Complete(msgs, Concat(chunks[..j]))
  }

  /** Reassembly.  However the bytes of a stream of packets are cut into callbacks, after each of them the
      packets delivered are the first ones sent, in order; what they took and what is in the buffer are
      the bytes received; one more packet is delivered than before if its frame is there, and never two;
      and no callback finds a malformed frame. */
  lemma {:induction false} Reassembles(msgs: seq<Msg>, chunks: seq<seq<byte>>, n: nat)
    requires AllCanFrame(msgs) && Concat(chunks) <= Stream(msgs) && n <= |chunks|
    ensures InStep(msgs, Concat(chunks[..n]), AfterAll(chunks[..n]))
    ensures n == 0 ==> AfterAll(chunks[..n]) == Receiver([], [])
    ensures n > 0 ==>
      var before, data := AfterAll(chunks[..n - 1]), chunks[n - 1];
      && |AfterAll(chunks[..n]).delivered| == Min(|before.delivered| + 1, CompleteAfter(msgs, chunks, n))
      && (OnBytes(before.buffer + data).Waits? || OnBytes(before.buffer + data).Takes?)
  {
    if n == 0 {
      assert msgs[0..] == msgs && Stream(msgs[..0]) + [] == [];
    } else {
      hide InStep, Stream, OnBytes, Complete, Concat, AfterAll, AfterCallback;
      Reassembles(msgs, chunks, n - 1);
      ConcatGrows(chunks, n);
      PrefixOf(Concat(chunks[..n]), Concat(chunks), Stream(msgs));
      CallbackKeepsStep(msgs, Concat(chunks[..n - 1]), AfterAll(chunks[..n - 1]), chunks[n - 1]);
      AfterOneMore(chunks, n - 1);
    }
  }

  lemma PrefixOf(a: seq<byte>, b: seq<byte>, c: seq<byte>)
    requires a <= b <= c
    ensures a <= c
  {
  }

  lemma {:induction false} ConcatGrows(chunks: seq<seq<byte>>, n: nat)
    requires n <= |chunks|
    ensures n > 0 ==> Concat(chunks[..n]) == Concat(chunks[..n - 1]) + chunks[n - 1]
    ensures Concat(chunks[..n]) <= Concat(chunks)
    decreases |chunks| - n
  {
    if n > 0 {
      assert chunks[..n][..n - 1] == chunks[..n - 1];
    }
    if n == |chunks| {
      assert chunks[..n] == chunks;
    } else {
      ConcatGrows(chunks, n + 1);
    }
  }

  /** The receiver keeps up exactly when, over every stretch of callbacks up to now, no more frames were
      completed than there were callbacks in it: a callback delivers at most one packet, so a burst of
      frames stays in the buffer until later bytes arrive. */
  lemma KeepsUpIff(msgs: seq<Msg>, chunks: seq<seq<byte>>, n: nat)
    requires AllCanFrame(msgs) && Concat(chunks) <= Stream(msgs) && n <= |chunks|
    ensures |AfterAll(chunks[..n]).delivered| == CompleteAfter(msgs, chunks, n) <==>
      forall j :: 0 <= j <= n ==> CompleteAfter(msgs, chunks, n) <= CompleteAfter(msgs, chunks, j) + (n - j)
  {
    hide AfterAll, CompleteAfter;
    var k := LastCaughtUp(msgs, chunks, n);
    forall j | 0 <= j <= n
      ensures |AfterAll(chunks[..n]).delivered| <= CompleteAfter(msgs, chunks, j) + (n - j)
    {
      OnePerCallback(msgs, chunks, j, n);
    }
  }

  /** There was a moment when everything complete had been delivered, and one packet a callback since. */
  lemma {:induction false} LastCaughtUp(msgs: seq<Msg>, chunks: seq<seq<byte>>, n: nat) returns (k: nat)
    requires AllCanFrame(msgs) && Concat(chunks) <= Stream(msgs) && n <= |chunks|
    ensures k <= n
    ensures |AfterAll(chunks[..n]).delivered| == CompleteAfter(msgs, chunks, k) + (n - k)
  {
    hide AfterAll, InStep, Complete, Stream, OnBytes;
    Reassembles(msgs, chunks, n);
    if n == 0 {
      k := 0;
      assert Concat(chunks[..0]) == [];
      NothingComplete(msgs);
    } else if |AfterAll(chunks[..n]).delivered| == CompleteAfter(msgs, chunks, n) {
      k := n;
    } else {
      k := LastCaughtUp(msgs, chunks, n - 1);
    }
  }

  lemma NothingComplete(msgs: seq<Msg>)
    requires AllCanFrame(msgs)
    ensures Complete(msgs, []) == 0
  {
  }

  lemma {:induction false} OnePerCallback(msgs: seq<Msg>, chunks: seq<seq<byte>>, j: nat, n: nat)
    requires AllCanFrame(msgs) && Concat(chunks) <= Stream(msgs) && j <= n <= |chunks|
    ensures |AfterAll(chunks[..n]).delivered| <= CompleteAfter(msgs, chunks, j) + (n - j)
    decreases n
  {
    hide AfterAll, InStep, Complete, Stream, OnBytes;
    Reassembles(msgs, chunks, n);
    if j < n {
      OnePerCallback(msgs, chunks, j, n - 1);
    } else if n == 0 {
      assert Concat(chunks[..0]) == [];
      NothingComplete(msgs);
    }
  }
}
