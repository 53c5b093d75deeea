/** A client from the first byte it sends to the last one that is read: Client::onLengthReceive of
    Client Gateway/Client.cpp with the packet parsers it runs.

    The parser of a packet runs inside the callback but outside its try block, so that an exception of a
    parser leaves the callback before the next read is started.  The worker thread swallows it
    (Client Gateway/LoginServer.cpp): the client stays alive and is never read again. */
module ClientSession {
  import opened Basics
  import opened WireCodec
  import opened StreamReassembly
  import opened PacketBodies

  // ----- the registered parsers -----

  /** The values of ClientState.  A handshake can set others, which have no packets. */
  const HANDSHAKE: int := 0
  const STATUS: int := 1
  const LOGIN: int := 2
  const PLAY: int := 3

  /** How the parser registered for a packet ends: with a packet; there is none; with an exception; or in
      behaviour that C++ leaves undefined. */
  datatype ParserEnd = Parsed | Unknown | ParserThrows | ParserStrays

  function End<T>(r: Result<T>): ParserEnd {
    match r
    case Thrown => ParserThrows
    case Undefined => ParserStrays
    case Fields(_) => Parsed
  }

  /** The parser of a packet that comes from a client in the given state.  Those of the status request and
      of ping read no length and always succeed. */
  function ParserOf(state: int, m: Msg): ParserEnd {
    if state == HANDSHAKE && m.id == 0 then End(ParseHandshake(m.payload))
    else if state == STATUS && (m.id == 0 || m.id == 1) then Parsed
    else if state == LOGIN && m.id == 0 then End(ParseLoginStart(m.payload))
    else if state == LOGIN && m.id == 1 then End(ParseEncryption(m.payload))
    else if state == PLAY && m.id == 0 then End(ParseKeepAlive(m.payload))
    else if state == PLAY && m.id == 1 then End(ParseChat(m.payload))
    else Unknown
  }

  // ----- the callback on values -----

  /** How receivedMessage ends: it returns; it returns after disconnecting a client whose owner is gone; or
      it raises an exception, which the callback catches, disconnecting the client. */
  datatype Handling = Completes | Disconnects | Raises

  /** Whether the client is read again: yes; no, though it is alive; no, as it is disconnected; or the
      behaviour is undefined. */
  datatype Status = Reading | Halted | Dead | Strayed

  /** The packets given to receivedMessage are those in `handled`. */
  datatype Session = Session(receiver: Receiver, handled: seq<Msg>, status: Status)

  const Connected := Session(Receiver([], []), [], Reading)

  function StatusAfter(state: int, handling: Handling, m: Msg): Status {
    match ParserOf(state, m)
    case ParserThrows => Halted
    case ParserStrays => Strayed
    case Unknown => Reading
    case Parsed => if handling == Completes then Reading else Dead
  }

  /** One callback of a client that is being read, in the given state; `handling` tells how the packet, if
      there is one, will be handled. */
  function Callback(s: Session, data: seq<byte>, state: int, handling: Handling): Session {
    var r := AfterCallback(s.receiver, data);
    match OnBytes(s.receiver.buffer + data)
    case Waits => s.(receiver := r)
    case TakesNothing(_) => s.(receiver := r)
    case Throws(_) => s.(receiver := r, status := Halted)
    case Undefined => s.(status := Strayed)
    case Takes(msg, _) =>
      Session(r, if ParserOf(state, msg) == Parsed then s.handled + [msg] else s.handled,
              StatusAfter(state, handling, msg))
  }

  /** An exception leaves the callback after which the client has the given status: that of a parser, or
      that of the owner, told in the catch block that the client was disconnected. */
  predicate Escapes(status: Status, handling: Handling, ownerThrows: bool) {
    status == Halted || (status == Dead && handling == Raises && ownerThrows)
  }

  // ----- the client -----

  class Client {
    var alive: bool
    /** Whether a read is pending. */
    var reading: bool
    const buffer: Buffer
    /** The packets taken off the stream so far, and those of them that were handled. */
    var delivered: seq<Msg>
    var handled: seq<Msg>

    constructor ()
      ensures fresh(buffer) && alive && reading && View() == Connected
    {
      alive, reading, delivered, handled := true, true, [], [];
      buffer := new Buffer([]);
    }

    function View(): Session
      reads this, buffer
    {
      Session(Receiver(buffer.bytes, delivered), handled, if !alive then Dead else if reading then Reading else Halted)
    }

    /** The consuming constructor of Packet, called by parsePacket on a buffer that is not empty.  It is
        defined when the length covers the id and the bytes are there. */
    method TakePacket(length: nat) returns (thrown: bool, msg: Msg)
      requires Parse(length, buffer.bytes) != Step.Undefined && buffer.bytes != []
      modifies buffer
      ensures thrown <==> Parse(length, old(buffer.bytes)).Throws?
      ensures !thrown ==> Parse(length, old(buffer.bytes)) == Takes(msg, buffer.bytes)
      ensures thrown ==> buffer.bytes == old(buffer.bytes)
    {
      var r := buffer.ReadVarIntFromBuffer(false);
      match r
      case TooBig =>
        thrown, msg := true, Msg(0, []);
      case Incomplete(partial) =>
        thrown, msg := false, Msg(partial, buffer.bytes[..length]);
        buffer.bytes := buffer.bytes[length..];
      case Read(id, idSize) =>
        thrown, msg := false, Msg(id, buffer.bytes[idSize..length]);
        buffer.bytes := buffer.bytes[length..];
    }

    /** disconnect.  `ownerThrows` tells whether the owner, which is told of it after the socket was closed,
        raises an exception. */
    method Disconnect(ownerThrows: bool) returns (thrown: bool)
      modifies this`alive
      ensures !alive && (thrown <==> old(alive) && ownerThrows)
    {
      if !alive {
        return false;
      }
      alive := false;
      thrown := ownerThrows;
    }

    /** parsePacket, then receivedMessage for a packet that was parsed.  `stop` tells that the callback
        ends without starting another read. */
    method ParseAndHandle(length: nat, state: int, handling: Handling, ownerThrows: bool)
      returns (thrown: bool, stop: bool)
      requires alive && Parse(length, buffer.bytes) != Step.Undefined
      requires Parse(length, buffer.bytes).Takes? ==>
        ParserOf(state, Parse(length, buffer.bytes).msg) != ParserStrays
      modifies this, buffer
      ensures (thrown ==> stop) && reading == old(reading)
      ensures match Parse(length, old(buffer.bytes))
        case TakesNothing(rest) =>
          alive && !stop && buffer.bytes == rest && delivered == old(delivered) && handled == old(handled)
        case Throws(rest) =>
          alive && thrown && buffer.bytes == rest && delivered == old(delivered) && handled == old(handled)
        case Takes(msg, rest) =>
          && buffer.bytes == rest && delivered == old(delivered) + [msg]
          && handled == (if ParserOf(state, msg) == Parsed then old(handled) + [msg] else old(handled))
          && (thrown <==> ParserOf(state, msg) == ParserThrows
                          || (ParserOf(state, msg) == Parsed && handling == Raises && ownerThrows))
          && (alive <==> (ParserOf(state, msg) == Parsed ==> handling == Completes))
          && (stop <==> thrown || (ParserOf(state, msg) == Parsed && handling == Raises))
        case _ => false
    {
      thrown, stop := false, false;
      if buffer.bytes == [] {
        return;
      }
      var msg;
      thrown, msg := TakePacket(length);
      if thrown {
        return true, true;
      }
      delivered := delivered + [msg];
      match ParserOf(state, msg)
      case ParserThrows =>
        return true, true;
      case Unknown =>
      case Parsed =>
        handled := handled + [msg];
        match handling
        case Completes =>
        case Disconnects =>
          alive := false;
        case Raises =>
          thrown := Disconnect(ownerThrows);
          stop := true;
    }

    /** onLengthReceive, which runs when a read is over.  `error` tells that the read failed, `state` is
        the state the client is in, `handling` tells how the packet will be handled, and `ownerThrows`
        whether the owner raises an exception if the callback disconnects the client.  `thrown` reports an
        exception that leaves the callback: that of a parser, or of the owner. */
    method OnLengthReceive(error: bool, data: seq<byte>, state: int, handling: Handling, ownerThrows: bool)
      returns (thrown: bool)
      requires reading
      requires alive && !error ==> Callback(View(), data, state, handling).status != Strayed
      modifies this, buffer
      ensures !old(alive) ==> View() == old(View()) && !reading && !thrown
      ensures old(alive) && error ==>
        View() == old(View()).(status := Dead) && !reading && (thrown <==> ownerThrows)
      ensures old(alive) && !error ==>
        && View() == Callback(old(View()), data, state, handling)
        && (thrown <==> Escapes(View().status, handling, ownerThrows))
        && (reading <==> View().status == Reading || (View().status == Dead && handling == Disconnects))
    {
      hide OnBytes, Parse, ReadVarInt, ParserOf;
      thrown, reading := false, false;
      if !alive {
        return;
      }
      if error {
        thrown := Disconnect(ownerThrows);
        return;
      }
      buffer.bytes := buffer.bytes + data;
      OnBytesUnfolds(buffer.bytes);
      var r := buffer.ReadVarIntFromBuffer(false);
      if r.TooBig? {
        return true;
      }
      if r.Read? {
        if |buffer.bytes| >= (r.value + r.size) % TWO_TO_THE_64 {
          buffer.bytes := buffer.bytes[r.size..];
          var stop;
          thrown, stop := ParseAndHandle(r.value % TWO_TO_THE_64, state, handling, ownerThrows);
          if stop {
            return;
          }
        }
      }
      reading := true;
    }
  }

  lemma OnBytesUnfolds(bytes: seq<byte>)
    ensures match ReadVarInt(bytes)
      case TooBig => OnBytes(bytes) == Throws(bytes)
      case Incomplete(_) => OnBytes(bytes) == Waits
      case Read(length, size) =>
        && size <= |bytes|
        && OnBytes(bytes) ==
           if |bytes| >= (length + size) % TWO_TO_THE_64 then Parse(length % TWO_TO_THE_64, bytes[size..]) else Waits
  {
    ReadIsTight(bytes);
    hide Parse, ReadVarInt;
  }

  // ----- whole sessions -----

  /** What a client does not decide by its bytes alone: the state it is in when it is parsed the n-th
      packet of, how that packet is handled, and whether the owner raises an exception if the client is
      disconnected then. */
  datatype World = World(state: nat -> int, handling: nat -> Handling, ownerThrows: nat -> bool)

  function AfterRead(world: World, s: Session, data: seq<byte>): Session {
    var n := |s.receiver.delivered|;
    if s.status == Reading then Callback(s, data, world.state(n), world.handling(n)) else s
  }

  /** A session in which the chunks are offered one after the other; none is read any more once reading
      has stopped. */
  function SessionAfter(world: World, chunks: seq<seq<byte>>): Session {
    if chunks == [] then Connected
    else AfterRead(world, SessionAfter(world, chunks[..|chunks| - 1]), chunks[|chunks| - 1])
  }

  lemma SessionSnoc(world: World, chunks: seq<seq<byte>>, data: seq<byte>)
    ensures SessionAfter(world, chunks + [data]) == AfterRead(world, SessionAfter(world, chunks), data)
  {
    assert (chunks + [data])[..|chunks|] == chunks;
  }

  /** Once reading has stopped, nothing that is sent later is read. */
  lemma {:induction false} StaysStopped(world: World, chunks: seq<seq<byte>>, more: seq<seq<byte>>)
    requires SessionAfter(world, chunks).status != Reading
    ensures SessionAfter(world, chunks + more) == SessionAfter(world, chunks)
  {
    if more == [] {
      assert chunks + more == chunks;
    } else {
      var front, last := more[..|more| - 1], more[|more| - 1];
      StaysStopped(world, chunks, front);
      assert chunks + more == (chunks + front) + [last];
      SessionSnoc(world, chunks + front, last);
    }
  }

  /** The reads of a client, each starting the next: on any bytes, as long as behaviour is defined.  The
      worker thread got an exception exactly when a parser stopped the client, or its last packet did and
      the owner raised one. */
  method ReceiveAll(client: Client, chunks: seq<seq<byte>>, world: World) returns (thrown: bool)
    requires client.alive && client.reading && client.View() == Connected
    requires SessionAfter(world, chunks).status != Strayed
    modifies client, client.buffer
    ensures client.View() == SessionAfter(world, chunks)
    ensures thrown <==> Escaped(world, client.View())
  {
    hide Callback, SessionAfter;
    var i := 0;
    thrown := false;
    SessionStarts(world);
    assert chunks[..0] == [];
    while i < |chunks| && client.alive && client.reading
      invariant 0 <= i <= |chunks| && client.View() == SessionAfter(world, chunks[..i])
      invariant thrown <==> Escaped(world, client.View())
    {
      var n := |client.delivered|;
      assert chunks[..i + 1] == chunks[..i] + [chunks[i]];
      SessionSnoc(world, chunks[..i], chunks[i]);
      NotStrayedYet(world, chunks, i + 1);
      DiesOfLast(client.View(), chunks[i], world.state(n), world.handling(n));
      thrown := client.OnLengthReceive(false, chunks[i], world.state(n), world.handling(n), world.ownerThrows(n));
      i := i + 1;
    }
    assert chunks[..i] + chunks[i..] == chunks;
    if client.View().status != Reading {
      StaysStopped(world, chunks[..i], chunks[i..]);
    } else {
      assert chunks[..i] == chunks;
    }
  }

  /** An exception left the last callback of the session. */
  predicate Escaped(world: World, s: Session) {
    var n := |s.receiver.delivered| - 1;
    s.status == Halted || (s.status == Dead && n >= 0 && Escapes(s.status, world.handling(n), world.ownerThrows(n)))
  }

  /** A client that dies in a callback does so of the packet taken off last. */
  lemma DiesOfLast(s: Session, data: seq<byte>, state: int, handling: Handling)
    ensures var s' := Callback(s, data, state, handling);
      s.status == Reading && s'.status == Dead ==> |s'.receiver.delivered| == |s.receiver.delivered| + 1
  {
    hide OnBytes, ParserOf;
  }

  lemma SessionStarts(world: World)
    ensures SessionAfter(world, []) == Connected
  {
  }

  lemma NotStrayedYet(world: World, chunks: seq<seq<byte>>, i: nat)
    requires i <= |chunks| && SessionAfter(world, chunks).status != Strayed
    ensures SessionAfter(world, chunks[..i]).status != Strayed
  {
    assert chunks[..i] + chunks[i..] == chunks;
    hide SessionAfter;
    if SessionAfter(world, chunks[..i]).status == Strayed {
      StaysStopped(world, chunks[..i], chunks[i..]);
    }
  }

  // ----- sessions on a stream of packets -----

  /** The state of affairs after the packet m, the n-th. */
  function StatusAt(world: World, n: nat, m: Msg): Status {
    StatusAfter(world.state(n), world.handling(n), m)
  }

  /** The first packet after which the client is not read again. */
  function Stop(world: World, msgs: seq<Msg>): (stop: nat)
    ensures stop <= |msgs|
  {
    if msgs == [] then 0
    else
      var front := |msgs| - 1;
      var stop := Stop(world, msgs[..front]);
      if stop < front || StatusAt(world, front, msgs[front]) != Reading then stop else |msgs|
  }

  lemma {:induction false} StopIsFirst(world: World, msgs: seq<Msg>)
    ensures var stop := Stop(world, msgs);
      && (forall i :: 0 <= i < stop ==> StatusAt(world, i, msgs[i]) == Reading)
      && (stop < |msgs| ==> StatusAt(world, stop, msgs[stop]) != Reading)
  {
    hide StatusAt;
    if msgs != [] {
      var front := msgs[..|msgs| - 1];
      StopIsFirst(world, front);
      assert forall i :: 0 <= i < |front| ==> msgs[i] == front[i];
    }
  }

  /** Of the packets delivered, those that a parser accepted. */
  function Accepted(world: World, delivered: seq<Msg>): seq<Msg> {
    if delivered == [] then []
    else
      var n := |delivered| - 1;
      Accepted(world, delivered[..n]) +
      if ParserOf(world.state(n), delivered[n]) == Parsed then [delivered[n]] else []
  }

  lemma AcceptedSnoc(world: World, delivered: seq<Msg>, m: Msg)
    ensures Accepted(world, delivered + [m]) ==
      Accepted(world, delivered) + if ParserOf(world.state(|delivered|), m) == Parsed then [m] else []
  {
    assert (delivered + [m])[..|delivered|] == delivered;
  }

  /** Where a session stands when d packets would have been delivered if nothing could stop it. */
  ghost predicate Upto(world: World, msgs: seq<Msg>, s: Session, d: nat) {
    var stop := Stop(world, msgs);
    && d <= |msgs|
    && s.receiver.delivered == msgs[..Min(d, stop + 1)]
    && s.handled == Accepted(world, s.receiver.delivered)
    && s.status == (if d <= stop then Reading else StatusAt(world, stop, msgs[stop]))
  }

  /** The session is in step with the reassembly of the first n chunks, of which it has read k. */
  ghost predicate Until(world: World, msgs: seq<Msg>, chunks: seq<seq<byte>>, n: nat, k: nat)
    requires n <= |chunks|
  {
    var s, d := SessionAfter(world, chunks[..n]), |AfterAll(chunks[..n]).delivered|;
    && Upto(world, msgs, s, d)
    && k <= n && s.receiver == AfterAll(chunks[..k])
    && (d <= Stop(world, msgs) ==> k == n)
  }

  lemma UntilStarts(world: World, msgs: seq<Msg>, chunks: seq<seq<byte>>)
    ensures Until(world, msgs, chunks, 0, 0)
  {
    assert chunks[..0] == [] && msgs[..0] == [];
  }

  /** A packet is taken: the session goes on, or stops there. */
  lemma UptoTakes(world: World, msgs: seq<Msg>, s: Session, d: nat, data: seq<byte>)
    requires Upto(world, msgs, s, d) && d < |msgs| && d <= Stop(world, msgs)
    requires OnBytes(s.receiver.buffer + data).Takes? && OnBytes(s.receiver.buffer + data).msg == msgs[d]
    ensures Upto(world, msgs, AfterRead(world, s, data), d + 1)
    ensures AfterRead(world, s, data).receiver == AfterCallback(s.receiver, data)
  {
    hide OnBytes, ParserOf, Accepted, Stop;
    StopIsFirst(world, msgs);
    AcceptedSnoc(world, msgs[..d], msgs[d]);
    assert msgs[..d + 1] == msgs[..d] + [msgs[d]];
  }

  lemma ReadOn(world: World, chunks: seq<seq<byte>>, n: nat)
    requires n < |chunks|
    ensures SessionAfter(world, chunks[..n + 1]) == AfterRead(world, SessionAfter(world, chunks[..n]), chunks[n])
  {
    assert chunks[..n + 1] == chunks[..n] + [chunks[n]];
    SessionSnoc(world, chunks[..n], chunks[n]);
  }

  lemma UntilTakes(world: World, msgs: seq<Msg>, chunks: seq<seq<byte>>, n: nat)
    requires n < |chunks| && Until(world, msgs, chunks, n, n)
    requires var r, r' := AfterAll(chunks[..n]), AfterAll(chunks[..n + 1]);
      && |r.delivered| <= Stop(world, msgs) && |r.delivered| < |msgs|
      && OnBytes(r.buffer + chunks[n]).Takes? && OnBytes(r.buffer + chunks[n]).msg == msgs[|r.delivered|]
      && r' == AfterCallback(r, chunks[n])
    ensures Until(world, msgs, chunks, n + 1, n + 1)
  {
    var s, d := SessionAfter(world, chunks[..n]), |AfterAll(chunks[..n]).delivered|;
    hide OnBytes, AfterAll, SessionAfter, Upto, Stop, AfterRead;
    UptoTakes(world, msgs, s, d, chunks[n]);
    ReadOn(world, chunks, n);
  }

  lemma UntilWaits(world: World, msgs: seq<Msg>, chunks: seq<seq<byte>>, n: nat)
    requires n < |chunks| && Until(world, msgs, chunks, n, n)
    requires var r := AfterAll(chunks[..n]);
      && |r.delivered| <= Stop(world, msgs)
      && OnBytes(r.buffer + chunks[n]).Waits? && AfterAll(chunks[..n + 1]) == AfterCallback(r, chunks[n])
    ensures Until(world, msgs, chunks, n + 1, n + 1)
  {
    hide OnBytes, ParserOf, AfterAll, SessionAfter, Accepted, Stop;
    ReadOn(world, chunks, n);
  }

  lemma UntilStopped(world: World, msgs: seq<Msg>, chunks: seq<seq<byte>>, n: nat, k: nat)
    requires n < |chunks| && Until(world, msgs, chunks, n, k)
    requires Stop(world, msgs) < |AfterAll(chunks[..n]).delivered| <= |AfterAll(chunks[..n + 1]).delivered| <= |msgs|
    ensures Until(world, msgs, chunks, n + 1, k)
  {
    hide AfterAll, SessionAfter, Accepted, AfterRead, StatusAt, Stop;
    ReadOn(world, chunks, n);
    StoppedReads(world, SessionAfter(world, chunks[..n]), chunks[n]);
    StopIsFirst(world, msgs);
  }

  lemma StoppedReads(world: World, s: Session, data: seq<byte>)
    ensures s.status != Reading ==> AfterRead(world, s, data) == s
  {
  }

  /** The session on a stream of packets, however it is cut into chunks, and whatever the state of the
      client and the handling of its packets: packets are taken off as they would be if nothing could
      stop it, up to and including the first one that stops it, and no byte after that is read.  It is
      still read exactly as long as that packet was not taken.  `k` chunks are read. */
  lemma {:induction false} ReadsUntilStop(world: World, msgs: seq<Msg>, chunks: seq<seq<byte>>, n: nat) returns (k: nat)
    requires AllCanFrame(msgs) && Concat(chunks) <= Stream(msgs) && n <= |chunks|
    ensures Until(world, msgs, chunks, n, k)
    ensures InStep(msgs, Concat(chunks[..n]), AfterAll(chunks[..n]))
  {
    hide Until, InStep, OnBytes, AfterAll, Concat, Stream, Complete;
    Reassembles(msgs, chunks, n);
    if n == 0 {
      k := 0;
      UntilStarts(world, msgs, chunks);
    } else {
      k := ReadsUntilStop(world, msgs, chunks, n - 1);
      AfterOneMore(chunks, n - 1);
      StepOfDelivery(msgs, chunks, n);
      if |AfterAll(chunks[..n - 1]).delivered| > Stop(world, msgs) {
        UntilStopped(world, msgs, chunks, n - 1, k);
      } else {
        ReadsAll(world, msgs, chunks, n - 1, k);
        k := n;
        var r := AfterAll(chunks[..n - 1]);
        if OnBytes(r.buffer + chunks[n - 1]).Takes? {
          UntilTakes(world, msgs, chunks, n - 1);
        } else {
          UntilWaits(world, msgs, chunks, n - 1);
        }
      }
    }
  }

  lemma ReadsAll(world: World, msgs: seq<Msg>, chunks: seq<seq<byte>>, n: nat, k: nat)
    requires n <= |chunks| && Until(world, msgs, chunks, n, k)
    requires |AfterAll(chunks[..n]).delivered| <= Stop(world, msgs)
    ensures k == n
  {
  }

  /** One callback of the reassembly delivers the next packet or none. */
  lemma StepOfDelivery(msgs: seq<Msg>, chunks: seq<seq<byte>>, n: nat)
    requires AllCanFrame(msgs) && 0 < n <= |chunks|
    requires InStep(msgs, Concat(chunks[..n]), AfterAll(chunks[..n]))
    requires AfterAll(chunks[..n]) == AfterCallback(AfterAll(chunks[..n - 1]), chunks[n - 1])
    requires var r := AfterAll(chunks[..n - 1]);
      OnBytes(r.buffer + chunks[n - 1]).Waits? || OnBytes(r.buffer + chunks[n - 1]).Takes?
    ensures var r, d := AfterAll(chunks[..n - 1]), |AfterAll(chunks[..n - 1]).delivered|;
      && d <= |AfterAll(chunks[..n]).delivered| <= |msgs|
      && (OnBytes(r.buffer + chunks[n - 1]).Takes? ==> d < |msgs| && OnBytes(r.buffer + chunks[n - 1]).msg == msgs[d])
  {
    hide OnBytes, AfterAll, Concat, Stream;
  }

  /** The parser of packet i ends in the given way, and no packet before it stops the client. */
  ghost predicate IsFirstToEnd(world: World, msgs: seq<Msg>, i: int, end: ParserEnd) {
    && 0 <= i < |msgs|
    && ParserOf(world.state(i), msgs[i]) == end
    && forall j :: 0 <= j < i ==> StatusAt(world, j, msgs[j]) == Reading
  }

  /** A client is left alive and unread exactly when a packet was taken off whose parser throws, all those
      before it having been parsed or unknown and handled without disconnecting.  Behaviour is undefined
      exactly when that of such a packet's parser is, and the client is still read exactly when no packet
      taken off stopped it. */
  lemma HaltsIff(world: World, msgs: seq<Msg>, chunks: seq<seq<byte>>)
    requires AllCanFrame(msgs) && Concat(chunks) <= Stream(msgs)
    ensures |AfterAll(chunks).delivered| <= |msgs|
    ensures SessionAfter(world, chunks).status == Halted <==>
      exists i :: 0 <= i < |AfterAll(chunks).delivered| && IsFirstToEnd(world, msgs, i, ParserThrows)
    ensures SessionAfter(world, chunks).status == Strayed <==>
      exists i :: 0 <= i < |AfterAll(chunks).delivered| && IsFirstToEnd(world, msgs, i, ParserStrays)
    ensures SessionAfter(world, chunks).status == Reading <==>
      forall i :: 0 <= i < |AfterAll(chunks).delivered| ==> StatusAt(world, i, msgs[i]) == Reading
  {
    var k := ReadsUntilStop(world, msgs, chunks, |chunks|);
    assert chunks[..|chunks|] == chunks;
    hide AfterAll, SessionAfter, Concat, Stream, InStep, StatusAt, Upto;
    UptoMeans(world, msgs, SessionAfter(world, chunks), |AfterAll(chunks).delivered|);
  }

  lemma UptoMeans(world: World, msgs: seq<Msg>, s: Session, d: nat)
    requires Upto(world, msgs, s, d)
    ensures d <= |msgs|
    ensures s.status == Halted <==> exists i :: 0 <= i < d && IsFirstToEnd(world, msgs, i, ParserThrows)
    ensures s.status == Strayed <==> exists i :: 0 <= i < d && IsFirstToEnd(world, msgs, i, ParserStrays)
    ensures s.status == Reading <==> forall i :: 0 <= i < d ==> StatusAt(world, i, msgs[i]) == Reading
  {
    hide ParserOf, Accepted;
    StopIsFirst(world, msgs);
    var stop := Stop(world, msgs);
    if stop < d {
      assert s.status == Halted ==> IsFirstToEnd(world, msgs, stop, ParserThrows);
      assert s.status == Strayed ==> IsFirstToEnd(world, msgs, stop, ParserStrays);
      assert StatusAt(world, stop, msgs[stop]) != Reading;
    }
    forall i, end | 0 <= i < d && IsFirstToEnd(world, msgs, i, end) && (end == ParserThrows || end == ParserStrays)
      ensures i == stop && s.status == if end == ParserThrows then Halted else Strayed
    {
    }
  }

  // ----- whole frames -----

  lemma WholeFrame(m: Msg)
    requires CanFrame(m)
    ensures OnBytes(FrameOf(m)) == Takes(m, [])
  {
    var frame := FrameOf(m);
    assert [m][1..] == [] && frame + [] == frame;
    assert Stream([m]) == frame;
    hide FrameOf, OnBytes;
    TakesFirstFrame([m], frame);
    assert frame[|frame|..] == [];
  }

  /** A callback that gets a whole frame takes the packet off, whatever becomes of it. */
  lemma FrameTakenOff(s: Session, m: Msg, state: int, handling: Handling)
    requires s.status == Reading && s.receiver.buffer == [] && CanFrame(m)
    ensures Callback(s, FrameOf(m), state, handling) ==
      Session(Receiver([], s.receiver.delivered + [m]),
              if ParserOf(state, m) == Parsed then s.handled + [m] else s.handled,
              StatusAfter(state, handling, m))
  {
    WholeFrame(m);
    hide OnBytes, ParserOf, FrameOf;
    assert s.receiver.buffer + FrameOf(m) == FrameOf(m);
  }

  // ----- which packets throw -----

  /** The parsers that read one length throw exactly on a payload that starts overlong. */
  lemma ParserThrowsIff(state: int, m: Msg)
    requires (state == LOGIN && m.id == 0) || (state == PLAY && (m.id == 0 || m.id == 1))
    ensures ParserOf(state, m) == ParserThrows <==> IsOverlong(m.payload)
    ensures ParserOf(state, m) == Parsed <==> !IsOverlong(m.payload)
  {
    TooBigIff(m.payload);
    hide ReadVarInt, IsOverlong;
  }

  lemma PrefixThrowsIff(s: seq<byte>)
    ensures ReadPrefix(s).thrown <==> IsOverlong(s)
    ensures IsOverlong(s) ==> ReadPrefix(s) == PrefixRead(0, s, true)
  {
    TooBigIff(s);
    hide ReadVarInt, IsOverlong;
  }

  /** What a length that is read covers is there. */
  predicate IsThere(r: PrefixRead) {
    0 <= r.length <= |r.rest|
  }

  /** A handshake: the version, the length of the address, and the state behind address and port.  Its
      parser throws exactly if one of them is overlong where it is read, and strays exactly if the address
      is not there. */
  lemma HandshakeEndsIff(m: Msg)
    requires m.id == 0
    ensures var s := ReadPrefix(m.payload).rest;
      var address := ReadPrefix(s);
      && (ParserOf(HANDSHAKE, m) == ParserThrows <==>
            || IsOverlong(m.payload) || IsOverlong(s)
            || (IsThere(address) && IsOverlong(DropPod(address.rest[address.length..], 2))))
      && (ParserOf(HANDSHAKE, m) == ParserStrays <==> !IsThere(address))
  {
    hide ReadPrefix, IsOverlong, DropPod, TakePod, Uint16Of;
    var version := ReadPrefix(m.payload);
    var address := ReadPrefix(version.rest);
    PrefixThrowsIff(m.payload);
    PrefixThrowsIff(version.rest);
    if IsThere(address) {
      PrefixThrowsIff(DropPod(address.rest[address.length..], 2));
    }
  }

  /** The answer to an encryption request: the length of the secret and, behind the secret, that of the
      token. */
  lemma EncryptionEndsIff(m: Msg)
    requires m.id == 1
    ensures var secret := ReadPrefix(m.payload);
      && (ParserOf(LOGIN, m) == ParserThrows <==>
            IsOverlong(m.payload) || (IsThere(secret) && IsOverlong(secret.rest[secret.length..])))
      && (ParserOf(LOGIN, m) == ParserStrays <==>
            !IsThere(secret) || !IsThere(ReadPrefix(secret.rest[secret.length..])))
  {
    hide ReadPrefix, IsOverlong;
    var secret := ReadPrefix(m.payload);
    PrefixThrowsIff(m.payload);
    if IsThere(secret) {
      PrefixThrowsIff(secret.rest[secret.length..]);
      assert m.payload[0..] == m.payload;
    }
  }

  /** Where reading a length that is not overlong leaves off: behind the first byte that announces no other,
      or, if there is none, at the beginning. */
  lemma {:induction false} PrefixLeaves(s: seq<byte>)
    requires !IsOverlong(s)
    ensures var rest := ReadPrefix(s).rest;
      if exists k :: 0 <= k < |s| && s[k] < 128 then
        exists k :: 0 <= k < |s| && s[k] < 128 && rest == s[k + 1..] && forall i :: 0 <= i < k ==> s[i] >= 128
      else rest == s
  {
    ReadEnds(s, 0, 0);
    TooBigIff(s);
    hide ReadFrom;
    if ReadVarInt(s).Read? {
      var k := ReadVarInt(s).size - 1;
      assert s[k] < 128;
    }
  }

  /** A read ends with the first byte that announces no other. */
  lemma {:induction false} ReadEnds(s: seq<byte>, k: nat, acc: uint32)
    requires k <= 5
    ensures match ReadFrom(s, k, acc)
      case Read(_, size) =>
        k < size <= k + |s| && s[size - k - 1] < 128 && forall i :: 0 <= i < size - k - 1 ==> s[i] >= 128
      case Incomplete(_) => forall i :: 0 <= i < |s| ==> s[i] >= 128
      case TooBig => true
    decreases 5 - k
  {
    hide WithGroup, ToSigned;
    if s != [] && k < 5 && s[0] >= 128 {
      ReadEnds(s[1..], k + 1, WithGroup(acc, s[0], k));
      assert forall i :: 0 < i < |s| ==> s[i] == s[1..][i - 1];
    }
  }

  /** What the library itself serializes is parsed. */
  lemma SerializedIsParsed(name: seq<byte>, keepAliveId: int32)
    requires Fits(name)
    ensures ParserOf(LOGIN, Msg(0, LoginStartPayload(name))) == Parsed
    ensures ParserOf(PLAY, Msg(0, KeepAlivePayload(keepAliveId))) == Parsed
  {
    LoginStartRoundTrip(0, name);
    KeepAliveRoundTrip(0, keepAliveId);
    hide ParseLoginStart, ParseKeepAlive, LoginStartPayload, KeepAlivePayload;
  }

  /** A packet that stops a client for good: six bytes FF in place of the name, framed as it should be. */
  const OverlongLogin := Msg(0, [255, 255, 255, 255, 255, 255])

  lemma OverlongLoginHalts(world: World, more: seq<seq<byte>>)
    requires world.state(0) == LOGIN
    ensures CanFrame(OverlongLogin)
    ensures SessionAfter(world, [FrameOf(OverlongLogin)] + more) == Session(Receiver([], [OverlongLogin]), [], Halted)
  {
    var m := OverlongLogin;
    assert CanFrame(m) by {
      assert VarInt(0) == [0];
    }
    ParserThrowsIff(LOGIN, m);
    hide FrameOf, ParserOf, Callback;
    FrameTakenOff(Connected, m, LOGIN, world.handling(0));
    SessionStarts(world);
    SessionSnoc(world, [], FrameOf(m));
    assert [] + [FrameOf(m)] == [FrameOf(m)];
    StaysStopped(world, [FrameOf(m)], more);
  }
}
