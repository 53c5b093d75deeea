/** Four packets of the MCPacket library, from their fields to bytes and back: JoinGame, LoginStart,
    LoginSuccess and KeepAlive.  Multi-byte fields are copied in the byte order of the host, taken to be
    little-endian. */
module PacketBodies {
  import opened Basics
  import opened WireCodec
  import opened StreamReassembly

  // ----- fields of fixed width -----

  function Int32Bytes(n: int32): (bytes: seq<byte>)
    ensures |bytes| == 4
  {
    var u := ToUnsigned(n);
    [u % 256, u / 256 % 256, u / 0x1_0000 % 256, u / 0x100_0000]
  }

  function Int32Of(bytes: seq<byte>): int32
    requires |bytes| == 4
  {
    var b0: int, b1: int, b2: int, b3: int := bytes[0], bytes[1], bytes[2], bytes[3];
    ToSigned(b0 + 256 * b1 + 0x1_0000 * b2 + 0x100_0000 * b3)
  }

  lemma Int32Copied(n: int32)
    ensures Int32Of(Int32Bytes(n)) == n
  {
    var u := ToUnsigned(n);
    var q1, q2, q3 := u / 256, u / 0x1_0000, u / 0x100_0000;
    assert q2 == q1 / 256 && q3 == q2 / 256;
    assert u == 256 * q1 + u % 256 && q1 == 256 * q2 + q1 % 256 && q2 == 256 * q3 + q2 % 256;
  }

  type int8 = x: int | -128 <= x < 128

  function Int8Byte(n: int8): byte {
    if n >= 0 then n else n + 256
  }

  function Int8Of(b: byte): int8 {
    if b < 128 then b else b - 256
  }

  function BoolByte(b: bool): byte {
    if b then 1 else 0
  }

  // ----- strings -----

  /** A string that fits the int32 its length is converted to. */
  predicate Fits(s: seq<byte>) {
    |s| < TWO_TO_THE_31
  }

  function StringBytes(s: seq<byte>): seq<byte>
    requires Fits(s)
  {
    VarInt(|s|) + s
  }

  /** An int32 compared with a size_t. */
  function ToSize(n: int): nat {
    n % TWO_TO_THE_64
  }

  /** The length that precedes a string: its value, what is left of the buffer, and whether reading it
      throws.  A length that is cut short is used as far as it was read. */
  datatype PrefixRead = PrefixRead(length: int32, rest: seq<byte>, thrown: bool)

  function ReadPrefix(s: seq<byte>): PrefixRead {
    match ReadVarInt(s)
    case TooBig => PrefixRead(0, s, true)
    case Incomplete(partial) => PrefixRead(partial, s, false)
    case Read(value, size) => ReadIsTight(s); PrefixRead(value, s[size..], false)
  }

  lemma StringLengthRead(s: seq<byte>, more: seq<byte>)
    requires Fits(s)
    ensures ReadPrefix(StringBytes(s) + more) == PrefixRead(|s|, s + more, false)
    ensures (s + more)[..|s|] == s && (s + more)[|s|..] == more
  {
    assert StringBytes(s) + more == VarInt(|s|) + (s + more);
    ReadInvertsWrite(|s|, s + more);
    hide VarInt, ReadVarInt;
    assert (VarInt(|s|) + (s + more))[|VarInt(|s|)|..] == s + more;
  }

  // ----- the packets -----

  datatype JoinGame = JoinGame(playerEntityId: int32, gamemode: byte, dimensionId: int8, difficulty: byte,
                               maxPlayers: byte, levelType: seq<byte>, reducedDebugInfo: bool)

  datatype LoginSuccess = LoginSuccess(uuid: seq<byte>, username: seq<byte>)

  function JoinGamePayload(v: JoinGame): seq<byte>
    requires Fits(v.levelType)
  {
    Int32Bytes(v.playerEntityId) + [v.gamemode] + [Int8Byte(v.dimensionId)] + [v.difficulty] + [v.maxPlayers]
    + StringBytes(v.levelType) + [BoolByte(v.reducedDebugInfo)]
  }

  function LoginStartPayload(name: seq<byte>): seq<byte>
    requires Fits(name)
  {
    StringBytes(name)
  }

  function LoginSuccessPayload(v: LoginSuccess): seq<byte>
    requires Fits(v.uuid) && Fits(v.username)
  {
    StringBytes(v.uuid) + StringBytes(v.username)
  }

  function KeepAlivePayload(id: int32): seq<byte> {
    VarInt(ToUnsigned(id))
  }

  /** What a parse constructor does: it throws, it goes on to undefined behaviour, or it sets the fields. */
  datatype Result<T> = Thrown | Undefined | Fields(value: T)

  /** The first n bytes, if they are there. */
  function TakePod(s: seq<byte>, n: nat, otherwise: seq<byte>): (pod: seq<byte>)
    requires |otherwise| == n
    ensures |pod| == n
  {
    if |s| >= n then s[..n] else otherwise
  }

  function DropPod(s: seq<byte>, n: nat): seq<byte> {
    if |s| >= n then s[n..] else s
  }

  class Packet {
    const packetId: int32
    /** rawPayload */
    const raw: Buffer

    constructor (packetId: int32, payload: seq<byte>)
      ensures this.packetId == packetId && fresh(raw) && raw.bytes == payload
    {
      this.packetId := packetId;
      raw := new Buffer(payload);
    }

    /** The base of serializePacket: reset, then write the id. */
    method SerializePacket()
      modifies raw
      ensures raw.bytes == VarInt(ToUnsigned(packetId))
    {
      raw.bytes := [];
      raw.WriteVarInt(ToUnsigned(packetId));
    }

    /** readPODFromBuffer, on a type of the given size: nothing is read from a buffer that is too short. */
    method ReadPod(size: nat, otherwise: seq<byte>) returns (pod: seq<byte>)
      requires |otherwise| == size
      modifies raw
      ensures pod == TakePod(old(raw.bytes), size, otherwise)
      ensures raw.bytes == DropPod(old(raw.bytes), size)
    {
      if |raw.bytes| < size {
        return otherwise;
      }
      pod := raw.bytes[..size];
      raw.bytes := raw.bytes[size..];
    }

    /** readVarIntFromBuffer with its output parameter, consuming. */
    method ReadLength() returns (length: int32, thrown: bool)
      modifies raw
      ensures var r := ReadPrefix(old(raw.bytes));
        length == r.length && thrown == r.thrown && raw.bytes == r.rest
    {
      var r := raw.ReadVarIntFromBuffer(true);
      match r
      case TooBig => length, thrown := 0, true;
      case Incomplete(partial) => length, thrown := partial, false;
      case Read(value, _) => length, thrown := value, false;
    }

    method WriteBytes(bytes: seq<byte>)
      modifies raw
      ensures raw.bytes == old(raw.bytes) + bytes
    {
      raw.bytes := raw.bytes + bytes;
    }

    /** A string: its length, then its characters. */
    method WriteString(s: seq<byte>)
      requires Fits(s)
      modifies raw
      ensures raw.bytes == old(raw.bytes) + StringBytes(s)
    {
      raw.WriteVarInt(|s|);
      raw.bytes := raw.bytes + s;
    }
  }

  // ----- LoginStart and KeepAlive -----

  function ParseLoginStart(s: seq<byte>): Result<seq<byte>> {
    var r := ReadPrefix(s);
    if r.thrown then Thrown
    else Fields(if |r.rest| >= ToSize(r.length) then r.rest[..ToSize(r.length)] else [])
  }

  class LoginStartPacket {
    const packet: Packet
    var playerName: seq<byte>

    constructor (packet: Packet, playerName: seq<byte>)
      ensures this.packet == packet && this.playerName == playerName
    {
      this.packet, this.playerName := packet, playerName;
    }

    /** The parsing constructor, on the payload of a packet in progress. */
    method Parse() returns (thrown: bool)
      requires playerName == []
      modifies this, packet.raw
      ensures match ParseLoginStart(old(packet.raw.bytes))
        case Thrown => thrown
        case Undefined => false
        case Fields(name) => !thrown && playerName == name && packet.raw.bytes == []
    {
      var length;
      length, thrown := packet.ReadLength();
      if thrown {
        return;
      }
      if |packet.raw.bytes| >= ToSize(length) {
        playerName := packet.raw.bytes[..ToSize(length)];
      }
      packet.raw.bytes := [];
    }

    method SerializePacket()
      requires Fits(playerName)
      modifies packet.raw
      ensures packet.raw.bytes == Body(packet.packetId, LoginStartPayload(playerName))
    {
      packet.SerializePacket();
      packet.WriteString(playerName);
    }
  }

  function ParseKeepAlive(s: seq<byte>): Result<int32> {
    match ReadVarInt(s)
    case TooBig => Thrown
    case Incomplete(partial) => Fields(partial)
    case Read(value, _) => Fields(value)
  }

  class KeepAlivePacket {
    const packet: Packet
    var keepAliveId: int32

    constructor (packet: Packet, keepAliveId: int32)
      ensures this.packet == packet && this.keepAliveId == keepAliveId
    {
      this.packet, this.keepAliveId := packet, keepAliveId;
    }

    method Parse() returns (thrown: bool)
      modifies this, packet.raw
      ensures match ParseKeepAlive(old(packet.raw.bytes))
        case Thrown => thrown
        case Undefined => false
        case Fields(id) => !thrown && keepAliveId == id && packet.raw.bytes == []
    {
      var r := packet.raw.ReadVarIntFromBuffer(false);
      match r {
        case TooBig =>
          return true;
        case Incomplete(partial) =>
          keepAliveId := partial;
        case Read(value, _) =>
          keepAliveId := value;
      }
      thrown := false;
      packet.raw.bytes := [];
    }

    method SerializePacket()
      modifies packet.raw
      ensures packet.raw.bytes == Body(packet.packetId, KeepAlivePayload(keepAliveId))
    {
      packet.SerializePacket();
      packet.raw.WriteVarInt(ToUnsigned(keepAliveId));
    }
  }

  // ----- LoginSuccess -----

  /** The first string is taken off the buffer.  The test before the second one subtracts the length of
      the first from what is left, although that string is gone already, and does so on size_t. */
  function ParseLoginSuccess(s: seq<byte>): Result<LoginSuccess> {
    var first := ReadPrefix(s);
    if first.thrown then Thrown
    else
      var n := ToSize(first.length);
      var fits := |first.rest| >= n;
      var uuid, rest := if fits then first.rest[..n] else [], if fits then first.rest[n..] else first.rest;
      var second := ReadPrefix(rest);
      if second.thrown then Thrown
      else
        var m := ToSize(second.length);
        if ToSize(|second.rest| - n) < m then Fields(LoginSuccess(uuid, []))
        else if m <= |second.rest| then Fields(LoginSuccess(uuid, second.rest[..m]))
        else Result.Undefined
  }

  class LoginSuccessPacket {
    const packet: Packet
    var uuid: seq<byte>
    var username: seq<byte>

    constructor (packet: Packet, uuid: seq<byte>, username: seq<byte>)
      ensures this.packet == packet && this.uuid == uuid && this.username == username
    {
      this.packet, this.uuid, this.username := packet, uuid, username;
    }

    method Parse() returns (thrown: bool)
      requires uuid == [] && username == []
      requires ParseLoginSuccess(packet.raw.bytes) != Result.Undefined
      modifies this, packet.raw
      ensures match ParseLoginSuccess(old(packet.raw.bytes))
        case Thrown => thrown
        case Undefined => false
        case Fields(v) => !thrown && uuid == v.uuid && username == v.username && packet.raw.bytes == []
    {
      var uuidLength;
      uuidLength, thrown := packet.ReadLength();
      if thrown {
        return;
      }
      if |packet.raw.bytes| >= ToSize(uuidLength) {
        uuid := packet.raw.bytes[..ToSize(uuidLength)];
        packet.raw.bytes := packet.raw.bytes[ToSize(uuidLength)..];
      }
      var usernameLength;
      usernameLength, thrown := packet.ReadLength();
      if thrown {
        return;
      }
      if ToSize(|packet.raw.bytes| - ToSize(uuidLength)) >= ToSize(usernameLength) {
        username := packet.raw.bytes[..ToSize(usernameLength)];
      }
      packet.raw.bytes := [];
    }

    method SerializePacket()
      requires Fits(uuid) && Fits(username)
      modifies packet.raw
      ensures packet.raw.bytes == Body(packet.packetId, LoginSuccessPayload(LoginSuccess(uuid, username)))
    {
      packet.SerializePacket();
      packet.WriteString(uuid);
      packet.WriteString(username);
    }
  }

  // ----- JoinGame -----

  function ParseJoinGame(s: seq<byte>): Result<JoinGame> {
    var s1 := DropPod(s, 4);
    var s2 := DropPod(s1, 1);
    var s3 := DropPod(s2, 1);
    var s4 := DropPod(s3, 1);
    var r := ReadPrefix(DropPod(s4, 1));
    if r.thrown then Thrown
    else
      var n := ToSize(r.length);
      var fits := |r.rest| >= n;
      var levelType, s5 := if fits then r.rest[..n] else [], if fits then r.rest[n..] else r.rest;
      Fields(JoinGame(Int32Of(TakePod(s, 4, [0, 0, 0, 0])), TakePod(s1, 1, [0])[0], Int8Of(TakePod(s2, 1, [0])[0]),
                      TakePod(s3, 1, [0])[0], TakePod(s4, 1, [255])[0], levelType, TakePod(s5, 1, [0])[0] != 0))
  }

  class JoinGamePacket {
    const packet: Packet
    var fields: JoinGame

    constructor (packet: Packet, fields: JoinGame)
      ensures this.packet == packet && this.fields == fields
    {
      this.packet, this.fields := packet, fields;
    }

    method Parse() returns (thrown: bool)
      requires fields.levelType == []
      modifies this, packet.raw
      ensures match ParseJoinGame(old(packet.raw.bytes))
        case Thrown => thrown
        case Undefined => false
        case Fields(v) => !thrown && fields == v && packet.raw.bytes == []
    {
      hide TakePod, DropPod, Int32Of, Int8Of, ReadPrefix, ToSize;
      var pod := packet.ReadPod(4, [0, 0, 0, 0]);
      fields := fields.(playerEntityId := Int32Of(pod));
      pod := packet.ReadPod(1, [0]);
      fields := fields.(gamemode := pod[0]);
      pod := packet.ReadPod(1, [0]);
      fields := fields.(dimensionId := Int8Of(pod[0]));
      pod := packet.ReadPod(1, [0]);
      fields := fields.(difficulty := pod[0]);
      pod := packet.ReadPod(1, [255]);
      fields := fields.(maxPlayers := pod[0]);
      var length;
      length, thrown := packet.ReadLength();
      if thrown {
        return;
      }
      if |packet.raw.bytes| >= ToSize(length) {
        fields := fields.(levelType := packet.raw.bytes[..ToSize(length)]);
        packet.raw.bytes := packet.raw.bytes[ToSize(length)..];
      }
      pod := packet.ReadPod(1, [0]);
      fields := fields.(reducedDebugInfo := pod[0] != 0);
      packet.raw.bytes := [];
    }

    method SerializePacket()
      requires Fits(fields.levelType)
      modifies packet.raw
      ensures packet.raw.bytes == Body(packet.packetId, JoinGamePayload(fields))
    {
      packet.SerializePacket();
      packet.WriteBytes(Int32Bytes(fields.playerEntityId));
      packet.WriteBytes([fields.gamemode]);
      packet.WriteBytes([Int8Byte(fields.dimensionId)]);
      packet.WriteBytes([fields.difficulty]);
      packet.WriteBytes([fields.maxPlayers]);
      packet.WriteString(fields.levelType);
      packet.WriteBytes([BoolByte(fields.reducedDebugInfo)]);
    }
  }

  // ----- packets that a server only reads -----

  datatype Handshake = Handshake(protocolVersion: int32, serverAddress: seq<byte>, serverPort: nat, nextState: int32)

  function Uint16Of(bytes: seq<byte>): nat
    requires |bytes| == 2
  {
    var b0: int, b1: int := bytes[0], bytes[1];
    b0 + 256 * b1
  }

  /** The length of the address is not compared with what is there. */
  function ParseHandshake(s: seq<byte>): Result<Handshake> {
    var version := ReadPrefix(s);
    if version.thrown then Thrown
    else
      var address := ReadPrefix(version.rest);
      if address.thrown then Thrown
      else if !(0 <= address.length <= |address.rest|) then Result.Undefined
      else HandshakeAfter(version.length, address.rest[..address.length], address.rest[address.length..])
  }

  /** The port, 25565 if it is missing, and the state that the client asks for. */
  function HandshakeAfter(version: int32, address: seq<byte>, s: seq<byte>): Result<Handshake> {
    var port, next := TakePod(s, 2, [0xDD, 0x63]), ReadPrefix(DropPod(s, 2));
    if next.thrown then Thrown else Fields(Handshake(version, address, Uint16Of(port), next.length))
  }

  datatype EncryptionResponse = EncryptionResponse(secret: seq<byte>, token: seq<byte>)

  /** Neither are the lengths of the secret and of the token. */
  function ParseEncryption(s: seq<byte>): Result<EncryptionResponse> {
    var secret := ReadPrefix(s);
    if secret.thrown then Thrown
    else if !(0 <= secret.length <= |secret.rest|) then Result.Undefined
    else
      var token := ReadPrefix(secret.rest[secret.length..]);
      if token.thrown then Thrown
      else if !(0 <= token.length <= |token.rest|) then Result.Undefined
      else Fields(EncryptionResponse(secret.rest[..secret.length], token.rest[..token.length]))
  }

  /** A chat message from a client. */
  function ParseChat(s: seq<byte>): Result<seq<byte>> {
    var r := ReadPrefix(s);
    if r.thrown then Thrown
    else Fields(if |r.rest| >= ToSize(r.length) then r.rest[..ToSize(r.length)] else [])
  }

  // ----- end to end -----

  lemma SizeOfLength(n: nat)
    requires n < TWO_TO_THE_31
    ensures ToSize(n) == n
  {
  }

  /** The fields of fixed width at the head of JoinGame. */
  lemma PodsTaken(head: seq<byte>, more: seq<byte>, otherwise: seq<byte>)
    requires |otherwise| == |head|
    ensures TakePod(head + more, |head|, otherwise) == head && DropPod(head + more, |head|) == more
  {
  }

  /** JoinGame: serialized, taken off the stream and parsed, every field comes back. */
  lemma JoinGameRoundTrip(id: int32, v: JoinGame)
    requires Fits(v.levelType)
    ensures var payload := JoinGamePayload(v);
      && Parse(|Body(id, payload)|, Body(id, payload)) == Takes(Msg(id, payload), [])
      && ParseJoinGame(payload) == Fields(v)
  {
    hide Parse, Body, TakePod, DropPod, Int32Of, Int32Bytes, StringBytes, ReadPrefix, ToSize;
    var payload, last := JoinGamePayload(v), [BoolByte(v.reducedDebugInfo)];
    SplitsOff(id, payload);
    var s4 := [v.maxPlayers] + (StringBytes(v.levelType) + last);
    var s3 := [v.difficulty] + s4;
    var s2 := [Int8Byte(v.dimensionId)] + s3;
    var s1 := [v.gamemode] + s2;
    assert payload == Int32Bytes(v.playerEntityId) + s1;
    PodsTaken(Int32Bytes(v.playerEntityId), s1, [0, 0, 0, 0]);
    PodsTaken([v.gamemode], s2, [0]);
    PodsTaken([Int8Byte(v.dimensionId)], s3, [0]);
    PodsTaken([v.difficulty], s4, [0]);
    PodsTaken([v.maxPlayers], StringBytes(v.levelType) + last, [255]);
    Int32Copied(v.playerEntityId);
    StringLengthRead(v.levelType, last);
    SizeOfLength(|v.levelType|);
    PodsTaken(last, [], [0]);
    assert last + [] == last;
  }

  lemma LoginStartRoundTrip(id: int32, name: seq<byte>)
    requires Fits(name)
    ensures var payload := LoginStartPayload(name);
      && Parse(|Body(id, payload)|, Body(id, payload)) == Takes(Msg(id, payload), [])
      && ParseLoginStart(payload) == Fields(name)
  {
    hide Parse, Body, StringBytes, ReadPrefix, ToSize;
    SplitsOff(id, LoginStartPayload(name));
    StringLengthRead(name, []);
    SizeOfLength(|name|);
    assert StringBytes(name) + [] == StringBytes(name);
  }

  lemma KeepAliveRoundTrip(id: int32, keepAliveId: int32)
    ensures var payload := KeepAlivePayload(keepAliveId);
      && Parse(|Body(id, payload)|, Body(id, payload)) == Takes(Msg(id, payload), [])
      && ParseKeepAlive(payload) == Fields(keepAliveId)
  {
    hide Parse, Body, ReadVarInt, VarInt;
    SplitsOff(id, KeepAlivePayload(keepAliveId));
    ReadInvertsWrite(ToUnsigned(keepAliveId), []);
    assert VarInt(ToUnsigned(keepAliveId)) + [] == VarInt(ToUnsigned(keepAliveId));
  }

  /** LoginSuccess: both strings come back exactly when the uuid is empty or longer than the username;
      otherwise the username is lost. */
  lemma LoginSuccessRoundTrip(id: int32, v: LoginSuccess)
    requires Fits(v.uuid) && Fits(v.username)
    ensures var payload := LoginSuccessPayload(v);
      && Parse(|Body(id, payload)|, Body(id, payload)) == Takes(Msg(id, payload), [])
      && (ParseLoginSuccess(payload) == Fields(v) <==> v.uuid == [] || |v.username| < |v.uuid|)
      && (v.uuid != [] && |v.username| >= |v.uuid| ==> ParseLoginSuccess(payload) == Fields(LoginSuccess(v.uuid, [])))
  {
    hide Parse, Body, StringBytes, ReadPrefix, ToSize;
    SplitsOff(id, LoginSuccessPayload(v));
    StringLengthRead(v.uuid, StringBytes(v.username));
    StringLengthRead(v.username, []);
    SizeOfLength(|v.uuid|);
    SizeOfLength(|v.username|);
    SizeDifference(|v.username|, |v.uuid|);
    assert StringBytes(v.username) + [] == StringBytes(v.username) && v.username + [] == v.username;
  }

  /** The subtraction on size_t wraps around when the first string is the longer one. */
  lemma SizeDifference(m: nat, n: nat)
    requires m < TWO_TO_THE_31 && n < TWO_TO_THE_31
    ensures ToSize(m - n) >= m <==> n == 0 || m < n
  {
  }

  lemma SplitsOff(id: int32, payload: seq<byte>)
    ensures Parse(|Body(id, payload)|, Body(id, payload)) == Takes(Msg(id, payload), [])
  {
    TakesBody(Msg(id, payload), []);
    hide Body, Parse;
    assert Body(id, payload) + [] == Body(id, payload);
  }
}
