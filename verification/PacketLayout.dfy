/** The bytes of the packets, field by field, and what their parsers make of any bytes so laid out. */
module PacketLayout {
  import opened Basics
  import opened WireCodec
  import opened StreamReassembly
  import opened PacketBodies

  /** An int32, its low byte first. */
  lemma Int32Layout(n: int32)
    ensures var b := Int32Bytes(n);
      b[0] as int + 0x100 * b[1] as int + 0x1_0000 * b[2] as int + 0x100_0000 * b[3] as int
      == if n >= 0 then n else n + 0x1_0000_0000
  {
    var u := ToUnsigned(n);
    var q1, q2, q3 := u / 256, u / 0x1_0000, u / 0x100_0000;
    assert q2 == q1 / 256 && q3 == q2 / 256;
    assert u == 256 * q1 + u % 256 && q1 == 256 * q2 + q1 % 256 && q2 == 256 * q3 + q2 % 256;
  }

  /** JoinGame: entity, game mode, dimension, difficulty, players, level type with its length, flag. */
  lemma JoinGameLayout(v: JoinGame)
    requires Fits(v.levelType)
    ensures JoinGamePayload(v) ==
      Int32Bytes(v.playerEntityId) +
      ([v.gamemode, if v.dimensionId >= 0 then v.dimensionId else v.dimensionId + 256, v.difficulty, v.maxPlayers] +
       (VarInt(|v.levelType|) + (v.levelType + [if v.reducedDebugInfo then 1 else 0])))
  {
    hide Int32Bytes, VarInt;
    var a, s, z := Int32Bytes(v.playerEntityId), StringBytes(v.levelType), [BoolByte(v.reducedDebugInfo)];
    var b, c, d, e := [v.gamemode], [Int8Byte(v.dimensionId)], [v.difficulty], [v.maxPlayers];
    assert b + c + d + e == [v.gamemode, Int8Byte(v.dimensionId), v.difficulty, v.maxPlayers];
    assert a + b + c + d + e == a + (b + c + d + e);
    ConcatAssociates(a + (b + c + d + e), s, z);
    ConcatAssociates(a, b + c + d + e, s + z);
    ConcatAssociates(VarInt(|v.levelType|), v.levelType, z);
  }

  /** The strings of the login packets come with their lengths, the uuid first; a keep-alive is its id. */
  lemma LoginLayouts(name: seq<byte>, v: LoginSuccess, id: int32)
    requires Fits(name) && Fits(v.uuid) && Fits(v.username)
    ensures LoginStartPayload(name) == VarInt(|name|) + name
    ensures LoginSuccessPayload(v) == VarInt(|v.uuid|) + v.uuid + (VarInt(|v.username|) + v.username)
    ensures KeepAlivePayload(id) == VarInt(if id >= 0 then id else id + 0x1_0000_0000)
  {
  }

  lemma ByteRead(b: byte, more: seq<byte>, otherwise: byte)
    ensures TakePod([b] + more, 1, [otherwise]) == [b] && DropPod([b] + more, 1) == more
  {
  }

  /** Any bytes laid out as a JoinGame are read as one; every flag but 0 is true. */
  lemma JoinGameIsRead(n: int32, gamemode: byte, dimension: byte, difficulty: byte, players: byte,
                       levelType: seq<byte>, flag: byte)
    requires Fits(levelType)
    ensures ParseJoinGame(Int32Bytes(n) + ([gamemode] + ([dimension] + ([difficulty] + ([players] +
              (StringBytes(levelType) + [flag])))))) ==
      Fields(JoinGame(n, gamemode, if dimension < 128 then dimension else dimension - 256, difficulty, players,
                      levelType, flag != 0))
  {
    hide TakePod, DropPod, Int32Of, Int32Bytes, StringBytes, ReadPrefix, ToSize;
    var s4 := [players] + (StringBytes(levelType) + [flag]);
    PodsTaken(Int32Bytes(n), [gamemode] + ([dimension] + ([difficulty] + s4)), [0, 0, 0, 0]);
    ByteRead(gamemode, [dimension] + ([difficulty] + s4), 0);
    ByteRead(dimension, [difficulty] + s4, 0);
    ByteRead(difficulty, s4, 0);
    ByteRead(players, StringBytes(levelType) + [flag], 255);
    Int32Copied(n);
    StringLengthRead(levelType, [flag]);
    SizeOfLength(|levelType|);
    ByteRead(flag, [], 0);
    assert [flag] + [] == [flag];
  }

  /** Fields that are missing have their defaults. */
  lemma EmptyJoinGame()
    ensures ParseJoinGame([]) == Fields(JoinGame(0, 0, 0, 0, 255, [], false))
  {
    assert ReadPrefix([]) == PrefixRead(0, [], false);
    assert Int32Of([0, 0, 0, 0]) == 0;
  }

  /** A name or a message that is not there in full is dropped; what is behind it does not matter. */
  lemma StringIsThere(n: nat, s: seq<byte>)
    requires n < TWO_TO_THE_31
    ensures ParseLoginStart(VarInt(n) + s) == Fields(if n <= |s| then s[..n] else [])
    ensures ParseChat(VarInt(n) + s) == Fields(if n <= |s| then s[..n] else [])
  {
    LengthIsRead(n, s);
    SizeOfLength(n);
    hide ReadPrefix, VarInt, ToSize;
  }

  lemma LengthIsRead(n: int32, s: seq<byte>)
    ensures ReadPrefix(VarInt(ToUnsigned(n)) + s) == PrefixRead(n, s, false)
  {
    ReadInvertsWrite(ToUnsigned(n), s);
    hide VarInt, ReadVarInt;
    assert ToSigned(ToUnsigned(n)) == n;
    assert (VarInt(ToUnsigned(n)) + s)[|VarInt(ToUnsigned(n))|..] == s;
  }

  /** A handshake: version, address, port with its low byte first, and the state asked for. */
  lemma HandshakeIsRead(version: int32, address: seq<byte>, low: byte, high: byte, next: int32)
    requires Fits(address)
    ensures
      ParseHandshake(VarInt(ToUnsigned(version)) + (StringBytes(address) + ([low, high] + VarInt(ToUnsigned(next)))))
      == Fields(Handshake(version, address, low as int + 256 * high as int, next))
  {
    hide ReadPrefix, StringBytes, VarInt, HandshakeAfter;
    var s := [low, high] + VarInt(ToUnsigned(next));
    LengthIsRead(version, StringBytes(address) + s);
    StringLengthRead(address, s);
    HandshakeEnd(version, address, low, high, next);
  }

  lemma HandshakeEnd(version: int32, address: seq<byte>, low: byte, high: byte, next: int32)
    ensures HandshakeAfter(version, address, [low, high] + VarInt(ToUnsigned(next))) ==
      Fields(Handshake(version, address, low as int + 256 * high as int, next))
  {
    hide ReadPrefix, VarInt, TakePod, DropPod;
    PodsTaken([low, high], VarInt(ToUnsigned(next)), [0xDD, 0x63]);
    LengthIsRead(next, []);
    assert VarInt(ToUnsigned(next)) + [] == VarInt(ToUnsigned(next));
  }

  /** Without a port it is 25565, and the state asked for is 0. */
  lemma HandshakeWithoutPort(version: int32, address: seq<byte>)
    requires Fits(address)
    ensures ParseHandshake(VarInt(ToUnsigned(version)) + StringBytes(address)) ==
      Fields(Handshake(version, address, 25565, 0))
  {
    LengthIsRead(version, StringBytes(address));
    StringLengthRead(address, []);
    assert ReadPrefix([]) == PrefixRead(0, [], false);
    hide ReadPrefix, StringBytes, VarInt;
    assert StringBytes(address) + [] == StringBytes(address);
  }

  /** The answer to an encryption request: secret and token, each with its length. */
  lemma EncryptionIsRead(secret: seq<byte>, token: seq<byte>, more: seq<byte>)
    requires Fits(secret) && Fits(token)
    ensures ParseEncryption(StringBytes(secret) + (StringBytes(token) + more)) ==
      Fields(EncryptionResponse(secret, token))
  {
    StringLengthRead(secret, StringBytes(token) + more);
    StringLengthRead(token, more);
    hide ReadPrefix, StringBytes;
  }
}
