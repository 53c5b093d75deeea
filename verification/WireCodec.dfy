/** Variable-length integers and length-prefixed frames: MCPacket/Packet.cpp and Packet.hpp.

    The byte format is that of unsigned LEB128, section 7.6 of DWARF version 4, limited to five bytes.
    The 7-bit groups occupy disjoint bits, so the decoder's bitwise OR is written as a sum, reduced
    modulo 2^32 as a 32-bit variable reduces it. */
module WireCodec {
  import opened Basics

  type uint32 = x: int | 0 <= x < TWO_TO_THE_32
  type int32 = x: int | -TWO_TO_THE_31 <= x < TWO_TO_THE_31

  /** The conversions between the signed and the unsigned reading of 32 bits. */
  function ToSigned(n: uint32): int32 {
    if n < TWO_TO_THE_31 then n else n - TWO_TO_THE_32
  }

  function ToUnsigned(n: int32): uint32 {
    if n >= 0 then n else n + TWO_TO_THE_32
  }

  // ----- encoding -----

  function VarInt(n: uint32): (bytes: seq<byte>)
    ensures |bytes| >= 1
    decreases n
  {
    if n < 128 then [n] else [n % 128 + 128] + VarInt(n / 128)
  }

  /** The weight of the k-th group of seven bits. */
  function Place(k: nat): nat
    requires k <= 5
  {
    if k == 0 then 1 else if k == 1 then 0x80 else if k == 2 then 0x4000 else if k == 3 then 0x20_0000
    else if k == 4 then 0x1000_0000 else 0x8_0000_0000
  }

  lemma {:induction false} VarIntLength(n: uint32, k: nat)
    requires 1 <= k <= 5
    ensures |VarInt(n)| <= k <==> n < Place(k)
    decreases k
  {
    if n >= 128 && k > 1 {
      VarIntLength(n / 128, k - 1);
    }
  }

  // ----- decoding -----

  /** What readVarIntFromBuffer makes of a buffer: a value and its size; the size 0, with what was read
      so far in the output parameter; or an exception. */
  datatype VarIntRead = Read(value: int32, size: nat) | Incomplete(partial: int32) | TooBig

  /** The value after one more group of seven bits. */
  function WithGroup(acc: uint32, b: byte, k: nat): uint32
    requires k <= 4
  {
    (acc + b % 128 * Place(k)) % TWO_TO_THE_32
  }

  /** Reading on, when k bytes have given `acc`. */
  function ReadFrom(s: seq<byte>, k: nat, acc: uint32): VarIntRead
    requires k <= 5
    decreases 5 - k
  {
    if s == [] then Incomplete(ToSigned(acc))
    else if k == 5 then TooBig
    else
      var acc' := WithGroup(acc, s[0], k);
      if s[0] >= 128 then ReadFrom(s[1..], k + 1, acc') else Read(ToSigned(acc'), k + 1)
  }

  function ReadVarInt(s: seq<byte>): VarIntRead {
    ReadFrom(s, 0, 0)
  }

  /** One group of seven bits more. */
  lemma OneGroup(m: uint32, k: nat, acc: uint32)
    requires k <= 4 && acc < Place(k) && m * Place(k) + acc < TWO_TO_THE_32
    ensures m >= 128 ==> k < 4
    ensures acc + m % 128 * Place(k) < Place(k + 1)
    ensures acc + m % 128 * Place(k) <= m * Place(k) + acc
    ensures m / 128 * Place(k + 1) + (acc + m % 128 * Place(k)) == m * Place(k) + acc
  {
    var q, r := m / 128, m % 128;
    assert m == 128 * q + r;
    if k == 0 {
    } else if k == 1 {
    } else if k == 2 {
    } else if k == 3 {
    } else {
    }
  }

  lemma GroupAdds(b: byte, k: nat, acc: uint32)
    requires k <= 4 && acc + b % 128 * Place(k) < TWO_TO_THE_32
    ensures WithGroup(acc, b, k) == acc + b % 128 * Place(k)
    ensures b < 128 ==> b % 128 == b && (b + 128) % 128 == b
  {
  }

  /** The rest of an encoding completes what was read before it. */
  lemma {:induction false} ReadsRest(m: uint32, rest: seq<byte>, k: nat, acc: uint32)
    requires k <= 4 && acc < Place(k) && m * Place(k) + acc < TWO_TO_THE_32
    ensures ReadFrom(VarInt(m) + rest, k, acc) == Read(ToSigned(m * Place(k) + acc), k + |VarInt(m)|)
    decreases m
  {
    hide Place, WithGroup, ToSigned;
    var s := VarInt(m) + rest;
    OneGroup(m, k, acc);
    GroupAdds(m % 128, k, acc);
    GroupAdds(m % 128 + 128, k, acc);
    if m >= 128 {
      assert s[1..] == VarInt(m / 128) + rest;
      ReadsRest(m / 128, rest, k + 1, acc + m % 128 * Place(k));
    }
  }

  /** Round trip: whatever follows, reading what was written returns the value and the written length. */
  lemma ReadInvertsWrite(n: uint32, rest: seq<byte>)
    ensures ReadVarInt(VarInt(n) + rest) == Read(ToSigned(n), |VarInt(n)|)
    ensures 1 <= |VarInt(n)| <= 5
  {
    ReadsRest(n, rest, 0, 0);
    VarIntLength(n, 5);
  }

  /** No encoding is a proper prefix of another. */
  lemma PrefixFree(a: uint32, b: uint32, x: seq<byte>, y: seq<byte>)
    requires VarInt(a) + x == VarInt(b) + y
    ensures a == b && x == y
  {
    ReadInvertsWrite(a, x);
    ReadInvertsWrite(b, y);
    assert x == (VarInt(a) + x)[|VarInt(a)|..] && y == (VarInt(b) + y)[|VarInt(b)|..];
  }

  /** A successful read consumes one to five bytes that are there, and the value it returns needs no more
      bytes to write. */
  lemma ReadIsTight(s: seq<byte>)
    ensures var r := ReadVarInt(s);
      r.Read? ==> 1 <= r.size <= 5 && r.size <= |s| && |VarInt(ToUnsigned(r.value))| <= r.size
  {
    ReadIsTightFrom(s, 0, 0);
    var r := ReadVarInt(s);
    if r.Read? {
      VarIntLength(ToUnsigned(r.value), r.size);
    }
  }

  lemma {:induction false} ReadIsTightFrom(s: seq<byte>, k: nat, acc: uint32)
    requires k <= 5 && acc < Place(k)
    ensures var r := ReadFrom(s, k, acc);
      r.Read? ==> k < r.size <= 5 && r.size <= k + |s| && ToUnsigned(r.value) < Place(r.size)
    decreases 5 - k
  {
    if s != [] && k < 5 {
      var acc' := WithGroup(acc, s[0], k);
      if s[0] >= 128 {
        ReadIsTightFrom(s[1..], k + 1, acc');
      }
    }
  }

  /** An encoding that has not arrived in full is waited for. */
  lemma {:induction false} CutShort(m: uint32, n: nat, k: nat, acc: uint32)
    requires k <= 4 && acc < Place(k) && m * Place(k) + acc < TWO_TO_THE_32
    requires n < |VarInt(m)|
    ensures ReadFrom(VarInt(m)[..n], k, acc).Incomplete?
    decreases m
  {
    hide Place, WithGroup, ToSigned;
    OneGroup(m, k, acc);
    GroupAdds(m % 128, k, acc);
    GroupAdds(m % 128 + 128, k, acc);
    if n > 0 {
      assert VarInt(m)[..n][1..] == VarInt(m / 128)[..n - 1];
      CutShort(m / 128, n - 1, k + 1, acc + m % 128 * Place(k));
    }
  }

  /** The bytes at which the decoder gives up: six or more, the first five of which announce another. */
  predicate IsOverlong(s: seq<byte>) {
    |s| >= 6 && forall i :: 0 <= i < 5 ==> s[i] >= 128
  }

  lemma {:induction false} TooBigFrom(s: seq<byte>, k: nat, acc: uint32)
    requires k <= 5
    ensures ReadFrom(s, k, acc).TooBig? <==> |s| >= 6 - k && forall i :: 0 <= i < 5 - k ==> s[i] >= 128
    decreases 5 - k
  {
    hide WithGroup;
    if s != [] && k < 5 {
      TooBigFrom(s[1..], k + 1, WithGroup(acc, s[0], k));
      assert forall i :: 0 < i < |s| ==> s[i] == s[1..][i - 1];
    }
  }

  /** Reading throws exactly on an overlong beginning. */
  lemma TooBigIff(s: seq<byte>)
    ensures ReadVarInt(s).TooBig? <==> IsOverlong(s)
  {
    TooBigFrom(s, 0, 0);
  }

  // ----- buffers -----

  /** A std::vector of bytes, passed by reference. */
  class Buffer {
    var bytes: seq<byte>

    constructor (bytes: seq<byte>)
      ensures this.bytes == bytes
    {
      this.bytes := bytes;
    }

    /** writeVarIntToBuffer */
    method WriteVarInt(n: uint32)
      modifies this
      ensures bytes == old(bytes) + VarInt(n)
    {
      var input := n;
      ghost var written := [];
      while input >= 128
        invariant VarInt(n) == written + VarInt(input)
        invariant bytes == old(bytes) + written
        decreases input
      {
        ConcatAssociates(written, [input % 128 + 128], VarInt(input / 128));
        bytes := bytes + [input % 128 + 128];
        written := written + [input % 128 + 128];
        input := input / 128;
      }
      bytes := bytes + [input];
    }

    /** writeVarIntToFront, which needs an input that is not negative. */
    method WriteVarIntToFront(n: int32)
      requires n >= 0
      modifies this
      ensures bytes == VarInt(n) + old(bytes)
    {
      var input := n;
      var front: seq<byte> := [];
      while input >= 128
        invariant 0 <= input && VarInt(n) == front + VarInt(input) && bytes == old(bytes)
        decreases input
      {
        ConcatAssociates(front, [input % 128 + 128], VarInt(input / 128));
        front := front + [input % 128 + 128];
        input := input / 128;
      }
      assert VarInt(input) == [input % 128];
      front := front + [input % 128];
      bytes := front + bytes;
    }

    /** readVarIntFromBuffer */
    method ReadVarIntFromBuffer(consume: bool) returns (r: VarIntRead)
      modifies this
      ensures r == ReadVarInt(old(bytes))
      ensures bytes == if r.Read? && consume then old(bytes)[r.size..] else old(bytes)
    {
      var out: uint32, numByte := 0, 0;
      if |bytes| == 0 {
        return Incomplete(0);
      }
      assert bytes[0..] == bytes;
      while true
        invariant 0 <= numByte <= 5 && bytes == old(bytes) && numByte <= |bytes|
        invariant ReadFrom(bytes[numByte..], numByte, out) == ReadVarInt(bytes)
        decreases 5 - numByte
      {
        if numByte >= |bytes| {
          return Incomplete(ToSigned(out));
        }
        var b := bytes[numByte];
        assert bytes[numByte..][1..] == bytes[numByte + 1..];
        numByte := numByte + 1;
        if numByte > 5 {
          return TooBig;
        }
        out := WithGroup(out, b, numByte - 1);
        if b < 128 {
          break;
        }
      }
      ReadIsTight(bytes);
      if consume {
        bytes := bytes[numByte..];
      }
      r := Read(ToSigned(out), numByte);
    }

    /** getVarIntSize.  Every negative number takes five bytes. */
    static method GetVarIntSize(input: int) returns (size: nat)
      ensures 1 <= size <= 5
      ensures input < 0 ==> size == 5
      ensures input >= 0 ==> (size < 5 ==> input < Place(size)) && (size > 1 ==> input >= Place(size - 1))
      ensures 0 <= input < TWO_TO_THE_32 ==> size == |VarInt(input)|
    {
      var bytes := 1;
      while bytes < 5
        invariant 1 <= bytes <= 5 && (bytes > 1 && input >= 0 ==> input >= Place(bytes - 1))
      {
        // No bit is set above the first `bytes` groups of seven.
        if 0 <= input < Place(bytes) {
          break;
        }
        bytes := bytes + 1;
      }
      size := bytes;
      if 0 <= input < TWO_TO_THE_32 {
        VarIntLength(input, size);
        if size > 1 {
          VarIntLength(input, size - 1);
        }
      }
    }

    /** writeBufferLengthToFront (and framePacket): refuses a buffer of 2^21 bytes or more, and prepends
        the length of any other. */
    method WriteBufferLengthToFront() returns (thrown: bool)
      modifies this
      ensures thrown <==> |old(bytes)| >= TWO_TO_THE_21
      ensures bytes == if thrown then old(bytes) else VarInt(|old(bytes)|) + old(bytes)
    {
      var size := GetVarIntSize(|bytes|);
      if size > 3 {
        return true;
      }
      thrown := false;
      WriteVarIntToFront(|bytes|);
    }
  }

  /** A frame: the length of the body, then the body. */
  function Frame(body: seq<byte>): seq<byte>
    requires |body| < TWO_TO_THE_31
  {
    VarInt(|body|) + body
  }

  /** The body of a packet: its id, then its payload. */
  function Body(id: int32, payload: seq<byte>): seq<byte> {
    VarInt(ToUnsigned(id)) + payload
  }
}
