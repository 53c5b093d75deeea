/** The bytes on the wire and the numbers they stand for, frames that are not as they should be included. */
module WireBytes {
  import opened Basics
  import opened WireCodec
  import opened StreamReassembly

  // ----- groups of seven bits -----

  /** The sum of the groups of seven bits, the k-th weighing 128^k. */
  function Groups(bytes: seq<byte>): nat {
    if bytes == [] then 0 else bytes[0] % 128 + 128 * Groups(bytes[1..])
  }

  /** Every byte announces another but the last. */
  predicate IsChain(bytes: seq<byte>) {
    bytes != [] && bytes[|bytes| - 1] < 128 && forall i :: 0 <= i < |bytes| - 1 ==> bytes[i] >= 128
  }

  /** What is written for a number: its groups of seven bits, lowest first, with no empty one at the end. */
  lemma {:induction false} VarIntMeans(n: uint32)
    ensures Groups(VarInt(n)) == n && IsChain(VarInt(n))
    ensures |VarInt(n)| > 1 ==> VarInt(n)[|VarInt(n)| - 1] != 0
    decreases n
  {
    if n >= 128 {
      var later := VarInt(n / 128);
      VarIntMeans(n / 128);
      LowGroup(n % 128);
      assert VarInt(n) == [n % 128 + 128] + later;
      hide VarInt;
      assert ([n % 128 + 128] + later)[1..] == later;
    } else {
      assert [n][1..] == [];
    }
  }

  lemma LowGroup(g: nat)
    requires g < 128
    ensures (g + 128) % 128 == g && g % 128 == g
  {
  }

  /** The signed reading of 32 bits: the same number, or 2^32 less, whichever an int32 can hold. */
  lemma SignedMeans(n: uint32)
    ensures -0x8000_0000 <= ToSigned(n) < 0x8000_0000
    ensures ToSigned(n) == n || ToSigned(n) == n - 0x1_0000_0000
    ensures ToUnsigned(ToSigned(n)) == n
  {
  }

  lemma PlaceGrows(k: nat)
    requires k <= 4
    ensures Place(0) == 1 && Place(k + 1) == 128 * Place(k)
  {
  }

  lemma AddGroup(acc: uint32, b: byte, k: nat) returns (q: int)
    requires k <= 4
    ensures WithGroup(acc, b, k) == acc + b % 128 * Place(k) - q * TWO_TO_THE_32
  {
    q := (acc + b % 128 * Place(k)) / TWO_TO_THE_32;
  }

  lemma GroupsWeigh(value: int, acc': int, acc: int, p: nat, b: nat, g: nat, q1: int, q2: int, m: nat)
    requires acc' == acc + b * p - q1 * m && value == acc' + (128 * p) * g - q2 * m
    ensures value == acc + p * (b + 128 * g) - (q1 + q2) * m
  {
    assert (128 * p) * g == p * (128 * g) && p * (b + 128 * g) == p * b + p * (128 * g);
    assert (q1 + q2) * m == q1 * m + q2 * m;
  }

  /** Reading on adds up the groups, modulo 2^32. */
  lemma {:induction false} ReadAdds(s: seq<byte>, n: nat, k: nat, acc: uint32) returns (value: uint32, q: int)
    requires k + n <= 5 && n <= |s|
    requires forall i :: 0 <= i < n ==> s[i] >= 128
    ensures value == acc + Place(k) * Groups(s[..n]) - q * TWO_TO_THE_32
    ensures ReadFrom(s, k, acc) == ReadFrom(s[n..], k + n, value)
    decreases n
  {
    if n == 0 {
      value, q := acc, 0;
      assert s[0..] == s && Groups(s[..0]) == 0;
    } else {
      var q1 := AddGroup(acc, s[0], k);
      var acc' := WithGroup(acc, s[0], k);
      var q2;
      value, q2 := ReadAdds(s[1..], n - 1, k + 1, acc');
      q := q1 + q2;
      PlaceGrows(k);
      GroupsOf(s[..n]);
      assert ReadFrom(s, k, acc) == ReadFrom(s[1..], k + 1, acc');
      hide WithGroup, Place, Groups, ReadFrom;
      assert s[..n][1..] == s[1..][..n - 1] && s[1..][n - 1..] == s[n..];
      GroupsWeigh(value, acc', acc, Place(k), s[0] % 128, Groups(s[..n][1..]), q1, q2, TWO_TO_THE_32);
    }
  }

  /** Whatever is read, canonical or not: the number that ends with byte n is the sum of its groups modulo
      2^32. */
  lemma ReadMeans(s: seq<byte>, n: nat)
    requires n < |s| && n < 5 && s[n] < 128 && forall i :: 0 <= i < n ==> s[i] >= 128
    ensures ReadVarInt(s).Read? && ReadVarInt(s).size == n + 1
    ensures (ReadVarInt(s).value - Groups(s[..n + 1])) % 0x1_0000_0000 == 0
  {
    var value, q := ReadAdds(s, n, 0, 0);
    LastGroup(s[n..], n, value);
    var q' := AddGroup(value, s[n], n);
    OneMoreGroup(s, n);
    assert Place(0) == 1;
    hide ReadFrom, Groups, WithGroup, ToSigned;
    Congruent(WithGroup(value, s[n], n), Groups(s[..n + 1]), q + q');
  }

  lemma LastGroup(s: seq<byte>, k: nat, acc: uint32)
    requires s != [] && s[0] < 128 && k < 5
    ensures ReadFrom(s, k, acc) == Read(ToSigned(WithGroup(acc, s[0], k)), k + 1)
  {
    hide WithGroup, ToSigned;
  }

  /** If all bytes, at most five, announce others, what was read so far is the sum of their groups. */
  lemma ReadSoFar(s: seq<byte>)
    requires |s| <= 5 && forall i :: 0 <= i < |s| ==> s[i] >= 128
    ensures ReadVarInt(s).Incomplete?
    ensures (ReadVarInt(s).partial - Groups(s)) % 0x1_0000_0000 == 0
  {
    var value, q := ReadAdds(s, |s|, 0, 0);
    assert s[|s|..] == [] && s[..|s|] == s && Place(0) == 1;
    hide Groups, ToSigned;
    assert ReadFrom([], |s|, value) == Incomplete(ToSigned(value));
    Congruent(value, Groups(s), q);
  }

  lemma Congruent(value: uint32, sum: nat, q: int)
    requires value == sum - q * TWO_TO_THE_32
    ensures (ToSigned(value) - sum) % 0x1_0000_0000 == 0
  {
    var t := ToSigned(value) - sum;
    assert t == (-q) * TWO_TO_THE_32 || t == (-q - 1) * TWO_TO_THE_32;
    MultipleOf(-q);
    MultipleOf(-q - 1);
  }

  lemma MultipleOf(q: int)
    ensures q * TWO_TO_THE_32 % 0x1_0000_0000 == 0
  {
  }

  lemma {:induction false} OneMoreGroup(s: seq<byte>, n: nat)
    requires n < |s| && n <= 4
    ensures Groups(s[..n + 1]) == Groups(s[..n]) + s[n] % 128 * Place(n)
    decreases n
  {
    if n == 0 {
      assert s[..1][1..] == [] && s[..0] == [];
    } else {
      OneMoreGroup(s[1..], n - 1);
      assert s[..n + 1][1..] == s[1..][..n] && s[..n][1..] == s[1..][..n - 1];
      hide Groups;
      assert s[1..][n - 1] == s[n];
      assert Groups(s[..n + 1]) == s[0] % 128 + 128 * Groups(s[..n + 1][1..]) by {
        GroupsOf(s[..n + 1]);
      }
      assert Groups(s[..n]) == s[0] % 128 + 128 * Groups(s[..n][1..]) by {
        GroupsOf(s[..n]);
      }
      PlaceGrows(n - 1);
    }
  }

  lemma GroupsOf(bytes: seq<byte>)
    requires bytes != []
    ensures Groups(bytes) == bytes[0] % 128 + 128 * Groups(bytes[1..])
  {
  }

  // ----- frames -----

  /** The frame of a packet: the length of id and payload, the id, the payload. */
  lemma FrameIs(m: Msg)
    requires CanFrame(m)
    ensures var id := VarInt(if m.id >= 0 then m.id else m.id + 0x1_0000_0000);
      FrameOf(m) == VarInt(|id| + |m.payload|) + (id + m.payload)
  {
  }

  /** Bytes that begin with an overlong length make the callback throw, and no others do before it looks at a
      packet. */
  lemma OverlongThrows(bytes: seq<byte>)
    ensures IsOverlong(bytes) ==> OnBytes(bytes) == Throws(bytes)
    ensures bytes == [] ==> OnBytes(bytes) == Waits
  {
    TooBigIff(bytes);
  }

  /** A frame without a body, with nothing behind it, is taken off and nothing happens.  With something
      behind it, that is read for an id: overlong, it throws; whole, it is not covered by the length; cut
      short, it makes a packet without payload and stays in the buffer. */
  lemma EmptyFrame(more: seq<byte>)
    ensures more == [] ==> OnBytes([0] + more) == TakesNothing([])
    ensures IsOverlong(more) ==> OnBytes([0] + more) == Throws(more)
    ensures more != [] && !IsOverlong(more) && (exists k :: 0 <= k < |more| && more[k] < 128) ==>
      OnBytes([0] + more) == Undefined
    ensures more != [] && !IsOverlong(more) && (forall k :: 0 <= k < |more| ==> more[k] >= 128) ==>
      OnBytes([0] + more).Takes? && OnBytes([0] + more).msg.payload == [] && OnBytes([0] + more).rest == more
  {
    VarIntZero();
    ReadInvertsWrite(0, more);
    TooBigIff(more);
    assert ([0] + more)[1..] == more;
    IncompleteIff(more, 0, 0);
    hide ReadFrom, VarInt;
    assert ToSigned(0) == 0;
  }

  lemma VarIntZero()
    ensures VarInt(0) == [0]
  {
  }

  lemma {:induction false} IncompleteIff(s: seq<byte>, k: nat, acc: uint32)
    requires k <= 5
    ensures ReadFrom(s, k, acc).Incomplete? <==> |s| <= 5 - k && forall i :: 0 <= i < |s| ==> s[i] >= 128
    decreases 5 - k
  {
    hide WithGroup, ToSigned;
    if s != [] && k < 5 && s[0] >= 128 {
      IncompleteIff(s[1..], k + 1, WithGroup(acc, s[0], k));
      assert forall i :: 0 < i < |s| ==> s[i] == s[1..][i - 1];
    }
  }

  /** A frame of any length that is not negative: it is waited for while bytes are missing.  Then the id is
      read, in the frame or beyond it: overlong, it throws; ending with byte k of the frame, it is followed by
      the payload; ending beyond the frame, it leads astray; not ending, it counts as part of the payload. */
  lemma AnyFrame(length: nat, tail: seq<byte>, k: nat)
    requires length < TWO_TO_THE_31 && tail != []
    ensures var bytes := VarInt(length) + tail;
      && (|tail| < length ==> OnBytes(bytes) == Waits)
      && (|tail| >= length && IsOverlong(tail) ==> OnBytes(bytes) == Throws(tail))
      && (k < |tail| && k < 5 && tail[k] < 128 && (forall i :: 0 <= i < k ==> tail[i] >= 128) ==>
            (k < length <= |tail| ==>
               OnBytes(bytes) == Takes(Msg(ReadVarInt(tail).value, tail[k + 1..length]), tail[length..]))
            && (length <= k ==> OnBytes(bytes) == Undefined))
      && (length <= |tail| <= 5 && (forall i :: 0 <= i < |tail| ==> tail[i] >= 128) ==>
            OnBytes(bytes) == Takes(Msg(ReadVarInt(tail).partial, tail[..length]), tail[length..]))
  {
    LengthFirst(length, tail);
    TooBigIff(tail);
    if k < |tail| && k < 5 && tail[k] < 128 && (forall i :: 0 <= i < k ==> tail[i] >= 128) {
      ReadMeans(tail, k);
    }
    if |tail| <= 5 && (forall i :: 0 <= i < |tail| ==> tail[i] >= 128) {
      ReadSoFar(tail);
    }
    hide OnBytes, ReadVarInt, VarInt, IsOverlong, Groups;
  }

  lemma LengthFirst(length: nat, tail: seq<byte>)
    requires length < TWO_TO_THE_31
    ensures OnBytes(VarInt(length) + tail) == if |tail| >= length then Parse(length, tail) else Waits
  {
    hide VarInt, ReadVarInt, Parse;
    var head := VarInt(length);
    ReadInvertsWrite(length, tail);
    assert ToSigned(length) == length;
    hide ToSigned;
    NoWrap(length, |head|);
    assert (head + tail)[|head|..] == tail;
  }

  lemma NoWrap(length: nat, size: nat)
    requires length < TWO_TO_THE_31 && size <= 5
    ensures length % TWO_TO_THE_64 == length && (length + size) % TWO_TO_THE_64 == length + size
  {
  }

  /** A length below -5 wraps around to one that no buffer can hold: the client waits for ever. */
  lemma NegativeLengthWaits(length: int32, more: seq<byte>)
    requires length < -5 && |more| < TWO_TO_THE_31
    ensures OnBytes(VarInt(length + 0x1_0000_0000) + more) == Waits
  {
    hide ReadVarInt, VarInt, Parse;
    ReadInvertsWrite(length + TWO_TO_THE_32, more);
    var size := |VarInt(length + TWO_TO_THE_32)|;
    assert ToSigned(length + TWO_TO_THE_32) == length;
    WrapsAround(length + size);
  }

  lemma WrapsAround(n: int)
    requires -TWO_TO_THE_32 <= n < 0
    ensures n % TWO_TO_THE_64 == n + TWO_TO_THE_64
  {
  }
}
