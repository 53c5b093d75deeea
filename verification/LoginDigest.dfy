/** The hexadecimal form of the login digest: Client::receivedMessage and hexStr of
    Client Gateway/Client.cpp, for a digest of any length. */
module LoginDigest {
  import opened Basics

  // ----- what the bytes mean -----

  function Pow256(n: nat): (p: nat)
    ensures p >= 1
  {
    if n == 0 then 1 else 256 * Pow256(n - 1)
  }

  /** The number that big-endian bytes denote. */
  function Value(s: seq<byte>): nat {
    if s == [] then 0 else s[0] * Pow256(|s| - 1) + Value(s[1..])
  }

  /** The number they denote in two's complement. */
  function TwosComplement(s: seq<byte>): int {
    if s != [] && s[0] >= 128 then Value(s) - Pow256(|s|) else Value(s)
  }

  lemma Multiples(b: nat, p: nat, v: nat)
    requires p >= 1
    ensures b < 256 && v < p ==> b * p + v < 256 * p
    ensures b > 0 ==> b * p >= p
    ensures b == 0 ==> b * p == 0
  {
    if b < 256 {
      assert b * p <= 255 * p;
    }
  }

  lemma {:induction false} ValueBelow(s: seq<byte>)
    ensures Value(s) < Pow256(|s|)
  {
    if s != [] {
      ValueBelow(s[1..]);
      Multiples(s[0], Pow256(|s| - 1), Value(s[1..]));
    }
  }

  lemma {:induction false} ValueSnoc(s: seq<byte>)
    requires s != []
    ensures Value(s) == 256 * Value(s[..|s| - 1]) + s[|s| - 1]
  {
    var front := s[..|s| - 1];
    if |s| == 1 {
      assert Value(s[1..]) == 0 && Value(front) == 0 && Pow256(0) == 1;
    } else {
      ValueSnoc(s[1..]);
      assert s[1..][..|s| - 2] == front[1..];
      assert s[0] * (256 * Pow256(|s| - 2)) == 256 * (s[0] * Pow256(|s| - 2));
    }
  }

  lemma {:induction false} ZeroIff(s: seq<byte>)
    ensures Value(s) == 0 <==> forall i :: 0 <= i < |s| ==> s[i] == 0
  {
    if s != [] {
      ZeroIff(s[1..]);
      Multiples(s[0], Pow256(|s| - 1), Value(s[1..]));
      assert forall i :: 0 < i < |s| ==> s[i] == s[1..][i - 1];
    }
  }

  // ----- hexadecimal digits -----

  const HEXMAP := "0123456789abcdef"

  predicate IsHex(c: char) {
    '0' <= c <= '9' || 'a' <= c <= 'f'
  }

  function DigitValue(c: char): (d: nat)
    requires IsHex(c)
    ensures d < 16 && HEXMAP[d] == c
  {
    if '0' <= c <= '9' then (c - '0') as nat else 10 + (c - 'a') as nat
  }

  predicate AllHex(s: string) {
    forall i :: 0 <= i < |s| ==> IsHex(s[i])
  }

  /** The number that hexadecimal digits denote. */
  function HexValue(s: string): nat
    requires AllHex(s)
  {
    if s == [] then 0 else 16 * HexValue(s[..|s| - 1]) + DigitValue(s[|s| - 1])
  }

  /** Digits without leading zeros, after a minus sign if the number is negative. */
  predicate IsCanonical(s: string) {
    var digits := if s != [] && s[0] == '-' then s[1..] else s;
    digits != [] && AllHex(digits) && digits[0] != '0'
  }

  function SignedValue(s: string): int
    requires IsCanonical(s)
  {
    if s[0] == '-' then 0 - HexValue(s[1..]) else HexValue(s)
  }

  /** Two hexadecimal digits a byte. */
  function HexOf(s: seq<byte>): (hex: string)
    ensures |hex| == 2 * |s|
  {
    if s == [] then [] else HexOf(s[..|s| - 1]) + [HEXMAP[s[|s| - 1] / 16], HEXMAP[s[|s| - 1] % 16]]
  }

  lemma HexmapDigit(d: nat)
    requires d < 16
    ensures IsHex(HEXMAP[d]) && DigitValue(HEXMAP[d]) == d
  {
  }

  lemma {:induction false} HexOfMeans(s: seq<byte>)
    ensures AllHex(HexOf(s)) && HexValue(HexOf(s)) == Value(s)
  {
    if s != [] {
      var front, last, hex := s[..|s| - 1], s[|s| - 1], HexOf(s);
      HexOfMeans(front);
      ValueSnoc(s);
      HexmapDigit(last / 16);
      HexmapDigit(last % 16);
      assert hex[..|hex| - 1][..|hex| - 2] == HexOf(front);
    }
  }

  // ----- the source's steps -----

  /** Bytes and their negation, with the carry that comes out of them. */
  ghost predicate Negated(was: seq<byte>, now: seq<byte>, carry: bool) {
    && |was| == |now|
    && if carry then Value(was) == 0 && Value(now) == 0
       else Value(was) > 0 && Value(now) + Value(was) == Pow256(|was|)
  }

  lemma TwoMultiples(b: nat, c: nat, p: nat, k: nat)
    requires b + c == k
    ensures b * p + c * p == k * p
  {
  }

  /** The source's treatment of one byte: complement it, and add the carry. */
  function NegatedByte(b: byte, carry: bool): byte {
    if !carry then 255 - b else if b == 0 then 0 else 256 - b
  }

  /** One byte more, in front of those done. */
  lemma OneByteNegated(b: byte, was: seq<byte>, now: seq<byte>, carry: bool)
    requires Negated(was, now, carry)
    ensures Negated([b] + was, [NegatedByte(b, carry)] + now, carry && b == 0)
  {
    var p, c := Pow256(|was|), NegatedByte(b, carry);
    assert ([b] + was)[1..] == was && ([c] + now)[1..] == now;
    assert Value([b] + was) == b * p + Value(was) && Value([c] + now) == c * p + Value(now);
    assert Pow256(|was| + 1) == 256 * p;
    hide Value, Pow256;
    Multiples(b, p, 0);
    if carry && b > 0 {
      TwoMultiples(b, c, p, 256);
    } else if !carry {
      TwoMultiples(b, c, p, 255);
    }
  }

  /** The loop that makes a negative digest its two's complement, in place. */
  method Negate(digest: array<byte>)
    modifies digest
    ensures Value(digest[..]) + Value(old(digest[..])) ==
      if Value(old(digest[..])) == 0 then 0 else Pow256(digest.Length)
  {
    var carry := true;
    var i := digest.Length - 1;
    ghost var was := digest[..];
    while i >= 0
      invariant -1 <= i < digest.Length
      invariant digest[..i + 1] == was[..i + 1]
      invariant Negated(was[i + 1..], digest[i + 1..], carry)
    {
      hide Negated;
      ghost var b, now, carried := digest[i], digest[i + 1..], carry;
      OneByteNegated(b, was[i + 1..], now, carry);
      assert b == was[i];
      var complement: int := 255 - digest[i];
      digest[i] := complement;
      if carry {
        carry := complement == 0xFF;
        digest[i] := (complement + 1) % 256;
      }
      assert digest[i] == NegatedByte(b, carried);
      assert digest[i..] == [digest[i]] + now && was[i..] == [b] + was[i + 1..];
      i := i - 1;
    }
    assert digest[0..] == digest[..] && was[0..] == was;
  }

  /** hexStr */
  method HexStr(data: array<byte>) returns (s: string)
    ensures s == HexOf(data[..])
  {
    var chars := new char[data.Length * 2](_ => ' ');
    var i := 0;
    while i < data.Length
      invariant 0 <= i <= data.Length
      invariant chars[..2 * i] == HexOf(data[..i])
    {
      chars[2 * i] := HEXMAP[data[i] / 16];
      chars[2 * i + 1] := HEXMAP[data[i] % 16];
      assert data[..i + 1][..i] == data[..i];
      assert chars[..2 * (i + 1)] == chars[..2 * i] + [chars[2 * i], chars[2 * i + 1]];
      i := i + 1;
    }
    assert data[..i] == data[..];
    s := chars[..];
  }

  /** Erasing a leading zero. */
  lemma {:induction false} LeadingZero(s: string)
    requires s != [] && s[0] == '0' && AllHex(s)
    ensures HexValue(s) == HexValue(s[1..])
  {
    if |s| > 1 {
      var front := s[..|s| - 1];
      LeadingZero(front);
      assert s[1..][..|s| - 2] == front[1..];
    }
  }

  /** The form of the digest that is sent to the session server.  The digest is not all zeros. */
  method HexDigest(digest: array<byte>) returns (hash: string)
    requires exists i :: 0 <= i < digest.Length && digest[i] != 0
    modifies digest
    ensures IsCanonical(hash) && SignedValue(hash) == TwosComplement(old(digest[..]))
  {
    ghost var was := digest[..];
    ZeroIff(was);
    ValueBelow(was);
    var negative := digest[0] >= 0x80;
    if negative {
      Negate(digest);
    }
    ghost var magnitude: int := Value(digest[..]);
    hash := HexStr(digest);
    HexOfMeans(digest[..]);
    hide HexOf, HexValue, IsHex, Value, Pow256;
    assert magnitude > 0 && TwosComplement(was) == if negative then -magnitude else magnitude;
    NotEmpty(hash);
    while hash[0] == '0'
      invariant AllHex(hash) && hash != [] && HexValue(hash) == magnitude
      decreases |hash|
    {
      LeadingZero(hash);
      hash := hash[1..];
      NotEmpty(hash);
    }
    MinusIsNoDigit(hash);
    if negative {
      ghost var digits := hash;
      hash := ['-'] + hash;
      assert hash[1..] == digits;
    }
  }

  lemma NotEmpty(s: string)
    requires AllHex(s)
    ensures HexValue(s) > 0 ==> s != []
  {
  }

  lemma MinusIsNoDigit(s: string)
    requires AllHex(s) && s != []
    ensures s[0] != '-'
  {
  }

  // ----- the form is unique -----

  lemma LeadingDigitCounts(s: string)
    requires AllHex(s) && s != [] && s[0] != '0'
    ensures HexValue(s) > 0
  {
    if |s| > 1 {
      LeadingDigitCounts(s[..|s| - 1]);
    }
  }

  lemma {:induction false} SameDigits(s: string, t: string)
    requires AllHex(s) && AllHex(t) && HexValue(s) == HexValue(t)
    requires (s != [] ==> s[0] != '0') && (t != [] ==> t[0] != '0')
    ensures s == t
    decreases |s|
  {
    hide HexValue, IsHex;
    if s == [] || t == [] {
      OnlyEmptyIsZero(s);
      OnlyEmptyIsZero(t);
    } else {
      var s', t' := s[..|s| - 1], t[..|t| - 1];
      LastDigit(s', s[|s| - 1]);
      LastDigit(t', t[|t| - 1]);
      assert s == s' + [s[|s| - 1]] && t == t' + [t[|t| - 1]];
      SameDigits(s', t');
    }
  }

  lemma OnlyEmptyIsZero(s: string)
    requires AllHex(s) && (s != [] ==> s[0] != '0')
    ensures HexValue(s) == 0 <==> s == []
  {
    if s != [] {
      LeadingDigitCounts(s);
    }
  }

  lemma LastDigit(front: string, last: char)
    requires AllHex(front) && IsHex(last)
    ensures AllHex(front + [last]) && HexValue(front + [last]) == 16 * HexValue(front) + DigitValue(last)
  {
    assert (front + [last])[..|front|] == front;
  }

  /** No two canonical strings denote the same number, so that the string sent for a digest is the
      signed hexadecimal form of it. */
  lemma CanonicalIsUnique(s: string, t: string)
    requires IsCanonical(s) && IsCanonical(t) && SignedValue(s) == SignedValue(t)
    ensures s == t
  {
    var s', t' := if s[0] == '-' then s[1..] else s, if t[0] == '-' then t[1..] else t;
    LeadingDigitCounts(s');
    LeadingDigitCounts(t');
    SameDigits(s', t');
    if s[0] == '-' {
      assert s == ['-'] + s' && t == ['-'] + t';
    }
  }

  // ----- the digits themselves -----

  /** The sixteen digits are those of lower-case hexadecimal, in order. */
  lemma HexDigitsAre(c: char)
    ensures HEXMAP == "0123456789abcdef"
    ensures IsHex(c) <==> '0' <= c <= '9' || 'a' <= c <= 'f'
    ensures '0' <= c <= '9' ==> DigitValue(c) == c as int - '0' as int
    ensures 'a' <= c <= 'f' ==> DigitValue(c) == 10 + c as int - 'a' as int
  {
  }

  /** The number that hexadecimal digits denote, the last of which counts once and the one before it sixteen
      times; a minus sign makes it negative. */
  lemma SmallNumbers(a: char, b: char)
    requires IsHex(a) && IsHex(b) && a != '0'
    ensures IsCanonical([a]) && SignedValue([a]) == DigitValue(a)
    ensures IsCanonical([a, b]) && SignedValue([a, b]) == 16 * DigitValue(a) + DigitValue(b)
    ensures IsCanonical(['-', a, b]) && SignedValue(['-', a, b]) == -16 * DigitValue(a) - DigitValue(b)
  {
    assert [a, b][..1] == [a] && [a][..0] == [] && ['-', a, b][1..] == [a, b];
    hide DigitValue;
    assert HexValue([]) == 0 && HexValue([a]) == DigitValue(a);
  }

  /** Two's complement of one and two bytes, the first of which is the high one. */
  lemma SmallDigests(a: byte, b: byte)
    ensures TwosComplement([a]) == if a >= 128 then a as int - 256 else a as int
    ensures TwosComplement([a, b]) == 256 * a as int + b as int - if a >= 128 then 0x1_0000 else 0
  {
    assert [a, b][1..] == [b] && [b][1..] == [] && [a][1..] == [];
    assert Pow256(0) == 1 && Pow256(1) == 256 && Pow256(2) == 0x1_0000;
    assert Value([]) == 0 && Value([b]) == b && Value([a]) == a;
  }
}
