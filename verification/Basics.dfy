/** Bytes, digits and powers of two that several models share. */
module Basics {

  type byte = x: int | 0 <= x < 256

  const TWO_TO_THE_21: int := 0x20_0000
  const TWO_TO_THE_31: int := 0x8000_0000
  const TWO_TO_THE_32: int := 0x1_0000_0000
  const TWO_TO_THE_64: int := 0x1_0000_0000_0000_0000

  function Digit(d: nat): char
    requires d < 10
  {
    '0' + d as char
  }

  predicate IsDigit(c: char) {
    '0' <= c <= '9'
  }

  function DigitValue(c: char): nat
    requires IsDigit(c)
  {
    (c - '0') as nat
  }

  /** The decimal digits at the front of s, as a number, after `acc`. */
  function Leading(s: string, acc: nat): nat {
    if s == [] || !IsDigit(s[0]) then acc else Leading(s[1..], 10 * acc + DigitValue(s[0]))
  }

  lemma LeadingStep(c: char, rest: string, acc: nat)
    ensures Leading([c] + rest, acc) == if IsDigit(c) then Leading(rest, 10 * acc + DigitValue(c)) else acc
  {
    assert ([c] + rest)[1..] == rest;
  }

  lemma ConcatAssociates<T>(a: seq<T>, b: seq<T>, c: seq<T>)
    ensures (a + b) + c == a + (b + c)
  {
  }
}
