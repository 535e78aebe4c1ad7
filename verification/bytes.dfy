/** Bytes and lines, shared by the wire formats. */
module Bytes {

  type Byte = x: int | 0 <= x < 256

  const CR: Byte := 13
  const LF: Byte := 10

  predicate IsDigit(c: Byte)
  {
    48 <= c <= 57
  }

  predicate IsHexDigit(c: Byte)
  {
    IsDigit(c) || 65 <= c <= 70 || 97 <= c <= 102
  }

  /** The leading digits. */
  function Digits(s: seq<Byte>): (d: seq<Byte>)
    ensures d <= s && forall i :: 0 <= i < |d| ==> IsDigit(d[i])
  {
    if s != [] && IsDigit(s[0]) then [s[0]] + Digits(s[1..]) else []
  }

  function DigitValue(d: seq<Byte>): (n: nat)
    requires forall i :: 0 <= i < |d| ==> IsDigit(d[i])
  {
    if d == [] then 0 else
      var c: int := d[|d| - 1];
      assert IsDigit(d[|d| - 1]);
      DigitValue(d[..|d| - 1]) * 10 + (c - 48)
  }

  /** Leading digits end at the first other byte. */
  lemma {:induction false} DigitsStop(d: seq<Byte>, t: seq<Byte>)
    requires forall i :: 0 <= i < |d| ==> IsDigit(d[i])
    requires t == [] || !IsDigit(t[0])
    ensures Digits(d + t) == d
  {
    if d == [] {
      assert d + t == t;
    } else {
      assert (d + t)[0] == d[0] && (d + t)[1..] == d[1..] + t;
      DigitsStop(d[1..], t);
    }
  }
}
