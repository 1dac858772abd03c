/** Digits, and lower-case hexadecimal with two digits an octet. */
module Hex {
  import opened Octets

  /** A base-36 digit; the first sixteen are the hexadecimal ones. */
  function Digit(n: int): (c: char)
    requires 0 <= n < 36
    ensures DigitValue(c) == n
    ensures n < 10 <==> '0' <= c <= '9'
    ensures n >= 10 <==> 'a' <= c <= 'z'
  {
    if n < 10 then ('0' as int + n) as char else ('a' as int + (n - 10)) as char
  }

  function DigitValue(c: char): (n: int) {
    if '0' <= c <= '9' then c as int - '0' as int
    else if 'a' <= c <= 'z' then c as int - 'a' as int + 10
    else -1
  }

  /** The alphabet, written out: digits, then lower-case letters; no other character is a digit. */
  lemma Alphabet(c: char)
    ensures seq(10, i requires 0 <= i < 10 => Digit(i)) == "0123456789"
    ensures seq(26, i requires 0 <= i < 26 => Digit(i + 10)) == "abcdefghijklmnopqrstuvwxyz"
    ensures DigitValue(c) < 36
    ensures DigitValue(c) >= 0 ==> Digit(DigitValue(c)) == c
  {
  }

  function Octet(b: Byte): (s: string)
    ensures |s| == 2
    ensures DigitValue(s[0]) * 16 + DigitValue(s[1]) == b
  {
    [Digit(b / 16), Digit(b % 16)]
  }

  function Encode(bs: Bytes): (s: string)
    ensures |s| == 2 * |bs|
  {
    if bs == [] then "" else Octet(bs[0]) + Encode(bs[1..])
  }

  lemma {:induction false} EncodeInjective(a: Bytes, b: Bytes)
    requires Encode(a) == Encode(b)
    ensures a == b
  {
    if a != [] {
      assert |a| == |b|;
      assert Encode(a)[..2] == Octet(a[0]) && Encode(a)[2..] == Encode(a[1..]);
      assert Encode(b)[..2] == Octet(b[0]) && Encode(b)[2..] == Encode(b[1..]);
      assert Octet(a[0]) == Octet(b[0]);
      EncodeInjective(a[1..], b[1..]);
      assert a == [a[0]] + a[1..] && b == [b[0]] + b[1..];
    }
  }
}
