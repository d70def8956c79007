/**
 Renderings of numbers as text: the decimal `String(n)` of a non-negative
 integer (how `URLSearchParams` turns the millisecond timestamp into a value)
 and the lowercase hexadecimal of a digest (`digest('hex')`).
 */
module Numerals {
  import opened Utf8

  predicate IsDigit(c: char) {
    '0' <= c <= '9'
  }

  predicate IsLowerHex(c: char) {
    '0' <= c <= '9' || 'a' <= c <= 'f'
  }

  function DigitChar(d: int): (c: char)
    requires 0 <= d < 10
    ensures IsDigit(c)
  {
    ('0' as int + d) as char
  }

  /** The value a string of decimal digits denotes. */
  function DecimalValue(s: string): nat
    requires forall i :: 0 <= i < |s| ==> IsDigit(s[i])
  {
    if |s| == 0 then 0
    else
      assert IsDigit(s[|s| - 1]);
      DecimalValue(s[..|s| - 1]) * 10 + (s[|s| - 1] as int - '0' as int)
  }

  /** JavaScript's `String(n)` for a non-negative integer below 10^21. */
  function DecimalString(n: nat): (s: string)
    ensures |s| >= 1
    ensures forall i :: 0 <= i < |s| ==> IsDigit(s[i])
    ensures s[0] == '0' <==> n == 0
    ensures DecimalValue(s) == n
  {
    var last := [DigitChar(n % 10)];
    if n < 10 then last
    else
      var prefix := DecimalString(n / 10);
      var s := prefix + last;
      assert s[..|s| - 1] == prefix;
      s
  }

  function LowerHexChar(d: int): (c: char)
    requires 0 <= d < 16
    ensures IsLowerHex(c)
  {
    if d < 10 then ('0' as int + d) as char else ('a' as int + d - 10) as char
  }

  /** The value of a hexadecimal digit of either case, as a percent-decoder reads it. */
  function HexDigitValue(c: char): (d: int)
    ensures -1 <= d < 16
    ensures d == -1 <==> !('0' <= c <= '9' || 'a' <= c <= 'f' || 'A' <= c <= 'F')
  {
    if '0' <= c <= '9' then c as int - '0' as int
    else if 'a' <= c <= 'f' then c as int - 'a' as int + 10
    else if 'A' <= c <= 'F' then c as int - 'A' as int + 10
    else -1
  }

  /** `digest('hex')`: two lowercase hex digits per byte, high nibble first. */
  function HexLower(bs: seq<byte>): (s: string)
    ensures |s| == 2 * |bs|
    ensures forall i :: 0 <= i < |s| ==> IsLowerHex(s[i])
    ensures forall i :: 0 <= i < |bs| ==> HexDigitValue(s[2 * i]) * 16 + HexDigitValue(s[2 * i + 1]) == bs[i]
  {
    if |bs| == 0 then ""
    else
      var rest := HexLower(bs[1..]);
      var s := [LowerHexChar(bs[0] / 16), LowerHexChar(bs[0] % 16)] + rest;
      assert HexDigitValue(s[0]) * 16 + HexDigitValue(s[1]) == bs[0];
      PairsShift(s, rest, |bs|);
      s
  }

  /** Behind a two-character prefix, the `i`-th pair of `s` is the `(i-1)`-th pair of `rest`. */
  lemma PairsShift(s: string, rest: string, n: nat)
    requires |rest| == 2 * (n - 1) && n >= 1
    requires |s| >= 2 && s == s[..2] + rest
    ensures forall i :: 1 <= i < n ==> s[2 * i] == rest[2 * (i - 1)] && s[2 * i + 1] == rest[2 * (i - 1) + 1]
  {
    forall i | 1 <= i < n
      ensures s[2 * i] == rest[2 * (i - 1)] && s[2 * i + 1] == rest[2 * (i - 1) + 1]
    {
      assert 2 * i == 2 + 2 * (i - 1);
    }
  }
}
