/**
 UTF-8 (RFC 3629, section 3) over Unicode scalar values. Node's `crypto`
 hashes strings as their UTF-8 bytes, and the form-urlencoded serializer
 percent-encodes the UTF-8 bytes of each name and value.
 */
module Utf8 {
  import opened Wrappers

  type byte = b: int | 0 <= b < 0x100

  predicate IsContinuation(b: byte) {
    0x80 <= b < 0xC0
  }

  /** The one-to-four byte encoding of a single scalar value. */
  function EncodeChar(c: char): (bs: seq<byte>)
    ensures 1 <= |bs| <= 4
    ensures |bs| == 1 <==> (c as int) < 0x80
    ensures |bs| == 1 ==> bs[0] == c as int
    ensures forall i :: 0 <= i < |bs| ==> (|bs| > 1 ==> 0x80 <= bs[i])
  {
    var cp := c as int;
    if cp < 0x80 then [cp]
    else if cp < 0x800 then [0xC0 + cp / 64, 0x80 + cp % 64]
    else if cp < 0x10000 then [0xE0 + cp / 4096, 0x80 + (cp / 64) % 64, 0x80 + cp % 64]
    else [0xF0 + cp / 262144, 0x80 + (cp / 4096) % 64, 0x80 + (cp / 64) % 64, 0x80 + cp % 64]
  }

  function Encode(s: string): seq<byte>
  {
    if |s| == 0 then [] else EncodeChar(s[0]) + Encode(s[1..])
  }

  /**
   Decodes the scalar value at the front of `bs` and says how many bytes it
   took; `None` when the front is not a well-formed (shortest, non-surrogate)
   encoding.
   */
  function DecodeFirst(bs: seq<byte>): (r: Option<(char, nat)>)
    requires |bs| > 0
    ensures r.Some? ==> 1 <= r.value.1 <= |bs|
  {
    var b0: int := bs[0];
    if b0 < 0x80 then Some((b0 as char, 1))
    else if 0xC2 <= b0 < 0xE0 then
      if |bs| >= 2 && IsContinuation(bs[1]) then
        Some((((b0 - 0xC0) * 64 + (bs[1] as int - 0x80)) as char, 2))
      else None
    else if 0xE0 <= b0 < 0xF0 then
      if |bs| >= 3 && IsContinuation(bs[1]) && IsContinuation(bs[2]) then
        var cp := (b0 - 0xE0) * 4096 + (bs[1] as int - 0x80) * 64 + (bs[2] as int - 0x80);
        if 0x800 <= cp && !(0xD800 <= cp < 0xE000) then Some((cp as char, 3)) else None
      else None
    else if 0xF0 <= b0 < 0xF5 then
      if |bs| >= 4 && IsContinuation(bs[1]) && IsContinuation(bs[2]) && IsContinuation(bs[3]) then
        var cp := (b0 - 0xF0) * 262144 + (bs[1] as int - 0x80) * 4096 + (bs[2] as int - 0x80) * 64 + (bs[3] as int - 0x80);
        if 0x10000 <= cp < 0x110000 then Some((cp as char, 4)) else None
      else None
    else None
  }

  /** Strict decoding: `None` on any malformed sequence. */
  function Decode(bs: seq<byte>): Option<string>
    decreases |bs|
  {
    if |bs| == 0 then Some("")
    else
      match DecodeFirst(bs)
      case None => None
      case Some((c, n)) =>
        match Decode(bs[n..])
        case None => None
        case Some(rest) => Some([c] + rest)
  }

  /** Decoding the first character of an encoding gives that character and its length back. */
  lemma DecodeFirstEncodeChar(c: char, rest: seq<byte>)
    ensures DecodeFirst(EncodeChar(c) + rest) == Some((c, |EncodeChar(c)|))
  {
    var cp := c as int;
    if cp < 0x80 {
    } else if cp < 0x800 {
      DecodeFirstTwo(c, rest);
    } else if cp < 0x10000 {
      DecodeFirstThree(c, rest);
    } else {
      DecodeFirstFour(c, rest);
    }
  }

  lemma DecodeFirstTwo(c: char, rest: seq<byte>)
    requires 0x80 <= c as int < 0x800
    ensures DecodeFirst(EncodeChar(c) + rest) == Some((c, 2))
  {
    var cp := c as int;
    var bs := EncodeChar(c) + rest;
    assert bs[0] == 0xC0 + cp / 64 && bs[1] == 0x80 + cp % 64;
    assert (cp / 64) * 64 + cp % 64 == cp;
  }

  lemma DecodeFirstThree(c: char, rest: seq<byte>)
    requires 0x800 <= c as int < 0x10000
    ensures DecodeFirst(EncodeChar(c) + rest) == Some((c, 3))
  {
    var cp := c as int;
    var bs := EncodeChar(c) + rest;
    var hi, mid, lo := cp / 4096, (cp / 64) % 64, cp % 64;
    assert bs[0] == 0xE0 + hi && bs[1] == 0x80 + mid && bs[2] == 0x80 + lo;
    assert cp / 64 == hi * 64 + mid;
    assert hi * 4096 + mid * 64 + lo == cp;
  }

  lemma DecodeFirstFour(c: char, rest: seq<byte>)
    requires 0x10000 <= c as int
    ensures DecodeFirst(EncodeChar(c) + rest) == Some((c, 4))
  {
    var cp := c as int;
    var bs := EncodeChar(c) + rest;
    var top, hi, mid, lo := cp / 262144, (cp / 4096) % 64, (cp / 64) % 64, cp % 64;
    assert bs[0] == 0xF0 + top && bs[1] == 0x80 + hi && bs[2] == 0x80 + mid && bs[3] == 0x80 + lo;
    assert cp / 4096 == top * 64 + hi;
    assert cp / 64 == (cp / 4096) * 64 + mid;
    assert top * 262144 + hi * 4096 + mid * 64 + lo == cp;
  }

  /** Decoding inverts encoding for every string. */
  lemma {:induction false} DecodeEncode(s: string)
    ensures Decode(Encode(s)) == Some(s)
  {
    if |s| > 0 {
      var bs := Encode(s);
      var n := |EncodeChar(s[0])|;
      DecodeFirstEncodeChar(s[0], Encode(s[1..]));
      assert bs[n..] == Encode(s[1..]);
      DecodeEncode(s[1..]);
      assert [s[0]] + s[1..] == s;
    }
  }

  /** A string of ASCII characters is encoded as its character codes. */
  lemma {:induction false} EncodeAscii(s: string)
    requires forall i :: 0 <= i < |s| ==> (s[i] as int) < 0x80
    ensures |Encode(s)| == |s|
    ensures forall i :: 0 <= i < |s| ==> Encode(s)[i] == s[i] as int
  {
    if |s| > 0 {
      EncodeAscii(s[1..]);
    }
  }

  lemma {:induction false} EncodeAppend(a: string, b: string)
    ensures Encode(a + b) == Encode(a) + Encode(b)
  {
    if |a| > 0 {
      assert (a + b)[1..] == a[1..] + b;
      EncodeAppend(a[1..], b);
    } else {
      assert a + b == b;
    }
  }
}
