/**
 The application/x-www-form-urlencoded serializer of the WHATWG URL
 Standard, section 5.2, with UTF-8 as the encoding: what
 `URLSearchParams.prototype.toString` produces. Its partner is a strict
 variant of the section 5.1 parser, standing for what a receiving server
 reads back: where section 5.1 decodes malformed UTF-8 to U+FFFD, this
 parser yields None.
 */
module FormUrlEncoded {
  import opened Wrappers
  import opened Utf8
  import opened JsObject
  import Numerals

  /** Bytes left as they are: ASCII alphanumerics and `*`, `-`, `.`, `_`. */
  predicate IsUnreservedByte(b: byte) {
    || 0x30 <= b <= 0x39
    || 0x41 <= b <= 0x5A
    || 0x61 <= b <= 0x7A
    || b == 0x2A || b == 0x2D || b == 0x2E || b == 0x5F
  }

  predicate IsUnreservedChar(c: char) {
    (c as int) < 0x80 && IsUnreservedByte(c as int)
  }

  /** The characters an encoded name or value can contain. */
  predicate IsEncodedChar(c: char) {
    c == '+' || c == '%' || IsUnreservedChar(c)
  }

  function UpperHexChar(d: int): (c: char)
    requires 0 <= d < 16
    ensures IsUnreservedChar(c)
    ensures Numerals.HexDigitValue(c) == d
  {
    if d < 10 then ('0' as int + d) as char else ('A' as int + d - 10) as char
  }

  /** One byte: space becomes `+`, unreserved bytes stay, others become `%XY`. */
  function EncodeByte(b: byte): (s: string)
    ensures forall i :: 0 <= i < |s| ==> IsEncodedChar(s[i])
    ensures |s| > 0
  {
    if b == 0x20 then "+"
    else if IsUnreservedByte(b) then [b as char]
    else ['%', UpperHexChar(b / 16), UpperHexChar(b % 16)]
  }

  function PercentEncode(bs: seq<byte>): (s: string)
    ensures forall i :: 0 <= i < |s| ==> IsEncodedChar(s[i])
  {
    if |bs| == 0 then "" else EncodeByte(bs[0]) + PercentEncode(bs[1..])
  }

  /** Percent-encode after encoding (UTF-8), with space as plus. */
  function EncodeComponent(s: string): string
  {
    PercentEncode(Utf8.Encode(s))
  }

  /** An encoded name or value never contains the separators `&` and `=`. */
  lemma EncodedHasNoSeparators(s: string)
    ensures '&' !in EncodeComponent(s) && '=' !in EncodeComponent(s)
  {
    var e := EncodeComponent(s);
    assert forall i :: 0 <= i < |e| ==> IsEncodedChar(e[i]);
  }

  function EncodePair(p: Pair): string {
    EncodeComponent(p.0) + "=" + EncodeComponent(p.1)
  }

  /**
   The serializer: for each name-value pair in order, append `&` unless the
   output is still empty, then the encoded name, `=`, and the encoded value.
   */
  function Serialize(ps: seq<Pair>): (out: string)
    ensures out == "" <==> |ps| == 0
    decreases |ps|
  {
    if |ps| == 0 then ""
    else
      var out := Serialize(ps[..|ps| - 1]);
      (if out == "" then "" else out + "&") + EncodePair(ps[|ps| - 1])
  }

  // ---------------------------------------------------------------------
  // The parser, as the receiving side reads the query string back.

  /** Percent-decoding with `+` read as space; other characters contribute their UTF-8 bytes. */
  function PercentDecode(s: string): seq<byte>
    decreases |s|
  {
    if |s| == 0 then []
    else if s[0] == '%' && |s| >= 3 && Numerals.HexDigitValue(s[1]) >= 0 && Numerals.HexDigitValue(s[2]) >= 0 then
      [Numerals.HexDigitValue(s[1]) * 16 + Numerals.HexDigitValue(s[2])] + PercentDecode(s[3..])
    else if s[0] == '+' then [0x20] + PercentDecode(s[1..])
    else Utf8.EncodeChar(s[0]) + PercentDecode(s[1..])
  }

  function DecodeComponent(s: string): Option<string> {
    Utf8.Decode(PercentDecode(s))
  }

  function IndexOf(s: string, c: char): (i: nat)
    requires c in s
    ensures i < |s| && s[i] == c && c !in s[..i]
  {
    if s[0] == c then 0 else 1 + IndexOf(s[1..], c)
  }

  /** Splitting on every occurrence of `c`. */
  function SplitOn(s: string, c: char): (parts: seq<string>)
    ensures |parts| >= 1
    decreases |s|
  {
    if c !in s then [s]
    else
      var i := IndexOf(s, c);
      [s[..i]] + SplitOn(s[i + 1..], c)
  }

  /** One `name=value` piece; a piece without `=` is a name with an empty value. */
  function ParsePiece(piece: string): Option<Pair> {
    var (name, value) :=
      if '=' in piece then
        var i := IndexOf(piece, '=');
        (piece[..i], piece[i + 1..])
      else (piece, "");
    match (DecodeComponent(name), DecodeComponent(value))
    case (Some(n), Some(v)) => Some((n, v))
    case _ => None
  }

  /** Parses the pieces in order, skipping empty ones. */
  function ParsePieces(pieces: seq<string>): Option<seq<Pair>> {
    if |pieces| == 0 then Some([])
    else
      match ParsePieces(pieces[1..])
      case None => None
      case Some(rest) =>
        if pieces[0] == "" then Some(rest)
        else
          match ParsePiece(pieces[0])
          case None => None
          case Some(p) => Some([p] + rest)
  }

  function Parse(q: string): Option<seq<Pair>> {
    ParsePieces(SplitOn(q, '&'))
  }

  // ---------------------------------------------------------------------
  // Properties.

  lemma {:induction false} PercentEncodeAppend(a: seq<byte>, b: seq<byte>)
    ensures PercentEncode(a + b) == PercentEncode(a) + PercentEncode(b)
  {
    if |a| > 0 {
      assert (a + b)[1..] == a[1..] + b;
      PercentEncodeAppend(a[1..], b);
    } else {
      assert a + b == b;
    }
  }

  lemma PercentDecodeEncodeByte(b: byte, rest: string)
    ensures PercentDecode(EncodeByte(b) + rest) == [b] + PercentDecode(rest)
  {
    var s := EncodeByte(b) + rest;
    if b == 0x20 {
      assert s[0] == '+' && s[1..] == rest;
    } else if IsUnreservedByte(b) {
      assert s[0] == b as char && s[1..] == rest;
    } else {
      assert s[0] == '%' && s[3..] == rest;
      assert Numerals.HexDigitValue(s[1]) == b / 16;
      assert Numerals.HexDigitValue(s[2]) == b % 16;
    }
  }

  /** Percent-decoding inverts percent-encoding. */
  lemma {:induction false} PercentDecodeEncode(bs: seq<byte>)
    ensures PercentDecode(PercentEncode(bs)) == bs
  {
    if |bs| > 0 {
      PercentDecodeEncodeByte(bs[0], PercentEncode(bs[1..]));
      PercentDecodeEncode(bs[1..]);
      assert [bs[0]] + bs[1..] == bs;
    }
  }

  /** Every name or value is read back exactly as it was written. */
  lemma DecodeEncodeComponent(s: string)
    ensures DecodeComponent(EncodeComponent(s)) == Some(s)
  {
    PercentDecodeEncode(Utf8.Encode(s));
    Utf8.DecodeEncode(s);
  }

  /** A string of unreserved characters is written as it is. */
  lemma {:induction false} EncodeUnreserved(s: string)
    requires AllUnreserved(s)
    ensures EncodeComponent(s) == s
  {
    if |s| > 0 {
      assert Utf8.Encode(s) == [s[0] as int] + Utf8.Encode(s[1..]);
      PercentEncodeAppend([s[0] as int], Utf8.Encode(s[1..]));
      EncodeUnreserved(s[1..]);
      assert [s[0]] + s[1..] == s;
    }
  }

  /** Appending one more pair to a non-empty list appends `&name=value`. */
  lemma SerializeSnoc(ps: seq<Pair>, p: Pair)
    requires |ps| > 0
    ensures Serialize(ps + [p]) == Serialize(ps) + "&" + EncodePair(p)
  {
    assert (ps + [p])[..|ps|] == ps;
  }

  /** Every character of `s` is written as it is. */
  predicate AllUnreserved(s: string) {
    forall i :: 0 <= i < |s| ==> IsUnreservedChar(s[i])
  }

  lemma EncodePairUnreserved(k: string, v: string)
    requires AllUnreserved(k) && AllUnreserved(v)
    ensures EncodePair((k, v)) == k + "=" + v
  {
    EncodeUnreserved(k);
    EncodeUnreserved(v);
  }

  /** Appending a pair whose name and value need no escaping appends them verbatim. */
  lemma SerializeSnocUnreserved(ps: seq<Pair>, k: string, v: string)
    requires |ps| > 0
    requires AllUnreserved(k) && AllUnreserved(v)
    ensures Serialize(ps + [(k, v)]) == Serialize(ps) + "&" + k + "=" + v
  {
    var head := Serialize(ps);
    SerializeSnoc(ps, (k, v));
    EncodePairUnreserved(k, v);
    SeqAssoc(head, k, v);
  }

  /** Regrouping the appended piece; kept apart so the solver sees only strings here. */
  lemma SeqAssoc(head: string, k: string, v: string)
    ensures head + "&" + (k + "=" + v) == head + "&" + k + "=" + v
  {
  }

  /** `&` between consecutive pieces; the reference shape of a serialized list. */
  function Join(parts: seq<string>): string {
    if |parts| == 0 then ""
    else if |parts| == 1 then parts[0]
    else parts[0] + "&" + Join(parts[1..])
  }

  lemma {:induction false} JoinSnoc(parts: seq<string>, x: string)
    requires |parts| > 0
    ensures Join(parts + [x]) == Join(parts) + "&" + x
  {
    if |parts| > 1 {
      assert (parts + [x])[1..] == parts[1..] + [x];
      JoinSnoc(parts[1..], x);
    }
  }

  function EncodePairs(ps: seq<Pair>): (parts: seq<string>)
    ensures |parts| == |ps|
  {
    seq(|ps|, i requires 0 <= i < |ps| => EncodePair(ps[i]))
  }

  /** The serializer's output is the `&`-join of the encoded pairs. */
  lemma {:induction false} SerializeIsJoin(ps: seq<Pair>)
    ensures Serialize(ps) == Join(EncodePairs(ps))
    decreases |ps|
  {
    if |ps| > 1 {
      var init, last := ps[..|ps| - 1], ps[|ps| - 1];
      assert ps == init + [last];
      SerializeIsJoin(init);
      SerializeSnoc(init, last);
      EncodePairsSnoc(init, last);
      JoinSnoc(EncodePairs(init), EncodePair(last));
    }
  }

  lemma EncodePairsSnoc(ps: seq<Pair>, p: Pair)
    ensures EncodePairs(ps + [p]) == EncodePairs(ps) + [EncodePair(p)]
  {
    var l, r := EncodePairs(ps + [p]), EncodePairs(ps) + [EncodePair(p)];
    forall i | 0 <= i < |l| ensures l[i] == r[i] {
      if i < |ps| { assert (ps + [p])[i] == ps[i]; }
    }
  }

  lemma IndexOfAfter(x: string, c: char, y: string)
    requires c !in x
    ensures c in x + [c] + y
    ensures IndexOf(x + [c] + y, c) == |x|
  {
    var s := x + [c] + y;
    assert s[|x|] == c;
  }

  lemma {:induction false} SplitJoin(parts: seq<string>)
    requires |parts| > 0
    requires forall i :: 0 <= i < |parts| ==> '&' !in parts[i]
    ensures SplitOn(Join(parts), '&') == parts
  {
    if |parts| > 1 {
      var s := Join(parts);
      IndexOfAfter(parts[0], '&', Join(parts[1..]));
      assert s == parts[0] + ['&'] + Join(parts[1..]);
      assert s[..|parts[0]|] == parts[0];
      assert s[|parts[0]| + 1..] == Join(parts[1..]);
      SplitJoin(parts[1..]);
    }
  }

  lemma ParsePieceEncodePair(p: Pair)
    ensures ParsePiece(EncodePair(p)) == Some(p)
  {
    var n, v := EncodeComponent(p.0), EncodeComponent(p.1);
    EncodedHasNoSeparators(p.0);
    IndexOfAfter(n, '=', v);
    assert EncodePair(p) == n + ['='] + v;
    assert (n + ['='] + v)[..|n|] == n;
    assert (n + ['='] + v)[|n| + 1..] == v;
    DecodeEncodeComponent(p.0);
    DecodeEncodeComponent(p.1);
  }

  lemma {:induction false} ParsePiecesEncodePairs(ps: seq<Pair>)
    ensures ParsePieces(EncodePairs(ps)) == Some(ps)
  {
    if |ps| > 0 {
      assert EncodePairs(ps)[1..] == EncodePairs(ps[1..]);
      ParsePiecesEncodePairs(ps[1..]);
      ParsePieceEncodePair(ps[0]);
      assert EncodePairs(ps)[0] != "";
      assert [ps[0]] + ps[1..] == ps;
    }
  }

  /** Parsing a serialized list gives back exactly that list, in order. */
  lemma ParseSerialize(ps: seq<Pair>)
    ensures Parse(Serialize(ps)) == Some(ps)
  {
    SerializeIsJoin(ps);
    ParsePiecesEncodePairs(ps);
    if |ps| > 0 {
      forall i | 0 <= i < |ps| ensures '&' !in EncodePairs(ps)[i] {
        EncodedHasNoSeparators(ps[i].0);
        EncodedHasNoSeparators(ps[i].1);
      }
      SplitJoin(EncodePairs(ps));
    } else {
      assert SplitOn("", '&') == [""];
    }
  }
}
