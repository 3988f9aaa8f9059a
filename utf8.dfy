/**
 * UTF-8 as Go's unicode/utf8 package and string conversions use it: well-formedness is the
 * UTF8-octets grammar of RFC 3629 section 4 (no overlong forms, no surrogates, nothing above
 * U+10FFFF), which is exactly what utf8.Valid accepts. Decode is what string(b) yields on
 * well-formed bytes, Encode is []byte(s).
 */
module Utf8 {
  import opened Prelude

  predicate IsTail(x: byte)
  {
    0x80 <= x <= 0xBF
  }

  /**
   * The length of the UTF8-char (RFC 3629 section 4) at the start of b, or 0 when b does not
   * start with one.
   */
  function CharLen(b: seq<byte>): (n: nat)
    ensures n <= 4 && n <= |b|
  {
    if |b| == 0 then 0
    else if b[0] <= 0x7F then 1
    else if 0xC2 <= b[0] <= 0xDF then
      if |b| >= 2 && IsTail(b[1]) then 2 else 0
    else if b[0] == 0xE0 then
      if |b| >= 3 && 0xA0 <= b[1] <= 0xBF && IsTail(b[2]) then 3 else 0
    else if 0xE1 <= b[0] <= 0xEC || 0xEE <= b[0] <= 0xEF then
      if |b| >= 3 && IsTail(b[1]) && IsTail(b[2]) then 3 else 0
    else if b[0] == 0xED then
      if |b| >= 3 && 0x80 <= b[1] <= 0x9F && IsTail(b[2]) then 3 else 0
    else if b[0] == 0xF0 then
      if |b| >= 4 && 0x90 <= b[1] <= 0xBF && IsTail(b[2]) && IsTail(b[3]) then 4 else 0
    else if 0xF1 <= b[0] <= 0xF3 then
      if |b| >= 4 && IsTail(b[1]) && IsTail(b[2]) && IsTail(b[3]) then 4 else 0
    else if b[0] == 0xF4 then
      if |b| >= 4 && 0x80 <= b[1] <= 0x8F && IsTail(b[2]) && IsTail(b[3]) then 4 else 0
    else 0
  }

  /** utf8.Valid: b is a sequence of UTF8-chars. */
  predicate Valid(b: seq<byte>)
    decreases |b|
  {
    |b| == 0 || (CharLen(b) > 0 && Valid(b[CharLen(b)..]))
  }

  predicate IsScalar(n: int)
  {
    (0 <= n < 0xD800) || (0xE000 <= n < 0x11_0000)
  }

  /** The scalar value of the UTF8-char at the start of b. */
  function DecodeChar(b: seq<byte>): (c: char)
    requires CharLen(b) > 0
  {
    var n := CharLen(b);
    var v: int :=
      if n == 1 then b[0] as int
      else if n == 2 then (b[0] as int - 0xC0) * 0x40 + (b[1] as int - 0x80)
      else if n == 3 then (b[0] as int - 0xE0) * 0x1000 + (b[1] as int - 0x80) * 0x40 + (b[2] as int - 0x80)
      else (b[0] as int - 0xF0) * 0x4_0000 + (b[1] as int - 0x80) * 0x1000 + (b[2] as int - 0x80) * 0x40 + (b[3] as int - 0x80);
    assert IsScalar(v);
    v as char
  }

  /** string(b) for well-formed b: the code points b encodes; never longer than b. */
  function Decode(b: seq<byte>): (s: string)
    requires Valid(b)
    ensures |s| <= |b|
    decreases |b|
  {
    if |b| == 0 then [] else [DecodeChar(b)] + Decode(b[CharLen(b)..])
  }

  /** The UTF-8 form of one code point (RFC 3629 section 3). */
  function EncodeChar(c: char): (b: seq<byte>)
    ensures 1 <= |b| <= 4
  {
    var n := c as int;
    if n < 0x80 then [n]
    else if n < 0x800 then [0xC0 + n / 0x40, 0x80 + n % 0x40]
    else if n < 0x1_0000 then [0xE0 + n / 0x1000, 0x80 + (n / 0x40) % 0x40, 0x80 + n % 0x40]
    else [0xF0 + n / 0x4_0000, 0x80 + (n / 0x1000) % 0x40, 0x80 + (n / 0x40) % 0x40, 0x80 + n % 0x40]
  }

  /** []byte(s). */
  function Encode(s: string): (b: seq<byte>)
    ensures |b| >= |s|
  {
    if |s| == 0 then [] else EncodeChar(s[0]) + Encode(s[1..])
  }

  // ---------------------------------------------------------------------------
  // Properties
  // ---------------------------------------------------------------------------

  /** The encoding of one code point is a single UTF8-char that decodes back to it. */
  lemma EncodeCharDecode(c: char, rest: seq<byte>)
    ensures CharLen(EncodeChar(c) + rest) == |EncodeChar(c)|
    ensures DecodeChar(EncodeChar(c) + rest) == c
  {
    var n := c as int;
    var e := EncodeChar(c) + rest;
    if n < 0x80 {
    } else if n < 0x800 {
      var q, r := n / 0x40, n % 0x40;
      assert n == q * 0x40 + r;
      assert e[0] == 0xC0 + q && e[1] == 0x80 + r;
    } else if n < 0x1_0000 {
      EncodeChar3(n, e);
    } else {
      EncodeChar4(n, e);
    }
  }

  lemma EncodeChar3(n: int, e: seq<byte>)
    requires 0x800 <= n < 0x1_0000 && IsScalar(n)
    requires |e| >= 3 && e[0] == 0xE0 + n / 0x1000 && e[1] == 0x80 + (n / 0x40) % 0x40 && e[2] == 0x80 + n % 0x40
    ensures CharLen(e) == 3
    ensures DecodeChar(e) as int == n
  {
    var q, m, r := n / 0x1000, (n / 0x40) % 0x40, n % 0x40;
    assert n == q * 0x1000 + m * 0x40 + r;
    assert q == 0 ==> m >= 0x20;
    assert q == 0xD ==> m < 0x20;
  }

  lemma EncodeChar4(n: int, e: seq<byte>)
    requires 0x1_0000 <= n < 0x11_0000
    requires |e| >= 4 && e[0] == 0xF0 + n / 0x4_0000 && e[1] == 0x80 + (n / 0x1000) % 0x40
    requires e[2] == 0x80 + (n / 0x40) % 0x40 && e[3] == 0x80 + n % 0x40
    ensures CharLen(e) == 4
    ensures DecodeChar(e) as int == n
  {
    var p, q, m, r := n / 0x4_0000, (n / 0x1000) % 0x40, (n / 0x40) % 0x40, n % 0x40;
    JoinDigits4(n);
    assert p == 0 ==> q >= 0x10;
    assert p == 4 ==> q < 0x10;
    assert CharLen(e) == 4;
    assert DecodeChar(e) as int == p * 0x4_0000 + q * 0x1000 + m * 0x40 + r;
  }

  lemma JoinDigits4(n: int)
    requires 0 <= n < 0x11_0000
    ensures n / 0x4_0000 <= 4
    ensures n == (n / 0x4_0000) * 0x4_0000 + ((n / 0x1000) % 0x40) * 0x1000 + ((n / 0x40) % 0x40) * 0x40 + n % 0x40
    ensures n / 0x4_0000 == 0 ==> (n / 0x1000) % 0x40 == n / 0x1000
  {
    var a := n / 0x40;
    var b := a / 0x40;
    var c := b / 0x40;
    assert n == a * 0x40 + n % 0x40;
    assert a == b * 0x40 + a % 0x40;
    assert b == c * 0x40 + b % 0x40;
    assert b == n / 0x1000;
    assert c == n / 0x4_0000;
  }

  /** Round trip: the encoding of any text is well formed and decodes back to the text. */
  lemma {:induction false} DecodeEncode(s: string)
    ensures Valid(Encode(s)) && Decode(Encode(s)) == s
  {
    if |s| > 0 {
      var e := Encode(s);
      EncodeCharDecode(s[0], Encode(s[1..]));
      assert e[|EncodeChar(s[0])|..] == Encode(s[1..]);
      DecodeEncode(s[1..]);
    }
  }

  /** Round trip the other way: well-formed bytes are the encoding of what they decode to. */
  lemma {:induction false} EncodeDecode(b: seq<byte>)
    requires Valid(b)
    ensures Encode(Decode(b)) == b
    decreases |b|
  {
    if |b| > 0 {
      var n := CharLen(b);
      var c, rest := DecodeChar(b), Decode(b[n..]);
      assert Decode(b) == [c] + rest;
      DecodeCharEncode(b);
      EncodeDecode(b[n..]);
      EncodeCons(b, n, c, rest);
    }
  }

  /** A character encoded as the first n bytes of b, followed by a text encoded as the rest. */
  lemma EncodeCons(b: seq<byte>, n: nat, c: char, rest: string)
    requires n <= |b| && EncodeChar(c) == b[..n] && Encode(rest) == b[n..]
    ensures Encode([c] + rest) == b
  {
    assert ([c] + rest)[0] == c && ([c] + rest)[1..] == rest;
    assert b == b[..n] + b[n..];
  }

  lemma DecodeCharEncode(b: seq<byte>)
    requires CharLen(b) > 0
    ensures EncodeChar(DecodeChar(b)) == b[..CharLen(b)]
  {
    var len := CharLen(b);
    if len == 1 {
      assert b[..1] == [b[0]];
    } else if len == 2 {
      DecodeCharEncode2(b);
    } else if len == 3 {
      DecodeCharEncode3(b);
    } else {
      DecodeCharEncode4(b);
    }
  }

  lemma DecodeCharEncode2(b: seq<byte>)
    requires CharLen(b) == 2
    ensures EncodeChar(DecodeChar(b)) == b[..2]
  {
    var x, y := b[0] as int - 0xC0, b[1] as int - 0x80;
    var v := DecodeChar(b) as int;
    assert v == x * 0x40 + y;
    SplitDigits2(x, y);
    assert 0x80 <= v < 0x800;
    assert b[..2] == [b[0], b[1]];
  }

  lemma DecodeCharEncode3(b: seq<byte>)
    requires CharLen(b) == 3
    ensures EncodeChar(DecodeChar(b)) == b[..3]
  {
    var x, y, z := b[0] as int - 0xE0, b[1] as int - 0x80, b[2] as int - 0x80;
    var v := DecodeChar(b) as int;
    assert v == x * 0x1000 + y * 0x40 + z;
    SplitDigits3(x, y, z);
    assert 0x800 <= v < 0x1_0000;
    assert b[..3] == [b[0], b[1], b[2]];
  }

  lemma DecodeCharEncode4(b: seq<byte>)
    requires CharLen(b) == 4
    ensures EncodeChar(DecodeChar(b)) == b[..4]
  {
    var w, x, y, z := b[0] as int - 0xF0, b[1] as int - 0x80, b[2] as int - 0x80, b[3] as int - 0x80;
    var v := DecodeChar(b) as int;
    assert v == w * 0x4_0000 + x * 0x1000 + y * 0x40 + z;
    SplitDigits4(w, x, y, z);
    assert 0x1_0000 <= v;
    assert b[..4] == [b[0], b[1], b[2], b[3]];
  }

  lemma SplitDigits2(x: int, y: int)
    requires 0 <= x && 0 <= y < 0x40
    ensures var n := x * 0x40 + y; n / 0x40 == x && n % 0x40 == y
  {
  }

  lemma SplitDigits3(x: int, y: int, z: int)
    requires 0 <= x && 0 <= y < 0x40 && 0 <= z < 0x40
    ensures var n := x * 0x1000 + y * 0x40 + z; n / 0x1000 == x && (n / 0x40) % 0x40 == y && n % 0x40 == z
  {
    var n := x * 0x1000 + y * 0x40 + z;
    assert n / 0x40 == x * 0x40 + y;
  }

  lemma SplitDigits4(w: int, x: int, y: int, z: int)
    requires 0 <= w && 0 <= x < 0x40 && 0 <= y < 0x40 && 0 <= z < 0x40
    ensures var n := w * 0x4_0000 + x * 0x1000 + y * 0x40 + z;
      n / 0x4_0000 == w && (n / 0x1000) % 0x40 == x && (n / 0x40) % 0x40 == y && n % 0x40 == z
  {
    var n := w * 0x4_0000 + x * 0x1000 + y * 0x40 + z;
    assert n / 0x40 == w * 0x1000 + x * 0x40 + y;
    assert n / 0x1000 == w * 0x40 + x;
  }

  /** Well-formed byte sequences are exactly the encodings of texts. */
  lemma ValidIffEncoding(b: seq<byte>)
    ensures Valid(b) <==> exists u: string :: Encode(u) == b
  {
    if Valid(b) {
      EncodeDecode(b);
    }
    forall u: string | Encode(u) == b
      ensures Valid(b)
    {
      DecodeEncode(u);
    }
  }

  /** The encoding of a concatenation is the concatenation of the encodings. */
  lemma {:induction false} EncodeAppend(s: string, t: string)
    ensures Encode(s + t) == Encode(s) + Encode(t)
  {
    if |s| > 0 {
      assert (s + t)[1..] == s[1..] + t;
      EncodeAppend(s[1..], t);
    } else {
      assert s + t == t;
    }
  }

  /** The bytes of the binary test payload 0xFF 0xFE 0x00 0x01 0x80 0x81 are not UTF-8. */
  lemma BinaryPayloadInvalid()
    ensures !Valid([0xFF, 0xFE, 0x00, 0x01, 0x80, 0x81])
  {
    NoLeadByte([0xFF, 0xFE, 0x00, 0x01, 0x80, 0x81]);
  }

  /** Bytes that start with 0xFF, which no UTF8-char starts with, are not UTF-8. */
  lemma NoLeadByte(b: seq<byte>)
    requires |b| > 0 && b[0] == 0xFF
    ensures !Valid(b)
  {
    assert CharLen(b) == 0;
  }

  /** ASCII text is its own encoding: one byte per character. */
  lemma {:induction false} EncodeAscii(s: string)
    requires forall i :: 0 <= i < |s| ==> s[i] as int < 0x80
    ensures |Encode(s)| == |s|
  {
    if |s| > 0 {
      EncodeAscii(s[1..]);
    }
  }
}
