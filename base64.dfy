/**
 * The Base64 decoding that the engine relies on: Go's base64.StdEncoding, that is the
 * standard alphabet of RFC 4648 section 4 with '=' padding, in its default (non-strict) mode.
 * Two leniencies of that mode are modelled: the characters '\r' and '\n' are skipped wherever
 * they occur, and the unused low bits of a padded final quantum need not be zero.
 * The standard padded encoder is the partner used to state the round trip.
 */
module Base64 {
  import opened Prelude

  const Pad: char := '='

  predicate IsAlphabetChar(c: char)
  {
    ('A' <= c <= 'Z') || ('a' <= c <= 'z') || ('0' <= c <= '9') || c == '+' || c == '/'
  }

  /** The character that encodes the 6-bit value i (RFC 4648 section 4, Table 1). */
  function CharOf(i: nat): (c: char)
    requires i < 64
    ensures IsAlphabetChar(c)
  {
    if i < 26 then ('A' as int + i) as char
    else if i < 52 then ('a' as int + i - 26) as char
    else if i < 62 then ('0' as int + i - 52) as char
    else if i == 62 then '+'
    else '/'
  }

  /** The 6-bit value that an alphabet character encodes. */
  function IndexOf(c: char): (i: nat)
    requires IsAlphabetChar(c)
    ensures i < 64
  {
    if 'A' <= c <= 'Z' then c as int - 'A' as int
    else if 'a' <= c <= 'z' then c as int - 'a' as int + 26
    else if '0' <= c <= '9' then c as int - '0' as int + 52
    else if c == '+' then 62
    else 63
  }

  lemma IndexOfCharOf(i: nat)
    requires i < 64
    ensures IndexOf(CharOf(i)) == i
  {
  }

  lemma CharOfIndexOf(c: char)
    requires IsAlphabetChar(c)
    ensures CharOf(IndexOf(c)) == c
  {
  }

  // ---------------------------------------------------------------------------
  // Decoding
  // ---------------------------------------------------------------------------

  predicate IsNewline(c: char)
  {
    c == '\r' || c == '\n'
  }

  /** The input with every '\r' and '\n' removed: the decoder skips these characters. */
  function StripNewlines(s: string): (r: string)
    ensures |r| <= |s|
  {
    if s == [] then []
    else if IsNewline(s[0]) then StripNewlines(s[1..])
    else [s[0]] + StripNewlines(s[1..])
  }

  /** The three bytes carried by a full quantum of four 6-bit values. */
  function DecodeQuantum(a: nat, b: nat, c: nat, d: nat): (r: seq<byte>)
    requires a < 64 && b < 64 && c < 64 && d < 64
    ensures |r| == 3
  {
    [a * 4 + b / 16, (b % 16) * 16 + c / 4, (c % 4) * 64 + d]
  }

  /**
   * Decodes a newline-free input quantum by quantum. The input is accepted when it is a
   * sequence of full quanta of alphabet characters, the last of which may instead be
   * "xx==" (one byte) or "xxx=" (two bytes). Any other character, a '=' elsewhere, or an
   * incomplete final quantum makes the decoding fail.
   */
  function DecodeQuanta(s: string): (r: Option<seq<byte>>)
    ensures r.Some? ==> 4 * |r.value| <= 3 * |s|
    decreases |s|
  {
    if |s| == 0 then Some([])
    else if |s| < 4 then None
    else if IsAlphabetChar(s[0]) && IsAlphabetChar(s[1]) && IsAlphabetChar(s[2]) && IsAlphabetChar(s[3]) then
      match DecodeQuanta(s[4..])
      case None => None
      case Some(rest) => Some(DecodeQuantum(IndexOf(s[0]), IndexOf(s[1]), IndexOf(s[2]), IndexOf(s[3])) + rest)
    else if |s| == 4 && IsAlphabetChar(s[0]) && IsAlphabetChar(s[1]) && s[2] == Pad && s[3] == Pad then
      Some(DecodeQuantum(IndexOf(s[0]), IndexOf(s[1]), 0, 0)[..1])
    else if |s| == 4 && IsAlphabetChar(s[0]) && IsAlphabetChar(s[1]) && IsAlphabetChar(s[2]) && s[3] == Pad then
      Some(DecodeQuantum(IndexOf(s[0]), IndexOf(s[1]), IndexOf(s[2]), 0)[..2])
    else None
  }

  /** base64.StdEncoding.DecodeString: None stands for a non-nil error. */
  function Decode(s: string): (r: Option<seq<byte>>)
    ensures r.Some? ==> 4 * |r.value| <= 3 * |s|
  {
    DecodeQuanta(StripNewlines(s))
  }

  // ---------------------------------------------------------------------------
  // Encoding: base64.StdEncoding.EncodeToString
  // ---------------------------------------------------------------------------

  function EncodeQuantum(x: byte, y: byte, z: byte): (r: string)
    ensures |r| == 4
  {
    [CharOf(x / 4), CharOf((x % 4) * 16 + y / 16), CharOf((y % 16) * 4 + z / 64), CharOf(z % 64)]
  }

  function Encode(b: seq<byte>): (r: string)
    ensures |r| % 4 == 0
  {
    if |b| == 0 then []
    else if |b| == 1 then [CharOf(b[0] / 4), CharOf((b[0] % 4) * 16), Pad, Pad]
    else if |b| == 2 then [CharOf(b[0] / 4), CharOf((b[0] % 4) * 16 + b[1] / 16), CharOf((b[1] % 16) * 4), Pad]
    else
      var rest := Encode(b[3..]);
      assert (4 + |rest|) % 4 == 0;
      EncodeQuantum(b[0], b[1], b[2]) + rest
  }

  // ---------------------------------------------------------------------------
  // Properties
  // ---------------------------------------------------------------------------

  /** Input whose length is a multiple of three encodes without padding, so encodings concatenate. */
  lemma {:induction false} EncodeAppend(a: seq<byte>, b: seq<byte>)
    requires |a| % 3 == 0
    ensures Encode(a + b) == Encode(a) + Encode(b)
  {
    if |a| == 0 {
      assert a + b == b;
    } else {
      assert (a + b)[3..] == a[3..] + b;
      EncodeAppend(a[3..], b);
    }
  }

  /** Decoding one encoded quantum gives back its three bytes. */
  lemma DecodeEncodeQuantum(x: byte, y: byte, z: byte)
    ensures
      var e := EncodeQuantum(x, y, z);
      DecodeQuantum(IndexOf(e[0]), IndexOf(e[1]), IndexOf(e[2]), IndexOf(e[3])) == [x, y, z]
  {
    var i0, i1, i2, i3 := x / 4, (x % 4) * 16 + y / 16, (y % 16) * 4 + z / 64, z % 64;
    IndexOfCharOf(i0);
    IndexOfCharOf(i1);
    IndexOfCharOf(i2);
    IndexOfCharOf(i3);
    RegroupBits(x, y, z);
    assert DecodeQuantum(i0, i1, i2, i3) == [x, y, z];
  }

  /** Regrouping 3 x 8 bits as 4 x 6 bits and back gives the three bytes again. */
  lemma RegroupBits(x: byte, y: byte, z: byte)
    ensures var i0, i1, i2, i3 := x / 4, (x % 4) * 16 + y / 16, (y % 16) * 4 + z / 64, z % 64;
      i0 * 4 + i1 / 16 == x && (i1 % 16) * 16 + i2 / 4 == y && (i2 % 4) * 64 + i3 == z
  {
    var i1, i2 := (x % 4) * 16 + y / 16, (y % 16) * 4 + z / 64;
    assert i1 / 16 == x % 4 && i1 % 16 == y / 16;
    assert i2 / 4 == y % 16 && i2 % 4 == z / 64;
  }

  /** Round trip: the decoder accepts every standard encoding and yields the encoded bytes. */
  lemma {:induction false} DecodeEncode(b: seq<byte>)
    ensures Decode(Encode(b)) == Some(b)
  {
    EncodeChars(b);
    StripNewlinesFree(Encode(b));
    DecodeQuantaEncode(b);
  }

  lemma DecodeEncodeOne(x: byte)
    ensures DecodeQuanta(Encode([x])) == Some([x])
  {
    var e := Encode([x]);
    var i0, i1 := x / 4, (x % 4) * 16;
    assert e == [CharOf(i0), CharOf(i1), Pad, Pad];
    IndexOfCharOf(i0);
    IndexOfCharOf(i1);
    assert DecodeQuanta(e) == Some(DecodeQuantum(i0, i1, 0, 0)[..1]);
    assert i0 * 4 + i1 / 16 == x;
    assert DecodeQuantum(i0, i1, 0, 0)[..1] == [x];
  }

  lemma DecodeEncodeTwo(x: byte, y: byte)
    ensures DecodeQuanta(Encode([x, y])) == Some([x, y])
  {
    var e := Encode([x, y]);
    var i0, i1, i2 := x / 4, (x % 4) * 16 + y / 16, (y % 16) * 4;
    assert e == [CharOf(i0), CharOf(i1), CharOf(i2), Pad];
    IndexOfCharOf(i0);
    IndexOfCharOf(i1);
    IndexOfCharOf(i2);
    assert DecodeQuanta(e) == Some(DecodeQuantum(i0, i1, i2, 0)[..2]);
    assert i1 / 16 == x % 4 && i1 % 16 == y / 16;
    assert i0 * 4 + i1 / 16 == x;
    assert (i1 % 16) * 16 + i2 / 4 == y;
    assert DecodeQuantum(i0, i1, i2, 0)[..2] == [x, y];
  }

  lemma {:induction false} DecodeQuantaEncode(b: seq<byte>)
    ensures DecodeQuanta(Encode(b)) == Some(b)
    decreases |b|
  {
    if |b| == 1 {
      DecodeEncodeOne(b[0]);
      assert b == [b[0]];
    } else if |b| == 2 {
      DecodeEncodeTwo(b[0], b[1]);
      assert b == [b[0], b[1]];
    } else if |b| >= 3 {
      DecodeQuantaEncode(b[3..]);
      DecodeEncodeLong(b);
    }
  }

  lemma DecodeEncodeLong(b: seq<byte>)
    requires |b| >= 3 && DecodeQuanta(Encode(b[3..])) == Some(b[3..])
    ensures DecodeQuanta(Encode(b)) == Some(b)
  {
      var q, rest := EncodeQuantum(b[0], b[1], b[2]), Encode(b[3..]);
      assert Encode(b) == q + rest;
      DecodeQuantaFull(q, rest);
      var x := DecodeQuantum(IndexOf(q[0]), IndexOf(q[1]), IndexOf(q[2]), IndexOf(q[3]));
      DecodeEncodeQuantum(b[0], b[1], b[2]);
      assert x == [b[0], b[1], b[2]];
      assert DecodeQuanta(Encode(b)) == Some(x + b[3..]);
      SplitThree(b);
  }

  lemma SplitThree(b: seq<byte>)
    requires |b| >= 3
    ensures [b[0], b[1], b[2]] + b[3..] == b
  {
  }

  /** A full quantum of alphabet characters decodes to its three bytes ahead of the rest. */
  lemma DecodeQuantaFull(q: string, rest: string)
    requires |q| == 4 && IsAlphabetChar(q[0]) && IsAlphabetChar(q[1]) && IsAlphabetChar(q[2]) && IsAlphabetChar(q[3])
    requires DecodeQuanta(rest).Some?
    ensures DecodeQuanta(q + rest) ==
      Some(DecodeQuantum(IndexOf(q[0]), IndexOf(q[1]), IndexOf(q[2]), IndexOf(q[3])) + DecodeQuanta(rest).value)
  {
    var s := q + rest;
    assert s[4..] == rest;
    assert s[0] == q[0] && s[1] == q[1] && s[2] == q[2] && s[3] == q[3];
  }

  /** StripNewlines leaves no newline behind. */
  lemma {:induction false} StripNewlinesRemoves(s: string)
    ensures forall i :: 0 <= i < |StripNewlines(s)| ==> !IsNewline(StripNewlines(s)[i])
  {
    if s != [] {
      StripNewlinesRemoves(s[1..]);
    }
  }

  /** Input without newlines is left as it is. */
  lemma {:induction false} StripNewlinesFree(s: string)
    requires forall i :: 0 <= i < |s| ==> !IsNewline(s[i])
    ensures StripNewlines(s) == s
  {
    if s != [] {
      StripNewlinesFree(s[1..]);
      assert s == [s[0]] + s[1..];
    }
  }

  /** The encoder writes only alphabet characters and '='. */
  lemma {:induction false} EncodeChars(b: seq<byte>)
    ensures forall i :: 0 <= i < |Encode(b)| ==> IsAlphabetChar(Encode(b)[i]) || Encode(b)[i] == Pad
  {
    if |b| >= 3 {
      EncodeChars(b[3..]);
    }
  }

  /** Every character that StripNewlines keeps is one of its input's, and the only ones dropped are newlines. */
  lemma {:induction false} StripNewlinesKeeps(s: string, i: nat)
    requires i < |s| && !IsNewline(s[i])
    ensures s[i] in StripNewlines(s)
  {
    if i > 0 {
      StripNewlinesKeeps(s[1..], i - 1);
    }
  }

  lemma {:induction false} DecodeQuantaChars(s: string, i: nat)
    requires DecodeQuanta(s).Some? && i < |s|
    ensures IsAlphabetChar(s[i]) || s[i] == Pad
    decreases |s|
  {
    if i >= 4 {
      DecodeQuantaChars(s[4..], i - 4);
    }
  }

  /** Only ASCII text can decode: every character of an accepted input is in the alphabet, '=', '\r' or '\n'. */
  lemma DecodableIsAscii(s: string)
    requires Decode(s).Some?
    ensures forall i :: 0 <= i < |s| ==> IsAlphabetChar(s[i]) || s[i] == Pad || IsNewline(s[i])
    ensures forall i :: 0 <= i < |s| ==> s[i] as int < 0x80
  {
    var t := StripNewlines(s);
    forall i | 0 <= i < |s| && !IsNewline(s[i])
      ensures IsAlphabetChar(s[i]) || s[i] == Pad
    {
      StripNewlinesKeeps(s, i);
      var j :| 0 <= j < |t| && t[j] == s[i];
      DecodeQuantaChars(t, j);
    }
  }

  /** The decoder is not strict: the unused low bits of a padded quantum are ignored ("QR==" and "QQ==" both give "A"). */
  lemma IgnoresTrailingBits()
    ensures Decode("QQ==") == Some([0x41])
    ensures Decode("QR==") == Some([0x41])
  {
    PaddedQuantum('Q', 'Q');
    PaddedQuantum('Q', 'R');
  }

  lemma PaddedQuantum(c0: char, c1: char)
    requires c0 == 'Q' && (c1 == 'Q' || c1 == 'R')
    ensures Decode([c0, c1, Pad, Pad]) == Some([0x41])
  {
    var s := [c0, c1, Pad, Pad];
    StripNewlinesFree(s);
    var i1 := IndexOf(c1);
    assert IndexOf(c0) == 16 && 16 <= i1 <= 17;
    assert i1 / 16 == 1;
    assert DecodeQuantum(16, i1, 0, 0)[..1] == [0x41];
    assert !IsAlphabetChar(s[2]) && |s| == 4;
    assert DecodeQuanta(s) == Some(DecodeQuantum(16, i1, 0, 0)[..1]);
  }

  /** The decoder skips '\r' and '\n' wherever they occur. */
  lemma SkipsNewlines()
    ensures Decode("QU\r\nJD\n") == Some([0x41, 0x42, 0x43])
  {
    SkipsNewlinesStrip();
    SkipsNewlinesQuantum();
  }

  lemma SkipsNewlinesStrip()
    ensures StripNewlines("QU\r\nJD\n") == "QUJD"
  {
    var s := "QU\r\nJD\n";
    assert s[1..] == "U\r\nJD\n" && s[2..] == "\r\nJD\n" && s[3..] == "\nJD\n";
    assert s[4..] == "JD\n" && s[5..] == "D\n" && s[6..] == "\n" && s[7..] == [];
    assert StripNewlines(s[5..]) == "D";
    assert StripNewlines(s[3..]) == "JD";
  }

  lemma SkipsNewlinesQuantum()
    ensures DecodeQuanta("QUJD") == Some([0x41, 0x42, 0x43])
  {
    assert IndexOf('Q') == 16 && IndexOf('U') == 20 && IndexOf('J') == 9 && IndexOf('D') == 3;
    assert 20 / 16 == 1 && 20 % 16 == 4 && 9 / 4 == 2 && 9 % 4 == 1;
    assert DecodeQuantum(16, 20, 9, 3) == [0x41, 0x42, 0x43];
    assert DecodeQuanta("QUJD"[4..]) == Some([]);
    assert [0x41, 0x42, 0x43] + [] == [0x41, 0x42, 0x43];
  }

  /** Malformed padding, a missing '=' or data after the padding make decoding fail. */
  lemma RejectsMalformed()
    ensures Decode("QQ=") == None
    ensures Decode("Q===") == None
    ensures Decode("QQ==QUJD") == None
  {
    RejectsIncomplete();
    RejectsMisplacedPad();
    RejectsDataAfterPad();
  }

  lemma RejectsIncomplete() ensures Decode("QQ=") == None {
    StripNewlinesFree("QQ=");
  }

  lemma RejectsMisplacedPad() ensures Decode("Q===") == None {
    StripNewlinesFree("Q===");
  }

  lemma RejectsDataAfterPad() ensures Decode("QQ==QUJD") == None {
    StripNewlinesFree("QQ==QUJD");
  }
}
