/**
 * The copy of the decode engine in the root main.go (its CLI code is not part of this model).
 * It is the engine of internal/decoder/decoder.go again, except that utf8.Valid is called
 * through the wrapper isValidUTF8; EnginesAgree proves that the two compute the same value.
 */
module MainEngine {
  import opened Prelude
  import opened JsonValue
  import Base64
  import Utf8
  import Text
  import Decoder

  /** isBase64: byte length a multiple of 4 and accepted by the standard decoder. */
  function IsBase64(s: string): (r: bool)
    ensures r <==> |s| % 4 == 0 && Base64.Decode(s).Some?
  {
    if Base64.Decode(s).Some? then
      Base64.DecodableIsAscii(s);
      Utf8.EncodeAscii(s);
      |Utf8.Encode(s)| % 4 == 0
    else
      false
  }

  /** isValidUTF8: utf8.Valid, true exactly of the byte sequences that encode some text. */
  function IsValidUtf8(data: seq<byte>): (r: bool)
    ensures r <==> exists u: string :: Utf8.Encode(u) == data
  {
    Utf8.ValidIffEncoding(data);
    Utf8.Valid(data)
  }

  /** isValidJSON: json.Unmarshal accepts the text. The empty text is never JSON. */
  function IsValidJson(parse: Parser, s: string): (r: bool)
    ensures r ==> |s| > 0
  {
    parse(s).Some?
  }

  /** decodeBase64String: the same chain of checks as DecodeBase64String in the decoder package. */
  function DecodeBase64String(parse: Parser, s: string): (r: Json)
    decreases |s|, JStr(s), 0
  {
    if !IsBase64(s) then JStr(s)
    else
      match Base64.Decode(s)
      case None => JStr(s)
      case Some(decoded) =>
        if !IsValidUtf8(decoded) then JStr(s)
        else
          var decodedStr := Text.TrimSpace(Utf8.Decode(decoded));
          if IsValidJson(parse, decodedStr) then
            match parse(decodedStr)
            case Some(jsonObj) => DecodeBase64Fields(parse, jsonObj)
            case None => JStr(decodedStr)
          else JStr(decodedStr)
  }

  /** decodeBase64Fields: the same traversal as DecodeBase64Fields in the decoder package. */
  function DecodeBase64Fields(parse: Parser, v: Json): (r: Json)
    decreases MaxLen(v), v, 1
  {
    match v
    case JObj(m) =>
      JObj(map k | k in m :: MaxLenField(m, k); DecodeBase64Fields(parse, m[k]))
    case JArr(a) =>
      JArr(seq(|a|, i requires 0 <= i < |a| => MaxLenElem(a, i); DecodeBase64Fields(parse, a[i])))
    case JStr(s) => DecodeBase64String(parse, s)
    case _ => v
  }

  /** decodeBase64InMap: a fresh map with the same keys, every value decoded. */
  method DecodeBase64InMap(parse: Parser, m: map<string, Json>) returns (result: map<string, Json>)
    ensures result.Keys == m.Keys
    ensures forall k :: k in m ==> result[k] == DecodeBase64Fields(parse, m[k])
    ensures JObj(result) == DecodeBase64Fields(parse, JObj(m))
  {
    result := map[];
    var pending := m.Keys;
    while pending != {}
      invariant pending <= m.Keys
      invariant result.Keys == m.Keys - pending
      invariant forall k :: k in result ==> result[k] == DecodeBase64Fields(parse, m[k])
      decreases pending
    {
      var key :| key in pending;
      result := result[key := DecodeBase64Fields(parse, m[key])];
      pending := pending - {key};
    }
    ObjectDecoded(parse, m, result);
  }

  /** A map holding the decoding of every member of m is the decoded object. */
  lemma ObjectDecoded(parse: Parser, m: map<string, Json>, r: map<string, Json>)
    requires r.Keys == m.Keys
    requires forall k :: k in m ==> r[k] == DecodeBase64Fields(parse, m[k])
    ensures JObj(r) == DecodeBase64Fields(parse, JObj(m))
  {
    assert r == DecodeBase64Fields(parse, JObj(m)).fields;
  }

  /** decodeBase64InSlice: a fresh slice of the same length, element i the decoded s[i]. */
  method DecodeBase64InSlice(parse: Parser, s: seq<Json>) returns (result: array<Json>)
    ensures fresh(result) && result.Length == |s|
    ensures forall i :: 0 <= i < |s| ==> result[i] == DecodeBase64Fields(parse, s[i])
    ensures JArr(result[..]) == DecodeBase64Fields(parse, JArr(s))
  {
    result := new Json[|s|](_ => JNull);
    for i := 0 to |s|
      invariant forall j :: 0 <= j < i ==> result[j] == DecodeBase64Fields(parse, s[j])
    {
      result[i] := DecodeBase64Fields(parse, s[i]);
    }
    assert forall j :: 0 <= j < |s| ==> result[..][j] == DecodeBase64Fields(parse, s[j]);
    ArrayDecoded(parse, s, result[..]);
  }

  /** A sequence holding the decoding of every element of s is the decoded array. */
  lemma ArrayDecoded(parse: Parser, s: seq<Json>, r: seq<Json>)
    requires |r| == |s|
    requires forall i :: 0 <= i < |s| ==> r[i] == DecodeBase64Fields(parse, s[i])
    ensures JArr(r) == DecodeBase64Fields(parse, JArr(s))
  {
    assert r == DecodeBase64Fields(parse, JArr(s)).elems;
  }

  // ---------------------------------------------------------------------------
  // The two engines agree
  // ---------------------------------------------------------------------------

  /** On every input, main.go's engine gives the same value as the decoder package's. */
  lemma {:induction false} EnginesAgree(parse: Parser, v: Json)
    ensures DecodeBase64Fields(parse, v) == Decoder.DecodeBase64Fields(parse, v)
    decreases MaxLen(v), v, 2
  {
    match v
    case JObj(m) =>
      forall k | k in m
        ensures DecodeBase64Fields(parse, m[k]) == Decoder.DecodeBase64Fields(parse, m[k])
      {
        MaxLenField(m, k);
        EnginesAgree(parse, m[k]);
      }
    case JArr(a) =>
      forall i | 0 <= i < |a|
        ensures DecodeBase64Fields(parse, a[i]) == Decoder.DecodeBase64Fields(parse, a[i])
      {
        MaxLenElem(a, i);
        EnginesAgree(parse, a[i]);
      }
    case JStr(s) =>
      StringEnginesAgree(parse, s);
    case _ =>
  }

  lemma {:induction false} StringEnginesAgree(parse: Parser, s: string)
    ensures DecodeBase64String(parse, s) == Decoder.DecodeBase64String(parse, s)
    decreases |s|, JStr(s), 1
  {
    if IsBase64(s) && Utf8.Valid(Base64.Decode(s).value) {
      DecodedEnginesAgree(parse, s);
      DecodedStringsAgree(parse, s);
    } else {
      assert DecodeBase64String(parse, s) == JStr(s);
      assert Decoder.DecodeBase64String(parse, s) == JStr(s);
    }
  }

  /** The two resolutions of a string that passed both checks agree once its text's value does. */
  lemma DecodedStringsAgree(parse: Parser, s: string)
    requires IsBase64(s) && Utf8.Valid(Base64.Decode(s).value)
    requires var t := Text.TrimSpace(Utf8.Decode(Base64.Decode(s).value));
      parse(t).Some? ==>
        DecodeBase64Fields(parse, parse(t).value) == Decoder.DecodeBase64Fields(parse, parse(t).value)
    ensures DecodeBase64String(parse, s) == Decoder.DecodeBase64String(parse, s)
  {
    var t := Text.TrimSpace(Utf8.Decode(Base64.Decode(s).value));
    Decoder.DecodedTextCase(parse, s);
    DecodedCase(parse, s);
    assert Decoder.DecodedText(s) == Some(t);
  }

  /** A string that passed both checks resolves to its text's decoded value, or to its text. */
  lemma DecodedCase(parse: Parser, s: string)
    requires IsBase64(s) && Utf8.Valid(Base64.Decode(s).value)
    ensures var t := Text.TrimSpace(Utf8.Decode(Base64.Decode(s).value));
      DecodeBase64String(parse, s) == if parse(t).Some? then DecodeBase64Fields(parse, parse(t).value) else JStr(t)
  {
    var d := Base64.Decode(s).value;
    var t := Text.TrimSpace(Utf8.Decode(d));
    assert IsValidUtf8(d);
    if parse(t).Some? {
      assert IsValidJson(parse, t);
      assert DecodeBase64String(parse, s) == DecodeBase64Fields(parse, parse(t).value);
    } else {
      assert DecodeBase64String(parse, s) == JStr(t);
    }
  }

  /** Once s has passed both checks, the two engines decode its text alike. */
  lemma {:induction false} DecodedEnginesAgree(parse: Parser, s: string)
    requires IsBase64(s) && Utf8.Valid(Base64.Decode(s).value)
    ensures var t := Text.TrimSpace(Utf8.Decode(Base64.Decode(s).value));
      parse(t).Some? ==>
        DecodeBase64Fields(parse, parse(t).value) == Decoder.DecodeBase64Fields(parse, parse(t).value)
    decreases |s|, JStr(s), 0
  {
    var t := Text.TrimSpace(Utf8.Decode(Base64.Decode(s).value));
    if parse(t).Some? {
      EnginesAgree(parse, parse(t).value);
    }
  }

  // ---------------------------------------------------------------------------
  // What main.go's engine promises, carried over from the decoder package
  // ---------------------------------------------------------------------------

  /** A string that is not Base64, or whose bytes are not UTF-8, is returned unchanged. */
  lemma NotTextUnchanged(parse: Parser, s: string)
    requires !IsBase64(s) || !Utf8.Valid(Base64.Decode(s).value)
    ensures DecodeBase64Fields(parse, JStr(s)) == JStr(s)
  {
    EnginesAgree(parse, JStr(s));
    Decoder.DecodeBase64StringCases(parse, s);
  }

  /** Decoded text that is not JSON is returned trimmed: no leading or trailing space. */
  lemma PlainTextTrimmed(parse: Parser, s: string)
    requires Decoder.DecodedText(s).Some? && !IsValidJson(parse, Decoder.DecodedText(s).value)
    ensures DecodeBase64Fields(parse, JStr(s)) == JStr(Decoder.DecodedText(s).value)
    ensures var t := Decoder.DecodedText(s).value;
      t != [] ==> !Text.IsSpace(t[0]) && !Text.IsSpace(t[|t| - 1])
  {
    EnginesAgree(parse, JStr(s));
    Decoder.PlainTextTrimmed(parse, s);
  }

  /** Decoded text that is JSON is parsed and recursively decoded. */
  lemma JsonUnwrapped(parse: Parser, s: string, x: Json)
    requires Decoder.DecodedText(s).Some? && parse(Decoder.DecodedText(s).value) == Some(x)
    ensures DecodeBase64Fields(parse, JStr(s)) == DecodeBase64Fields(parse, x)
  {
    EnginesAgree(parse, JStr(s));
    EnginesAgree(parse, x);
    Decoder.JsonUnwrapped(parse, s, x);
  }

  /** Objects keep their keys and arrays their length, at every depth; scalars are returned as they are. */
  lemma ShapePreserved(parse: Parser, v: Json)
    ensures SameShape(v, DecodeBase64Fields(parse, v))
    ensures v.JNum? || v.JBool? || v.JNull? ==> DecodeBase64Fields(parse, v) == v
  {
    EnginesAgree(parse, v);
    Decoder.ShapePreserved(parse, v);
  }
}
