/**
 * The decode engine of internal/decoder/decoder.go: a recursive walk over a JSON value that
 * replaces every string holding Base64-encoded UTF-8 text by that text, trimmed, or, when the
 * trimmed text is itself JSON, by the recursively decoded parsed value.
 */
module Decoder {
  import opened Prelude
  import opened JsonValue
  import Base64
  import Utf8
  import Text

  /**
   * IsBase64: the length in bytes (Go's len on a string) is a multiple of 4 and the standard
   * decoder accepts the string. Because only ASCII text decodes, counting characters instead
   * of bytes gives the same answer.
   */
  function IsBase64(s: string): (r: bool)
    ensures r <==> |s| % 4 == 0 && Base64.Decode(s).Some?
  {
    if Base64.Decode(s).Some? then
      Base64.DecodableIsAscii(s);
      Utf8.EncodeAscii(s);
      |Utf8.Encode(s)| % 4 == 0
    else
      false
  }

  /** IsValidJSON: json.Unmarshal accepts the text. The empty text is never JSON. */
  function IsValidJson(parse: Parser, s: string): (r: bool)
    ensures r ==> |s| > 0
  {
    parse(s).Some?
  }

  /**
   * DecodeBase64String, check by check: not Base64, or not UTF-8 once decoded, gives back s;
   * otherwise the decoded, trimmed text is parsed and recursively decoded when it is JSON and
   * returned as a string when it is not. The second decode and the second parse repeat
   * checks that have already passed; their failure branches are kept as the source has them.
   */
  function DecodeBase64String(parse: Parser, s: string): (r: Json)
    decreases |s|, JStr(s), 0
  {
    if !IsBase64(s) then JStr(s)
    else
      match Base64.Decode(s)
      case None => JStr(s)
      case Some(decoded) =>
        if !Utf8.Valid(decoded) then JStr(s)
        else
          var decodedStr := Text.TrimSpace(Utf8.Decode(decoded));
          if IsValidJson(parse, decodedStr) then
            match parse(decodedStr)
            case Some(jsonObj) => DecodeBase64Fields(parse, jsonObj)
            case None => JStr(decodedStr)
          else JStr(decodedStr)
  }

  /**
   * DecodeBase64Fields: objects keep their keys and arrays their length and order, with every
   * member decoded; strings go through DecodeBase64String; numbers, booleans and null are
   * returned as they are. The object and array cases are what DecodeBase64InMap and
   * DecodeBase64InSlice compute.
   */
  function DecodeBase64Fields(parse: Parser, v: Json): (r: Json)
    decreases MaxLen(v), v, 1
  {
    match v
    case JObj(m) =>
      JObj(map k | k in m :: MaxLenField(m, k); DecodeBase64Fields(parse, m[k]))
    case JArr(a) =>
      JArr(seq(|a|, i requires 0 <= i < |a| => MaxLenElem(a, i); DecodeBase64Fields(parse, a[i])))
    case JStr(s) => DecodeBase64String(parse, s)
    case _ => v
  }

  /** DecodeBase64InMap: a fresh map with the same keys, every value decoded. */
  method DecodeBase64InMap(parse: Parser, m: map<string, Json>) returns (result: map<string, Json>)
    ensures result.Keys == m.Keys
    ensures forall k :: k in m ==> result[k] == DecodeBase64Fields(parse, m[k])
    ensures JObj(result) == DecodeBase64Fields(parse, JObj(m))
  {
    result := map[];
    var pending := m.Keys;
    while pending != {}
      invariant pending <= m.Keys
      invariant result.Keys == m.Keys - pending
      invariant forall k :: k in result ==> result[k] == DecodeBase64Fields(parse, m[k])
      decreases pending
    {
      var key :| key in pending;
      result := result[key := DecodeBase64Fields(parse, m[key])];
      pending := pending - {key};
    }
    ObjectDecoded(parse, m, result);
  }

  /** A map holding the decoding of every member of m is the decoded object. */
  lemma ObjectDecoded(parse: Parser, m: map<string, Json>, r: map<string, Json>)
    requires r.Keys == m.Keys
    requires forall k :: k in m ==> r[k] == DecodeBase64Fields(parse, m[k])
    ensures JObj(r) == DecodeBase64Fields(parse, JObj(m))
  {
    assert r == DecodeBase64Fields(parse, JObj(m)).fields;
  }

  /** DecodeBase64InSlice: a fresh slice of the same length, element i the decoded s[i]. */
  method DecodeBase64InSlice(parse: Parser, s: seq<Json>) returns (result: array<Json>)
    ensures fresh(result) && result.Length == |s|
    ensures forall i :: 0 <= i < |s| ==> result[i] == DecodeBase64Fields(parse, s[i])
    ensures JArr(result[..]) == DecodeBase64Fields(parse, JArr(s))
  {
    result := new Json[|s|](_ => JNull);
    for i := 0 to |s|
      invariant forall j :: 0 <= j < i ==> result[j] == DecodeBase64Fields(parse, s[j])
    {
      result[i] := DecodeBase64Fields(parse, s[i]);
    }
    assert forall j :: 0 <= j < |s| ==> result[..][j] == DecodeBase64Fields(parse, s[j]);
    ArrayDecoded(parse, s, result[..]);
  }

  /** A sequence holding the decoding of every element of s is the decoded array. */
  lemma ArrayDecoded(parse: Parser, s: seq<Json>, r: seq<Json>)
    requires |r| == |s|
    requires forall i :: 0 <= i < |s| ==> r[i] == DecodeBase64Fields(parse, s[i])
    ensures JArr(r) == DecodeBase64Fields(parse, JArr(s))
  {
    assert r == DecodeBase64Fields(parse, JArr(s)).elems;
  }

  // ---------------------------------------------------------------------------
  // Properties of the string resolution
  // ---------------------------------------------------------------------------

  /**
   * The text a Base64 candidate stands for: its decoded bytes, when they are UTF-8, read as
   * text and trimmed. None when s is not Base64 or its bytes are not UTF-8.
   */
  function DecodedText(s: string): (t: Option<string>)
    ensures t.Some? ==> 4 * |t.value| <= 3 * |s|
    ensures t.Some? ==> t.value == Text.TrimSpace(t.value)
  {
    if IsBase64(s) && Utf8.Valid(Base64.Decode(s).value) then
      var u := Utf8.Decode(Base64.Decode(s).value);
      Text.TrimSpaceIdempotent(u);
      Some(Text.TrimSpace(u))
    else None
  }

  /**
   * The three outcomes of DecodeBase64String. The failure branches after the repeated decode
   * and the repeated parse never decide the result.
   */
  lemma DecodeBase64StringCases(parse: Parser, s: string)
    ensures DecodedText(s).None? ==> DecodeBase64String(parse, s) == JStr(s)
    ensures DecodedText(s).Some? && parse(DecodedText(s).value).None? ==>
      DecodeBase64String(parse, s) == JStr(DecodedText(s).value)
    ensures DecodedText(s).Some? && parse(DecodedText(s).value).Some? ==>
      DecodeBase64String(parse, s) == DecodeBase64Fields(parse, parse(DecodedText(s).value).value)
  {
    if DecodedText(s).Some? {
      DecodedTextCase(parse, s);
    } else {
      NotTextCase(parse, s);
    }
  }

  lemma NotTextCase(parse: Parser, s: string)
    requires DecodedText(s).None?
    ensures DecodeBase64String(parse, s) == JStr(s)
  {
    if IsBase64(s) {
      assert !Utf8.Valid(Base64.Decode(s).value);
    }
  }

  lemma DecodedTextCase(parse: Parser, s: string)
    requires DecodedText(s).Some?
    ensures var t := DecodedText(s).value;
      DecodeBase64String(parse, s) == if parse(t).Some? then DecodeBase64Fields(parse, parse(t).value) else JStr(t)
  {
    var d := Base64.Decode(s).value;
    assert IsBase64(s) && Utf8.Valid(d);
    var t := Text.TrimSpace(Utf8.Decode(d));
    assert DecodedText(s).value == t;
    if parse(t).Some? {
      assert IsValidJson(parse, t);
      assert DecodeBase64String(parse, s) == DecodeBase64Fields(parse, parse(t).value);
    } else {
      assert DecodeBase64String(parse, s) == JStr(t);
    }
  }

  /** A string whose length is not a multiple of 4 is not Base64 and is returned unchanged. */
  lemma LengthGuard(parse: Parser, s: string)
    requires |s| % 4 != 0
    ensures !IsBase64(s)
    ensures DecodeBase64Fields(parse, JStr(s)) == JStr(s)
  {
  }

  /** A string that is not Base64 is returned unchanged. */
  lemma NotBase64Unchanged(parse: Parser, s: string)
    requires !IsBase64(s)
    ensures DecodeBase64Fields(parse, JStr(s)) == JStr(s)
  {
  }

  /** Base64 whose bytes are not UTF-8 is returned unchanged, not as garbled text. */
  lemma NonUtf8Unchanged(parse: Parser, s: string)
    requires IsBase64(s) && !Utf8.Valid(Base64.Decode(s).value)
    ensures DecodeBase64Fields(parse, JStr(s)) == JStr(s)
  {
  }

  /** Binary safety: the standard encoding of bytes that are not UTF-8 survives unchanged. */
  lemma BinarySafe(parse: Parser, b: seq<byte>)
    requires !Utf8.Valid(b)
    ensures DecodeBase64Fields(parse, JStr(Base64.Encode(b))) == JStr(Base64.Encode(b))
  {
    Base64.DecodeEncode(b);
  }

  /**
   * Decoded text that is not JSON replaces the string, trimmed: it has no leading or trailing
   * space and is shorter than the Base64 it came from.
   */
  lemma PlainTextTrimmed(parse: Parser, s: string)
    requires DecodedText(s).Some? && !IsValidJson(parse, DecodedText(s).value)
    ensures DecodeBase64Fields(parse, JStr(s)) == JStr(DecodedText(s).value)
    ensures var t := DecodedText(s).value;
      (t != [] ==> !Text.IsSpace(t[0]) && !Text.IsSpace(t[|t| - 1])) && 4 * |t| <= 3 * |s|
  {
    var t := DecodedText(s).value;
    assert DecodeBase64String(parse, s) == JStr(t) by {
      DecodeBase64StringCases(parse, s);
    }
    var u := Utf8.Decode(Base64.Decode(s).value);
    assert t == Text.TrimSpace(u);
  }

  /** Decoded text that is JSON is replaced by its parsed value, itself decoded. */
  lemma JsonUnwrapped(parse: Parser, s: string, x: Json)
    requires DecodedText(s).Some? && parse(DecodedText(s).value) == Some(x)
    ensures DecodeBase64Fields(parse, JStr(s)) == DecodeBase64Fields(parse, x)
  {
    DecodeBase64StringCases(parse, s);
  }

  /**
   * Round trip: the standard Base64 of the UTF-8 of any text u unwraps exactly one layer, to
   * the decoded JSON value of u, trimmed, when it parses and to u, trimmed, otherwise.
   */
  lemma RoundTrip(parse: Parser, u: string)
    ensures IsBase64(Base64.Encode(Utf8.Encode(u)))
    ensures DecodedText(Base64.Encode(Utf8.Encode(u))) == Some(Text.TrimSpace(u))
    ensures DecodeBase64Fields(parse, JStr(Base64.Encode(Utf8.Encode(u)))) ==
      match parse(Text.TrimSpace(u))
      case Some(x) => DecodeBase64Fields(parse, x)
      case None => JStr(Text.TrimSpace(u))
  {
    var b := Utf8.Encode(u);
    var s, t := Base64.Encode(b), Text.TrimSpace(u);
    Base64.DecodeEncode(b);
    Utf8.DecodeEncode(u);
    assert IsBase64(s);
    assert Utf8.Valid(Base64.Decode(s).value) && Utf8.Decode(Base64.Decode(s).value) == u;
    assert DecodedText(s) == Some(t);
    DecodedField(parse, s);
  }

  /** A string standing for some text is replaced by that text's JSON value, or by the text. */
  lemma DecodedField(parse: Parser, s: string)
    requires DecodedText(s).Some?
    ensures DecodeBase64Fields(parse, JStr(s)) ==
      match parse(DecodedText(s).value)
      case Some(x) => DecodeBase64Fields(parse, x)
      case None => JStr(DecodedText(s).value)
  {
    assert DecodeBase64Fields(parse, JStr(s)) == DecodeBase64String(parse, s);
    DecodedTextCase(parse, s);
  }

  // ---------------------------------------------------------------------------
  // Properties of the traversal
  // ---------------------------------------------------------------------------

  /** Numbers, booleans and null are returned as they are. */
  lemma ScalarsUnchanged(parse: Parser, v: Json)
    requires v.JNum? || v.JBool? || v.JNull?
    ensures DecodeBase64Fields(parse, v) == v
  {
  }

  /** The empty string is Base64 of nothing, but the empty text is not JSON: "" stays "". */
  lemma EmptyStringUnchanged(parse: Parser)
    ensures IsBase64("")
    ensures DecodeBase64Fields(parse, JStr("")) == JStr("")
  {
    assert Base64.Decode("") == Some([]);
    assert Utf8.Decode([]) == [];
    assert Text.TrimSpace([]) == [];
  }

  /**
   * Shape preservation: every object keeps its key set and every array its length, member by
   * member all the way down, and scalars stay; only string leaves change.
   */
  lemma {:induction false} ShapePreserved(parse: Parser, v: Json)
    ensures SameShape(v, DecodeBase64Fields(parse, v))
    decreases v
  {
    match v
    case JObj(m) =>
      forall k | k in m
        ensures SameShape(m[k], DecodeBase64Fields(parse, v).fields[k])
      {
        ShapePreserved(parse, m[k]);
      }
    case JArr(a) =>
      forall i | 0 <= i < |a|
        ensures SameShape(a[i], DecodeBase64Fields(parse, v).elems[i])
      {
        ShapePreserved(parse, a[i]);
      }
    case _ =>
  }

  /** Decoding never lengthens: no string of the result is longer than the longest of the input. */
  lemma {:induction false} NeverLengthens(parse: Parser, v: Json)
    ensures MaxLen(DecodeBase64Fields(parse, v)) <= MaxLen(v)
    decreases MaxLen(v), v, 1
  {
    var r := DecodeBase64Fields(parse, v);
    match v
    case JObj(m) =>
      forall k | k in m
        ensures MaxLen(r.fields[k]) <= MaxLen(v)
      {
        MaxLenField(m, k);
        NeverLengthens(parse, m[k]);
      }
      SetMaxAtMost(set k | k in r.fields :: MaxLen(r.fields[k]), MaxLen(v));
    case JArr(a) =>
      forall i | 0 <= i < |a|
        ensures MaxLen(r.elems[i]) <= MaxLen(v)
      {
        MaxLenElem(a, i);
        NeverLengthens(parse, a[i]);
      }
      SetMaxAtMost(set i | 0 <= i < |r.elems| :: MaxLen(r.elems[i]), MaxLen(v));
    case JStr(s) =>
      StringNeverLengthens(parse, s);
    case _ =>
  }

  lemma {:induction false} StringNeverLengthens(parse: Parser, s: string)
    ensures MaxLen(DecodeBase64String(parse, s)) <= |s|
    decreases |s|, JStr(s), 0
  {
    var t := DecodedText(s);
    if t.None? {
      NotTextCase(parse, s);
      assert MaxLen(JStr(s)) == |s|;
    } else {
      DecodedTextCase(parse, s);
      var u := t.value;
      assert |u| <= |s|;
      if parse(u).Some? {
        var x := parse(u).value;
        assert MaxLen(x) < |u|;
        NeverLengthens(parse, x);
      } else {
        assert MaxLen(JStr(u)) == |u|;
      }
    }
  }
}
