/**
 * The repository's own test cases, stated on the model. The JSON parser is a parameter, so
 * each scenario names, as preconditions, what json.Unmarshal does with the texts it is given.
 * Each Base64 literal of the tests is first shown to be the standard encoding of its text,
 * three characters at a time; the payloads of the nested-JSON tests encode a document
 * followed by the newline that `echo` adds.
 */
module Scenarios {
  import opened Prelude
  import opened JsonValue
  import Base64
  import Utf8
  import Text
  import Decoder
  import MainEngine

  // ---------------------------------------------------------------------------
  // Generic steps
  // ---------------------------------------------------------------------------

  /** An object with one member decodes to the object with that member decoded. */
  lemma OneField(parse: Parser, k: string, v: Json)
    ensures Decoder.DecodeBase64Fields(parse, JObj(map[k := v])) ==
            JObj(map[k := Decoder.DecodeBase64Fields(parse, v)])
  {
    var r := Decoder.DecodeBase64Fields(parse, JObj(map[k := v]));
    assert r.fields.Keys == {k};
    assert r.fields == map[k := Decoder.DecodeBase64Fields(parse, v)];
  }

  /** An object with two members decodes to the object with both members decoded. */
  lemma TwoFields(parse: Parser, k1: string, v1: Json, k2: string, v2: Json)
    requires k1 != k2
    ensures Decoder.DecodeBase64Fields(parse, JObj(map[k1 := v1, k2 := v2])) ==
            JObj(map[k1 := Decoder.DecodeBase64Fields(parse, v1), k2 := Decoder.DecodeBase64Fields(parse, v2)])
  {
    var r := Decoder.DecodeBase64Fields(parse, JObj(map[k1 := v1, k2 := v2]));
    assert r.fields.Keys == {k1, k2};
    assert r.fields == map[k1 := Decoder.DecodeBase64Fields(parse, v1), k2 := Decoder.DecodeBase64Fields(parse, v2)];
  }

  /** An array of four values decodes to the array of the four decoded values. */
  lemma FourElems(parse: Parser, a: Json, b: Json, c: Json, d: Json)
    ensures Decoder.DecodeBase64Fields(parse, JArr([a, b, c, d])) ==
            JArr([Decoder.DecodeBase64Fields(parse, a), Decoder.DecodeBase64Fields(parse, b),
                  Decoder.DecodeBase64Fields(parse, c), Decoder.DecodeBase64Fields(parse, d)])
  {
    var r := Decoder.DecodeBase64Fields(parse, JArr([a, b, c, d]));
    assert r.elems == [Decoder.DecodeBase64Fields(parse, a), Decoder.DecodeBase64Fields(parse, b),
                       Decoder.DecodeBase64Fields(parse, c), Decoder.DecodeBase64Fields(parse, d)];
  }

  /** Standard Base64 output never starts or ends with a space, so trimming leaves it alone. */
  lemma EncodingIsTrimmed(b: seq<byte>)
    ensures Text.TrimSpace(Base64.Encode(b)) == Base64.Encode(b)
  {
    var e := Base64.Encode(b);
    Base64.EncodeChars(b);
    if e != [] {
      assert Base64.IsAlphabetChar(e[0]) || e[0] == Base64.Pad;
      assert Base64.IsAlphabetChar(e[|e| - 1]) || e[|e| - 1] == Base64.Pad;
    }
    Text.TrimSpaceOfTrimmed(e);
  }

  /** Three ASCII characters are three bytes, which encode as the quantum of the given 6-bit values. */
  lemma AsciiQuantum(u: string, e: string, i0: nat, i1: nat, i2: nat, i3: nat)
    requires |u| == 3 && u[0] as int < 0x80 && u[1] as int < 0x80 && u[2] as int < 0x80
    requires i0 == (u[0] as int) / 4 && i1 == ((u[0] as int) % 4) * 16 + (u[1] as int) / 16
    requires i2 == ((u[1] as int) % 16) * 4 + (u[2] as int) / 64 && i3 == (u[2] as int) % 64
    requires e == [Base64.CharOf(i0), Base64.CharOf(i1), Base64.CharOf(i2), Base64.CharOf(i3)]
    ensures |Utf8.Encode(u)| == 3 && Base64.Encode(Utf8.Encode(u)) == e
  {
    AsciiBytes(u);
    FullQuantum([u[0] as int, u[1] as int, u[2] as int], e, i0, i1, i2, i3);
  }

  /** Two ASCII characters encode as three 6-bit values and one '='. */
  lemma AsciiPair(u: string, e: string, i0: nat, i1: nat, i2: nat)
    requires |u| == 2 && u[0] as int < 0x80 && u[1] as int < 0x80
    requires i0 == (u[0] as int) / 4 && i1 == ((u[0] as int) % 4) * 16 + (u[1] as int) / 16
    requires i2 == ((u[1] as int) % 16) * 4
    requires e == [Base64.CharOf(i0), Base64.CharOf(i1), Base64.CharOf(i2), Base64.Pad]
    ensures Base64.Encode(Utf8.Encode(u)) == e
  {
    AsciiBytes(u);
    assert Utf8.Encode(u) == [u[0] as int, u[1] as int];
  }

  /** One ASCII character encodes as two 6-bit values and two '='. */
  lemma AsciiSingle(u: string, e: string, i0: nat, i1: nat)
    requires |u| == 1 && u[0] as int < 0x80
    requires i0 == (u[0] as int) / 4 && i1 == ((u[0] as int) % 4) * 16
    requires e == [Base64.CharOf(i0), Base64.CharOf(i1), Base64.Pad, Base64.Pad]
    ensures Base64.Encode(Utf8.Encode(u)) == e
  {
    AsciiBytes(u);
    assert Utf8.Encode(u) == [u[0] as int];
  }

  /** Up to three ASCII characters are encoded one byte each. */
  lemma AsciiBytes(u: string)
    requires 1 <= |u| <= 3 && forall i :: 0 <= i < |u| ==> u[i] as int < 0x80
    ensures |Utf8.Encode(u)| == |u| && forall i :: 0 <= i < |u| ==> Utf8.Encode(u)[i] == u[i] as int
  {
    assert Utf8.Encode(u) == Utf8.EncodeChar(u[0]) + Utf8.Encode(u[1..]);
    if |u| > 1 {
      assert Utf8.Encode(u[1..]) == Utf8.EncodeChar(u[1]) + Utf8.Encode(u[2..]);
      if |u| > 2 {
        assert Utf8.Encode(u[2..]) == Utf8.EncodeChar(u[2]) + Utf8.Encode(u[3..]);
        assert u[3..] == [];
      } else {
        assert u[2..] == [];
      }
    } else {
      assert u[1..] == [];
    }
  }

  /** Three bytes encode as the quantum of their four 6-bit groups. */
  lemma FullQuantum(b: seq<byte>, e: string, i0: nat, i1: nat, i2: nat, i3: nat)
    requires |b| == 3
    requires i0 == b[0] / 4 && i1 == (b[0] % 4) * 16 + b[1] / 16
    requires i2 == (b[1] % 16) * 4 + b[2] / 64 && i3 == b[2] % 64
    requires e == [Base64.CharOf(i0), Base64.CharOf(i1), Base64.CharOf(i2), Base64.CharOf(i3)]
    ensures Base64.Encode(b) == e
  {
    assert Base64.Encode(b[3..]) == [];
  }

  /**
   * Encoding text in two pieces: when the first piece is three bytes of UTF-8, the standard
   * encoding of the whole is the encoding of the first piece followed by that of the second.
   */
  lemma EncodesAsTwo(u1: string, u2: string, e1: string, e2: string)
    requires |Utf8.Encode(u1)| == 3 && Base64.Encode(Utf8.Encode(u1)) == e1
    requires Base64.Encode(Utf8.Encode(u2)) == e2
    ensures Base64.Encode(Utf8.Encode(u1 + u2)) == e1 + e2
  {
    Utf8.EncodeAppend(u1, u2);
    Base64.EncodeAppend(Utf8.Encode(u1), Utf8.Encode(u2));
  }


  /** A text that is its own trim and not JSON comes back, as itself, from its standard encoding. */
  lemma PlainTextRoundTrip(parse: Parser, u: string, s: string)
    requires Base64.Encode(Utf8.Encode(u)) == s
    requires Text.TrimSpace(u) == u && parse(u).None?
    ensures Decoder.IsBase64(s) && Decoder.DecodedText(s) == Some(u)
    ensures Decoder.DecodeBase64Fields(parse, JStr(s)) == JStr(u)
  {
    Decoder.RoundTrip(parse, u);
  }

  // ---------------------------------------------------------------------------
  // Two layers of Base64 are unwrapped one at a time
  // ---------------------------------------------------------------------------

  /**
   * Base64 of Base64 of a JSON document: one pass yields the inner Base64 text, because that
   * text is not JSON and so is not decoded again; a second pass yields the decoded document.
   */
  lemma OneLayerPerPass(parse: Parser, j: string, x: Json)
    requires parse(Text.TrimSpace(j)) == Some(x)
    requires parse(Base64.Encode(Utf8.Encode(j))).None?
    ensures
      var inner := Base64.Encode(Utf8.Encode(j));
      Decoder.DecodeBase64Fields(parse, JStr(Base64.Encode(Utf8.Encode(inner)))) == JStr(inner) &&
      Decoder.DecodeBase64Fields(parse, JStr(inner)) == Decoder.DecodeBase64Fields(parse, x)
  {
    var inner := Base64.Encode(Utf8.Encode(j));
    EncodingIsTrimmed(Utf8.Encode(j));
    Decoder.RoundTrip(parse, inner);
    Decoder.RoundTrip(parse, j);
  }

  // ---------------------------------------------------------------------------
  // internal/decoder/decoder_test.go: the word "distance" is itself Base64
  // ---------------------------------------------------------------------------

  /** The text that "distance" decodes to: v + - j w and the control character U+001E. */
  const Garbled: string := "v+-jw\U{1E}"

  /** "distance" is the standard encoding of the UTF-8 of the garbled text. */
  lemma GarbledEncoding()
    ensures Base64.Encode(Utf8.Encode(Garbled)) == "distance"
  {
    AsciiQuantum("v+-", "dist", 29, 34, 44, 45);
    AsciiQuantum("jw\U{1E}", "ance", 26, 39, 28, 30);
    EncodesAsTwo("v+-", "jw\U{1E}", "dist", "ance");
    GarbledEncodingText();
    GarbledEncodingJoin();
  }

  lemma GarbledEncodingText()
    ensures "v+-jw\U{1E}" == "v+-" + "jw\U{1E}"
  { }

  lemma GarbledEncodingJoin()
    ensures "dist" + "ance" == "distance"
  { }

  lemma GarbledTrimmed() ensures Text.TrimSpace(Garbled) == Garbled {
    Text.TrimSpaceOfTrimmed(Garbled);
  }

  /** "distance" passes the Base64 check and decodes to UTF-8 text that trimming keeps whole. */
  lemma DistanceIsBase64()
    ensures Decoder.IsBase64("distance")
    ensures Decoder.DecodedText("distance") == Some(Garbled)
  {
    GarbledEncoding();
    Base64.DecodeEncode(Utf8.Encode(Garbled));
    Utf8.DecodeEncode(Garbled);
    GarbledTrimmed();
  }

  /** As the garbled text is not JSON, "distance" is replaced by it. */
  lemma DistanceDecoded(parse: Parser)
    requires parse(Garbled).None?
    ensures Decoder.DecodeBase64Fields(parse, JStr("distance")) == JStr(Garbled)
  {
    GarbledEncoding();
    GarbledTrimmed();
    PlainTextRoundTrip(parse, Garbled, "distance");
  }

  /** The document that the test's payload encodes, without and with its final newline. */
  const DistanceDoc: string := "{\"message\":\"distance\"}"

  lemma DistanceDocTrimmed()
    ensures Text.TrimSpace("{\"message\":\"distance\"}\n") == "{\"message\":\"distance\"}"
  {
    Text.TrimSpaceDropsTrailing("{\"message\":\"distance\"}", '\n');
    assert "{\"message\":\"distance\"}" + ['\n'] == "{\"message\":\"distance\"}\n";
  }

  /** The payload of Test_DecodeBase64Fields is the standard encoding of the document and the newline that `echo` adds. */
  lemma DistanceDocEncoding()
    ensures Base64.Encode(Utf8.Encode("{\"message\":\"distance\"}\n")) == "eyJtZXNzYWdlIjoiZGlzdGFuY2UifQo="
  {
    AsciiQuantum("{\"m", "eyJt", 30, 50, 9, 45);
    AsciiQuantum("ess", "ZXNz", 25, 23, 13, 51);
    AsciiQuantum("age", "YWdl", 24, 22, 29, 37);
    AsciiQuantum("\":\"", "Ijoi", 8, 35, 40, 34);
    AsciiQuantum("dis", "ZGlz", 25, 6, 37, 51);
    AsciiQuantum("tan", "dGFu", 29, 6, 5, 46);
    AsciiQuantum("ce\"", "Y2Ui", 24, 54, 20, 34);
    AsciiPair("}\n", "fQo=", 31, 16, 40);
    EncodesAsTwo("ce\"", "}\n", "Y2Ui", "fQo=");
    EncodesAsTwo("tan", "ce\"" + "}\n", "dGFu", "Y2Ui" + "fQo=");
    EncodesAsTwo("dis", "tan" + ("ce\"" + "}\n"), "ZGlz", "dGFu" + ("Y2Ui" + "fQo="));
    EncodesAsTwo("\":\"", "dis" + ("tan" + ("ce\"" + "}\n")), "Ijoi", "ZGlz" + ("dGFu" + ("Y2Ui" + "fQo=")));
    EncodesAsTwo("age", "\":\"" + ("dis" + ("tan" + ("ce\"" + "}\n"))), "YWdl", "Ijoi" + ("ZGlz" + ("dGFu" + ("Y2Ui" + "fQo="))));
    EncodesAsTwo("ess", "age" + ("\":\"" + ("dis" + ("tan" + ("ce\"" + "}\n")))), "ZXNz", "YWdl" + ("Ijoi" + ("ZGlz" + ("dGFu" + ("Y2Ui" + "fQo=")))));
    EncodesAsTwo("{\"m", "ess" + ("age" + ("\":\"" + ("dis" + ("tan" + ("ce\"" + "}\n"))))), "eyJt", "ZXNz" + ("YWdl" + ("Ijoi" + ("ZGlz" + ("dGFu" + ("Y2Ui" + "fQo="))))));
    DistanceDocEncodingText();
    DistanceDocEncodingJoin();
  }

  lemma DistanceDocEncodingText()
    ensures "{\"message\":\"distance\"}\n" == "{\"m" + ("ess" + ("age" + ("\":\"" + ("dis" + ("tan" + ("ce\"" + "}\n"))))))
  { }

  lemma DistanceDocEncodingJoin()
    ensures "eyJt" + ("ZXNz" + ("YWdl" + ("Ijoi" + ("ZGlz" + ("dGFu" + ("Y2Ui" + "fQo=")))))) == "eyJtZXNzYWdlIjoiZGlzdGFuY2UifQo="
  { }

  /** The payload of the test unwraps to the parsed document with "distance" decoded. */
  lemma DistancePayloadUnwraps(parse: Parser)
    requires parse(DistanceDoc) == Some(JObj(map["message" := JStr("distance")]))
    requires parse(Garbled).None?
    ensures Decoder.DecodeBase64Fields(parse, JStr("eyJtZXNzYWdlIjoiZGlzdGFuY2UifQo=")) ==
            JObj(map["message" := JStr(Garbled)])
  {
    DistanceDecoded(parse);
    OneField(parse, "message", JStr("distance"));
    DistanceDocTrimmed();
    DistanceDocEncoding();
    Decoder.RoundTrip(parse, "{\"message\":\"distance\"}\n");
  }

  /**
   * Test_DecodeBase64Fields: {"data": "eyJtZXNzYWdlIjoiZGlzdGFuY2UifQo="}, the payload holding
   * {"message":"distance"} and a newline.
   * The engine unwraps the payload and then decodes "distance" as well, so the result is
   * not the {"data":{"message":"distance"}} that the test expects.
   */
  lemma DecoderTestOutcome(parse: Parser)
    requires parse(DistanceDoc) == Some(JObj(map["message" := JStr("distance")]))
    requires parse(Garbled).None?
    ensures
      var input := JObj(map["data" := JStr("eyJtZXNzYWdlIjoiZGlzdGFuY2UifQo=")]);
      Decoder.DecodeBase64Fields(parse, input) == JObj(map["data" := JObj(map["message" := JStr(Garbled)])]) &&
      Decoder.DecodeBase64Fields(parse, input) != JObj(map["data" := JObj(map["message" := JStr("distance")])])
  {
    DistancePayloadUnwraps(parse);
    OneField(parse, "data", JStr("eyJtZXNzYWdlIjoiZGlzdGFuY2UifQo="));
    NotAsExpected();
  }

  lemma NotAsExpected()
    ensures JObj(map["data" := JObj(map["message" := JStr(Garbled)])]) !=
            JObj(map["data" := JObj(map["message" := JStr("distance")])])
  {
    assert Garbled[0] != "distance"[0];
    assert map["message" := JStr(Garbled)]["message"] != map["message" := JStr("distance")]["message"];
    assert map["data" := JObj(map["message" := JStr(Garbled)])]["data"] !=
           map["data" := JObj(map["message" := JStr("distance")])]["data"];
  }

  // ---------------------------------------------------------------------------
  // main_test.go: the engine of main.go
  // ---------------------------------------------------------------------------

  /** "SGVsbG8gV29ybGQ=" is the standard encoding of the UTF-8 text "Hello World". */
  lemma HelloWorldEncoding()
    ensures Base64.Encode(Utf8.Encode("Hello World")) == "SGVsbG8gV29ybGQ="
  {
    AsciiQuantum("Hel", "SGVs", 18, 6, 21, 44);
    AsciiQuantum("lo ", "bG8g", 27, 6, 60, 32);
    AsciiQuantum("Wor", "V29y", 21, 54, 61, 50);
    AsciiPair("ld", "bGQ=", 27, 6, 16);
    EncodesAsTwo("Wor", "ld", "V29y", "bGQ=");
    EncodesAsTwo("lo ", "Wor" + "ld", "bG8g", "V29y" + "bGQ=");
    EncodesAsTwo("Hel", "lo " + ("Wor" + "ld"), "SGVs", "bG8g" + ("V29y" + "bGQ="));
    HelloWorldEncodingText();
    HelloWorldEncodingJoin();
  }

  lemma HelloWorldEncodingText()
    ensures "Hello World" == "Hel" + ("lo " + ("Wor" + "ld"))
  { }

  lemma HelloWorldEncodingJoin()
    ensures "SGVs" + ("bG8g" + ("V29y" + "bGQ=")) == "SGVsbG8gV29ybGQ="
  { }

  lemma HelloWorldTrimmed() ensures Text.TrimSpace("Hello World") == "Hello World" {
    Text.TrimSpaceOfTrimmed("Hello World");
  }

  lemma HelloWorldDecoder(parse: Parser)
    requires parse("Hello World").None?
    ensures Decoder.DecodeBase64Fields(parse, JStr("SGVsbG8gV29ybGQ=")) == JStr("Hello World")
  {
    HelloWorldEncoding();
    HelloWorldTrimmed();
    PlainTextRoundTrip(parse, "Hello World", "SGVsbG8gV29ybGQ=");
  }

  /** "SGVsbG8=" is the standard encoding of the UTF-8 text "Hello". */
  lemma HelloEncoding()
    ensures Base64.Encode(Utf8.Encode("Hello")) == "SGVsbG8="
  {
    AsciiQuantum("Hel", "SGVs", 18, 6, 21, 44);
    AsciiPair("lo", "bG8=", 27, 6, 60);
    EncodesAsTwo("Hel", "lo", "SGVs", "bG8=");
    HelloEncodingText();
    HelloEncodingJoin();
  }

  lemma HelloEncodingText()
    ensures "Hello" == "Hel" + "lo"
  { }

  lemma HelloEncodingJoin()
    ensures "SGVs" + "bG8=" == "SGVsbG8="
  { }

  lemma HelloDecoder(parse: Parser)
    requires parse("Hello").None?
    ensures Decoder.DecodeBase64Fields(parse, JStr("SGVsbG8=")) == JStr("Hello")
  {
    HelloEncoding();
    Text.TrimSpaceOfTrimmed("Hello");
    PlainTextRoundTrip(parse, "Hello", "SGVsbG8=");
  }

  /** "VGVzdA==" is the standard encoding of the UTF-8 text "Test". */
  lemma TestEncoding()
    ensures Base64.Encode(Utf8.Encode("Test")) == "VGVzdA=="
  {
    AsciiQuantum("Tes", "VGVz", 21, 6, 21, 51);
    AsciiSingle("t", "dA==", 29, 0);
    EncodesAsTwo("Tes", "t", "VGVz", "dA==");
    TestEncodingText();
    TestEncodingJoin();
  }

  lemma TestEncodingText()
    ensures "Test" == "Tes" + "t"
  { }

  lemma TestEncodingJoin()
    ensures "VGVz" + "dA==" == "VGVzdA=="
  { }

  lemma TestDecoder(parse: Parser)
    requires parse("Test").None?
    ensures Decoder.DecodeBase64Fields(parse, JStr("VGVzdA==")) == JStr("Test")
  {
    TestEncoding();
    Text.TrimSpaceOfTrimmed("Test");
    PlainTextRoundTrip(parse, "Test", "VGVzdA==");
  }

  /** Whatever the engine of internal/decoder computes, the engine of main.go computes too. */
  lemma OnMainEngine(parse: Parser, v: Json, w: Json)
    requires Decoder.DecodeBase64Fields(parse, v) == w
    ensures MainEngine.DecodeBase64Fields(parse, v) == w
  {
    MainEngine.EnginesAgree(parse, v);
  }

  /** TestDirectJSONStringArgument: {"message": "SGVsbG8gV29ybGQ=", "number": 42}. */
  lemma DirectJsonArgument(parse: Parser)
    requires parse("Hello World").None?
    ensures MainEngine.DecodeBase64Fields(parse, JObj(map["message" := JStr("SGVsbG8gV29ybGQ="), "number" := JNum(42.0)])) ==
            JObj(map["message" := JStr("Hello World"), "number" := JNum(42.0)])
  {
    HelloWorldDecoder(parse);
    MessageAndNumber(parse, "SGVsbG8gV29ybGQ=", JStr("Hello World"));
  }

  /** The payload of TestBase64IsAnotherJSON is the standard encoding of the document and the newline that `echo` adds. */
  lemma KeyDocEncoding()
    ensures Base64.Encode(Utf8.Encode("{\"key\":\"value\"}\n")) == "eyJrZXkiOiJ2YWx1ZSJ9Cg=="
  {
    AsciiQuantum("{\"k", "eyJr", 30, 50, 9, 43);
    AsciiQuantum("ey\"", "ZXki", 25, 23, 36, 34);
    AsciiQuantum(":\"v", "OiJ2", 14, 34, 9, 54);
    AsciiQuantum("alu", "YWx1", 24, 22, 49, 53);
    AsciiQuantum("e\"}", "ZSJ9", 25, 18, 9, 61);
    AsciiSingle("\n", "Cg==", 2, 32);
    EncodesAsTwo("e\"}", "\n", "ZSJ9", "Cg==");
    EncodesAsTwo("alu", "e\"}" + "\n", "YWx1", "ZSJ9" + "Cg==");
    EncodesAsTwo(":\"v", "alu" + ("e\"}" + "\n"), "OiJ2", "YWx1" + ("ZSJ9" + "Cg=="));
    EncodesAsTwo("ey\"", ":\"v" + ("alu" + ("e\"}" + "\n")), "ZXki", "OiJ2" + ("YWx1" + ("ZSJ9" + "Cg==")));
    EncodesAsTwo("{\"k", "ey\"" + (":\"v" + ("alu" + ("e\"}" + "\n"))), "eyJr", "ZXki" + ("OiJ2" + ("YWx1" + ("ZSJ9" + "Cg=="))));
    KeyDocEncodingText();
    KeyDocEncodingJoin();
  }

  lemma KeyDocEncodingText()
    ensures "{\"key\":\"value\"}\n" == "{\"k" + ("ey\"" + (":\"v" + ("alu" + ("e\"}" + "\n"))))
  { }

  lemma KeyDocEncodingJoin()
    ensures "eyJr" + ("ZXki" + ("OiJ2" + ("YWx1" + ("ZSJ9" + "Cg==")))) == "eyJrZXkiOiJ2YWx1ZSJ9Cg=="
  { }

  lemma KeyDocTrimmed()
    ensures Text.TrimSpace("{\"key\":\"value\"}\n") == "{\"key\":\"value\"}"
  {
    Text.TrimSpaceDropsTrailing("{\"key\":\"value\"}", '\n');
    assert "{\"key\":\"value\"}" + ['\n'] == "{\"key\":\"value\"}\n";
  }

  lemma KeyDocDecoded(parse: Parser)
    ensures Decoder.DecodeBase64Fields(parse, JObj(map["key" := JStr("value")])) == JObj(map["key" := JStr("value")])
  {
    Decoder.LengthGuard(parse, "value");
    OneField(parse, "key", JStr("value"));
  }

  lemma KeyPayloadUnwraps(parse: Parser)
    requires parse("{\"key\":\"value\"}") == Some(JObj(map["key" := JStr("value")]))
    ensures Decoder.DecodeBase64Fields(parse, JStr("eyJrZXkiOiJ2YWx1ZSJ9Cg==")) ==
            JObj(map["key" := JStr("value")])
  {
    KeyDocTrimmed();
    KeyDocDecoded(parse);
    KeyDocEncoding();
    Decoder.RoundTrip(parse, "{\"key\":\"value\"}\n");
  }

  /** TestBase64IsAnotherJSON: {"message": "eyJrZXkiOiJ2YWx1ZSJ9Cg==", "number": 42}. */
  lemma Base64IsAnotherJson(parse: Parser)
    requires parse("{\"key\":\"value\"}") == Some(JObj(map["key" := JStr("value")]))
    ensures
      MainEngine.DecodeBase64Fields(parse, JObj(map["message" := JStr("eyJrZXkiOiJ2YWx1ZSJ9Cg=="), "number" := JNum(42.0)])) ==
      JObj(map["message" := JObj(map["key" := JStr("value")]), "number" := JNum(42.0)])
  {
    KeyPayloadUnwraps(parse);
    MessageAndNumber(parse, "eyJrZXkiOiJ2YWx1ZSJ9Cg==", JObj(map["key" := JStr("value")]));
  }

  /** The shape of both main.go tests: a "message" string next to the number 42. */
  lemma MessageAndNumber(parse: Parser, message: string, x: Json)
    requires Decoder.DecodeBase64Fields(parse, JStr(message)) == x
    ensures MainEngine.DecodeBase64Fields(parse, JObj(map["message" := JStr(message), "number" := JNum(42.0)])) ==
            JObj(map["message" := x, "number" := JNum(42.0)])
  {
    TwoFields(parse, "message", JStr(message), "number", JNum(42.0));
    OnMainEngine(parse, JObj(map["message" := JStr(message), "number" := JNum(42.0)]), JObj(map["message" := x, "number" := JNum(42.0)]));
  }

  /** The array of TestBase64EdgeCases: ["SGVsbG8=", "plain text", 123, "VGVzdA=="]. */
  const MixedInput: seq<Json> := [JStr("SGVsbG8="), JStr("plain text"), JNum(123.0), JStr("VGVzdA==")]

  lemma MixedLength(parse: Parser)
    ensures |Decoder.DecodeBase64Fields(parse, JArr(MixedInput)).elems| == 4
  {
  }

  lemma MixedFirst(parse: Parser)
    requires parse("Hello").None?
    ensures Decoder.DecodeBase64Fields(parse, JArr(MixedInput)).elems[0] == JStr("Hello")
  {
    HelloDecoder(parse);
  }

  lemma MixedSecond(parse: Parser)
    ensures Decoder.DecodeBase64Fields(parse, JArr(MixedInput)).elems[1] == JStr("plain text")
  {
    PlainTextKept(parse);
  }

  /** "plain text" is ten characters long, so it is not Base64. */
  lemma PlainTextKept(parse: Parser)
    ensures Decoder.DecodeBase64Fields(parse, JStr("plain text")) == JStr("plain text")
  {
    Decoder.LengthGuard(parse, "plain text");
  }

  lemma MixedThird(parse: Parser)
    ensures Decoder.DecodeBase64Fields(parse, JArr(MixedInput)).elems[2] == JNum(123.0)
  {
  }

  lemma MixedFourth(parse: Parser)
    requires parse("Test").None?
    ensures Decoder.DecodeBase64Fields(parse, JArr(MixedInput)).elems[3] == JStr("Test")
  {
    TestDecoder(parse);
  }

  /** The array decodes element by element: the two Base64 texts are decoded, the rest kept. */
  lemma MixedArray(parse: Parser)
    requires parse("Hello").None? && parse("Test").None?
    ensures Decoder.DecodeBase64Fields(parse, JArr(MixedInput)) ==
            JArr([JStr("Hello"), JStr("plain text"), JNum(123.0), JStr("Test")])
  {
    MixedLength(parse);
    MixedFirst(parse);
    MixedSecond(parse);
    MixedThird(parse);
    MixedFourth(parse);
    ArrayOfFour(Decoder.DecodeBase64Fields(parse, JArr(MixedInput)), JStr("Hello"), JStr("plain text"), JNum(123.0), JStr("Test"));
  }

  lemma ArrayOfFour(r: Json, a: Json, b: Json, c: Json, d: Json)
    requires r.JArr? && |r.elems| == 4
    requires r.elems[0] == a && r.elems[1] == b && r.elems[2] == c && r.elems[3] == d
    ensures r == JArr([a, b, c, d])
  {
    assert r.elems == [a, b, c, d];
  }

  /** Decoding an object gives an object with the same keys. */
  lemma KeysKept(parse: Parser, m: map<string, Json>)
    ensures Decoder.DecodeBase64Fields(parse, JObj(m)).JObj?
    ensures Decoder.DecodeBase64Fields(parse, JObj(m)).fields.Keys == m.Keys
  {
  }

  /** A member holding a number, a boolean or null is kept as it is. */
  lemma ScalarField(parse: Parser, m: map<string, Json>, k: string)
    requires k in m && (m[k].JNum? || m[k].JBool? || m[k].JNull?)
    ensures Decoder.DecodeBase64Fields(parse, JObj(m)).fields[k] == m[k]
  {
    Decoder.ScalarsUnchanged(parse, m[k]);
    FieldDecodesTo(parse, m, k, m[k]);
  }

  /** Decoding an object keeps its keys and puts under k the decoding of m[k]. */
  lemma FieldDecodesTo(parse: Parser, m: map<string, Json>, k: string, w: Json)
    requires k in m && Decoder.DecodeBase64Fields(parse, m[k]) == w
    ensures Decoder.DecodeBase64Fields(parse, JObj(m)).JObj?
    ensures Decoder.DecodeBase64Fields(parse, JObj(m)).fields.Keys == m.Keys
    ensures Decoder.DecodeBase64Fields(parse, JObj(m)).fields[k] == w
  {
  }

  /** The members of the TestBase64EdgeCases input, as the test writes them. */
  predicate IsEdgeCasesInput(m: map<string, Json>)
  {
    && "valid_base64" in m && m["valid_base64"] == JStr("SGVsbG8gV29ybGQ=")
    && "not_base64_wrong_length" in m && m["not_base64_wrong_length"] == JStr("abc")
    && "not_base64_invalid_chars" in m && m["not_base64_invalid_chars"] == JStr("Hello@World")
    && "empty_string" in m && m["empty_string"] == JStr("")
    && "number" in m && m["number"] == JNum(42.0)
    && "boolean" in m && m["boolean"] == JBool(true)
    && "null_value" in m && m["null_value"] == JNull
    && "array_with_mixed" in m && m["array_with_mixed"] == JArr(MixedInput)
  }

  /** What TestBase64EdgeCases checks of the output, member by member. */
  predicate IsEdgeCasesOutput(r: Json)
  {
    && r.JObj?
    && "valid_base64" in r.fields && r.fields["valid_base64"] == JStr("Hello World")
    && "not_base64_wrong_length" in r.fields && r.fields["not_base64_wrong_length"] == JStr("abc")
    && "not_base64_invalid_chars" in r.fields && r.fields["not_base64_invalid_chars"] == JStr("Hello@World")
    && "empty_string" in r.fields && r.fields["empty_string"] == JStr("")
    && "number" in r.fields && r.fields["number"] == JNum(42.0)
    && "boolean" in r.fields && r.fields["boolean"] == JBool(true)
    && "null_value" in r.fields && r.fields["null_value"] == JNull
    && "array_with_mixed" in r.fields &&
       r.fields["array_with_mixed"] == JArr([JStr("Hello"), JStr("plain text"), JNum(123.0), JStr("Test")])
  }

  lemma EdgeCasesDecoder(parse: Parser, m: map<string, Json>)
    requires parse("Hello World").None? && parse("Hello").None? && parse("Test").None?
    requires IsEdgeCasesInput(m)
    ensures IsEdgeCasesOutput(Decoder.DecodeBase64Fields(parse, JObj(m)))
    ensures Decoder.DecodeBase64Fields(parse, JObj(m)).fields.Keys == m.Keys
  {
    EdgeCasesTexts(parse, m);
    EdgeCasesOthers(parse, m);
  }

  lemma EdgeCasesTexts(parse: Parser, m: map<string, Json>)
    requires parse("Hello World").None?
    requires IsEdgeCasesInput(m)
    ensures
      var r := Decoder.DecodeBase64Fields(parse, JObj(m));
      && r.JObj? && r.fields.Keys == m.Keys
      && r.fields["valid_base64"] == JStr("Hello World")
      && r.fields["not_base64_wrong_length"] == JStr("abc")
      && r.fields["not_base64_invalid_chars"] == JStr("Hello@World")
      && r.fields["empty_string"] == JStr("")
  {
    KeysKept(parse, m);
    ValidBase64Field(parse, m);
    WrongLengthKept(parse);
    FieldDecodesTo(parse, m, "not_base64_wrong_length", JStr("abc"));
    InvalidCharsKept(parse);
    FieldDecodesTo(parse, m, "not_base64_invalid_chars", JStr("Hello@World"));
    EmptyStringField(parse, m);
  }

  lemma ValidBase64Field(parse: Parser, m: map<string, Json>)
    requires parse("Hello World").None?
    requires "valid_base64" in m && m["valid_base64"] == JStr("SGVsbG8gV29ybGQ=")
    ensures Decoder.DecodeBase64Fields(parse, JObj(m)).fields["valid_base64"] == JStr("Hello World")
  {
    HelloWorldDecoder(parse);
    FieldDecodesTo(parse, m, "valid_base64", JStr("Hello World"));
  }

  /** "abc" is three characters long, so it is not Base64. */
  lemma WrongLengthKept(parse: Parser)
    ensures Decoder.DecodeBase64Fields(parse, JStr("abc")) == JStr("abc")
  {
    Decoder.LengthGuard(parse, "abc");
  }

  /** "Hello@World" is eleven characters long (and '@' is not in the alphabet), so it is not Base64. */
  lemma InvalidCharsKept(parse: Parser)
    ensures Decoder.DecodeBase64Fields(parse, JStr("Hello@World")) == JStr("Hello@World")
  {
    Decoder.LengthGuard(parse, "Hello@World");
  }

  lemma EmptyStringField(parse: Parser, m: map<string, Json>)
    requires "empty_string" in m && m["empty_string"] == JStr("")
    ensures Decoder.DecodeBase64Fields(parse, JObj(m)).fields["empty_string"] == JStr("")
  {
    Decoder.EmptyStringUnchanged(parse);
    FieldDecodesTo(parse, m, "empty_string", JStr(""));
  }

  lemma EdgeCasesOthers(parse: Parser, m: map<string, Json>)
    requires parse("Hello").None? && parse("Test").None?
    requires IsEdgeCasesInput(m)
    ensures
      var r := Decoder.DecodeBase64Fields(parse, JObj(m));
      && r.JObj?
      && r.fields["number"] == JNum(42.0)
      && r.fields["boolean"] == JBool(true)
      && r.fields["null_value"] == JNull
      && r.fields["array_with_mixed"] == JArr([JStr("Hello"), JStr("plain text"), JNum(123.0), JStr("Test")])
  {
    KeysKept(parse, m);
    ScalarField(parse, m, "number");
    ScalarField(parse, m, "boolean");
    ScalarField(parse, m, "null_value");
    MixedArray(parse);
    FieldDecodesTo(parse, m, "array_with_mixed", JArr([JStr("Hello"), JStr("plain text"), JNum(123.0), JStr("Test")]));
  }

  /** TestBase64EdgeCases, member by member as the test checks them, on the engine of main.go. */
  lemma EdgeCases(parse: Parser, m: map<string, Json>)
    requires parse("Hello World").None? && parse("Hello").None? && parse("Test").None?
    requires IsEdgeCasesInput(m)
    ensures IsEdgeCasesOutput(MainEngine.DecodeBase64Fields(parse, JObj(m)))
    ensures MainEngine.DecodeBase64Fields(parse, JObj(m)).fields.Keys == m.Keys
  {
    EdgeCasesDecoder(parse, m);
    OnMainEngine(parse, JObj(m), Decoder.DecodeBase64Fields(parse, JObj(m)));
  }

  /** The payload of TestBase64BinaryData: bytes that are not UTF-8. */
  const BinaryPayload: seq<byte> := [0xFF, 0xFE, 0x00, 0x01, 0x80, 0x81]

  /** TestBase64BinaryData: the binary payload's Base64 stays as it is; the text one decodes. */
  lemma BinaryData(parse: Parser)
    requires parse("Hello").None?
    ensures
      var binary := Base64.Encode(BinaryPayload);
      MainEngine.DecodeBase64Fields(parse, JObj(map["binaryField" := JStr(binary), "textField" := JStr("SGVsbG8=")])) ==
      JObj(map["binaryField" := JStr(binary), "textField" := JStr("Hello")])
  {
    var binary := Base64.Encode(BinaryPayload);
    Utf8.BinaryPayloadInvalid();
    Decoder.BinarySafe(parse, BinaryPayload);
    HelloDecoder(parse);
    TwoFields(parse, "binaryField", JStr(binary), "textField", JStr("SGVsbG8="));
    OnMainEngine(parse, JObj(map["binaryField" := JStr(binary), "textField" := JStr("SGVsbG8=")]),
                 JObj(map["binaryField" := JStr(binary), "textField" := JStr("Hello")]));
  }
}
