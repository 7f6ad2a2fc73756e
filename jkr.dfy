/** Reading and writing a whole `.jkr` file: raw DEFLATE around the text
    `return {…}`. The compressor and decompressor (pako's `deflateRaw` and
    `inflateRaw` with UTF-8 text coding) are parameters of the model. */
module Jkr {
  import opened Wrappers
  import opened Decimal
  import opened Text
  import opened JsValue
  import opened KeyTags
  import opened LuaText

  const DecompressFailure: string := "Failed to decompress JKR file: "

  /** `decompressRaw`: a failing decompressor's message is prefixed. */
  function DecompressRaw(inflate: seq<bv8> -> Result<string>, bytes: seq<bv8>): (r: Result<string>)
    ensures inflate(bytes).Ok? ==> r == inflate(bytes)
    ensures inflate(bytes).Err? ==> r == Err(DecompressFailure + inflate(bytes).message)
  {
    match inflate(bytes)
    case Ok(text) => Ok(text)
    case Err(e) => Err(DecompressFailure + e)
  }

  /** The properties read from a file's text, keys tagged for editing. */
  function ReadJkrText(text: string): (r: Result<seq<Field>>)
    ensures ParseObjFromLua(text).Err? <==> r.Err?
    ensures r.Err? ==> StartsWith(r.message, ParseFailure)
  {
    match ParseObjFromLua(text)
    case Ok(fs) => Ok(EncodeFields(fs))
    case Err(e) => Err(e)
  }

  /** `decompressFromJkr(bytes)`. */
  function DecompressFromJkr(inflate: seq<bv8> -> Result<string>, bytes: seq<bv8>): (r: Result<seq<Field>>)
    ensures inflate(bytes).Err? ==> r == Err(DecompressFailure + inflate(bytes).message)
    ensures inflate(bytes).Ok? ==> r == ReadJkrText(inflate(bytes).value)
  {
    match DecompressRaw(inflate, bytes)
    case Err(e) => Err(e)
    case Ok(text) => ReadJkrText(text)
  }

  /** The text written for the edited properties: keys untagged, then the
      table after `return `. */
  function JkrText(fs: seq<Field>): string
  {
    "return " + TableText(QuoteEvery, DecodeFields(fs))
  }

  /** `compressToJkr(obj)`. */
  function CompressToJkr(deflate: string -> seq<bv8>, fs: seq<Field>): seq<bv8>
  {
    deflate(JkrText(fs))
  }

  lemma SafeIntText(n: int)
    ensures SafeText(IntText(n))
  {
    var d := if n < 0 then -n else n;
    assert AllDigits(NatText(d));
    if n < 0 {
      assert IntText(n) == "-" + NatText(d);
    }
  }

  lemma SafeDecodeKey(k: string)
    requires SafeText(k)
    ensures SafeText(DecodeKey(k))
  {
    if StartsWith(k, Tag) {
      match ParseInt(k[|Tag|..])
      case None =>
      case Some(n) => SafeIntText(n);
    }
  }

  /** Untagging the keys of printable tagged properties keeps them printable. */
  lemma {:induction false} DecodePrintable(v: JVal)
    requires TaggedTree(v) && Printable(v)
    ensures Printable(DecodeValue(v))
    decreases v
  {
    match v
    case JObj(fs) =>
      var d := DecodeEach(fs);
      forall i | 0 <= i < |fs|
        ensures EncodeKey(d[i].key) == fs[i].key
        ensures SafeText(d[i].key) && Printable(d[i].value)
      {
        EncodeDecodeKey(fs[i].key);
        SafeDecodeKey(fs[i].key);
        DecodePrintable(fs[i].value);
      }
      assert DistinctKeys(d) by {
        forall i, j | 0 <= i < j < |d| ensures d[i].key != d[j].key {
          assert EncodeKey(d[i].key) != EncodeKey(d[j].key);
        }
      }
      DecodeFieldsPointwise(fs);
    case _ =>
  }

  /** Properties the editor holds that a save file round trip keeps: keys
      tagged consistently, nothing that the text form flattens or breaks. */
  predicate Storable(fs: seq<Field>)
  {
    TaggedTree(JObj(fs)) && Printable(JObj(fs))
  }

  /** Reading the text written for tagged properties gives them back. */
  lemma ReadJkrTextOfJkrText(fs: seq<Field>)
    requires Storable(fs)
    ensures ReadJkrText(JkrText(fs)) == Ok(fs)
  {
    DecodePrintable(JObj(fs));
    ParseConvertRoundTrip(DecodeFields(fs));
    EncodeDecode(JObj(fs));
  }

  /** `decompressFromJkr(compressToJkr(obj))` gives back `obj`, given a
      decompressor that inverts the compressor and with the text read by
      the grammar reader. */
  lemma JkrRoundTrip(inflate: seq<bv8> -> Result<string>, deflate: string -> seq<bv8>, fs: seq<Field>)
    requires forall t :: inflate(deflate(t)) == Ok(t)
    requires Storable(fs)
    ensures DecompressFromJkr(inflate, CompressToJkr(deflate, fs)) == Ok(fs)
  {
    assert inflate(deflate(JkrText(fs))) == Ok(JkrText(fs));
    ReadJkrTextOfJkrText(fs);
  }

  // -----------------------------------------------------------------------
  // Literal rewriting inside strings

  /** The first three textual rewrites of `parseObjFromLua`, applied to the
      whole text before it is evaluated. */
  function RewriteLiterals(text: string): string
  {
    ReplaceAll(ReplaceAll(ReplaceAll(text, "=true", ":true"), "=false", ":false"), "=nil", ":null")
  }

  /** One rewrite pass over `{["a"]="` + rest, where the `=` before the
      value starts no match. */
  lemma RewritePrefix(rest: string, pat: string, rep: string)
    requires |pat| >= 2 && pat[0] == '=' && pat[1] != '"'
    ensures ReplaceAll("{[\"a\"]=\"" + rest, pat, rep)
         == "{[\"a\"]=\"" + ReplaceAll(rest, pat, rep)
  {
    var a := "{[\"a\"]";
    assert "{[\"a\"]=\"" + rest == a + ("=" + ("\"" + rest));
    ReplaceAllSkip(a, "=" + ("\"" + rest), pat, rep);
    ReplaceAllMiss('=', "\"" + rest, pat, rep);
    ReplaceAllSkip("\"", rest, pat, rep);
  }

  /** The `=true` pass over the value part `x=true",}` of the example. */
  lemma RewriteTrueValue()
    ensures ReplaceAll("x=true\",}", "=true", ":true") == "x:true\",}"
  {
    var tail := "\",}";
    assert ReplaceAll(tail, "=true", ":true") == tail by {
      ReplaceAllSkip(tail, [], "=true", ":true");
      assert tail + [] == tail;
    }
    assert ReplaceAll("=true" + tail, "=true", ":true") == ":true" + tail by {
      ReplaceAllHead(tail, "=true", ":true");
    }
    assert "x=true\",}" == "x" + ("=true" + tail);
    ReplaceAllSkip("x", "=true" + tail, "=true", ":true");
  }

  /** The `=true` pass over the example text. */
  lemma RewriteTruePass()
    ensures ReplaceAll("{[\"a\"]=\"x=true\",}", "=true", ":true") == "{[\"a\"]=\"x:true\",}"
  {
    assert "{[\"a\"]=\"x=true\",}" == "{[\"a\"]=\"" + "x=true\",}";
    assert "{[\"a\"]=\"x:true\",}" == "{[\"a\"]=\"" + "x:true\",}";
    RewriteTrueValue();
    RewritePrefix("x=true\",}", "=true", ":true");
  }

  /** A later pass whose pattern starts with `=` but not `="` leaves the
      rewritten example as it is. */
  lemma RewriteLaterPass(pat: string, rep: string)
    requires |pat| >= 2 && pat[0] == '=' && pat[1] != '"'
    ensures ReplaceAll("{[\"a\"]=\"x:true\",}", pat, rep) == "{[\"a\"]=\"x:true\",}"
  {
    var rest := "x:true\",}";
    assert ReplaceAll(rest, pat, rep) == rest by {
      ReplaceAllSkip(rest, [], pat, rep);
      assert rest + [] == rest;
    }
    assert "{[\"a\"]=\"x:true\",}" == "{[\"a\"]=\"" + rest;
    RewritePrefix(rest, pat, rep);
  }

  /** The rewrites also reach into string values: `x=true` is turned into
      `x:true` before the string literal is read. */
  lemma RewriteInsideString()
    ensures RewriteLiterals("{[\"a\"]=\"x=true\",}") == "{[\"a\"]=\"x:true\",}"
  {
    RewriteTruePass();
    RewriteLaterPass("=false", ":false");
    RewriteLaterPass("=nil", ":null");
  }

  /** The one string field of the example above. */
  lemma StringFieldText()
    ensures TableText(QuoteEvery, [Field("a", JStr("x=true"))]) == "{[\"a\"]=\"x=true\",}"
    ensures Printable(JObj([Field("a", JStr("x=true"))]))
  {
    var fs := [Field("a", JStr("x=true"))];
    assert fs[1..] == [];
    assert FieldsText(QuoteEvery, fs) == FieldText(QuoteEvery, fs[0]);
  }

  /** The grammar reader keeps the same string value as written. */
  lemma GrammarKeepsStringText()
    ensures ParseObjFromLua("return {[\"a\"]=\"x=true\",}") == Ok([Field("a", JStr("x=true"))])
  {
    var fs := [Field("a", JStr("x=true"))];
    assert "return " + TableText(QuoteEvery, fs) == "return {[\"a\"]=\"x=true\",}" by {
      StringFieldText();
    }
    assert ParseObjFromLua("return " + TableText(QuoteEvery, fs)) == Ok(fs) by {
      StringFieldText();
      ParseConvertRoundTrip(fs);
    }
  }

  // -----------------------------------------------------------------------
  // Integer keys

  lemma TagOneDecodes()
    ensures EncodeKey("1") == Tag + "1"
    ensures DecodeKey(Tag + "1") == "1"
  {
    assert IntText(1) == "1";
    ParseIntOfIntText(1);
    assert (Tag + "1")[|Tag|..] == "1";
    assert StartsWith(Tag + "1", Tag);
  }

  /** The one field of `{[1]=true,}`. */
  lemma ReadBareIntegerField()
    ensures ParseField(QuoteEvery, "{[1]=true,}", 1) == Parsed(Field("1", JBool(true)), 9)
  {
    var t := "{[1]=true,}";
    assert ParseKey(QuoteEvery, t, 2) == Parsed("1", 3) by {
      assert At(t, 2, "1") && AllDigits("1");
      DigitRunEndAt(t, 2, "1");
      assert t[2..3] == "1";
    }
    assert ParseValue(QuoteEvery, t, 5) == Parsed(JBool(true), 9) by {
      assert At(t, 5, ValueText(QuoteEvery, JBool(true))) by {
        assert t[5..9] == "true";
        AtSlice(t, 5, "true");
      }
      ParseValueWord(t, 5, QuoteEvery, JBool(true));
    }
    ParseFieldParts(QuoteEvery, t, 1, "1", 3, JBool(true), 9);
  }

  /** The bare key `[1]` is read as the string key `"1"`. */
  lemma ReadBareIntegerKey()
    ensures ParseObjFromLua("return {[1]=true,}") == Ok([Field("1", JBool(true))])
  {
    var t := "{[1]=true,}";
    var f := Field("1", JBool(true));
    assert ParseFields(QuoteEvery, t, 1, []) == Parsed([f], 11) by {
      ReadBareIntegerField();
      ParseFieldsNext(QuoteEvery, t, 1, [], f, 9);
      assert Put([], "1", JBool(true)) == [f];
      ParseFieldsClose(QuoteEvery, t, 10, [f]);
    }
    assert ParseTable(QuoteEvery, t) == Ok([f]);
    assert "return {[1]=true,}" == "return " + t;
    StripReturnPrefix(t);
  }

  /** A Lua integer key `[1]` is read as the string `"1"` and tagged for
      editing like any integer-like key. */
  lemma IntegerKeyReadAsString()
    ensures ReadJkrText("return {[1]=true,}") == Ok([Field(Tag + "1", JBool(true))])
  {
    var f := Field("1", JBool(true));
    var g := Field(Tag + "1", JBool(true));
    assert ParseObjFromLua("return {[1]=true,}") == Ok([f]) by {
      ReadBareIntegerKey();
    }
    assert EncodeFields([f]) == [g] by {
      TagOneDecodes();
      assert [f][..0] == [];
    }
  }

  lemma DecodeTagOne()
    ensures DecodeFields([Field(Tag + "1", JBool(true))]) == [Field("1", JBool(true))]
  {
    TagOneDecodes();
    assert [Field(Tag + "1", JBool(true))][..0] == [];
  }

  lemma QuotedOneText()
    ensures TableText(QuoteEvery, [Field("1", JBool(true))]) == "{[\"1\"]=true,}"
  {
    var f := Field("1", JBool(true));
    assert [f][1..] == [];
    assert FieldsText(QuoteEvery, [f]) == FieldText(QuoteEvery, f);
  }

  /** The tagged key is written back as the string key `["1"]`: the game
      then finds a string where it stored an integer index. */
  lemma IntegerKeyComesBackQuoted()
    ensures JkrText([Field(Tag + "1", JBool(true))]) == "return {[\"1\"]=true,}"
  {
    DecodeTagOne();
    QuotedOneText();
  }

  /** The text written when integer keys keep their Lua form. */
  function FixedJkrText(fs: seq<Field>): string
  {
    "return " + TableText(BareIntegers, fs)
  }

  /** Reading with bare digits tagged and quoted keys left as they are. */
  function FixedReadJkrText(text: string): (r: Result<seq<Field>>)
    ensures r.Err? ==> StartsWith(r.message, ParseFailure)
  {
    ParseTable(BareIntegers, StripReturn(text))
  }

  function FixedDecompressFromJkr(inflate: seq<bv8> -> Result<string>, bytes: seq<bv8>): (r: Result<seq<Field>>)
    ensures inflate(bytes).Err? ==> r == Err(DecompressFailure + inflate(bytes).message)
    ensures inflate(bytes).Ok? ==> r == FixedReadJkrText(inflate(bytes).value)
  {
    match DecompressRaw(inflate, bytes)
    case Err(e) => Err(e)
    case Ok(text) => FixedReadJkrText(text)
  }

  function FixedCompressToJkr(deflate: string -> seq<bv8>, fs: seq<Field>): seq<bv8>
  {
    deflate(FixedJkrText(fs))
  }

  lemma FixedReadOfFixedText(fs: seq<Field>)
    requires Printable(JObj(fs))
    ensures FixedReadJkrText(FixedJkrText(fs)) == Ok(fs)
  {
    StripReturnPrefix(TableText(BareIntegers, fs));
    assert StripReturn(FixedJkrText(fs)) == TableText(BareIntegers, fs);
    ParseTableText(BareIntegers, fs);
  }

  lemma FixedJkrRoundTrip(inflate: seq<bv8> -> Result<string>, deflate: string -> seq<bv8>, fs: seq<Field>)
    requires forall t :: inflate(deflate(t)) == Ok(t)
    requires Printable(JObj(fs))
    ensures FixedDecompressFromJkr(inflate, FixedCompressToJkr(deflate, fs)) == Ok(fs)
  {
    assert inflate(deflate(FixedJkrText(fs))) == Ok(FixedJkrText(fs));
    FixedReadOfFixedText(fs);
  }

  /** With the fix, `[1]` is tagged on reading and written back as `[1]`. */
  lemma IntegerKeyKeepsItsForm()
    ensures FixedReadJkrText("return {[1]=true,}") == Ok([Field(Tag + "1", JBool(true))])
    ensures FixedJkrText([Field(Tag + "1", JBool(true))]) == "return {[1]=true,}"
  {
    var fs := [Field(Tag + "1", JBool(true))];
    assert (Tag + "1")[|Tag|..] == "1";
    assert IsIntegerTag(Tag + "1");
    assert KeyText(BareIntegers, Tag + "1") == "1";
    assert fs[1..] == [];
    assert FieldsText(BareIntegers, fs) == FieldText(BareIntegers, fs[0]);
    assert FixedJkrText(fs) == "return {[1]=true,}";
    FixedReadOfFixedText(fs);
  }
}
