/** The table-literal text inside a `.jkr` file: `convertObjToLua` writes it
    and `parseObjFromLua` reads it back. The text uses only the
    `[key]=value,` form of the Lua 5.1 table constructor (section 2.5.7 of
    the Lua 5.1 Reference Manual). Reading is modelled as a
    recursive-descent parser for the grammar the writer produces, plus the
    bare `[digits]=` keys found in the game's own files. */
module LuaText {
  import opened Wrappers
  import opened Decimal
  import opened Text
  import opened JsValue
  import KeyTags

  /** How keys are written and read. `QuoteEvery` is the editor's own
      behaviour: every key is written as a quoted string and a bare
      `[digits]` key is read as the string of those digits.
      `BareIntegers` writes a key tagged as an integer as bare digits and
      reads bare digits back as a tagged key (the repair described with
      `Jkr.FixedJkrText`). */
  datatype KeyStyle = QuoteEvery | BareIntegers

  function Quote(s: string): string
  {
    "\"" + s + "\""
  }

  /** A key tagged as an integer whose digits are a natural number's text. */
  predicate IsIntegerTag(k: string)
  {
    StartsWith(k, KeyTags.Tag) && Canonical(k[|KeyTags.Tag|..])
  }

  function KeyText(style: KeyStyle, k: string): string
  {
    if style.BareIntegers? && IsIntegerTag(k) then k[|KeyTags.Tag|..] else Quote(k)
  }

  // -----------------------------------------------------------------------
  // Writing

  function ValueText(style: KeyStyle, v: JVal): string
    decreases v, 1
  {
    match v
    case JObj(fs) => TableText(style, fs)
    case JStr(s) => Quote(s)
    case JBool(b) => if b then "true" else "false"
    case JNull => "nil"
    case JNum(n) => IntText(n)
    case JArr(xs) => ArrayText(xs)
  }

  /** `"{" + result + "}"` where `result` holds one fragment per property. */
  function TableText(style: KeyStyle, fs: seq<Field>): string
    decreases fs, 1
  {
    "{" + FieldsText(style, fs) + "}"
  }

  function FieldsText(style: KeyStyle, fs: seq<Field>): string
    decreases fs, 0
  {
    if fs == [] then "" else FieldText(style, fs[0]) + FieldsText(style, fs[1..])
  }

  /** One `[key]=value,` fragment. */
  function FieldText(style: KeyStyle, f: Field): string
    decreases f, 2
  {
    "[" + KeyText(style, f.key) + "]=" + ValueText(style, f.value) + ","
  }

  /** An array inside a template literal: `Array.prototype.toString`, that
      is the elements' strings joined by commas. */
  function ArrayText(xs: seq<JVal>): string
    decreases xs, 0
  {
    if xs == [] then ""
    else if |xs| == 1 then ElementText(xs[0])
    else ElementText(xs[0]) + "," + ArrayText(xs[1..])
  }

  /** An array element as `join` prints it: `null` prints as nothing. */
  function ElementText(v: JVal): string
    decreases v, 1
  {
    match v
    case JNull => ""
    case JBool(b) => if b then "true" else "false"
    case JNum(n) => IntText(n)
    case JStr(s) => s
    case JArr(ys) => ArrayText(ys)
    case JObj(_) => "[object Object]"
  }

  lemma {:induction false} FieldsTextSnoc(style: KeyStyle, fs: seq<Field>, f: Field)
    ensures FieldsText(style, fs + [f]) == FieldsText(style, fs) + FieldText(style, f)
    decreases |fs|
  {
    if fs == [] {
      assert [f][1..] == [];
    } else {
      assert (fs + [f])[1..] == fs[1..] + [f];
      FieldsTextSnoc(style, fs[1..], f);
    }
  }

  /** One more property appended by the writing loop. */
  lemma FieldsPrefixStep(style: KeyStyle, fs: seq<Field>, i: nat)
    requires i < |fs|
    ensures FieldsText(style, fs[..i + 1]) == FieldsText(style, fs[..i]) + FieldText(style, fs[i])
  {
    FieldsTextSnoc(style, fs[..i], fs[i]);
    assert fs[..i + 1] == fs[..i] + [fs[i]];
  }

  /** `convertObjToLua(obj)` as the source writes it: a loop that appends
      `[` + quoted key + `]=` + value text + `,` for each property, calling
      itself on nested objects. */
  method ConvertObjToLua(fs: seq<Field>) returns (text: string)
    ensures text == TableText(QuoteEvery, fs)
    ensures |text| >= 2 && text[0] == '{' && text[|text| - 1] == '}'
    decreases JObj(fs)
  {
    var result := "";
    for i := 0 to |fs|
      invariant result == FieldsText(QuoteEvery, fs[..i])
    {
      var key := fs[i].key;
      var value: string;
      match fs[i].value {
        case JObj(inner) => value := ConvertObjToLua(inner);
        case JStr(s) => value := Quote(s);
        case JBool(b) => value := if b then "true" else "false";
        case JNull => value := "nil";
        case JNum(n) => value := IntText(n);
        case JArr(xs) => value := ArrayText(xs);
      }
      var luaKey := Quote(key);
      assert value == ValueText(QuoteEvery, fs[i].value);
      assert "[" + luaKey + "]=" + value + "," == FieldText(QuoteEvery, fs[i]);
      FieldsPrefixStep(QuoteEvery, fs, i);
      result := result + ("[" + luaKey + "]=" + value + ",");
    }
    assert fs[..|fs|] == fs;
    text := "{" + result + "}";
  }

  // -----------------------------------------------------------------------
  // Reading

  /** Outcome of reading a piece of the text at some position: the value
      and the position just after it, or the position where reading stopped. */
  datatype Parsed<T> = Parsed(value: T, next: nat) | Unparsed(at: nat)

  /** Characters that may stand between the quotes of a string: the
      evaluated literal rejects a raw line break, and a backslash would
      start an escape, which this grammar does not have. */
  predicate InString(c: char)
  {
    c != '"' && c != '\\' && c != '\n' && c != '\r'
  }

  predicate SafeText(s: string)
  {
    forall i :: 0 <= i < |s| ==> InString(s[i])
  }

  function StringRunEnd(s: string, i: nat): (j: nat)
    requires i <= |s|
    ensures i <= j <= |s|
    ensures j < |s| ==> !InString(s[j])
    decreases |s| - i
  {
    if i < |s| && InString(s[i]) then StringRunEnd(s, i + 1) else i
  }

  function ParseQuoted(s: string, i: nat): (r: Parsed<string>)
    requires i <= |s|
    ensures r.Parsed? ==> i < r.next <= |s|
  {
    if i < |s| && s[i] == '"' then
      var j := StringRunEnd(s, i + 1);
      if j < |s| && s[j] == '"' then Parsed(s[i + 1..j], j + 1) else Unparsed(j)
    else Unparsed(i)
  }

  /** A key between `[` and `]`: a quoted string, or a run of digits. */
  function ParseKey(style: KeyStyle, s: string, i: nat): (r: Parsed<string>)
    requires i <= |s|
    ensures r.Parsed? ==> i < r.next <= |s|
  {
    if i < |s| && IsDigit(s[i]) then
      var j := DigitRunEnd(s, i);
      var digits := s[i..j];
      Parsed(if style.BareIntegers? then KeyTags.Tag + digits else digits, j)
    else ParseQuoted(s, i)
  }

  /** An integer: an optional minus sign and digits without a leading zero
      (strict-mode evaluation rejects `007`). */
  function ParseNumber(s: string, i: nat): (r: Parsed<int>)
    requires i <= |s|
    ensures r.Parsed? ==> i < r.next <= |s|
  {
    var start := if i < |s| && s[i] == '-' then i + 1 else i;
    var j := DigitRunEnd(s, start);
    var magnitude: int := DigitsValue(s[start..j]);
    if j == start || (s[start] == '0' && j > start + 1) then Unparsed(start)
    else Parsed(if start > i then -magnitude else magnitude, j)
  }

  function ParseValue(style: KeyStyle, s: string, i: nat): (r: Parsed<JVal>)
    requires i <= |s|
    ensures r.Parsed? ==> i < r.next <= |s|
    decreases |s| - i, 2
  {
    if i == |s| then Unparsed(i)
    else if s[i] == '{' then
      match ParseFields(style, s, i + 1, [])
      case Parsed(fs, j) => Parsed(JObj(fs), j)
      case Unparsed(p) => Unparsed(p)
    else if s[i] == '"' then
      match ParseQuoted(s, i)
      case Parsed(t, j) => Parsed(JStr(t), j)
      case Unparsed(p) => Unparsed(p)
    else if At(s, i, "true") then Parsed(JBool(true), i + 4)
    else if At(s, i, "false") then Parsed(JBool(false), i + 5)
    else if At(s, i, "nil") then Parsed(JNull, i + 3)
    else if s[i] == '-' || IsDigit(s[i]) then
      match ParseNumber(s, i)
      case Parsed(n, j) => Parsed(JNum(n), j)
      case Unparsed(p) => Unparsed(p)
    else Unparsed(i)
  }

  /** The rest of a table after `{`: fields separated by `,`, an optional
      trailing `,`, then `}`. Properties are assigned in order, so a
      repeated key keeps its first place and takes its last value, as in
      an evaluated object literal. */
  function ParseFields(style: KeyStyle, s: string, i: nat, acc: seq<Field>): (r: Parsed<seq<Field>>)
    requires i <= |s|
    ensures r.Parsed? ==> i < r.next <= |s|
    decreases |s| - i, 1
  {
    if i == |s| then Unparsed(i)
    else if s[i] == '}' then Parsed(acc, i + 1)
    else AfterField(style, s, i, ParseField(style, s, i), acc)
  }

  /** What follows a field read from position `i`: its value is assigned,
      then `,` goes on to the next field and `}` ends the table. */
  function AfterField(style: KeyStyle, s: string, i: nat, pf: Parsed<Field>, acc: seq<Field>): (r: Parsed<seq<Field>>)
    requires i < |s| && (pf.Parsed? ==> i < pf.next <= |s|)
    ensures r.Parsed? ==> i < r.next <= |s|
    decreases |s| - i, 0
  {
    match pf
    case Unparsed(p) => Unparsed(p)
    case Parsed(f, j) =>
      var acc' := Put(acc, f.key, f.value);
      if j < |s| && s[j] == ',' then ParseFields(style, s, j + 1, acc')
      else if j < |s| && s[j] == '}' then Parsed(acc', j + 1)
      else Unparsed(j)
  }

  /** The key read from `i` to `j` is bare digits with a leading zero, and
      `true`, `false` or `nil` follows its `]=`. The editor's `=true`,
      `=false` and `=nil` passes run before the key pass, so such a key is
      left as the computed key `[007]`, which strict-mode evaluation
      rejects as a legacy octal or leading-zero literal. */
  predicate ZeroKeyBeforeWord(style: KeyStyle, s: string, i: nat, j: nat)
  {
    && style.QuoteEvery?
    && i + 1 < j && i < |s| && s[i] == '0'
    && (At(s, j + 2, "true") || At(s, j + 2, "false") || At(s, j + 2, "nil"))
  }

  /** One `[key]=value` field. */
  function ParseField(style: KeyStyle, s: string, i: nat): (r: Parsed<Field>)
    requires i <= |s|
    ensures r.Parsed? ==> i < r.next <= |s|
    decreases |s| - i, 0
  {
    if i < |s| && s[i] == '[' then
      match ParseKey(style, s, i + 1)
      case Unparsed(p) => Unparsed(p)
      case Parsed(k, j) =>
        if j + 1 < |s| && s[j] == ']' && s[j + 1] == '=' then
          if ZeroKeyBeforeWord(style, s, i + 1, j) then Unparsed(i + 1)
          else
            match ParseValue(style, s, j + 2)
            case Parsed(v, m) => Parsed(Field(k, v), m)
            case Unparsed(p) => Unparsed(p)
        else Unparsed(j)
    else Unparsed(i)
  }

  const ParseFailure: string := "Lua parsing failed: "

  /** A whole text that must be one table and nothing after it. */
  function ParseTable(style: KeyStyle, text: string): (r: Result<seq<Field>>)
    ensures r.Err? ==> StartsWith(r.message, ParseFailure)
  {
    if text != [] && text[0] == '{' then
      match ParseFields(style, text, 1, [])
      case Parsed(fs, j) =>
        if j == |text| then Ok(fs)
        else Err(ParseFailure + "unexpected text at offset " + NatText(j))
      case Unparsed(p) => Err(ParseFailure + "unexpected text at offset " + NatText(p))
    else Err(ParseFailure + "expected a table")
  }

  /** The leading `return ` is dropped when present; its absence is no error. */
  function StripReturn(text: string): string
  {
    if StartsWith(text, "return ") then text[7..] else text
  }

  /** `parseObjFromLua(text)`. */
  function ParseObjFromLua(text: string): (r: Result<seq<Field>>)
    ensures r.Err? ==> StartsWith(r.message, ParseFailure)
  {
    ParseTable(QuoteEvery, StripReturn(text))
  }

  /** Before a number, a bare key with a leading zero is read as the string
      of its digits, as the editor's key pass quotes it. */
  lemma ZeroKeyBeforeNumber()
    ensures ParseObjFromLua("{[007]=5,}") == Ok([Field("007", JNum(5))])
  {
    var a := "{[007]=5,}";
    var f := Field("007", JNum(5));
    assert DigitRunEnd(a, 2) == 5 by {
      assert IsDigit(a[2]) && IsDigit(a[3]) && IsDigit(a[4]) && !IsDigit(a[5]);
    }
    assert ParseKey(QuoteEvery, a, 2) == Parsed("007", 5) by {
      assert a[2..5] == "007";
    }
    assert ParseNumber(a, 7) == Parsed(5, 8) by {
      assert DigitRunEnd(a, 7) == 8 by {
        assert IsDigit(a[7]) && !IsDigit(a[8]);
      }
      assert a[7..8] == "5" && DigitsValue("5") == 5 by {
        assert "5"[..0] == [];
      }
    }
    assert !ZeroKeyBeforeWord(QuoteEvery, a, 2, 5) by {
      assert !At(a, 7, "true") && !At(a, 7, "false") && !At(a, 7, "nil");
    }
    ParseValueNum(a, 7, QuoteEvery, 5, 8);
    ParseFieldParts(QuoteEvery, a, 1, "007", 5, JNum(5), 8);
    assert Put([], "007", JNum(5)) == [f];
    ParseFieldsNext(QuoteEvery, a, 1, [], f, 8);
    ParseFieldsClose(QuoteEvery, a, 9, [f]);
    ParseTableWhole(QuoteEvery, a, [f]);
    assert !StartsWith(a, "return ");
  }

  /** Before `true`, the same key is left computed and reading fails. */
  lemma ZeroKeyBeforeTrue()
    ensures ParseObjFromLua("{[007]=true,}").Err?
  {
    var b := "{[007]=true,}";
    assert DigitRunEnd(b, 2) == 5 by {
      assert IsDigit(b[2]) && IsDigit(b[3]) && IsDigit(b[4]) && !IsDigit(b[5]);
    }
    AtSlice(b, 7, "true");
    assert b[7..11] == "true";
    assert ZeroKeyBeforeWord(QuoteEvery, b, 2, 5);
    assert ParseField(QuoteEvery, b, 1) == Unparsed(2);
  }

  /** A lone `0` is no leading zero: `[0]` before `true` is the key `"0"`. */
  lemma SingleZeroKeyBeforeTrue()
    ensures ParseObjFromLua("{[0]=true,}") == Ok([Field("0", JBool(true))])
  {
    var c := "{[0]=true,}";
    var f := Field("0", JBool(true));
    assert ParseKey(QuoteEvery, c, 2) == Parsed("0", 3) by {
      assert DigitRunEnd(c, 2) == 3 by {
        assert IsDigit(c[2]) && !IsDigit(c[3]);
      }
      assert c[2..3] == "0";
    }
    assert At(c, 5, "true") by {
      AtSlice(c, 5, "true");
      assert c[5..9] == "true";
    }
    ParseValueWord(c, 5, QuoteEvery, JBool(true));
    ParseFieldParts(QuoteEvery, c, 1, "0", 3, JBool(true), 9);
    assert Put([], "0", JBool(true)) == [f];
    ParseFieldsNext(QuoteEvery, c, 1, [], f, 9);
    ParseFieldsClose(QuoteEvery, c, 10, [f]);
    ParseTableWhole(QuoteEvery, c, [f]);
    assert !StartsWith(c, "return ");
  }

  lemma StripReturnPrefix(t: string)
    ensures ParseObjFromLua("return " + t) == ParseTable(QuoteEvery, t)
    ensures !StartsWith(t, "return ") ==> ParseObjFromLua(t) == ParseTable(QuoteEvery, t)
  {
    assert ("return " + t)[..7] == "return ";
    assert ("return " + t)[7..] == t;
  }

  // -----------------------------------------------------------------------
  // Reading back what was written

  /** Values the writer and the grammar reader carry unchanged: no arrays
      (they are flattened to text), strings and keys without quotes,
      backslashes or line breaks, and objects without repeated keys. The
      regex passes of `parseObjFromLua` also rewrite inside strings, so a
      string holding `=true` or `[1]=` is not read back as written there. */
  predicate Printable(v: JVal)
  {
    match v
    case JArr(_) => false
    case JStr(s) => SafeText(s)
    case JObj(fs) =>
      && DistinctKeys(fs)
      && forall i :: 0 <= i < |fs| ==> SafeText(fs[i].key) && Printable(fs[i].value)
    case _ => true
  }

  /** `t` stands in `s` at position `i`. */
  predicate At(s: string, i: nat, t: string)
    decreases |t|
  {
    if t == [] then i <= |s| else i < |s| && s[i] == t[0] && At(s, i + 1, t[1..])
  }

  /** `At` says that the slice of `s` starting at `i` is `t`. */
  lemma {:induction false} AtSlice(s: string, i: nat, t: string)
    ensures At(s, i, t) <==> i + |t| <= |s| && s[i..i + |t|] == t
    decreases |t|
  {
    if t != [] {
      AtSlice(s, i + 1, t[1..]);
      if i + |t| <= |s| {
        assert s[i..i + |t|] == [s[i]] + s[i + 1..i + |t|];
        assert t == [t[0]] + t[1..];
      }
    }
  }

  lemma {:induction false} AtSplit(s: string, i: nat, a: string, b: string)
    requires At(s, i, a + b)
    ensures At(s, i, a) && At(s, i + |a|, b)
    decreases |a|
  {
    if a == [] {
      assert a + b == b;
      AtSlice(s, i, b);
    } else {
      assert (a + b)[0] == a[0];
      assert (a + b)[1..] == a[1..] + b;
      AtSplit(s, i + 1, a[1..], b);
    }
  }

  lemma AtLast(s: string, i: nat, t: string)
    requires At(s, i, t) && t != []
    ensures i + |t| <= |s| && s[i + |t| - 1] == t[|t| - 1]
  {
    AtSlice(s, i, t);
    assert s[i..i + |t|][|t| - 1] == t[|t| - 1];
  }

  lemma AtFirst(s: string, i: nat, t: string)
    requires At(s, i, t) && t != []
    ensures i < |s| && s[i] == t[0]
    ensures i + |t| <= |s|
  {
    AtSlice(s, i, t);
  }

  lemma {:induction false} StringRunEndAt(s: string, i: nat, t: string)
    requires At(s, i, t) && SafeText(t)
    requires i + |t| < |s| ==> !InString(s[i + |t|])
    ensures StringRunEnd(s, i) == i + |t|
    decreases |t|
  {
    if t != [] {
      AtFirst(s, i, t);
      assert t == [t[0]] + t[1..];
      AtSplit(s, i, [t[0]], t[1..]);
      StringRunEndAt(s, i + 1, t[1..]);
    }
  }

  lemma {:induction false} DigitRunEndAt(s: string, i: nat, d: string)
    requires At(s, i, d) && AllDigits(d)
    requires i + |d| < |s| ==> !IsDigit(s[i + |d|])
    ensures DigitRunEnd(s, i) == i + |d|
    decreases |d|
  {
    if d != [] {
      AtFirst(s, i, d);
      assert d == [d[0]] + d[1..];
      AtSplit(s, i, [d[0]], d[1..]);
      DigitRunEndAt(s, i + 1, d[1..]);
    }
  }

  lemma ParseQuotedText(s: string, i: nat, t: string)
    requires SafeText(t) && At(s, i, Quote(t))
    ensures ParseQuoted(s, i) == Parsed(t, i + |t| + 2)
  {
    assert Quote(t) == "\"" + (t + "\"");
    AtSplit(s, i, "\"", t + "\"");
    AtSplit(s, i + 1, t, "\"");
    AtFirst(s, i, "\"");
    AtFirst(s, i + 1 + |t|, "\"");
    StringRunEndAt(s, i + 1, t);
    AtSlice(s, i + 1, t);
  }

  lemma ParseKeyText(style: KeyStyle, s: string, i: nat, k: string)
    requires SafeText(k) && At(s, i, KeyText(style, k) + "]")
    ensures ParseKey(style, s, i) == Parsed(k, i + |KeyText(style, k)|)
  {
    var kt := KeyText(style, k);
    AtSplit(s, i, kt, "]");
    AtFirst(s, i + |kt|, "]");
    if style.BareIntegers? && IsIntegerTag(k) {
      var d := k[|KeyTags.Tag|..];
      assert kt == d;
      AtFirst(s, i, d);
      DigitRunEndAt(s, i, d);
      AtSlice(s, i, d);
      assert KeyTags.Tag + d == k;
    } else {
      AtFirst(s, i, kt);
      ParseQuotedText(s, i, k);
    }
  }

  lemma ParseIntText(s: string, i: nat, n: int)
    requires At(s, i, IntText(n) + ",")
    ensures ParseNumber(s, i) == Parsed(n, i + |IntText(n)|)
  {
    var t := IntText(n);
    AtSplit(s, i, t, ",");
    AtFirst(s, i + |t|, ",");
    AtFirst(s, i, t);
    var d := if n < 0 then NatText(-n) else NatText(n);
    var start := if n < 0 then i + 1 else i;
    if n < 0 {
      AtSplit(s, i, "-", d);
    }
    assert At(s, start, d);
    AtFirst(s, start, d);
    DigitRunEndAt(s, start, d);
    AtSlice(s, start, d);
  }

  /** Reading a new field into properties `acc` that do not hold its key
      appends it. */
  lemma PutFresh(acc: seq<Field>, fs: seq<Field>)
    requires fs != [] && DistinctKeys(acc + fs)
    ensures Put(acc, fs[0].key, fs[0].value) == acc + [fs[0]]
    ensures acc + [fs[0]] + fs[1..] == acc + fs
    decreases fs, 0
  {
    var f := fs[0];
    forall m | 0 <= m < |acc| ensures Keys(acc)[m] != f.key {
      assert (acc + fs)[m] == acc[m] && (acc + fs)[|acc|] == f;
    }
  }

  lemma ParseValueObj(style: KeyStyle, s: string, i: nat, fs: seq<Field>, j: nat)
    requires i < |s| && s[i] == '{' && ParseFields(style, s, i + 1, []) == Parsed(fs, j)
    ensures ParseValue(style, s, i) == Parsed(JObj(fs), j)
  {
  }

  lemma ParseValueStr(s: string, i: nat, style: KeyStyle, x: string, j: nat)
    requires i < |s| && s[i] == '"' && ParseQuoted(s, i) == Parsed(x, j)
    ensures ParseValue(style, s, i) == Parsed(JStr(x), j)
  {
  }

  lemma ParseValueNum(s: string, i: nat, style: KeyStyle, n: int, j: nat)
    requires i < |s| && (s[i] == '-' || IsDigit(s[i])) && ParseNumber(s, i) == Parsed(n, j)
    ensures ParseValue(style, s, i) == Parsed(JNum(n), j)
  {
    WordStart(s, i, "true");
    WordStart(s, i, "false");
    WordStart(s, i, "nil");
  }

  lemma WordStart(s: string, i: nat, w: string)
    ensures At(s, i, w) && w != [] ==> s[i] == w[0]
  {
    if At(s, i, w) && w != [] {
      assert s[i + 0] == w[0];
    }
  }

  lemma ParseValueWord(s: string, i: nat, style: KeyStyle, v: JVal)
    requires v.JBool? || v.JNull?
    requires At(s, i, ValueText(style, v))
    ensures ParseValue(style, s, i) == Parsed(v, i + |ValueText(style, v)|)
  {
    var w := ValueText(style, v);
    AtFirst(s, i, w);
    WordStart(s, i, "true");
    WordStart(s, i, "false");
  }

  lemma ParseFieldsClose(style: KeyStyle, s: string, i: nat, acc: seq<Field>)
    requires i < |s| && s[i] == '}'
    ensures ParseFields(style, s, i, acc) == Parsed(acc, i + 1)
  {
  }

  lemma ParseFieldsNext(style: KeyStyle, s: string, i: nat, acc: seq<Field>, f: Field, j: nat)
    requires i < |s| && s[i] == '['
    requires ParseField(style, s, i) == Parsed(f, j) && i < j < |s| && s[j] == ','
    ensures ParseFields(style, s, i, acc) == ParseFields(style, s, j + 1, Put(acc, f.key, f.value))
  {
    ParseFieldsField(style, s, i, acc);
    AfterComma(style, s, i, f, j, acc);
  }

  lemma ParseFieldsField(style: KeyStyle, s: string, i: nat, acc: seq<Field>)
    requires i < |s| && s[i] != '}'
    ensures ParseFields(style, s, i, acc) == AfterField(style, s, i, ParseField(style, s, i), acc)
  {
  }

  lemma AfterComma(style: KeyStyle, s: string, i: nat, f: Field, j: nat, acc: seq<Field>)
    requires i < j < |s| && s[j] == ','
    ensures AfterField(style, s, i, Parsed(f, j), acc) == ParseFields(style, s, j + 1, Put(acc, f.key, f.value))
  {
  }

  lemma ParseFieldParts(style: KeyStyle, s: string, i: nat, k: string, j: nat, v: JVal, m: nat)
    requires i < |s| && s[i] == '['
    requires ParseKey(style, s, i + 1) == Parsed(k, j)
    requires j + 1 < |s| && s[j] == ']' && s[j + 1] == '='
    requires !ZeroKeyBeforeWord(style, s, i + 1, j)
    requires ParseValue(style, s, j + 2) == Parsed(v, m)
    ensures ParseField(style, s, i) == Parsed(Field(k, v), m)
  {
  }

  lemma {:induction false} ParseValueText(style: KeyStyle, v: JVal, s: string, i: nat)
    requires Printable(v) && At(s, i, ValueText(style, v) + ",")
    ensures ParseValue(style, s, i) == Parsed(v, i + |ValueText(style, v)|)
    decreases v, 2
  {
    var t := ValueText(style, v);
    AtSplit(s, i, t, ",");
    match v
    case JObj(fs) =>
      ParseTableAt(style, fs, s, i);
      ParseValueObj(style, s, i, fs, i + |t|);
    case JStr(x) =>
      AtFirst(s, i, t);
      ParseQuotedText(s, i, x);
      ParseValueStr(s, i, style, x, i + |t|);
    case JBool(b) =>
      ParseValueWord(s, i, style, v);
    case JNull =>
      ParseValueWord(s, i, style, v);
    case JNum(n) =>
      AtFirst(s, i, t);
      if n >= 0 {
        assert IsDigit(NatText(n)[0]);
      }
      ParseIntText(s, i, n);
      ParseValueNum(s, i, style, n, i + |t|);
  }

  lemma {:induction false} ParseTableAt(style: KeyStyle, fs: seq<Field>, s: string, i: nat)
    requires Printable(JObj(fs)) && At(s, i, TableText(style, fs))
    ensures s[i] == '{'
    ensures ParseFields(style, s, i + 1, []) == Parsed(fs, i + |TableText(style, fs)|)
    decreases fs, 2
  {
    var body := FieldsText(style, fs);
    assert TableText(style, fs) == "{" + (body + "}");
    AtSplit(s, i, "{", body + "}");
    AtFirst(s, i, "{");
    assert [] + fs == fs;
    ParseFieldsText(style, fs, [], s, i + 1);
  }

  /** The pieces of a written non-empty field list: the first field, its
      closing `,`, and the rest. */
  lemma FieldsPieces(style: KeyStyle, fs: seq<Field>, s: string, i: nat)
    requires fs != [] && At(s, i, FieldsText(style, fs) + "}")
    ensures At(s, i, FieldText(style, fs[0]))
    ensures i + |FieldText(style, fs[0])| <= |s|
    ensures var n := |FieldText(style, fs[0])|;
      && n >= 2 && s[i] == '[' && s[i + n - 1] == ','
      && At(s, i + n, FieldsText(style, fs[1..]) + "}")
      && |FieldsText(style, fs)| == n + |FieldsText(style, fs[1..])|
  {
    var ft := FieldText(style, fs[0]);
    var rest := FieldsText(style, fs[1..]);
    assert FieldsText(style, fs) == ft + rest;
    assert (ft + rest) + "}" == ft + (rest + "}");
    AtSplit(s, i, ft, rest + "}");
    FieldTextEnds(style, fs[0]);
    AtFirst(s, i, ft);
    AtLast(s, i, ft);
  }

  /** A written field starts with `[` and ends with `,`. */
  lemma FieldTextEnds(style: KeyStyle, f: Field)
    ensures var t := FieldText(style, f); |t| >= 2 && t[0] == '[' && t[|t| - 1] == ','
  {
    var body := "[" + KeyText(style, f.key) + "]=" + ValueText(style, f.value);
    assert FieldText(style, f) == body + ",";
    assert body[0] == '[';
  }

  lemma {:induction false} ParseFieldsText(style: KeyStyle, fs: seq<Field>, acc: seq<Field>, s: string, i: nat)
    requires DistinctKeys(acc + fs)
    requires forall j :: 0 <= j < |fs| ==> SafeText(fs[j].key) && Printable(fs[j].value)
    requires At(s, i, FieldsText(style, fs) + "}")
    ensures ParseFields(style, s, i, acc) == Parsed(acc + fs, i + |FieldsText(style, fs)| + 1)
    decreases fs, 1
  {
    if fs == [] {
      assert FieldsText(style, fs) == "";
      assert FieldsText(style, fs) + "}" == "}";
      AtFirst(s, i, "}");
      ParseFieldsClose(style, s, i, acc);
      assert acc + fs == acc;
      assert i + |FieldsText(style, fs)| + 1 == i + 1;
    } else {
      var f := fs[0];
      var rest := fs[1..];
      var k := i + |FieldText(style, f)|;
      FirstFieldText(style, fs, acc, s, i, k);
      assert forall j :: 0 <= j < |rest| ==> rest[j] == fs[j + 1];
      ParseFieldsText(style, rest, acc + [f], s, k);
      assert k + |FieldsText(style, rest)| + 1 == i + |FieldsText(style, fs)| + 1;
    }
  }

  /** Reading the first of several written fields moves past its comma,
      with that field added at the end. */
  lemma FirstFieldText(style: KeyStyle, fs: seq<Field>, acc: seq<Field>, s: string, i: nat, k: nat)
    requires fs != [] && DistinctKeys(acc + fs)
    requires SafeText(fs[0].key) && Printable(fs[0].value)
    requires At(s, i, FieldsText(style, fs) + "}")
    requires k == i + |FieldText(style, fs[0])|
    ensures k < |s|
    ensures ParseFields(style, s, i, acc) == ParseFields(style, s, k, acc + [fs[0]])
    ensures At(s, k, FieldsText(style, fs[1..]) + "}")
    ensures |FieldsText(style, fs)| == (k - i) + |FieldsText(style, fs[1..])|
    ensures acc + [fs[0]] + fs[1..] == acc + fs
    decreases fs, 0
  {
    var f := fs[0];
    var j := k - 1;
    FieldsPieces(style, fs, s, i);
    ParseFieldText(style, f, s, i);
    ParseFieldsNext(style, s, i, acc, f, j);
    PutFresh(acc, fs);
  }

  /** The pieces of a written field: its key, `]=`, and its value. */
  lemma FieldPieces(style: KeyStyle, f: Field, s: string, i: nat)
    requires At(s, i, FieldText(style, f))
    ensures i < |s| && s[i] == '['
    ensures At(s, i + 1, KeyText(style, f.key) + "]")
    ensures var j := i + 1 + |KeyText(style, f.key)|;
      && j + 1 < |s| && s[j] == ']' && s[j + 1] == '='
      && At(s, j + 2, ValueText(style, f.value) + ",")
      && j + 2 + |ValueText(style, f.value)| == i + |FieldText(style, f)| - 1
  {
    var kt := KeyText(style, f.key);
    var vt := ValueText(style, f.value);
    assert FieldText(style, f) == "[" + ((kt + "]") + ("=" + (vt + ",")));
    AtSplit(s, i, "[", (kt + "]") + ("=" + (vt + ",")));
    AtFirst(s, i, "[");
    AtSplit(s, i + 1, kt + "]", "=" + (vt + ","));
    var j := i + 1 + |kt|;
    AtSplit(s, i + 1, kt, "]");
    AtFirst(s, j, "]");
    AtSplit(s, j + 1, "=", vt + ",");
    AtFirst(s, j + 1, "=");
  }

  lemma {:induction false} ParseFieldText(style: KeyStyle, f: Field, s: string, i: nat)
    requires SafeText(f.key) && Printable(f.value)
    requires At(s, i, FieldText(style, f))
    ensures ParseField(style, s, i) == Parsed(f, i + |FieldText(style, f)| - 1)
    decreases f, 3
  {
    var j := i + 1 + |KeyText(style, f.key)|;
    var m := i + |FieldText(style, f)| - 1;
    FieldHeadText(style, f, s, i, j, m);
    ParseValueText(style, f.value, s, j + 2);
    ParseFieldParts(style, s, i, f.key, j, f.value, m);
  }

  /** The key and the `]=` of a written property read back, and its value
      text follows them. */
  lemma FieldHeadText(style: KeyStyle, f: Field, s: string, i: nat, j: nat, m: nat)
    requires SafeText(f.key) && At(s, i, FieldText(style, f))
    requires j == i + 1 + |KeyText(style, f.key)| && m + 1 == i + |FieldText(style, f)|
    ensures i < |s| && s[i] == '[' && j + 1 < |s| && s[j] == ']' && s[j + 1] == '='
    ensures ParseKey(style, s, i + 1) == Parsed(f.key, j)
    ensures !ZeroKeyBeforeWord(style, s, i + 1, j)
    ensures At(s, j + 2, ValueText(style, f.value) + ",") && j + 2 + |ValueText(style, f.value)| == m
  {
    FieldPieces(style, f, s, i);
    ParseKeyText(style, s, i + 1, f.key);
    if style.QuoteEvery? {
      assert (Quote(f.key) + "]")[0] == '"';
      AtFirst(s, i + 1, Quote(f.key) + "]");
    }
  }

  /** Reading a written table gives back the same properties in the same
      order, in either key style. */
  lemma ParseTableText(style: KeyStyle, fs: seq<Field>)
    requires Printable(JObj(fs))
    ensures ParseTable(style, TableText(style, fs)) == Ok(fs)
  {
    var t := TableText(style, fs);
    assert At(t, 0, t) by {
      AtSlice(t, 0, t);
      assert t[0..|t|] == t;
    }
    ParseTableAt(style, fs, t, 0);
    ParseTableWhole(style, t, fs);
  }

  lemma ParseTableWhole(style: KeyStyle, t: string, fs: seq<Field>)
    requires t != [] && t[0] == '{' && ParseFields(style, t, 1, []) == Parsed(fs, |t|)
    ensures ParseTable(style, t) == Ok(fs)
  {
  }

  /** `parseObjFromLua("return " + convertObjToLua(o))` gives back `o`
      when the text is read by the grammar reader. */
  lemma ParseConvertRoundTrip(fs: seq<Field>)
    requires Printable(JObj(fs))
    ensures ParseObjFromLua("return " + TableText(QuoteEvery, fs)) == Ok(fs)
  {
    StripReturnPrefix(TableText(QuoteEvery, fs));
    ParseTableText(QuoteEvery, fs);
  }
}
