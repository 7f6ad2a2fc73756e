/** Integer-key tagging (`encodeObj` / `decodeObj`): on the editor's side
    every property name is a string, so a name that reads as an integer is
    marked by the two control characters TAB and FORM FEED in front of it. */
module KeyTags {
  import opened Wrappers
  import opened Decimal
  import opened Text
  import opened JsValue

  /** The two-character tag, `"\t\f"`. */
  const Tag: string := "\t\U{C}"

  /** `encodeObj`'s renaming of one property name. */
  function EncodeKey(k: string): string
  {
    if IntegerLike(k) then Tag + k else k
  }

  /** `decodeObj`'s renaming: a tagged name becomes `String(parseInt(rest))`,
      which is `"NaN"` when no digits follow the tag. The integer is exact
      here, where JavaScript rounds it past 2^53. */
  function DecodeKey(k: string): string
  {
    if StartsWith(k, Tag) then
      match ParseInt(k[|Tag|..])
      case None => "NaN"
      case Some(n) => IntText(n)
    else k
  }

  /** `encodeObj(obj)`: objects are rebuilt with renamed keys, everything
      else (arrays included) is passed through. */
  function EncodeValue(v: JVal): JVal
    decreases v, 1
  {
    match v
    case JObj(fs) => JObj(EncodeFields(fs))
    case _ => v
  }

  /** The object built by `encodeObj`'s loop over the first `|fs|`
      properties: each step is `result[newKey] = value`. */
  function EncodeFields(fs: seq<Field>): seq<Field>
    decreases fs, 0
  {
    if fs == [] then []
    else
      var last := fs[|fs| - 1];
      Put(EncodeFields(fs[..|fs| - 1]), EncodeKey(last.key), EncodeValue(last.value))
  }

  function DecodeValue(v: JVal): JVal
    decreases v, 1
  {
    match v
    case JObj(fs) => JObj(DecodeFields(fs))
    case _ => v
  }

  function DecodeFields(fs: seq<Field>): seq<Field>
    decreases fs, 0
  {
    if fs == [] then []
    else
      var last := fs[|fs| - 1];
      Put(DecodeFields(fs[..|fs| - 1]), DecodeKey(last.key), DecodeValue(last.value))
  }

  /** `encodeObj` as the source writes it: a `for…in` loop that fills a
      fresh object and recurses into nested objects. */
  method EncodeObj(fs: seq<Field>) returns (result: seq<Field>)
    ensures result == EncodeFields(fs)
    decreases JObj(fs)
  {
    result := [];
    for i := 0 to |fs|
      invariant result == EncodeFields(fs[..i])
    {
      var value := fs[i].value;
      if value.JObj? {
        var inner := EncodeObj(value.fields);
        value := JObj(inner);
      }
      assert fs[..i + 1][..i] == fs[..i];
      result := Put(result, EncodeKey(fs[i].key), value);
    }
    assert fs[..|fs|] == fs;
  }

  /** `decodeObj`, the same loop with the inverse renaming. */
  method DecodeObj(fs: seq<Field>) returns (result: seq<Field>)
    ensures result == DecodeFields(fs)
    decreases JObj(fs)
  {
    result := [];
    for i := 0 to |fs|
      invariant result == DecodeFields(fs[..i])
    {
      var value := fs[i].value;
      if value.JObj? {
        var inner := DecodeObj(value.fields);
        value := JObj(inner);
      }
      assert fs[..i + 1][..i] == fs[..i];
      result := Put(result, DecodeKey(fs[i].key), value);
    }
    assert fs[..|fs|] == fs;
  }

  // ---------------------------------------------------------------------
  // Where the renaming is a plain per-key map

  function EncodeEach(fs: seq<Field>): (r: seq<Field>)
    ensures |r| == |fs|
    ensures forall i :: 0 <= i < |fs| ==> r[i] == Field(EncodeKey(fs[i].key), EncodeValue(fs[i].value))
  {
    seq(|fs|, i requires 0 <= i < |fs| => Field(EncodeKey(fs[i].key), EncodeValue(fs[i].value)))
  }

  function DecodeEach(fs: seq<Field>): (r: seq<Field>)
    ensures |r| == |fs|
    ensures forall i :: 0 <= i < |fs| ==> r[i] == Field(DecodeKey(fs[i].key), DecodeValue(fs[i].value))
  {
    seq(|fs|, i requires 0 <= i < |fs| => Field(DecodeKey(fs[i].key), DecodeValue(fs[i].value)))
  }

  /** When the renamed keys do not collide, `encodeObj` renames every key in
      place, in order, and recurses into the values. */
  lemma {:induction false} EncodeFieldsPointwise(fs: seq<Field>)
    requires DistinctKeys(EncodeEach(fs))
    ensures EncodeFields(fs) == EncodeEach(fs)
    decreases |fs|
  {
    if fs != [] {
      var p := fs[..|fs| - 1];
      var last := fs[|fs| - 1];
      var f := Field(EncodeKey(last.key), EncodeValue(last.value));
      EncodeEachSnoc(fs);
      DistinctSnoc(EncodeEach(p), f);
      EncodeFieldsPointwise(p);
    }
  }

  lemma EncodeEachSnoc(fs: seq<Field>)
    requires fs != []
    ensures EncodeEach(fs) == EncodeEach(fs[..|fs| - 1]) + [Field(EncodeKey(fs[|fs| - 1].key), EncodeValue(fs[|fs| - 1].value))]
  {
  }

  /** The same for `decodeObj`. */
  lemma {:induction false} DecodeFieldsPointwise(fs: seq<Field>)
    requires DistinctKeys(DecodeEach(fs))
    ensures DecodeFields(fs) == DecodeEach(fs)
    decreases |fs|
  {
    if fs != [] {
      var p := fs[..|fs| - 1];
      var last := fs[|fs| - 1];
      var f := Field(DecodeKey(last.key), DecodeValue(last.value));
      DecodeEachSnoc(fs);
      DistinctSnoc(DecodeEach(p), f);
      DecodeFieldsPointwise(p);
    }
  }

  lemma DecodeEachSnoc(fs: seq<Field>)
    requires fs != []
    ensures DecodeEach(fs) == DecodeEach(fs[..|fs| - 1]) + [Field(DecodeKey(fs[|fs| - 1].key), DecodeValue(fs[|fs| - 1].value))]
  {
  }

  /** `Number` reads the empty text as 0 and `2.000` as 2, so both names
      are tagged; `parseInt` then gives `NaN` and `2`, so neither comes
      back as it was. */
  lemma TaggedDecimalForms()
    ensures EncodeKey("") == Tag && DecodeKey(EncodeKey("")) == "NaN"
    ensures EncodeKey("2.000") == Tag + "2.000" && DecodeKey(EncodeKey("2.000")) == "2"
  {
    assert (Tag + "")[|Tag|..] == "";
    var t := "2.000";
    assert DigitRunEnd(t, 0) == 1 by {
      assert IsDigit(t[0]) && !IsDigit(t[1]);
    }
    assert t[..1] == "2" && AllZeros(t[2..]);
    assert DigitsValue("2") == 2 by {
      assert "2"[..0] == [];
    }
    assert IntegerLike(t);
    assert (Tag + t)[|Tag|..] == t;
    assert IntText(2) == "2";
  }

  /** A run of digits too large for a double reads as `Infinity`, which is
      not an integer, so the name is kept untagged. */
  lemma OverflowKeyUntagged(k: string)
    requires |k| > 0 && AllDigits(k) && DigitsValue(k) >= NumberOverflow
    ensures EncodeKey(k) == k
  {
    WholeDigitRun(k);
    assert k[..|k|] == k;
  }

  // ---------------------------------------------------------------------
  // Round trips

  /** `String(n)` for an integer `n` of magnitude at most 2^53: what a
      decoded integer key looks like where `parseInt` is exact. */
  predicate IsIntText(k: string)
  {
    || (Canonical(k) && DigitsValue(k) <= MaxExactInteger)
    || (|k| > 1 && k[0] == '-' && Canonical(k[1..]) && k[1..] != "0" && DigitsValue(k[1..]) <= MaxExactInteger)
  }

  /** A name that starts with an ASCII letter or `_`, like every save-file
      identifier (`j_joker`, `career_stats`). */
  predicate IsIdentifier(k: string)
  {
    |k| > 0 && ('a' <= k[0] <= 'z' || 'A' <= k[0] <= 'Z' || k[0] == '_')
  }

  /** Keys of the plain objects read from a file. */
  predicate PlainKey(k: string)
  {
    IsIntText(k) || IsIdentifier(k)
  }

  /** Keys of the tagged objects the editor holds: a tag in front of an
      integer's text, or an untagged identifier. */
  predicate TaggedKey(k: string)
  {
    || (StartsWith(k, Tag) && IsIntText(k[|Tag|..]))
    || (!StartsWith(k, Tag) && IsIdentifier(k))
  }

  /** `Number` never reads a name that starts with a letter or `_` as an
      integer, so `encodeObj` keeps identifiers as they are. */
  lemma IdentifierUntagged(k: string)
    requires IsIdentifier(k)
    ensures !IntegerLike(k) && !StartsWith(k, Tag) && EncodeKey(k) == k
  {
    assert DigitRunEnd(k, 0) == 0;
  }

  predicate PlainTree(v: JVal)
  {
    match v
    case JObj(fs) =>
      && DistinctKeys(fs)
      && forall i :: 0 <= i < |fs| ==> PlainKey(fs[i].key) && PlainTree(fs[i].value)
    case _ => true
  }

  predicate TaggedTree(v: JVal)
  {
    match v
    case JObj(fs) =>
      && DistinctKeys(fs)
      && forall i :: 0 <= i < |fs| ==> TaggedKey(fs[i].key) && TaggedTree(fs[i].value)
    case _ => true
  }

  lemma IntTextOfIntText(k: string)
    requires IsIntText(k)
    ensures exists n :: ExactInteger(n) && IntText(n) == k
  {
    if Canonical(k) {
      NatTextOfCanonical(k);
      assert IntText(DigitsValue(k)) == k;
    } else {
      var d := k[1..];
      NatTextOfCanonical(d);
      var m: int := DigitsValue(d);
      assert m != 0;
      assert k == "-" + d;
      assert IntText(-m) == k;
    }
  }

  lemma DecodeEncodeKey(k: string)
    requires PlainKey(k)
    ensures DecodeKey(EncodeKey(k)) == k
  {
    if IsIntText(k) {
      IntTextOfIntText(k);
      var n :| ExactInteger(n) && IntText(n) == k;
      IntTextIsIntegerLike(n);
      assert (Tag + k)[|Tag|..] == k;
      ParseIntOfIntText(n);
    } else {
      IdentifierUntagged(k);
    }
  }

  lemma EncodeDecodeKey(k: string)
    requires TaggedKey(k)
    ensures EncodeKey(DecodeKey(k)) == k
  {
    if StartsWith(k, Tag) {
      var d := k[|Tag|..];
      IntTextOfIntText(d);
      var n :| ExactInteger(n) && IntText(n) == d;
      ParseIntOfIntText(n);
      IntTextIsIntegerLike(n);
      assert k == Tag + d;
    } else {
      IdentifierUntagged(k);
    }
  }

  /** `decodeObj(encodeObj(o))` gives back `o` when every key is an
      integer's text or an identifier. */
  lemma {:induction false} DecodeEncode(v: JVal)
    requires PlainTree(v)
    ensures DecodeValue(EncodeValue(v)) == v
    decreases v
  {
    match v
    case JObj(fs) =>
      var e := EncodeEach(fs);
      forall i | 0 <= i < |fs|
        ensures DecodeKey(e[i].key) == fs[i].key
        ensures DecodeValue(e[i].value) == fs[i].value
      {
        DecodeEncodeKey(fs[i].key);
        DecodeEncode(fs[i].value);
      }
      assert DecodeEach(e) == fs;
      assert DistinctKeys(e) by {
        forall i, j | 0 <= i < j < |e| ensures e[i].key != e[j].key {
          assert DecodeKey(e[i].key) != DecodeKey(e[j].key);
        }
      }
      EncodeFieldsPointwise(fs);
      DecodeFieldsPointwise(e);
    case _ =>
  }

  /** `encodeObj(decodeObj(o))` gives back `o` when tagged keys carry an
      integer's text and every untagged key is an identifier. */
  lemma {:induction false} EncodeDecode(v: JVal)
    requires TaggedTree(v)
    ensures EncodeValue(DecodeValue(v)) == v
    decreases v
  {
    match v
    case JObj(fs) =>
      var d := DecodeEach(fs);
      forall i | 0 <= i < |fs|
        ensures EncodeKey(d[i].key) == fs[i].key
        ensures EncodeValue(d[i].value) == fs[i].value
      {
        EncodeDecodeKey(fs[i].key);
        EncodeDecode(fs[i].value);
      }
      assert EncodeEach(d) == fs;
      assert DistinctKeys(d) by {
        forall i, j | 0 <= i < j < |d| ensures d[i].key != d[j].key {
          assert EncodeKey(d[i].key) != EncodeKey(d[j].key);
        }
      }
      DecodeFieldsPointwise(fs);
      EncodeFieldsPointwise(d);
    case _ =>
  }
}
