/** Decimal text of integers: how JavaScript prints an integral number and
    how `parseInt` reads one back. */
module Decimal {
  import opened Wrappers

  predicate IsDigit(c: char)
  {
    '0' <= c <= '9'
  }

  predicate AllDigits(s: string)
  {
    forall i :: 0 <= i < |s| ==> IsDigit(s[i])
  }

  function DigitChar(d: nat): (c: char)
    requires d < 10
    ensures IsDigit(c)
  {
    (('0' as int) + d) as char
  }

  function DigitValue(c: char): (d: nat)
    requires IsDigit(c)
    ensures d < 10 && DigitChar(d) == c
  {
    (c as int) - ('0' as int)
  }

  /** The number a run of decimal digits denotes (most significant first). */
  function DigitsValue(s: string): nat
    requires AllDigits(s)
  {
    if s == [] then 0 else DigitsValue(s[..|s| - 1]) * 10 + DigitValue(s[|s| - 1])
  }

  /** Digit runs as JavaScript prints them: non-empty, no leading zero. */
  predicate Canonical(s: string)
  {
    |s| > 0 && AllDigits(s) && (s[0] == '0' ==> |s| == 1)
  }

  lemma DigitsValueSnoc(s: string, c: char)
    requires AllDigits(s) && IsDigit(c)
    ensures AllDigits(s + [c]) && DigitsValue(s + [c]) == DigitsValue(s) * 10 + DigitValue(c)
  {
    assert (s + [c])[..|s|] == s;
  }

  /** `String(n)` for a natural number (below the exponent range). */
  function NatText(n: nat): (s: string)
    ensures Canonical(s) && DigitsValue(s) == n
  {
    if n < 10 then
      assert DigitsValue([DigitChar(n)]) == DigitsValue([]) * 10 + DigitValue(DigitChar(n));
      [DigitChar(n)]
    else
      var t := NatText(n / 10);
      DigitsValueSnoc(t, DigitChar(n % 10));
      t + [DigitChar(n % 10)]
  }

  /** Canonical digit runs are exactly the texts NatText prints. */
  lemma {:induction false} NatTextOfCanonical(s: string)
    requires Canonical(s)
    ensures NatText(DigitsValue(s)) == s
    decreases |s|
  {
    var n := DigitsValue(s);
    if |s| == 1 {
      assert s[..0] == [];
      assert n == DigitsValue(s[..0]) * 10 + DigitValue(s[0]);
    } else {
      var p := s[..|s| - 1];
      assert p[0] == s[0];
      assert Canonical(p);
      NatTextOfCanonical(p);
      assert DigitsValue(p) > 0 by {
        if DigitsValue(p) == 0 {
          ZeroValueDigits(p);
        }
      }
      assert n / 10 == DigitsValue(p) && n % 10 == DigitValue(s[|s| - 1]);
      assert n >= 10;
      assert s == p + [s[|s| - 1]];
    }
  }

  /** A digit run worth zero has only zeros in it. */
  lemma {:induction false} ZeroValueDigits(s: string)
    requires AllDigits(s) && DigitsValue(s) == 0
    ensures forall i :: 0 <= i < |s| ==> s[i] == '0'
    decreases |s|
  {
    if s != [] {
      ZeroValueDigits(s[..|s| - 1]);
      assert forall i :: 0 <= i < |s| - 1 ==> s[i] == s[..|s| - 1][i];
    }
  }

  /** `String(n)` for an integer; JavaScript prints no sign for zero. */
  function IntText(n: int): (s: string)
    ensures |s| > 0 && IsDigit(s[|s| - 1])
    ensures s[0] == '-' <==> n < 0
  {
    if n < 0 then "-" + NatText(-n) else NatText(n)
  }

  /** End of the maximal run of digits that starts at `i`. */
  function DigitRunEnd(s: string, i: nat): (j: nat)
    requires i <= |s|
    ensures i <= j <= |s|
    ensures forall k :: i <= k < j ==> IsDigit(s[k])
    ensures j < |s| ==> !IsDigit(s[j])
    decreases |s| - i
  {
    if i < |s| && IsDigit(s[i]) then DigitRunEnd(s, i + 1) else i
  }

  /** `parseInt(t)` (base 10, no leading blanks): an optional sign, then the
      longest run of digits; `None` stands for NaN, which it gives when no
      digit follows the sign. */
  function ParseInt(t: string): Option<int>
  {
    var signed := |t| > 0 && (t[0] == '-' || t[0] == '+');
    var rest := if signed then t[1..] else t;
    var digits := rest[..DigitRunEnd(rest, 0)];
    var magnitude: int := DigitsValue(digits);
    if digits == [] then None
    else if signed && t[0] == '-' then Some(-magnitude)
    else Some(magnitude)
  }

  lemma ParseIntOfIntText(n: int)
    ensures ParseInt(IntText(n)) == Some(n)
  {
    var t := IntText(n);
    var rest := if n < 0 then NatText(-n) else NatText(n);
    assert n < 0 ==> t[1..] == rest;
    assert DigitRunEnd(rest, 0) == |rest| by {
      WholeDigitRun(rest);
    }
    assert rest[..|rest|] == rest;
  }

  lemma WholeDigitRun(s: string)
    requires AllDigits(s)
    ensures DigitRunEnd(s, 0) == |s|
  {
  }

  /** 2^53: up to this magnitude every integer is a double, so `parseInt`
      and `String` on it are exact. */
  const MaxExactInteger: nat := 0x20_0000_0000_0000

  predicate ExactInteger(n: int)
  {
    -(MaxExactInteger as int) <= n <= MaxExactInteger
  }

  /** The least value that `Number` rounds to `Infinity`: halfway between
      the largest double, (2^53 - 1) * 2^971, and 2^1024. */
  const NumberOverflow: nat := 0xFFFFFFFFFFFFFC00000000000000000000000000000000000000000000000000000000000000000000000000000000000000000000000000000000000000000000000000000000000000000000000000000000000000000000000000000000000000000000000000000000000000000000000000000000000000000000000000

  predicate AllZeros(s: string)
  {
    forall i :: 0 <= i < |s| ==> s[i] == '0'
  }

  /** Unsigned decimal text whose value is a whole number: digits, then
      optionally a `.` and only zeros (`12`, `1.`, `2.000`, `.0`). */
  predicate IntegralDecimal(d: string)
  {
    var j := DigitRunEnd(d, 0);
    || (j == |d| && j > 0)
    || (j < |d| && d[j] == '.' && AllZeros(d[j + 1..]) && (j > 0 || j + 1 < |d|))
  }

  /** The decimal forms of the text that `!isNaN(k) &&
      Number.isInteger(Number(k))` accepts: the empty text (which `Number`
      reads as 0), and an optional sign before an integral decimal whose
      value stays below the overflow to `Infinity`. */
  predicate IntegerLike(k: string)
  {
    || k == ""
    || (var d := if k[0] == '-' || k[0] == '+' then k[1..] else k;
        IntegralDecimal(d) && DigitsValue(d[..DigitRunEnd(d, 0)]) < NumberOverflow)
  }

  lemma IntTextIsIntegerLike(n: int)
    requires ExactInteger(n)
    ensures IntegerLike(IntText(n))
  {
    var m := if n < 0 then -n else n;
    var d := NatText(m);
    assert IntText(n) == if n < 0 then "-" + d else d;
    assert n < 0 ==> IntText(n)[1..] == d;
    WholeDigitRun(d);
    assert d[..|d|] == d;
  }
}
