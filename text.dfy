/**
 * Decimal digits and integer text as Python's `str`, `'%0Nd'` formatting
 * and `int(text, 10)` produce and accept them (ASCII digits only).
 */
module Text {
  import opened Wrappers

  predicate IsDigit(c: char) { '0' <= c <= '9' }

  predicate AllDigits(s: string) { forall i :: 0 <= i < |s| ==> IsDigit(s[i]) }

  function DigitValue(c: char): (d: nat)
    requires IsDigit(c)
    ensures d < 10
  {
    (c as int) - ('0' as int)
  }

  function DigitChar(d: nat): (c: char)
    requires d < 10
    ensures IsDigit(c) && DigitValue(c) == d
  {
    (('0' as int) + d) as char
  }

  function Pow10(n: nat): (p: nat)
    ensures p >= 1
  {
    if n == 0 then 1 else 10 * Pow10(n - 1)
  }

  /** The number a string of decimal digits denotes; leading zeros are allowed, as `int(s, 10)` allows them. */
  function DigitsValue(s: string): nat
    requires AllDigits(s)
  {
    if |s| == 0 then 0 else 10 * DigitsValue(s[..|s| - 1]) + DigitValue(s[|s| - 1])
  }

  /** Python's `str(n)` for a non-negative integer: decimal digits without leading zeros. */
  function NatText(n: nat): (r: string)
    ensures |r| > 0 && AllDigits(r)
    ensures DigitsValue(r) == n
    ensures r[0] == '0' ==> n == 0
  {
    if n < 10 then [DigitChar(n)]
    else
      var r := NatText(n / 10) + [DigitChar(n % 10)];
      assert r[..|r| - 1] == NatText(n / 10);
      r
  }

  /** Python's `'%d' % i` (and `str(i)`, `int.__repr__`): a minus sign, then the digits of the magnitude. */
  function IntText(i: int): (r: string)
    ensures |r| > 0
    ensures i >= 0 ==> r == NatText(i)
    ensures i < 0 ==> r[0] == '-' && r[1..] == NatText(-i)
  {
    if i < 0 then "-" + NatText(-i) else NatText(i)
  }

  /** Python's `'%0<width>d' % n` for `n >= 0`: the digits of `n`, left-padded with zeros to `width` characters. */
  function ZeroPad(n: nat, width: nat): (r: string)
    ensures AllDigits(r) && DigitsValue(r) == n
    ensures |r| == if |NatText(n)| >= width then |NatText(n)| else width
    ensures width >= 1 && n < Pow10(width) ==> |r| == width
  {
    if |NatText(n)| >= width then
      assert width >= 1 && n < Pow10(width) ==> |NatText(n)| <= width by {
        if width >= 1 && n < Pow10(width) { NatTextLength(n, width); }
      }
      NatText(n)
    else
      PadOne(ZeroPad(n, width - 1));
      "0" + ZeroPad(n, width - 1)
  }

  /**
   * CPython's default `sys.int_max_str_digits` (3.11 and later): converting
   * an `int` to decimal text, or decimal text to an `int`, raises ValueError
   * when more digits than this are involved.
   */
  const MaxStrDigits: nat := 4300

  /** The number of decimal digits of `i`, its sign not counted, as the limit counts them. */
  function DigitCount(i: int): nat
  {
    |NatText(if i < 0 then -i else i)|
  }

  /** `i` has a decimal text within the limit: `repr(i)` and `'%d' % i` do not raise. */
  predicate FitsStrDigits(i: int)
  {
    DigitCount(i) <= MaxStrDigits
  }

  /** A string of `k` digits denotes a number below 10^k. */
  lemma {:induction false} DigitsValueBound(s: string)
    requires AllDigits(s)
    ensures DigitsValue(s) < Pow10(|s|)
  {
    if |s| > 0 {
      DigitsValueBound(s[..|s| - 1]);
    }
  }

  /** A number read from at most `MaxStrDigits` digits can be written back within the limit, with either sign. */
  lemma DigitsFit(s: string)
    requires |s| > 0 && AllDigits(s) && |s| <= MaxStrDigits
    ensures FitsStrDigits(DigitsValue(s)) && FitsStrDigits(-(DigitsValue(s) as int))
  {
    DigitsValueBound(s);
    NatTextLength(DigitsValue(s), |s|);
  }

  /** An integer of at most four digits, such as a year, is within the limit. */
  lemma SmallFits(i: int)
    requires -10000 < i < 10000
    ensures FitsStrDigits(i)
  {
    assert Pow10(4) == 10000;
    NatTextLength(if i < 0 then -i else i, 4);
  }

  /** 10^k has k + 1 digits, and 10^k - 1 has k: the first integer past the limit is 10^MaxStrDigits. */
  lemma {:induction false} DigitCountPow10(k: nat)
    ensures DigitCount(Pow10(k)) == k + 1
    ensures k >= 1 ==> DigitCount(Pow10(k) - 1) == k && DigitCount(1 - Pow10(k)) == k
  {
    if k >= 1 {
      DigitCountPow10(k - 1);
      assert Pow10(k) / 10 == Pow10(k - 1) && Pow10(k) % 10 == 0;
      if k >= 2 {
        assert (Pow10(k) - 1) / 10 == Pow10(k - 1) - 1 && Pow10(k - 1) - 1 >= 9;
      }
    }
  }

  /** 10^k - 1 and its negation fit within k <= MaxStrDigits digits; 10^MaxStrDigits does not. */
  lemma Pow10Fits(k: nat)
    requires 1 <= k <= MaxStrDigits
    ensures FitsStrDigits(Pow10(k) - 1) && FitsStrDigits(1 - Pow10(k))
    ensures k == MaxStrDigits ==> !FitsStrDigits(Pow10(k))
  {
    DigitCountPow10(k);
  }

  /** A leading zero changes neither the digits-only shape nor the value. */
  lemma PadOne(r: string)
    requires AllDigits(r)
    ensures AllDigits("0" + r) && DigitsValue("0" + r) == DigitsValue(r)
  {
    DigitsValueAppend("0", r);
    assert DigitsValue("0") == 0 by { assert "0"[..0] == ""; }
  }

  lemma ShiftArith(x: int, p: int, y: int, d: int)
    ensures 10 * (x * p + y) + d == x * (10 * p) + (10 * y + d)
  {
  }

  lemma {:induction false} DigitsValueAppend(a: string, b: string)
    requires AllDigits(a) && AllDigits(b)
    ensures AllDigits(a + b)
    ensures DigitsValue(a + b) == DigitsValue(a) * Pow10(|b|) + DigitsValue(b)
    decreases |b|
  {
    assert AllDigits(a + b) by {
      forall i | 0 <= i < |a + b| ensures IsDigit((a + b)[i]) {
        if i < |a| { assert (a + b)[i] == a[i]; } else { assert (a + b)[i] == b[i - |a|]; }
      }
    }
    if |b| == 0 {
      assert a + b == a;
    } else {
      var b' := b[..|b| - 1];
      assert (a + b)[..|a + b| - 1] == a + b';
      assert AllDigits(b');
      DigitsValueAppend(a, b');
      var x, p, y, d := DigitsValue(a), Pow10(|b'|), DigitsValue(b'), DigitValue(b[|b| - 1]);
      assert DigitsValue(a + b) == 10 * (x * p + y) + d;
      assert DigitsValue(b) == 10 * y + d;
      assert Pow10(|b|) == 10 * p;
      ShiftArith(x, p, y, d);
    }
  }

  /** A number below 10^w never needs more than `w` digits. */
  lemma {:induction false} NatTextLength(n: nat, w: nat)
    requires w >= 1 && n < Pow10(w)
    ensures |NatText(n)| <= w
  {
    if n >= 10 {
      assert Pow10(1) == 10;
      NatTextLength(n / 10, w - 1);
    }
  }

  // ----- int(text, 10) -------------------------------------------------

  /**
   * The characters `int()` strips from both ends: ASCII space and `\t` to
   * `\r`, and the non-ASCII characters `str.isspace` accepts, which `int()`
   * first turns into spaces. The ASCII separators U+001C to U+001F satisfy
   * `str.isspace` but are not stripped, so `int()` refuses them.
   */
  predicate IsSpace(c: char)
  {
    || c == ' ' || '\t' <= c <= '\r'
    || c == '\U{0085}' || c == '\U{00A0}' || c == '\U{1680}' || '\U{2000}' <= c <= '\U{200A}'
    || c == '\U{2028}' || c == '\U{2029}' || c == '\U{202F}' || c == '\U{205F}' || c == '\U{3000}'
  }

  /** `str.lstrip()`: the leading whitespace removed. */
  function StripLeft(s: string): string
  {
    if |s| > 0 && IsSpace(s[0]) then StripLeft(s[1..]) else s
  }

  /** `str.rstrip()`: the trailing whitespace removed. */
  function StripRight(s: string): string
  {
    if |s| > 0 && IsSpace(s[|s| - 1]) then StripRight(s[..|s| - 1]) else s
  }

  /** `lstrip` keeps a suffix that does not start with whitespace, and drops only whitespace. */
  lemma {:induction false} StripLeftSuffix(s: string)
    ensures |StripLeft(s)| <= |s| && StripLeft(s) == s[|s| - |StripLeft(s)|..]
    ensures |StripLeft(s)| > 0 ==> !IsSpace(StripLeft(s)[0])
    ensures forall i :: 0 <= i < |s| - |StripLeft(s)| ==> IsSpace(s[i])
  {
    if |s| > 0 && IsSpace(s[0]) {
      StripLeftSuffix(s[1..]);
      assert forall i :: 1 <= i < |s| - |StripLeft(s)| ==> s[i] == s[1..][i - 1];
    }
  }

  /** `rstrip` keeps a prefix that does not end with whitespace, and drops only whitespace. */
  lemma {:induction false} StripRightPrefix(s: string)
    ensures |StripRight(s)| <= |s| && StripRight(s) == s[..|StripRight(s)|]
    ensures |StripRight(s)| > 0 ==> !IsSpace(StripRight(s)[|StripRight(s)| - 1])
    ensures forall i :: |StripRight(s)| <= i < |s| ==> IsSpace(s[i])
  {
    if |s| > 0 && IsSpace(s[|s| - 1]) {
      StripRightPrefix(s[..|s| - 1]);
      assert forall i :: |StripRight(s)| <= i < |s| - 1 ==> s[i] == s[..|s| - 1][i];
    }
  }

  /** An ASCII separator U+001C to U+001F in front of any text makes `int()` raise ValueError. */
  lemma ParseIntSeparatorFails(c: char, t: string)
    requires '\U{001C}' <= c <= '\U{001F}'
    ensures ParseInt([c] + t).None?
  {
    var s := [c] + t;
    assert s[0] == c && !IsSpace(c);
    StripRightPrefix(s);
    assert |StripRight(s)| > 0 && StripRight(s)[0] == c;
  }

  /** Digits in which single underscores may separate two digits, as `int()` accepts: `1_000`, not `_1`, `1_` or `1__0`. */
  predicate UnderscoredDigits(s: string)
  {
    && |s| > 0 && IsDigit(s[0]) && IsDigit(s[|s| - 1])
    && (forall i :: 0 <= i < |s| ==> IsDigit(s[i]) || s[i] == '_')
    && NoDoubleUnderscore(s)
  }

  /** No two underscores in a row. */
  predicate NoDoubleUnderscore(s: string)
  {
    forall i, j :: 0 <= i < |s| && 0 <= j < |s| && j == i + 1 ==> !(s[i] == '_' && s[j] == '_')
  }

  /** Plain digits hold no underscore at all. */
  lemma DigitsNoDoubleUnderscore(s: string)
    requires AllDigits(s)
    ensures NoDoubleUnderscore(s)
  {
    forall i, j | 0 <= i < |s| && 0 <= j < |s| && j == i + 1
      ensures !(s[i] == '_' && s[j] == '_')
    {
      assert IsDigit(s[i]);
    }
  }

  function DropUnderscores(s: string): (r: string)
    requires forall i :: 0 <= i < |s| ==> IsDigit(s[i]) || s[i] == '_'
    ensures AllDigits(r) && |r| <= |s|
    ensures AllDigits(s) ==> r == s
    ensures |s| > 0 && IsDigit(s[0]) ==> |r| > 0
  {
    if |s| == 0 then []
    else if s[0] == '_' then DropUnderscores(s[1..])
    else [s[0]] + DropUnderscores(s[1..])
  }

  /**
   * Python's `int(text, 10)`: surrounding whitespace, an optional sign, then
   * underscore-separated decimal digits; `None` where Python raises ValueError.
   */
  function ParseInt(text: string): Option<int>
  {
    var t := StripRight(StripLeft(text));
    if |t| > 0 && (t[0] == '+' || t[0] == '-') then
      match ParseDigits(t[1..])
      case None => None
      case Some(n) => Some(if t[0] == '-' then -n else n)
    else
      ParseDigits(t)
  }

  /**
   * The unsigned part of `int()`'s grammar: underscore-separated digits and
   * their value; the digits, underscores not counted, must be within the limit.
   */
  function ParseDigits(body: string): (r: Option<int>)
    ensures r.Some? <==> UnderscoredDigits(body) && |DropUnderscores(body)| <= MaxStrDigits
    ensures r.Some? ==> r.value >= 0 && FitsStrDigits(r.value) && FitsStrDigits(-r.value)
  {
    if UnderscoredDigits(body) && |DropUnderscores(body)| <= MaxStrDigits then
      DigitsFit(DropUnderscores(body));
      Some(DigitsValue(DropUnderscores(body)))
    else None
  }

  /** `int()` ignores the single underscores between digits: `int('2_020') == int('2020') == 2020`. */
  lemma ParseIntUnderscores(b: string)
    requires UnderscoredDigits(b)
    ensures ParseInt(b) == ParseInt(DropUnderscores(b))
    ensures ParseInt(b) == if |DropUnderscores(b)| <= MaxStrDigits then Some(DigitsValue(DropUnderscores(b))) else None
  {
    StripNothing(b);
    ParseIntDigits(DropUnderscores(b));
  }

  /** Plain decimal digits read as their value, or raise ValueError when there are more than the limit allows. */
  lemma ParseIntDigits(text: string)
    requires |text| > 0 && AllDigits(text)
    ensures ParseInt(text) == if |text| <= MaxStrDigits then Some(DigitsValue(text)) else None
  {
    assert IsDigit(text[0]) && IsDigit(text[|text| - 1]);
    StripNothing(text);
    assert UnderscoredDigits(text) by {
      DigitsNoDoubleUnderscore(text);
    }
  }

  /** Text that starts and ends with a digit has no surrounding whitespace to strip. */
  lemma StripNothing(text: string)
    requires |text| > 0 && IsDigit(text[0]) && IsDigit(text[|text| - 1])
    ensures StripLeft(text) == text && StripRight(text) == text
  {
    assert !IsSpace(text[0]);
    assert !IsSpace(text[|text| - 1]);
  }
}
