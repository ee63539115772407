/**
 * The JSON text layer that Python's `json` module provides to the codec:
 * the number grammar, string escaping as `json.dumps` writes it with its
 * default `ensure_ascii=True`, and string scanning as `json.loads` reads it
 * (strict mode).
 */
module JsonText {
  import opened Wrappers
  import opened Text

  // ----- numbers (section 6 of RFC 8259; Python's NUMBER_RE) ----------------

  /** Length of the run of digits at the start of `s`. */
  function DigitRun(s: string): (n: nat)
    ensures n <= |s|
  {
    if |s| > 0 && IsDigit(s[0]) then 1 + DigitRun(s[1..]) else 0
  }

  lemma {:induction false} DigitRunIsRun(s: string)
    ensures forall i :: 0 <= i < DigitRun(s) ==> IsDigit(s[i])
    ensures DigitRun(s) < |s| ==> !IsDigit(s[DigitRun(s)])
  {
    if |s| > 0 && IsDigit(s[0]) {
      DigitRunIsRun(s[1..]);
    }
  }

  /** Any length with the defining properties of a digit run is the digit run. */
  lemma {:induction false} DigitRunUnique(s: string, m: nat)
    requires m <= |s|
    requires forall i :: 0 <= i < m ==> IsDigit(s[i])
    requires m < |s| ==> !IsDigit(s[m])
    ensures DigitRun(s) == m
  {
    if m > 0 {
      DigitRunUnique(s[1..], m - 1);
    }
  }

  function SignLength(s: string): (n: nat)
    ensures n <= 1 && n <= |s|
  {
    if |s| > 0 && s[0] == '-' then 1 else 0
  }

  /** Length of `-?(0|[1-9][0-9]*)` at the start of `s`, or 0 when there is none. */
  function IntPartLength(s: string): (n: nat)
    ensures n <= |s|
    ensures n > 0 ==> SignLength(s) < n
  {
    var sign := SignLength(s);
    if |s| == sign || !IsDigit(s[sign]) then 0
    else if s[sign] == '0' then sign + 1
    else sign + DigitRun(s[sign..])
  }

  lemma IntPartDigits(s: string)
    requires IntPartLength(s) > 0
    ensures AllDigits(s[SignLength(s)..IntPartLength(s)])
  {
    var sign := SignLength(s);
    if s[sign] != '0' {
      var d := DigitRun(s[sign..]);
      DigitRunIsRun(s[sign..]);
      assert s[sign..][..d] == s[sign..sign + d];
    }
  }

  /** Length of `\.[0-9]+` at the start of `s`, or 0. */
  function FractionLength(s: string): (n: nat)
    ensures n <= |s|
  {
    if |s| >= 2 && s[0] == '.' && IsDigit(s[1]) then 1 + DigitRun(s[1..]) else 0
  }

  function ExponentSignLength(s: string): (n: nat)
    ensures n <= 1
  {
    if |s| >= 2 && (s[1] == '+' || s[1] == '-') then 1 else 0
  }

  /** Length of `[eE][-+]?[0-9]+` at the start of `s`, or 0. */
  function ExponentLength(s: string): (n: nat)
    ensures n <= |s|
  {
    if |s| >= 1 && (s[0] == 'e' || s[0] == 'E') then
      var sign := ExponentSignLength(s);
      var d := DigitRun(s[1 + sign..]);
      if d > 0 then 1 + sign + d else 0
    else 0
  }

  /** How a number token at the start of a text splits into integer, fraction and exponent parts. */
  datatype NumberShape = NumberShape(intLength: nat, fracLength: nat, expLength: nat)
  {
    function Length(): nat { intLength + fracLength + expLength }
  }

  /** The greedy match of `-?(0|[1-9]\d*)(\.\d+)?([eE][-+]?\d+)?` at the start of `s`. */
  function ScanNumber(s: string): (n: NumberShape)
    ensures n.Length() <= |s|
    ensures n.intLength == 0 ==> n.Length() == 0
  {
    var a := IntPartLength(s);
    if a == 0 then NumberShape(0, 0, 0)
    else
      var b := FractionLength(s[a..]);
      var c := ExponentLength(s[a + b..]);
      NumberShape(a, b, c)
  }

  /** `ScanNumber` from its three parts, stated once so that proofs do not unfold it again. */
  lemma ScanNumberIs(s: string, a: nat, b: nat, c: nat)
    requires IntPartLength(s) == a > 0
    requires FractionLength(s[a..]) == b
    requires ExponentLength(s[a + b..]) == c
    ensures ScanNumber(s) == NumberShape(a, b, c)
  {
  }

  /** A whole number token with a fraction or an exponent: what Python reads as a float. */
  predicate IsFloatLiteral(t: string)
  {
    var n := ScanNumber(t);
    n.intLength > 0 && n.Length() == |t| && n.fracLength + n.expLength > 0
  }

  /** The text of a float, as `float.__repr__` writes it and as `json` copies it. */
  type FloatText = t: string | IsFloatLiteral(t) witness "0.0"

  /** A character that can never continue a number token. */
  predicate EndsNumber(c: char)
  {
    !IsDigit(c) && c != '.' && c != 'e' && c != 'E' && c != '+' && c != '-'
  }

  lemma DigitRunAppend(u: string, r: string)
    requires |r| == 0 || !IsDigit(r[0])
    ensures DigitRun(u + r) == DigitRun(u)
  {
    var n := DigitRun(u);
    DigitRunIsRun(u);
    if n < |u| { assert (u + r)[n] == u[n]; }
    DigitRunUnique(u + r, n);
  }

  lemma DigitRunPrefix(u: string, k: nat)
    requires DigitRun(u) <= k <= |u|
    ensures DigitRun(u[..k]) == DigitRun(u)
  {
    DigitRunIsRun(u);
    DigitRunUnique(u[..k], DigitRun(u));
  }

  lemma IntPartAppend(t: string, r: string)
    requires |r| == 0 || EndsNumber(r[0])
    ensures IntPartLength(t + r) == IntPartLength(t)
  {
    var s := t + r;
    if |t| == 0 {
      assert s == r;
    } else {
      assert s[0] == t[0];
      var sign := SignLength(t);
      assert SignLength(s) == sign;
      if |t| == sign {
        assert s[sign..] == r;
      } else {
        assert s[sign] == t[sign];
        if IsDigit(t[sign]) && t[sign] != '0' {
          assert s[sign..] == t[sign..] + r;
          DigitRunAppend(t[sign..], r);
        }
      }
    }
  }

  /** Appending text that cannot continue a number does not change how a number is scanned. */
  lemma {:induction false} ScanNumberAppend(t: string, r: string)
    requires |r| == 0 || EndsNumber(r[0])
    ensures ScanNumber(t + r) == ScanNumber(t)
  {
    var s := t + r;
    IntPartAppend(t, r);
    var a := IntPartLength(t);
    if a > 0 {
      var b := FractionLength(t[a..]);
      var c := ExponentLength(t[a + b..]);
      ScanNumberIs(t, a, b, c);
      FractionOfAppend(t, a, r);
      ExponentOfAppend(t, a + b, r);
      ScanNumberIs(s, a, b, c);
    }
  }

  lemma FractionOfAppend(t: string, a: nat, r: string)
    requires a <= |t| && (|r| == 0 || EndsNumber(r[0]))
    ensures FractionLength((t + r)[a..]) == FractionLength(t[a..])
  {
    assert (t + r)[a..] == t[a..] + r;
    FractionAppend(t[a..], r);
  }

  lemma ExponentOfAppend(t: string, a: nat, r: string)
    requires a <= |t| && (|r| == 0 || EndsNumber(r[0]))
    ensures ExponentLength((t + r)[a..]) == ExponentLength(t[a..])
  {
    assert (t + r)[a..] == t[a..] + r;
    ExponentAppend(t[a..], r);
  }

  lemma FractionAppend(u: string, r: string)
    requires |r| == 0 || EndsNumber(r[0])
    ensures FractionLength(u + r) == FractionLength(u)
  {
    if |u| >= 2 {
      assert (u + r)[1..] == u[1..] + r;
      DigitRunAppend(u[1..], r);
    } else if |u| == 0 {
      assert u + r == r;
    }
  }

  lemma ExponentAppend(u: string, r: string)
    requires |r| == 0 || EndsNumber(r[0])
    ensures ExponentLength(u + r) == ExponentLength(u)
  {
    var s := u + r;
    if |u| == 0 {
      assert s == r;
    } else if u[0] == 'e' || u[0] == 'E' {
      var sign := ExponentSignLength(u);
      assert ExponentSignLength(s) == sign;
      if 1 + sign <= |u| {
        assert s[1 + sign..] == u[1 + sign..] + r;
        DigitRunAppend(u[1 + sign..], r);
      }
    }
  }

  lemma IntPartPrefix(s: string, k: nat)
    requires IntPartLength(s) <= k <= |s|
    ensures IntPartLength(s[..k]) == IntPartLength(s)
  {
    var t := s[..k];
    var a := IntPartLength(s);
    var sign := SignLength(s);
    if k > 0 {
      assert t[0] == s[0];
      assert SignLength(t) == sign;
      if k > sign {
        assert t[sign] == s[sign];
        if a > 0 && s[sign] != '0' {
          assert t[sign..] == s[sign..][..k - sign];
          DigitRunPrefix(s[sign..], k - sign);
        }
      }
    }
  }

  /** Cutting a text right after its number token does not change how it is scanned. */
  lemma {:induction false} ScanNumberPrefix(s: string, k: nat)
    requires ScanNumber(s).Length() <= k <= |s|
    ensures ScanNumber(s[..k]) == ScanNumber(s)
  {
    IntPartPrefix(s, k);
    var a := IntPartLength(s);
    if a > 0 {
      var b := FractionLength(s[a..]);
      var c := ExponentLength(s[a + b..]);
      ScanNumberIs(s, a, b, c);
      FractionOfCut(s, a, k);
      ExponentOfCut(s, a + b, k);
      ScanNumberIs(s[..k], a, b, c);
    }
  }

  lemma FractionOfCut(s: string, a: nat, k: nat)
    requires a <= |s| && a + FractionLength(s[a..]) <= k <= |s|
    ensures FractionLength(s[..k][a..]) == FractionLength(s[a..])
  {
    assert s[..k][a..] == s[a..][..k - a];
    FractionPrefix(s[a..], k - a);
  }

  lemma ExponentOfCut(s: string, a: nat, k: nat)
    requires a <= |s| && a + ExponentLength(s[a..]) <= k <= |s|
    ensures ExponentLength(s[..k][a..]) == ExponentLength(s[a..])
  {
    assert s[..k][a..] == s[a..][..k - a];
    ExponentPrefix(s[a..], k - a);
  }

  lemma FractionPrefix(u: string, k: nat)
    requires FractionLength(u) <= k <= |u|
    ensures FractionLength(u[..k]) == FractionLength(u)
  {
    if FractionLength(u) > 0 {
      assert u[..k][1..] == u[1..][..k - 1];
      DigitRunPrefix(u[1..], k - 1);
    }
  }

  lemma ExponentPrefix(u: string, k: nat)
    requires ExponentLength(u) <= k <= |u|
    ensures ExponentLength(u[..k]) == ExponentLength(u)
  {
    var sign := ExponentSignLength(u);
    if k > 0 && (u[0] == 'e' || u[0] == 'E') && 1 + sign <= k {
      assert ExponentSignLength(u[..k]) == sign;
      assert u[..k][1 + sign..] == u[1 + sign..][..k - 1 - sign];
      DigitRunPrefix(u[1 + sign..], k - 1 - sign);
    }
  }

  /** The integer a `-?digits` token denotes. */
  function IntValue(t: string): int
    requires |t| > SignLength(t) && AllDigits(t[SignLength(t)..])
  {
    var n: int := DigitsValue(t[SignLength(t)..]);
    if SignLength(t) == 1 then -n else n
  }

  /** Python's integer text scans as a whole integer token and denotes the integer again. */
  lemma IntTextScans(i: int, r: string)
    requires |r| == 0 || EndsNumber(r[0])
    ensures ScanNumber(IntText(i) + r) == NumberShape(|IntText(i)|, 0, 0)
    ensures IntValue(IntText(i)) == i
    ensures |IntText(i)| - SignLength(IntText(i)) == DigitCount(i)
  {
    var t := IntText(i);
    var sign := SignLength(t);
    var digits := NatText(if i < 0 then -i else i);
    assert t[sign..] == digits;
    ScanNumberAppend(t, r);
    if digits[0] != '0' {
      DigitRunUnique(t[sign..], |digits|);
    }
    assert IntPartLength(t) == |t|;
  }

  /** An integer fits the digit limit exactly when its text, less the sign, has at most that many digits; the text reads back as the integer. */
  lemma IntTextFits(i: int)
    ensures FitsStrDigits(i) <==> |IntText(i)| - SignLength(IntText(i)) <= MaxStrDigits
    ensures IntValue(IntText(i)) == i
  {
    IntTextScans(i, []);
  }

  // ----- strings --------------------------------------------------------

  predicate IsHexDigit(c: char) { IsDigit(c) || 'a' <= c <= 'f' || 'A' <= c <= 'F' }

  function HexValue(c: char): (v: nat)
    requires IsHexDigit(c)
    ensures v < 16
  {
    if IsDigit(c) then DigitValue(c)
    else if 'a' <= c <= 'f' then (c as int) - ('a' as int) + 10
    else (c as int) - ('A' as int) + 10
  }

  /** A lower-case hex digit, as `'{0:04x}'` writes it. */
  function HexDigit(d: nat): (c: char)
    requires d < 16
    ensures IsHexDigit(c) && HexValue(c) == d
  {
    if d < 10 then DigitChar(d) else (('a' as int) + d - 10) as char
  }

  predicate IsHex4(s: string) { |s| == 4 && forall i :: 0 <= i < 4 ==> IsHexDigit(s[i]) }

  function Hex4Value(s: string): (v: nat)
    requires IsHex4(s)
    ensures v < 0x10000
  {
    HexValue(s[0]) * 4096 + HexValue(s[1]) * 256 + HexValue(s[2]) * 16 + HexValue(s[3])
  }

  /** `'{0:04x}'.format(n)`: four lower-case hex digits. */
  function Hex4(n: nat): (s: string)
    requires n < 0x10000
    ensures IsHex4(s) && Hex4Value(s) == n
  {
    var s := [HexDigit(n / 4096), HexDigit((n / 256) % 16), HexDigit((n / 16) % 16), HexDigit(n % 16)];
    Hex4Arith(n);
    s
  }

  lemma Hex4Arith(n: nat)
    requires n < 0x10000
    ensures (n / 4096) * 4096 + ((n / 256) % 16) * 256 + ((n / 16) % 16) * 16 + n % 16 == n
    ensures n / 4096 < 16
  {
    var q := n / 16;
    var q2 := q / 16;
    assert n == q * 16 + n % 16;
    assert q2 == n / 256;
    assert q == q2 * 16 + q % 16;
    assert q2 / 16 == n / 4096;
    assert q2 == (q2 / 16) * 16 + q2 % 16;
  }

  function UEscape(n: nat): (s: string)
    requires n < 0x10000
    ensures |s| == 6
  {
    "\\u" + Hex4(n)
  }

  /** A character JSON text may carry as itself under `ensure_ascii`: printable ASCII other than `"` and `\`. */
  predicate IsPlain(c: char) { ' ' <= c <= '~' && c != '"' && c != '\\' }

  /**
   * How `json.dumps` writes one character of a string with `ensure_ascii=True`:
   * the two-character escapes for `"`, `\`, backspace, form feed, newline,
   * carriage return and tab; printable ASCII as itself; any other character
   * below U+10000 as `\uXXXX`; any character above as a UTF-16 surrogate pair.
   */
  function EscapeChar(c: char): (r: string)
    ensures |r| > 0
  {
    var n := c as int;
    if c == '"' then "\\\""
    else if c == '\\' then "\\\\"
    else if n == 8 then "\\b"
    else if n == 12 then "\\f"
    else if c == '\n' then "\\n"
    else if c == '\r' then "\\r"
    else if c == '\t' then "\\t"
    else if IsPlain(c) then [c]
    else if n < 0x10000 then UEscape(n)
    else UEscape(0xD800 + (n - 0x10000) / 1024) + UEscape(0xDC00 + (n - 0x10000) % 1024)
  }

  function Escape(s: string): string
  {
    if |s| == 0 then [] else EscapeChar(s[0]) + Escape(s[1..])
  }

  /** A JSON string literal, as `json.dumps(s)` writes it. */
  function Quote(s: string): string
  {
    "\"" + Escape(s) + "\""
  }

  /** The reasons Python's decoder gives up (its JSONDecodeError messages). */
  datatype ParseError =
    | ExpectingValue
    | ExpectingDelimiter
    | ExpectingPropertyName
    | ExpectingColon
    | UnterminatedString
    | InvalidControlCharacter
    | InvalidEscape
    /**
     * Not raised by Python, whose decoder accepts a lone `\ud800` escape:
     * strings here are Unicode scalar values, so the model refuses it.
     */
    | LoneSurrogate
    | ExtraData
    | UnexpectedBom
    /** Not a JSONDecodeError: the ValueError `int()` raises for an integer token with more than `MaxStrDigits` digits. */
    | IntDigitsExceeded

  /**
   * Reads the escape sequence after a backslash: the character it stands for
   * and how many characters it took. A `\uXXXX` high surrogate followed by a
   * `\uXXXX` low surrogate stands for one character, as in Python.
   */
  function Unescape(s: string): (r: Result<(char, nat), ParseError>)
    ensures r.Ok? ==> 1 <= r.value.1 <= |s|
  {
    if |s| == 0 then Err(UnterminatedString)
    else if s[0] == '"' then Ok(('"', 1))
    else if s[0] == '\\' then Ok(('\\', 1))
    else if s[0] == '/' then Ok(('/', 1))
    else if s[0] == 'b' then Ok((8 as char, 1))
    else if s[0] == 'f' then Ok((12 as char, 1))
    else if s[0] == 'n' then Ok(('\n', 1))
    else if s[0] == 'r' then Ok(('\r', 1))
    else if s[0] == 't' then Ok(('\t', 1))
    else if s[0] == 'u' && |s| >= 5 && IsHex4(s[1..5]) then
      var u := Hex4Value(s[1..5]);
      if 0xD800 <= u < 0xDC00 && |s| >= 11 && s[5] == '\\' && s[6] == 'u' && IsHex4(s[7..11])
         && 0xDC00 <= Hex4Value(s[7..11]) < 0xE000
      then
        Ok(((0x10000 + (u - 0xD800) * 1024 + (Hex4Value(s[7..11]) - 0xDC00)) as char, 11))
      else if 0xD800 <= u < 0xE000 then Err(LoneSurrogate)
      else Ok((u as char, 5))
    else Err(InvalidEscape)
  }

  /** Puts `c` in front of the string a successful scan produced. */
  function Cons(c: char, r: Result<(string, string), ParseError>): Result<(string, string), ParseError>
  {
    match r
    case Err(e) => Err(e)
    case Ok((t, rest)) => Ok(([c] + t, rest))
  }

  /**
   * Scans the body of a string literal (the text after its opening quote):
   * the string it denotes and the text after its closing quote. Raw control
   * characters are refused, as in strict mode.
   */
  function ScanString(s: string): (r: Result<(string, string), ParseError>)
    ensures r.Ok? ==> |r.value.1| < |s|
    decreases |s|
  {
    if |s| == 0 then Err(UnterminatedString)
    else if s[0] == '"' then Ok(([], s[1..]))
    else if s[0] == '\\' then
      match Unescape(s[1..])
      case Err(e) => Err(e)
      case Ok((c, k)) => Cons(c, ScanString(s[1 + k..]))
    else if s[0] < ' ' then Err(InvalidControlCharacter)
    else Cons(s[0], ScanString(s[1..]))
  }

  lemma SurrogateArith(n: int)
    requires 0x10000 <= n < 0x110000
    ensures 0xD800 <= 0xD800 + (n - 0x10000) / 1024 < 0xDC00
    ensures 0xDC00 <= 0xDC00 + (n - 0x10000) % 1024 < 0xE000
    ensures 0x10000 + ((n - 0x10000) / 1024) * 1024 + (n - 0x10000) % 1024 == n
  {
  }

  lemma ScanShortEscape(c: char, tail: string)
    requires c == '"' || c == '\\' || c as int == 8 || c as int == 12 || c == '\n' || c == '\r' || c == '\t'
    ensures ScanString(EscapeChar(c) + tail) == Cons(c, ScanString(tail))
  {
    var s := EscapeChar(c) + tail;
    assert |EscapeChar(c)| == 2 && EscapeChar(c)[0] == '\\';
    assert s[1..] == [EscapeChar(c)[1]] + tail;
    assert Unescape(s[1..]) == Ok((c, 1));
    assert s[2..] == tail;
  }

  lemma ScanUEscape(c: char, tail: string)
    requires !IsPlain(c) && c as int < 0x10000
    requires !(c == '"' || c == '\\' || c as int == 8 || c as int == 12 || c == '\n' || c == '\r' || c == '\t')
    ensures ScanString(EscapeChar(c) + tail) == Cons(c, ScanString(tail))
  {
    var n := c as int;
    var h := Hex4(n);
    var s := EscapeChar(c) + tail;
    assert EscapeChar(c) == "\\u" + h;
    assert s[1..] == ['u'] + h + tail;
    assert s[1..][1..5] == h;
    assert Unescape(s[1..]) == Ok((c, 5));
    assert s[6..] == tail;
  }

  /** The two `\\uXXXX` halves `json.dumps` writes for a character beyond the Basic Multilingual Plane. */
  lemma SurrogateHalves(c: char) returns (hi: nat, lo: nat)
    requires c as int >= 0x10000
    ensures 0xD800 <= hi < 0xDC00 && 0xDC00 <= lo < 0xE000
    ensures c as int == 0x10000 + (hi - 0xD800) * 1024 + (lo - 0xDC00)
    ensures EscapeChar(c) == UEscape(hi) + UEscape(lo)
  {
    var n := c as int;
    SurrogateArith(n);
    hi, lo := 0xD800 + (n - 0x10000) / 1024, 0xDC00 + (n - 0x10000) % 1024;
    EscapeCharPair(c, hi, lo);
  }

  lemma EscapeCharPair(c: char, hi: nat, lo: nat)
    requires c as int >= 0x10000
    requires hi == 0xD800 + (c as int - 0x10000) / 1024 && lo == 0xDC00 + (c as int - 0x10000) % 1024
    ensures EscapeChar(c) == UEscape(hi) + UEscape(lo)
  {
  }

  lemma UnescapePair(h1: string, h2: string, tail: string, c: char)
    requires IsHex4(h1) && IsHex4(h2)
    requires 0xD800 <= Hex4Value(h1) < 0xDC00 && 0xDC00 <= Hex4Value(h2) < 0xE000
    requires c as int == 0x10000 + (Hex4Value(h1) - 0xD800) * 1024 + (Hex4Value(h2) - 0xDC00)
    ensures Unescape(['u'] + h1 + ['\\', 'u'] + h2 + tail) == Ok((c, 11))
  {
    var u := ['u'] + h1 + ['\\', 'u'] + h2 + tail;
    assert u[1..5] == h1 && u[5] == '\\' && u[6] == 'u' && u[7..11] == h2;
  }

  /** One step of the scanner over an escape sequence. */
  lemma ScanBackslash(s: string, c: char, k: nat)
    requires |s| > 0 && s[0] == '\\' && Unescape(s[1..]) == Ok((c, k))
    ensures ScanString(s) == Cons(c, ScanString(s[1 + k..]))
  {
  }

  lemma ScanPairText(c: char, hi: nat, lo: nat, tail: string)
    requires 0xD800 <= hi < 0xDC00 && 0xDC00 <= lo < 0xE000
    requires c as int == 0x10000 + (hi - 0xD800) * 1024 + (lo - 0xDC00)
    ensures ScanString(UEscape(hi) + UEscape(lo) + tail) == Cons(c, ScanString(tail))
  {
    var h1, h2 := Hex4(hi), Hex4(lo);
    var u := ['u'] + h1 + ['\\', 'u'] + h2 + tail;
    var s := ['\\'] + u;
    assert UEscape(hi) + UEscape(lo) + tail == s;
    UnescapePair(h1, h2, tail, c);
    assert s[1..] == u;
    assert s[12..] == tail;
    ScanBackslash(s, c, 11);
  }

  lemma ScanSurrogatePair(c: char, tail: string)
    requires c as int >= 0x10000
    ensures ScanString(EscapeChar(c) + tail) == Cons(c, ScanString(tail))
  {
    var hi, lo := SurrogateHalves(c);
    ScanPairText(c, hi, lo, tail);
  }

  /** Scanning an escaped character reads exactly that character back and goes on after it. */
  lemma ScanEscapeChar(c: char, tail: string)
    ensures ScanString(EscapeChar(c) + tail) == Cons(c, ScanString(tail))
  {
    var n := c as int;
    if c == '"' || c == '\\' || n == 8 || n == 12 || c == '\n' || c == '\r' || c == '\t' {
      ScanShortEscape(c, tail);
    } else if IsPlain(c) {
      assert (EscapeChar(c) + tail)[1..] == tail;
    } else if n < 0x10000 {
      ScanUEscape(c, tail);
    } else {
      ScanSurrogatePair(c, tail);
    }
  }

  /** A string written by `json.dumps` scans back to itself, and scanning stops right after its closing quote. */
  lemma {:induction false} ScanQuoted(s: string, rest: string)
    ensures ScanString(Escape(s) + "\"" + rest) == Ok((s, rest))
  {
    if |s| == 0 {
      assert Escape(s) + "\"" + rest == "\"" + rest;
    } else {
      assert Escape(s) + "\"" + rest == EscapeChar(s[0]) + (Escape(s[1..]) + "\"" + rest);
      ScanEscapeChar(s[0], Escape(s[1..]) + "\"" + rest);
      ScanQuoted(s[1..], rest);
      assert [s[0]] + s[1..] == s;
    }
  }

  predicate IsPrintableAscii(s: string) { forall i :: 0 <= i < |s| ==> ' ' <= s[i] <= '~' }

  lemma PrintableConcat(a: string, b: string)
    requires IsPrintableAscii(a) && IsPrintableAscii(b)
    ensures IsPrintableAscii(a + b)
  {
    assert forall i :: |a| <= i < |a + b| ==> (a + b)[i] == b[i - |a|];
  }

  lemma UEscapePrintable(n: nat)
    requires n < 0x10000
    ensures IsPrintableAscii(UEscape(n))
  {
    var h := Hex4(n);
    assert forall i :: 0 <= i < 4 ==> IsHexDigit(h[i]);
    assert forall i :: 2 <= i < 6 ==> UEscape(n)[i] == h[i - 2];
  }

  lemma EscapeCharPrintable(c: char)
    ensures IsPrintableAscii(EscapeChar(c))
  {
    var n := c as int;
    if c == '"' || c == '\\' || n == 8 || n == 12 || c == '\n' || c == '\r' || c == '\t' {
    } else if IsPlain(c) {
    } else if n < 0x10000 {
      UEscapePrintable(n);
    } else {
      var hi := 0xD800 + (n - 0x10000) / 1024;
      var lo := 0xDC00 + (n - 0x10000) % 1024;
      UEscapePrintable(hi);
      UEscapePrintable(lo);
      PrintableConcat(UEscape(hi), UEscape(lo));
    }
  }

  /** With `ensure_ascii`, an escaped string holds only printable ASCII: no raw control character or line separator. */
  lemma {:induction false} EscapePrintable(s: string)
    ensures IsPrintableAscii(Escape(s))
  {
    if |s| > 0 {
      EscapePrintable(s[1..]);
      EscapeCharPrintable(s[0]);
      PrintableConcat(EscapeChar(s[0]), Escape(s[1..]));
    }
  }
}
