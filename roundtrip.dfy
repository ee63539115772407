/**
 * What the encoder writes and the decoder reads back: a date or a datetime
 * stored as an object member value comes back as the same date or
 * datetime; the `@date:` and `@datetime:` payloads that are not what the
 * encoder writes raise instead of passing through; and a whole document
 * built from revivable values survives `dump2` followed by `loads`.
 */
module RoundTrip {
  import opened Wrappers
  import opened Text
  import opened JsonText
  import opened Json
  import opened Values
  import opened Encoder
  import opened Decoder
  import opened Jason

  /** Decimal digits never hold a separator such as `-` or `:`. */
  lemma DigitsLackSep(s: string, sep: char)
    requires AllDigits(s) && !IsDigit(sep)
    ensures sep !in s
  {
    forall i | 0 <= i < |s|
      ensures s[i] != sep
    {
      assert IsDigit(s[i]);
    }
  }

  // ----- `@date:` ------------------------------------------------------------------

  /** `isoformat()` of a date splits at `-` into its three zero-padded groups. */
  lemma DateIsoSplit(d: Date)
    ensures Split(DateIso(d), '-') == [ZeroPad(d.year, 4), ZeroPad(d.month, 2), ZeroPad(d.day, 2)]
  {
    var y, m, dd := ZeroPad(d.year, 4), ZeroPad(d.month, 2), ZeroPad(d.day, 2);
    DigitsLackSep(y, '-');
    DigitsLackSep(m, '-');
    DigitsLackSep(dd, '-');
    Assoc(y + "-", m, "-");
    Assoc(y + "-", m + "-", dd);
    assert DateIso(d) == y + ['-'] + (m + ['-'] + dd);
    SplitFirst(y, '-', m + ['-'] + dd);
    SplitFirst(m, '-', dd);
    SplitNone(dd, '-');
  }

  /** One more integer part in front of parts that all read. */
  lemma ParsePartsCons(p: string, ps: seq<string>, n: int, ns: seq<int>)
    requires ParseInt(p) == Some(n) && ParseParts(ps) == Some(ns)
    ensures ParseParts([p] + ps) == Some([n] + ns)
  {
    assert ([p] + ps)[1..] == ps;
  }

  /** Three parts that `int()` reads are read into a list of three. */
  lemma ParseThree(a: string, b: string, c: string, x: int, y: int, z: int)
    requires ParseInt(a) == Some(x) && ParseInt(b) == Some(y) && ParseInt(c) == Some(z)
    ensures ParseParts([a, b, c]) == Some([x, y, z])
  {
    ParsePartsCons(c, [], z, []);
    assert [c] + [] == [c] && [z] + [] == [z];
    ParsePartsCons(b, [c], y, [z]);
    assert [b] + [c] == [b, c] && [y] + [z] == [y, z];
    ParsePartsCons(a, [b, c], x, [y, z]);
    assert [a] + [b, c] == [a, b, c] && [x] + [y, z] == [x, y, z];
  }

  /** Two parts that `int()` reads are read into a list of two. */
  lemma ParseTwo(a: string, b: string, x: int, y: int)
    requires ParseInt(a) == Some(x) && ParseInt(b) == Some(y)
    ensures ParseParts([a, b]) == Some([x, y])
  {
    ParsePartsCons(b, [], y, []);
    assert [b] + [] == [b] && [y] + [] == [y];
    ParsePartsCons(a, [b], x, [y]);
    assert [a] + [b] == [a, b] && [x] + [y] == [x, y];
  }

  /** The three groups of a date text read back as the date's fields. */
  lemma DateIsoParts(d: Date)
    ensures ParseParts(Split(DateIso(d), '-')) == Some([d.year, d.month, d.day])
  {
    DateIsoSplit(d);
    PadFour(d.year);
    PadTwo(d.month);
    PadTwo(d.day);
    ParseIntDigits(ZeroPad(d.year, 4));
    ParseIntDigits(ZeroPad(d.month, 2));
    ParseIntDigits(ZeroPad(d.day, 2));
    ParseThree(ZeroPad(d.year, 4), ZeroPad(d.month, 2), ZeroPad(d.day, 2), d.year, d.month, d.day);
  }

  /** The `@date:` branch reads back the date the encoder wrote. */
  lemma DateRoundTrip(d: Date)
    ensures DecodeDate("@date:" + DateIso(d)) == Ok(VDate(d))
  {
    var s := "@date:" + DateIso(d);
    assert s[6..] == DateIso(d);
    DateIsoParts(d);
    var ns := [d.year, d.month, d.day];
    assert ParseParts(Split(s[6..], '-')) == Some(ns);
    assert IsCInt(ns[0]) && IsCInt(ns[1]) && IsCInt(ns[2]) && ValidDate(ns[0], ns[1], ns[2]);
  }

  /** As an object member value, the tagged date text becomes the date again. */
  lemma DateMemberRoundTrip(d: Date)
    ensures Default(VDate(d)) == Ok(VStr("@date:" + DateIso(d)))
    ensures DecodeMember(VStr("@date:" + DateIso(d))) == Ok(VDate(d))
  {
    var s := "@date:" + DateIso(d);
    Encoder.DateTag(d);
    assert HasPrefix(s, "@date:");
    Decoder.KnownTags(s);
    DateRoundTrip(d);
  }

  /** A payload that splits into parts that are all integers, but not three of them, raises TypeError. */
  lemma DateWrongCount(s: string)
    requires ParseParts(Split(if |s| >= 6 then s[6..] else "", '-')).Some?
    requires |Split(if |s| >= 6 then s[6..] else "", '-')| != 3
    ensures DecodeDate(s) == Err(TypeError)
  {
    ParsePartsValues(Split(if |s| >= 6 then s[6..] else "", '-'));
  }

  /** A payload with a part `int()` refuses raises ValueError. */
  lemma DateBadPart(s: string, i: nat)
    requires i < |Split(if |s| >= 6 then s[6..] else "", '-')|
    requires ParseInt(Split(if |s| >= 6 then s[6..] else "", '-')[i]).None?
    ensures DecodeDate(s) == Err(ValueError)
  {
    ParsePartsSome(Split(if |s| >= 6 then s[6..] else "", '-'));
  }

  /** `int()` does not strip U+001C to U+001F, so such a character in front of the year raises ValueError. */
  lemma DateSeparatorRefused(c: char, a: string, b: string)
    requires '\U{001C}' <= c <= '\U{001F}' && '-' !in a
    ensures DecodeDate("@date:" + [c] + a + "-" + b) == Err(ValueError)
  {
    var s := "@date:" + [c] + a + "-" + b;
    assert s[6..] == ([c] + a) + ['-'] + b;
    assert '-' !in [c] + a;
    SplitFirst([c] + a, '-', b);
    ParseIntSeparatorFails(c, a);
    DateBadPart(s, 0);
  }

  /** Three integers within a C `int` that are not a calendar date raise ValueError. */
  lemma DateOutOfRange(s: string)
    requires ParseParts(Split(if |s| >= 6 then s[6..] else "", '-')).Some?
    requires var ns := ParseParts(Split(if |s| >= 6 then s[6..] else "", '-')).value;
      |ns| == 3 && IsCInt(ns[0]) && IsCInt(ns[1]) && IsCInt(ns[2]) && !ValidDate(ns[0], ns[1], ns[2])
    ensures DecodeDate(s) == Err(ValueError)
  {
  }

  /**
   * `@date:2020-01`-style payloads: two integer groups raise TypeError, or
   * ValueError first when a group has more digits than `int()` accepts.
   */
  lemma DateTwoGroups(a: string, b: string)
    requires |a| > 0 && AllDigits(a) && |b| > 0 && AllDigits(b)
    ensures DecodeDate("@date:" + a + "-" + b)
            == if |a| <= MaxStrDigits && |b| <= MaxStrDigits then Err(TypeError) else Err(ValueError)
  {
    var s := "@date:" + a + "-" + b;
    assert s[6..] == a + ['-'] + b;
    DigitsLackSep(a, '-');
    DigitsLackSep(b, '-');
    SplitFirst(a, '-', b);
    SplitNone(b, '-');
    assert Split(s[6..], '-') == [a, b];
    ParseIntDigits(a);
    ParseIntDigits(b);
    if |a| <= MaxStrDigits && |b| <= MaxStrDigits {
      ParseTwo(a, b, DigitsValue(a), DigitsValue(b));
      DateWrongCount(s);
    } else if |a| > MaxStrDigits {
      DateBadPart(s, 0);
    } else {
      DateBadPart(s, 1);
    }
  }

  // ----- `@datetime:` --------------------------------------------------------------

  /** `sep\d\d?` at the start of `[sep] + p + rest`, with `p` two digits, takes exactly `p`. */
  lemma FieldTwo(sep: char, p: string, rest: string)
    requires |p| == 2 && AllDigits(p)
    ensures Field([sep] + p + rest, sep) == Some((DigitsValue(p), rest))
  {
    var s := [sep] + p + rest;
    assert s[1..] == p + rest;
    assert s[1..][..2] == p;
    assert s[3..] == rest;
  }

  /** The `.ffffff` suffix of `time.isoformat()`, empty for a whole second. */
  function FractionText(t: Time): string
  {
    if t.microsecond != 0 then "." + ZeroPad(t.microsecond, 6) else ""
  }

  /** What follows the year in a datetime text, one `sep\d\d` group at a time, then `tail`. */
  function AfterYear(dt: DateTime, tail: string): string
  {
    var d, t := dt.date, dt.time;
    "-" + ZeroPad(d.month, 2) + ("-" + ZeroPad(d.day, 2) + ("T" + ZeroPad(t.hour, 2)
      + (":" + ZeroPad(t.minute, 2) + (":" + ZeroPad(t.second, 2) + tail))))
  }

  /** Regrouping `Y-Mo-DTh:Mi:S` + `f` + `junk` so that each separator starts the rest. */
  lemma Regroup(y: string, mo: string, dd: string, h: string, mi: string, se: string, f: string, junk: string)
    ensures (y + "-" + mo + "-" + dd) + "T" + (h + ":" + mi + ":" + se + f) + junk
            == y + ("-" + mo + ("-" + dd + ("T" + h + (":" + mi + (":" + se + (f + junk))))))
  {
    var c5 := ":" + se + (f + junk);
    var c4 := ":" + mi + c5;
    var c3 := "T" + h + c4;
    var c2 := "-" + dd + c3;
    assert (h + ":" + mi + ":" + se + f) + junk == h + c4 by {
      Assoc(h + ":" + mi + ":" + se, f, junk);
      Assoc(h + ":" + mi + ":", se, f + junk);
      Assoc(h + ":" + mi, ":", se + (f + junk));
      Assoc(h + ":", mi, c5);
      Assoc(h, ":", mi + c5);
    }
    var date := y + "-" + mo + "-" + dd;
    assert date + "T" + (h + ":" + mi + ":" + se + f) + junk == date + c3 by {
      Assoc(date + "T", h + ":" + mi + ":" + se + f, junk);
      Assoc(date, "T", h + c4);
      Assoc("T", h, c4);
    }
    assert date + c3 == y + "-" + mo + c2 by {
      Assoc(y + "-" + mo + "-", dd, c3);
      Assoc(y + "-" + mo, "-", dd + c3);
    }
    Assoc(y + "-", mo, c2);
    Assoc(y, "-", mo + c2);
  }

  /** The datetime text and whatever follows it: the four-digit year, then the groups, then the fraction and the rest. */
  lemma DateTimeIsoSplit(dt: DateTime, junk: string)
    ensures DateTimeIso(dt) + junk == ZeroPad(dt.date.year, 4) + AfterYear(dt, FractionText(dt.time) + junk)
  {
    var d, t := dt.date, dt.time;
    Regroup(ZeroPad(d.year, 4), ZeroPad(d.month, 2), ZeroPad(d.day, 2),
            ZeroPad(t.hour, 2), ZeroPad(t.minute, 2), ZeroPad(t.second, 2), FractionText(t), junk);
  }

  /** One more two-digit group in front of groups that match. */
  lemma FieldsCons(sep: char, seps: string, p: string, rest: string, ns: seq<nat>, after: string)
    requires |seps| > 0 && seps[0] == sep && |p| == 2 && AllDigits(p)
    requires Fields(rest, seps[1..]) == Some((ns, after))
    ensures Fields([sep] + p + rest, seps) == Some(([DigitsValue(p)] + ns, after))
  {
    FieldTwo(sep, p, rest);
  }

  /** The separators of `datetime_re` after the year, one at a time. */
  lemma DatetimeSeps()
    ensures "--T::"[0] == '-' && "--T::"[1..] == "-T::"
    ensures "-T::"[0] == '-' && "-T::"[1..] == "T::"
    ensures "T::"[0] == 'T' && "T::"[1..] == "::"
    ensures "::"[0] == ':' && "::"[1..] == ":"
    ensures ":"[0] == ':' && ":"[1..] == ""
  {
  }

  lemma FiveList<T>(a: T, b: T, c: T, d: T, e: T)
    ensures [a] + ([b] + ([c] + ([d] + ([e] + [])))) == [a, b, c, d, e]
  {
  }

  /** `-Mo-DTh:Mi:S` with two digits in each group: the five `sep\d\d?` groups of `datetime_re`. */
  lemma FiveFields(mo: string, dd: string, h: string, mi: string, se: string, tail: string)
    requires |mo| == 2 && AllDigits(mo) && |dd| == 2 && AllDigits(dd) && |h| == 2 && AllDigits(h)
    requires |mi| == 2 && AllDigits(mi) && |se| == 2 && AllDigits(se)
    ensures Fields("-" + mo + ("-" + dd + ("T" + h + (":" + mi + (":" + se + tail)))), "--T::")
            == Some(([DigitsValue(mo), DigitsValue(dd), DigitsValue(h), DigitsValue(mi), DigitsValue(se)], tail))
  {
    var r4 := ":" + se + tail;
    var r3 := ":" + mi + r4;
    var r2 := "T" + h + r3;
    var r1 := "-" + dd + r2;
    var n4 := [DigitsValue(se)] + [];
    var n3 := [DigitsValue(mi)] + n4;
    var n2 := [DigitsValue(h)] + n3;
    var n1 := [DigitsValue(dd)] + n2;
    var n0 := [DigitsValue(mo)] + n1;
    DatetimeSeps();
    FieldsCons(':', ":", se, tail, [], tail);
    FieldsCons(':', "::", mi, r4, n4, tail);
    FieldsCons('T', "T::", h, r3, n3, tail);
    FieldsCons('-', "-T::", dd, r2, n2, tail);
    FieldsCons('-', "--T::", mo, r1, n1, tail);
    FiveList(DigitsValue(mo), DigitsValue(dd), DigitsValue(h), DigitsValue(mi), DigitsValue(se));
  }

  /** The groups after the year read back as month, day, hour, minute and second, and leave the tail. */
  lemma AfterYearFields(dt: DateTime, tail: string)
    ensures Fields(AfterYear(dt, tail), "--T::")
            == Some(([dt.date.month, dt.date.day, dt.time.hour, dt.time.minute, dt.time.second], tail))
  {
    var d, t := dt.date, dt.time;
    PadTwo(d.month); PadTwo(d.day); PadTwo(t.hour); PadTwo(t.minute); PadTwo(t.second);
    FiveFields(ZeroPad(d.month, 2), ZeroPad(d.day, 2), ZeroPad(t.hour, 2), ZeroPad(t.minute, 2), ZeroPad(t.second, 2), tail);
  }

  /** A tag, a four-character year and the rest: where each piece sits. */
  lemma TagYearRest(tag: string, y: string, rest: string)
    requires |y| == 4
    ensures var s := tag + (y + rest);
      && HasPrefix(s, tag) && |s| >= |tag| + 4
      && s[|tag|..|tag| + 4] == y && s[|tag| + 4..] == rest
  {
    var s := tag + (y + rest);
    assert s[..|tag|] == tag;
    assert s[|tag|..] == y + rest;
    assert s[|tag|..][..4] == y;
    assert s[|tag|..][4..] == rest;
  }

  /**
   * Text after the datetime that `datetime_re` leaves alone: nothing, or
   * something that starts with neither a point nor a digit (`Z`, `+01:00`, a space).
   */
  predicate Ignorable(junk: string)
  {
    |junk| == 0 || (junk[0] != '.' && !IsDigit(junk[0]))
  }

  /** The fraction group reads the microseconds back from their six digits, or 0 when `isoformat()` wrote none. */
  lemma FractionOf(t: Time, junk: string)
    requires Ignorable(junk)
    ensures Fraction(FractionText(t) + junk) == Some(t.microsecond)
  {
    if t.microsecond != 0 {
      PadSix(t.microsecond);
      FractionUnscaled(ZeroPad(t.microsecond, 6), junk);
    } else {
      assert FractionText(t) + junk == junk;
    }
  }

  /** `datetime_re` matches the text the encoder writes, followed by ignorable text, with the datetime's own fields as groups. */
  lemma MatchIso(dt: DateTime, junk: string)
    requires Ignorable(junk)
    ensures MatchDatetime("@datetime:" + DateTimeIso(dt) + junk)
            == Some(DateTimeGroups(dt.date.year, dt.date.month, dt.date.day,
                                   dt.time.hour, dt.time.minute, dt.time.second, Some(dt.time.microsecond)))
  {
    MatchIsoFraction(dt, junk);
    FractionOf(dt.time, junk);
  }

  /** Whatever follows the encoder's text, `datetime_re` reads the datetime's fields, and the fraction from what follows the seconds. */
  lemma MatchIsoFraction(dt: DateTime, junk: string)
    ensures MatchDatetime("@datetime:" + DateTimeIso(dt) + junk)
            == Some(DateTimeGroups(dt.date.year, dt.date.month, dt.date.day,
                                   dt.time.hour, dt.time.minute, dt.time.second, Fraction(FractionText(dt.time) + junk)))
  {
    var y := ZeroPad(dt.date.year, 4);
    var tail := FractionText(dt.time) + junk;
    var rest := AfterYear(dt, tail);
    PadFour(dt.date.year);
    DateTimeIsoSplit(dt, junk);
    Assoc("@datetime:", DateTimeIso(dt), junk);
    TagYearRest("@datetime:", y, rest);
    AfterYearFields(dt, tail);
    MatchFrom("@datetime:" + DateTimeIso(dt) + junk, y, rest,
              [dt.date.month, dt.date.day, dt.time.hour, dt.time.minute, dt.time.second], tail);
  }

  /** How `datetime_re` reads a text whose year and later groups have been located. */
  lemma MatchFrom(s: string, y: string, rest: string, ns: seq<nat>, tail: string)
    requires HasPrefix(s, "@datetime:") && |s| >= 14 && s[10..14] == y && AllDigits(y) && s[14..] == rest
    requires Fields(rest, "--T::") == Some((ns, tail))
    ensures |ns| == 5
    ensures MatchDatetime(s) == Some(DateTimeGroups(DigitsValue(y), ns[0], ns[1], ns[2], ns[3], ns[4], Fraction(tail)))
  {
  }

  /** The `@datetime:` branch reads back the datetime the encoder wrote, whatever ignorable text follows it. */
  lemma DatetimeTrailing(dt: DateTime, junk: string)
    requires Ignorable(junk)
    ensures DecodeDatetime("@datetime:" + DateTimeIso(dt) + junk) == Ok(VDateTime(dt))
  {
    MatchIso(dt, junk);
  }

  /** As an object member value, the tagged datetime text becomes the datetime again. */
  lemma DatetimeMemberRoundTrip(dt: DateTime)
    ensures Default(VDateTime(dt)) == Ok(VStr("@datetime:" + DateTimeIso(dt)))
    ensures DecodeMember(VStr("@datetime:" + DateTimeIso(dt))) == Ok(VDateTime(dt))
  {
    var s := "@datetime:" + DateTimeIso(dt);
    Encoder.DateTimeTag(dt);
    DateTimeTagText(DateTimeIso(dt));
    Decoder.KnownTags(s);
    DatetimeTrailing(dt, "");
    assert s + "" == s;
  }

  /**
   * A datetime written without microseconds, followed by a point and more
   * digits than `int()` accepts: the pattern matches, and `int(g['ms'])`
   * raises ValueError.
   */
  lemma DatetimeLongFraction(dt: DateTime, ds: string, junk: string)
    requires dt.time.microsecond == 0
    requires AllDigits(ds) && |ds| > MaxStrDigits && Ignorable(junk)
    ensures DecodeDatetime("@datetime:" + DateTimeIso(dt) + ("." + ds + junk)) == Err(ValueError)
  {
    MatchLongFraction(dt, ds, junk);
  }

  /** The match of such a text: the datetime's fields, and a fraction `int()` refuses. */
  lemma MatchLongFraction(dt: DateTime, ds: string, junk: string)
    requires dt.time.microsecond == 0
    requires AllDigits(ds) && |ds| > MaxStrDigits && Ignorable(junk)
    ensures MatchDatetime("@datetime:" + DateTimeIso(dt) + ("." + ds + junk))
            == Some(DateTimeGroups(dt.date.year, dt.date.month, dt.date.day,
                                   dt.time.hour, dt.time.minute, dt.time.second, None))
  {
    var tail := "." + ds + junk;
    MatchIsoFraction(dt, tail);
    assert FractionText(dt.time) + tail == tail;
    Decoder.FractionUnscaled(ds, junk);
  }

  /** A group in front of groups that do not match: the whole does not match. */
  lemma FieldsConsNone(sep: char, seps: string, p: string, rest: string)
    requires |seps| > 0 && seps[0] == sep && |p| == 2 && AllDigits(p)
    requires Fields(rest, seps[1..]).None?
    ensures Fields([sep] + p + rest, seps).None?
  {
    FieldTwo(sep, p, rest);
  }

  /** A date where a datetime is expected: `datetime_re` finds no `T`, and `None.groupdict()` raises AttributeError. */
  lemma DatetimeDateOnly(d: Date)
    ensures DecodeDatetime("@datetime:" + DateIso(d)) == Err(AttributeError)
  {
    var y, mo, dd := ZeroPad(d.year, 4), ZeroPad(d.month, 2), ZeroPad(d.day, 2);
    PadFour(d.year); PadTwo(d.month); PadTwo(d.day);
    var r2 := "-" + dd + "";
    var r1 := "-" + mo + r2;
    assert DateIso(d) == y + r1 by {
      Regroup3(y, mo, dd);
    }
    TagYearRest("@datetime:", y, r1);
    DatetimeSeps();
    assert Fields("", "T::").None?;
    FieldsConsNone('-', "-T::", dd, "");
    FieldsConsNone('-', "--T::", mo, r2);
  }

  /** Regrouping `Y-Mo-D` so that each separator starts the rest. */
  lemma Regroup3(y: string, mo: string, dd: string)
    ensures y + "-" + mo + "-" + dd == y + ("-" + mo + ("-" + dd + ""))
  {
    assert dd + "" == dd;
    Assoc(y + "-" + mo, "-", dd);
    Assoc(y + "-", mo, "-" + dd);
    Assoc(y, "-", mo + ("-" + dd));
  }

  // ----- whole documents -------------------------------------------------------------

  /**
   * A value that `dump2` followed by `loads` gives back unchanged; `member`
   * says whether it is the value of an object member, the only place where
   * `obj_decoder` revives tags. Dates and datetimes come back only there,
   * strings there only when they are not tagged, integers only when their
   * decimal text is within the digit limit, and dict keys must be distinct
   * strings.
   */
  predicate Revivable(v: Value, member: bool)
    decreases v, 1
  {
    match v
    case VNone => true
    case VBool(_) => true
    case VInt(i) => FitsStrDigits(i)
    case VFloat(_) => true
    case VStr(s) => !member || !(HasPrefix(s, "@datetime:") || HasPrefix(s, "@date:"))
    case VList(items) => forall i :: 0 <= i < |items| ==> Revivable(items[i], false)
    case VDict(es) => RevivableEntries(es)
    case VDate(_) => member
    case VDateTime(_) => member
    case _ => false
  }

  /** Distinct string keys, each with a value that survives as a member value. */
  predicate RevivableEntries(es: seq<(Value, Value)>)
    decreases es, 0
  {
    && (forall e | e in es :: e.0.VStr? && assert e.1 < e; Revivable(e.1, true))
    && (forall i, j :: 0 <= i < j < |es| ==> es[i].0 != es[j].0)
  }

  /** The value `loads` builds before `obj_decoder` looks at it: a date or datetime is still its tagged string. */
  function Surface(v: Value): Value
  {
    match v
    case VDate(d) => VStr("@date:" + DateIso(d))
    case VDateTime(dt) => VStr("@datetime:" + DateTimeIso(dt))
    case _ => v
  }

  /** The pairs `obj_decoder` receives for the entries `es` of a dict with string keys. */
  function SurfacePairs(es: seq<(Value, Value)>): (r: seq<(string, Value)>)
    requires forall i :: 0 <= i < |es| ==> es[i].0.VStr?
    ensures |r| == |es|
    ensures forall i :: 0 <= i < |es| ==> r[i] == (es[i].0.s, Surface(es[i].1))
  {
    if |es| == 0 then []
    else [(es[0].0.s, Surface(es[0].1))] + SurfacePairs(es[1..])
  }

  /** A member value that survives is brought back by `obj_decoder` from what `loads` built for it. */
  lemma MemberRevives(v: Value)
    requires Revivable(v, true)
    ensures DecodeMember(Surface(v)) == Ok(v)
  {
    match v
    case VDate(d) => DateMemberRoundTrip(d);
    case VDateTime(dt) => DatetimeMemberRoundTrip(dt);
    case VStr(s) => PassThrough(v);
    case _ =>
  }

  /** `obj_decoder` rebuilds the dict, entry by entry and in order, from the pairs its members encode to. */
  lemma DictRevives(es: seq<(Value, Value)>)
    requires RevivableEntries(es)
    ensures DecodePairs(SurfacePairs(es)) == Ok(es)
  {
    var pairs := SurfacePairs(es);
    forall i | 0 <= i < |pairs|
      ensures DecodeMember(pairs[i].1).Ok?
    {
      MemberRevives(es[i].1);
    }
    DecodePairsOk(pairs);
    assert DistinctKeys(pairs) by {
      forall i, j | 0 <= i < j < |pairs|
        ensures pairs[i].0 != pairs[j].0
      {
        assert es[i].0 != es[j].0;
      }
    }
    DecodePairsInOrder(pairs);
    var res := DecodePairs(pairs).value;
    forall i | 0 <= i < |es|
      ensures res[i] == es[i]
    {
      assert DecodedEntry(pairs[i], res[i]);
      MemberRevives(es[i].1);
    }
    assert res == es;
  }

  /** Encoding succeeds, and reading the JSON tree back builds the value, tags of dates and datetimes unrevived at its top. */
  lemma {:induction false} ReviveEncoded(v: Value, member: bool)
    requires Revivable(v, member)
    ensures Encode(v).Ok? && Revive(Encode(v).value, true) == Ok(Surface(v))
    decreases v, 1
  {
    match v
    case VList(items) =>
      ItemsRevive(items);
      ListStep(items, EncodeItems(items).value);
    case VDict(es) =>
      assert forall i :: 0 <= i < |es| ==> es[i] in es;
      MembersRevive(es);
      DictRevives(es);
      DictStep(es, EncodeMembers(es).value, SurfacePairs(es));
    case VDate(d) => DateStep(d);
    case VDateTime(dt) => DateTimeStep(dt);
    case _ => ScalarStep(v, member);
  }

  /** A scalar that survives encodes to a JSON scalar that `loads` reads back as it is. */
  lemma ScalarStep(v: Value, member: bool)
    requires Revivable(v, member) && !(v.VList? || v.VDict? || v.VDate? || v.VDateTime?)
    ensures Encode(v).Ok? && Revive(Encode(v).value, true) == Ok(v)
  {
    match v
    case VNone => assert Encode(v) == Ok(JNull);
    case VBool(b) => assert Encode(v) == Ok(JBool(b));
    case VInt(i) => assert Encode(v) == Ok(JInt(i));
    case VFloat(f) => assert Encode(v) == Ok(JFloat(f));
    case VStr(s) => assert Encode(v) == Ok(JStr(s));
    case _ =>
  }

  /** A date encodes to its tagged string, which `loads` reads as that string. */
  lemma DateStep(d: Date)
    ensures Encode(VDate(d)).Ok? && Revive(Encode(VDate(d)).value, true) == Ok(VStr("@date:" + DateIso(d)))
  {
    Encoder.DateTag(d);
  }

  /** A datetime encodes to its tagged string, which `loads` reads as that string. */
  lemma DateTimeStep(dt: DateTime)
    ensures Encode(VDateTime(dt)).Ok?
    ensures Revive(Encode(VDateTime(dt)).value, true) == Ok(VStr("@datetime:" + DateTimeIso(dt)))
  {
    Encoder.DateTimeTag(dt);
  }

  /** A list encodes to an array, which `loads` reads back item by item. */
  lemma ListStep(items: seq<Value>, js: seq<Json>)
    requires EncodeItems(items) == Ok(js) && ReviveItems(js, true) == Ok(items)
    ensures Encode(VList(items)).Ok? && Revive(Encode(VList(items)).value, true) == Ok(VList(items))
  {
  }

  /** A dict encodes to an object, whose members `loads` reads back and hands to `obj_decoder`. */
  lemma DictStep(es: seq<(Value, Value)>, ms: seq<(string, Json)>, pairs: seq<(string, Value)>)
    requires EncodeMembers(es) == Ok(ms) && ReviveMembers(ms, true) == Ok(pairs)
    requires DecodePairs(pairs) == Ok(es)
    ensures Encode(VDict(es)).Ok? && Revive(Encode(VDict(es)).value, true) == Ok(VDict(es))
  {
    EncodeDict(es, ms);
    ReviveDict(ms, pairs, es);
  }

  lemma EncodeDict(es: seq<(Value, Value)>, ms: seq<(string, Json)>)
    requires EncodeMembers(es) == Ok(ms)
    ensures Encode(VDict(es)) == Ok(JObj(ms))
  {
  }

  lemma ReviveDict(ms: seq<(string, Json)>, pairs: seq<(string, Value)>, es: seq<(Value, Value)>)
    requires ReviveMembers(ms, true) == Ok(pairs) && DecodePairs(pairs) == Ok(es)
    ensures Revive(JObj(ms), true) == Ok(VDict(es))
  {
  }

  lemma {:induction false} ItemsRevive(items: seq<Value>)
    requires forall i :: 0 <= i < |items| ==> Revivable(items[i], false)
    ensures EncodeItems(items).Ok? && ReviveItems(EncodeItems(items).value, true) == Ok(items)
    decreases items, 0
  {
    if |items| > 0 {
      ReviveEncoded(items[0], false);
      ItemsRevive(items[1..]);
      assert [items[0]] + items[1..] == items;
    }
  }

  lemma {:induction false} MembersRevive(es: seq<(Value, Value)>)
    requires forall i :: 0 <= i < |es| ==> es[i].0.VStr? && Revivable(es[i].1, true)
    ensures EncodeMembers(es).Ok? && ReviveMembers(EncodeMembers(es).value, true) == Ok(SurfacePairs(es))
    decreases es, 0
  {
    if |es| > 0 {
      assert es[0].1 < es[0];
      ReviveEncoded(es[0].1, true);
      MembersRevive(es[1..]);
    }
  }

  /** `loads(dump2(v))` is `v` for every value that survives at the top level. */
  lemma Dump2Loads(v: Value)
    requires Revivable(v, false)
    ensures Dump2(v).Ok? && Loads(Str(Dump2(v).value), true) == Ok(v)
  {
    ReviveEncoded(v, false);
  }

  /** A date at the top level comes back as its tagged string: only object member values are revived. */
  lemma TopLevelDateKept(d: Date)
    ensures Dump2(VDate(d)).Ok?
    ensures Loads(Str(Dump2(VDate(d)).value), true) == Ok(VStr("@date:" + DateIso(d)))
  {
    var t := "@date:" + DateIso(d);
    assert Encode(VDate(d)) == Ok(JStr(t)) by { Encoder.DateTag(d); }
    assert Dump2(VDate(d)) == Ok(Compact(JStr(t)));
    TopLevelKept(t);
  }
}

