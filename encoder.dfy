/**
 * `DkJSONEncoder`: the ordered chain of rules in `default` that turns a
 * value `json` cannot write into one it can, and the encoding `json.dumps`
 * performs with that encoder, down to a `Json` tree.
 */
module Encoder {
  import opened Wrappers
  import opened Text
  import opened JsonText
  import opened Utf8
  import opened Json
  import opened Values

  // ----- ISO 8601 texts, as `isoformat()` writes them ----------------------

  /** `date.isoformat()`: the calendar date in extended format, `YYYY-MM-DD`. */
  function DateIso(d: Date): string
  {
    ZeroPad(d.year, 4) + "-" + ZeroPad(d.month, 2) + "-" + ZeroPad(d.day, 2)
  }

  /** The `HH:MM:SS` part of a time. */
  function ClockIso(t: Time): string
  {
    ZeroPad(t.hour, 2) + ":" + ZeroPad(t.minute, 2) + ":" + ZeroPad(t.second, 2)
  }

  /** `time.isoformat()` of a naive time: `HH:MM:SS`, then `.ffffff` only when there are microseconds. */
  function TimeIso(t: Time): string
  {
    ClockIso(t) + (if t.microsecond != 0 then "." + ZeroPad(t.microsecond, 6) else "")
  }

  /** `datetime.isoformat()` of a naive datetime: date and time joined by `T`. */
  function DateTimeIso(dt: DateTime): string
  {
    DateIso(dt.date) + "T" + TimeIso(dt.time)
  }

  lemma PadTwo(n: nat)
    requires n < 100
    ensures |ZeroPad(n, 2)| == 2 && DigitsValue(ZeroPad(n, 2)) == n && AllDigits(ZeroPad(n, 2))
  {
    assert Pow10(2) == 100 by { assert Pow10(1) == 10; }
  }

  lemma PadFour(n: nat)
    requires n < 10000
    ensures |ZeroPad(n, 4)| == 4 && DigitsValue(ZeroPad(n, 4)) == n && AllDigits(ZeroPad(n, 4))
  {
    assert Pow10(4) == 10000 by { assert Pow10(1) == 10; assert Pow10(2) == 100; assert Pow10(3) == 1000; }
  }

  lemma PadSix(n: nat)
    requires n < 1000000
    ensures |ZeroPad(n, 6)| == 6 && DigitsValue(ZeroPad(n, 6)) == n && AllDigits(ZeroPad(n, 6))
  {
    assert Pow10(6) == 1000000 by {
      assert Pow10(1) == 10; assert Pow10(2) == 100; assert Pow10(3) == 1000;
      assert Pow10(4) == 10000; assert Pow10(5) == 100000;
    }
  }

  /** Where the three zero-padded groups of a date text sit. */
  lemma DateIsoPieces(d: Date)
    ensures |DateIso(d)| == 10 && DateIso(d)[4] == '-' && DateIso(d)[7] == '-'
    ensures DateIso(d)[..4] == ZeroPad(d.year, 4)
    ensures DateIso(d)[5..7] == ZeroPad(d.month, 2)
    ensures DateIso(d)[8..] == ZeroPad(d.day, 2)
  {
    PadFour(d.year);
    PadTwo(d.month);
    PadTwo(d.day);
    var s := DateIso(d);
    assert s[..4] == ZeroPad(d.year, 4);
    assert s[5..7] == ZeroPad(d.month, 2);
    assert s[8..] == ZeroPad(d.day, 2);
  }

  /** The date text has the fixed `YYYY-MM-DD` shape and its digit groups read back as the fields. */
  lemma DateIsoShape(d: Date)
    ensures |DateIso(d)| == 10 && DateIso(d)[4] == '-' && DateIso(d)[7] == '-'
    ensures AllDigits(DateIso(d)[..4]) && DigitsValue(DateIso(d)[..4]) == d.year
    ensures AllDigits(DateIso(d)[5..7]) && DigitsValue(DateIso(d)[5..7]) == d.month
    ensures AllDigits(DateIso(d)[8..]) && DigitsValue(DateIso(d)[8..]) == d.day
  {
    DateIsoPieces(d);
    PadFour(d.year);
    PadTwo(d.month);
    PadTwo(d.day);
  }

  /** Where the three zero-padded groups of a clock text sit. */
  lemma ClockIsoPieces(t: Time)
    ensures |ClockIso(t)| == 8 && ClockIso(t)[2] == ':' && ClockIso(t)[5] == ':'
    ensures ClockIso(t)[..2] == ZeroPad(t.hour, 2)
    ensures ClockIso(t)[3..5] == ZeroPad(t.minute, 2)
    ensures ClockIso(t)[6..] == ZeroPad(t.second, 2)
  {
    PadTwo(t.hour);
    PadTwo(t.minute);
    PadTwo(t.second);
    var s := ClockIso(t);
    assert s[..2] == ZeroPad(t.hour, 2);
    assert s[3..5] == ZeroPad(t.minute, 2);
    assert s[6..] == ZeroPad(t.second, 2);
  }

  /** The clock text has the fixed `HH:MM:SS` shape and its digit groups read back as the fields. */
  lemma ClockIsoShape(t: Time)
    ensures |ClockIso(t)| == 8 && ClockIso(t)[2] == ':' && ClockIso(t)[5] == ':'
    ensures AllDigits(ClockIso(t)[..2]) && DigitsValue(ClockIso(t)[..2]) == t.hour
    ensures AllDigits(ClockIso(t)[3..5]) && DigitsValue(ClockIso(t)[3..5]) == t.minute
    ensures AllDigits(ClockIso(t)[6..]) && DigitsValue(ClockIso(t)[6..]) == t.second
  {
    ClockIsoPieces(t);
    PadTwo(t.hour);
    PadTwo(t.minute);
    PadTwo(t.second);
  }

  /** Where the clock text and the microseconds sit in a time text. */
  lemma TimeIsoPieces(t: Time)
    ensures |TimeIso(t)| == (if t.microsecond == 0 then 8 else 15)
    ensures TimeIso(t)[..8] == ClockIso(t)
    ensures t.microsecond != 0 ==> TimeIso(t)[8] == '.' && TimeIso(t)[9..] == ZeroPad(t.microsecond, 6)
  {
    ClockIsoPieces(t);
    if t.microsecond != 0 {
      PadSix(t.microsecond);
      assert TimeIso(t) == ClockIso(t) + "." + ZeroPad(t.microsecond, 6);
    } else {
      assert TimeIso(t) == ClockIso(t) + "";
    }
  }

  /** The time text is `HH:MM:SS` followed by `.ffffff` exactly when the microseconds are not zero. */
  lemma TimeIsoShape(t: Time)
    ensures |TimeIso(t)| == (if t.microsecond == 0 then 8 else 15)
    ensures TimeIso(t)[..8] == ClockIso(t)
    ensures t.microsecond != 0 ==>
      TimeIso(t)[8] == '.' && AllDigits(TimeIso(t)[9..]) && DigitsValue(TimeIso(t)[9..]) == t.microsecond
  {
    TimeIsoPieces(t);
    if t.microsecond != 0 {
      PadSix(t.microsecond);
    }
  }

  /** Where the date text and the time text sit in a datetime text. */
  lemma DateTimeIsoPieces(dt: DateTime)
    ensures |DateTimeIso(dt)| == 11 + |TimeIso(dt.time)|
    ensures DateTimeIso(dt)[..10] == DateIso(dt.date) && DateTimeIso(dt)[10] == 'T'
    ensures DateTimeIso(dt)[11..] == TimeIso(dt.time)
  {
    DateIsoPieces(dt.date);
    var s := DateTimeIso(dt);
    assert s[..10] == DateIso(dt.date);
    assert s[11..] == TimeIso(dt.time);
  }

  // ----- the rules of `default` --------------------------------------------

  /** The exceptions encoding raises. */
  datatype EncodeError =
    /** `TypeError`: the object is not JSON serializable. */
    | NotSerializable(typeName: string)
    /** `TypeError`: keys must be str, int, float, bool or None. */
    | KeyNotAllowed(typeName: string)
    /** `UnicodeDecodeError` from `bytes.decode('u8')`. */
    | BytesNotUtf8
    /** `ValueError`: an `int` with more than `MaxStrDigits` digits has no decimal text. */
    | IntTextTooLong

  predicate IsPrivate(name: string)
  {
    |name| > 0 && name[0] == '_'
  }

  /** The items of an instance `__dict__` whose names do not start with `_`, as dict items. */
  function PublicAttrs(attrs: seq<(string, Value)>): seq<(Value, Value)>
  {
    if |attrs| == 0 then []
    else if IsPrivate(attrs[0].0) then PublicAttrs(attrs[1..])
    else [(VStr(attrs[0].0), attrs[0].1)] + PublicAttrs(attrs[1..])
  }

  function YearDict(year: int): Value
  {
    VDict([(VStr("year"), VInt(year)), (VStr("kind"), VStr("YEAR"))])
  }

  function TimeDict(t: Time): Value
  {
    VDict([(VStr("hour"), VInt(t.hour)), (VStr("minute"), VInt(t.minute)),
           (VStr("second"), VInt(t.second)), (VStr("microsecond"), VInt(t.microsecond)),
           (VStr("kind"), VStr("TIME"))])
  }

  /**
   * `DkJSONEncoder.default(v)`: the first rule that applies, in source order.
   * Only a user object can meet more than one rule (`__json__`, then
   * `__dict__`, then `Mapping`, then `Iterable`); every other type meets the
   * rules for its own type, the earliest of which wins (a `datetime` is
   * tagged before the `date` rule is reached, a `dict` is a `Mapping`
   * before it is an `Iterable`).
   */
  function Default(v: Value): Result<Value, EncodeError>
  {
    match v
    case VDecimal(f) => Ok(VFloat(f))
    case VObject(cls, hook, hasDict, attrs, isMapping, mapping, isIterable, iter) =>
      if hook.Some? then Ok(hook.value)
      else if hasDict then Ok(VDict(PublicAttrs(attrs)))
      else if isMapping then Ok(VDict(mapping))
      else if isIterable then Ok(VList(iter))
      else Err(NotSerializable(cls))
    case VSet(elems) => Ok(VList(elems))
    case VYear(year) => Ok(YearDict(year))
    case VDuration(seconds) =>
      if FitsStrDigits(seconds) then Ok(VStr("@duration:" + IntText(seconds))) else Err(IntTextTooLong)
    case VDateTime(dt) => Ok(VStr("@datetime:" + DateTimeIso(dt)))
    case VDate(d) => Ok(VStr("@date:" + DateIso(d)))
    case VTime(t) => Ok(TimeDict(t))
    case VQuerySet(rows) => Ok(VList(rows))
    case VDict(entries) => Ok(VDict(entries))
    case VBytes(bs) =>
      (match Utf8.Decode(bs)
       case Some(s) => Ok(VStr(s))
       case None => Err(BytesNotUtf8))
    case VStr(s) => Ok(VList(Chars(s)))
    case VList(items) => Ok(VList(items))
    case _ => Err(NotSerializable(TypeName(v)))
  }

  /** Some rule of `default` applies to `v`. */
  predicate HasRule(v: Value)
  {
    v.VDecimal? || HasJsonHook(v) || v.VSet? || v.VYear? || v.VDuration? || IsDateInstance(v)
    || v.VTime? || v.VQuerySet? || HasInstanceDict(v) || IsMapping(v) || v.VBytes? || IsIterable(v)
  }

  lemma {:induction false} PublicAttrsSize(attrs: seq<(string, Value)>)
    ensures SizePairs(PublicAttrs(attrs)) <= SizeAttrs(attrs)
  {
    if |attrs| > 0 {
      PublicAttrsSize(attrs[1..]);
    }
  }

  lemma {:induction false} CharsSize(s: string)
    ensures SizeList(Chars(s)) == 2 * |s|
  {
    if |s| > 0 {
      CharsSize(s[1..]);
    }
  }

  /** A dict item whose key and value are both scalars. */
  predicate ScalarItem(e: (Value, Value))
  {
    Size(e.0) == 1 && Size(e.1) == 1
  }

  lemma {:induction false} ScalarItemsSize(es: seq<(Value, Value)>)
    requires forall e | e in es :: ScalarItem(e)
    ensures SizePairs(es) == 3 * |es|
  {
    if |es| > 0 {
      assert es[0] in es;
      assert forall e | e in es[1..] :: e in es;
      ScalarItemsSize(es[1..]);
    }
  }

  /** What `default` returns is smaller than what it was given, so encoding terminates. */
  lemma DefaultShrinks(v: Value)
    requires !IsNative(v)
    ensures Default(v).Ok? ==> Size(Default(v).value) < Size(v)
  {
    match v {
      case VTime(t) => TimeDictSize(t);
      case VYear(y) => YearDictSize(y);
      case VObject(_, _, _, _, _, _, _, _) => ObjectShrinks(v);
      case _ =>
    }
  }

  lemma TimeDictSize(t: Time)
    ensures Size(TimeDict(t)) < Size(VTime(t))
  {
    ScalarItemsSize(TimeDict(t).entries);
  }

  lemma YearDictSize(year: int)
    ensures Size(YearDict(year)) < Size(VYear(year))
  {
    ScalarItemsSize(YearDict(year).entries);
  }

  lemma ObjectShrinks(v: Value)
    requires v.VObject?
    ensures Default(v).Ok? ==> Size(Default(v).value) < Size(v)
  {
    if v.hook.None? && v.hasDict {
      PublicAttrsSize(v.attrs);
    }
  }

  // ----- `json.dumps` with the encoder ---------------------------------------

  /** A dict key as `json` writes it: strings as they are, floats, booleans, None and ints as their JSON text. */
  function KeyText(k: Value): Result<string, EncodeError>
  {
    match k
    case VStr(s) => Ok(s)
    case VFloat(f) => Ok(f)
    case VBool(b) => Ok(if b then "true" else "false")
    case VNone => Ok("null")
    case VInt(i) => if FitsStrDigits(i) then Ok(IntText(i)) else Err(IntTextTooLong)
    case _ => Err(KeyNotAllowed(TypeName(k)))
  }

  /** The JSON tree `json.dumps(v, cls=DkJSONEncoder)` writes, or the exception it raises. */
  function Encode(v: Value): Result<Json, EncodeError>
    decreases Size(v), 1
  {
    match v
    case VNone => Ok(JNull)
    case VBool(b) => Ok(JBool(b))
    case VInt(i) => if FitsStrDigits(i) then Ok(JInt(i)) else Err(IntTextTooLong)
    case VFloat(f) => Ok(JFloat(f))
    case VStr(s) => Ok(JStr(s))
    case VList(items) =>
      (match EncodeItems(items)
       case Err(e) => Err(e)
       case Ok(js) => Ok(JArr(js)))
    case VDict(entries) =>
      (match EncodeMembers(entries)
       case Err(e) => Err(e)
       case Ok(ms) => Ok(JObj(ms)))
    case _ =>
      DefaultShrinks(v);
      match Default(v)
      case Err(e) => Err(e)
      case Ok(w) => Encode(w)
  }

  function EncodeItems(xs: seq<Value>): Result<seq<Json>, EncodeError>
    decreases SizeList(xs), 0
  {
    if |xs| == 0 then Ok([])
    else
      match Encode(xs[0])
      case Err(e) => Err(e)
      case Ok(j) =>
        match EncodeItems(xs[1..])
        case Err(e) => Err(e)
        case Ok(js) => Ok([j] + js)
  }

  function EncodeMembers(es: seq<(Value, Value)>): Result<seq<(string, Json)>, EncodeError>
    decreases SizePairs(es), 0
  {
    if |es| == 0 then Ok([])
    else
      match KeyText(es[0].0)
      case Err(e) => Err(e)
      case Ok(k) =>
        match Encode(es[0].1)
        case Err(e) => Err(e)
        case Ok(j) =>
          match EncodeMembers(es[1..])
          case Err(e) => Err(e)
          case Ok(ms) => Ok([(k, j)] + ms)
  }

  // ----- what the rules promise ----------------------------------------------

  /** A `__json__` hook beats every rule but the Decimal one, whatever else the object offers. */
  lemma HookWins(v: Value)
    requires HasJsonHook(v)
    ensures !v.VDecimal? && Default(v) == Ok(v.hook.value)
  {
  }

  /**
   * A datetime is a date instance, yet the earlier rule tags it
   * `@datetime:`, never `@date:`.
   */
  lemma DateTimeTag(dt: DateTime)
    ensures IsDateInstance(VDateTime(dt))
    ensures Default(VDateTime(dt)) == Ok(VStr("@datetime:" + DateTimeIso(dt)))
  {
  }

  /** Whatever follows it, the `@datetime:` tag is never read as the `@date:` tag. */
  lemma DateTimeTagText(t: string)
    ensures HasPrefix("@datetime:" + t, "@datetime:")
    ensures !HasPrefix("@datetime:" + t, "@date:")
  {
    var s := "@datetime:" + t;
    assert s[..10] == "@datetime:";
    assert s[5] == 't' != ':';
    assert s[..6][5] == s[5];
  }

  /** The `__dict__` rule keeps exactly the attributes whose names do not start with `_`, values untouched. */
  lemma {:induction false} PublicAttrsKeepsPublic(attrs: seq<(string, Value)>)
    ensures forall e | e in PublicAttrs(attrs) :: e.0.VStr? && !IsPrivate(e.0.s) && (e.0.s, e.1) in attrs
    ensures forall a | a in attrs && !IsPrivate(a.0) :: (VStr(a.0), a.1) in PublicAttrs(attrs)
  {
    if |attrs| > 0 {
      PublicAttrsKeepsPublic(attrs[1..]);
      assert forall a | a in attrs[1..] :: a in attrs;
      assert forall a | a in attrs :: a == attrs[0] || a in attrs[1..];
    }
  }

  /** The object rule applies the `__dict__` filter when no earlier rule does. */
  lemma InstanceDictRule(v: Value)
    requires HasInstanceDict(v) && !HasJsonHook(v)
    ensures Default(v) == Ok(VDict(PublicAttrs(v.attrs)))
  {
  }

  /**
   * `default` raises "not JSON serializable" exactly when no rule applies;
   * its only other failures are bytes that are not UTF-8 and a duration too
   * long to write.
   */
  lemma NotSerializableIffNoRule(v: Value)
    ensures Default(v) == Err(NotSerializable(TypeName(v))) <==> !HasRule(v)
    ensures Default(v).Err? ==>
              || Default(v) == Err(NotSerializable(TypeName(v)))
              || (v.VBytes? && Utf8.Decode(v.bytes).None? && Default(v) == Err(BytesNotUtf8))
              || (v.VDuration? && !FitsStrDigits(v.seconds) && Default(v) == Err(IntTextTooLong))
  {
  }

  /**
   * `@duration:` is followed by the seconds as a decimal integer that reads
   * back as the seconds; `'%d'` raises ValueError when that text would have
   * more digits than the limit.
   */
  lemma DurationTag(seconds: int)
    ensures Default(VDuration(seconds)).Ok? <==> |IntText(seconds)| - SignLength(IntText(seconds)) <= MaxStrDigits
    ensures Default(VDuration(seconds)).Ok? ==> Default(VDuration(seconds)) == Ok(VStr("@duration:" + IntText(seconds)))
    ensures Default(VDuration(seconds)).Err? ==> Default(VDuration(seconds)) == Err(IntTextTooLong)
    ensures IntValue(IntText(seconds)) == seconds
  {
    IntTextFits(seconds);
    DurationDefault(seconds);
  }

  lemma DurationDefault(seconds: int)
    ensures Default(VDuration(seconds))
            == if FitsStrDigits(seconds) then Ok(VStr("@duration:" + IntText(seconds))) else Err(IntTextTooLong)
  {
  }

  /** `repr` of an integer within the limit is its text; beyond it, ValueError. */
  lemma IntEncode(i: int)
    ensures Encode(VInt(i)) == if FitsStrDigits(i) then Ok(JInt(i)) else Err(IntTextTooLong)
  {
  }

  /**
   * An integer is written as its decimal text exactly when that text has no
   * more digits than the limit; otherwise `repr` raises ValueError.
   */
  lemma IntEncodes(i: int)
    ensures Encode(VInt(i)).Ok? <==> |IntText(i)| - SignLength(IntText(i)) <= MaxStrDigits
    ensures Encode(VInt(i)).Ok? ==> Compact(Encode(VInt(i)).value) == IntText(i)
    ensures Encode(VInt(i)).Err? ==> Encode(VInt(i)) == Err(IntTextTooLong)
  {
    IntTextFits(i);
    IntEncode(i);
  }

  /** `dump2(10**4300)` raises ValueError, while `10**4300 - 1`, with 4300 digits, is still written. */
  lemma IntLimitEdge()
    ensures Encode(VInt(Pow10(MaxStrDigits))) == Err(IntTextTooLong)
    ensures Encode(VInt(Pow10(MaxStrDigits) - 1)).Ok?
    ensures Encode(VInt(1 - Pow10(MaxStrDigits))).Ok?
  {
    IntEdgeAt(MaxStrDigits);
  }

  /** The k-digit integers of largest magnitude, 10^k - 1 and 1 - 10^k, are written for every k up to the limit. */
  lemma IntEdgeAt(k: nat)
    requires 1 <= k <= MaxStrDigits
    ensures Encode(VInt(Pow10(k) - 1)).Ok? && Encode(VInt(1 - Pow10(k))).Ok?
    ensures k == MaxStrDigits ==> Encode(VInt(Pow10(k))) == Err(IntTextTooLong)
  {
    Pow10Fits(k);
    IntEncode(Pow10(k));
    IntEncode(Pow10(k) - 1);
    IntEncode(1 - Pow10(k));
  }

  /** A date becomes `@date:` and its ten-character `YYYY-MM-DD` text. */
  lemma DateTag(d: Date)
    ensures Default(VDate(d)) == Ok(VStr("@date:" + DateIso(d)))
    ensures |DateIso(d)| == 10
  {
    DateIsoShape(d);
  }

  /** The datetime text is the date, `T`, the time, with `.ffffff` only for non-zero microseconds. */
  lemma DateTimeIsoShape(dt: DateTime)
    ensures |DateTimeIso(dt)| == (if dt.time.microsecond == 0 then 19 else 26)
    ensures DateTimeIso(dt)[..10] == DateIso(dt.date) && DateTimeIso(dt)[10] == 'T'
    ensures DateTimeIso(dt)[11..] == TimeIso(dt.time)
  {
    DateTimeIsoPieces(dt);
    TimeIsoPieces(dt.time);
  }

  // ----- cases from the project's test suite -----------------------------------

  lemma EncodeItemsCons(x: Value, rest: seq<Value>)
    requires Encode(x).Ok? && EncodeItems(rest).Ok?
    ensures EncodeItems([x] + rest) == Ok([Encode(x).value] + EncodeItems(rest).value)
  {
    assert ([x] + rest)[1..] == rest;
  }

  lemma EncodeMembersCons(k: Value, v: Value, rest: seq<(Value, Value)>)
    requires KeyText(k).Ok? && Encode(v).Ok? && EncodeMembers(rest).Ok?
    ensures EncodeMembers([(k, v)] + rest)
            == Ok([(KeyText(k).value, Encode(v).value)] + EncodeMembers(rest).value)
  {
    assert ([(k, v)] + rest)[1..] == rest;
  }

  /** A class whose `__json__` returns 42 is written as 42. */
  lemma HookObjectExample()
    ensures Encode(VObject("C", Some(VInt(42)), false, [], false, [], false, [])) == Ok(JInt(42))
  {
  }

  /** An instance with `self.a = 42` is written as its public attributes. */
  lemma InstanceDictExample()
    ensures Encode(VObject("D", None, true, [("a", VInt(42))], false, [], false, []))
            == Ok(JObj([("a", JInt(42))]))
  {
    var es := [(VStr("a"), VInt(42))];
    assert PublicAttrs([("a", VInt(42))]) == es;
    assert KeyText(VStr("a")) == Ok("a") && Encode(VInt(42)) == Ok(JInt(42));
    assert es[1..] == [];
    assert EncodeMembers(es[1..]) == Ok([]);
    assert es[0].0 == VStr("a") && es[0].1 == VInt(42);
    assert KeyText(es[0].0) == Ok("a");
    assert Encode(es[0].1) == Ok(JInt(42));
    assert [("a", JInt(42))] + [] == [("a", JInt(42))];
    assert EncodeMembers(es) == Ok([("a", JInt(42))]);
  }

  /** A `__slots__` class offers none of the capabilities: `TypeError`. */
  lemma SlotsObjectExample()
    ensures Encode(VObject("Foo", None, false, [], false, [], false, [])) == Err(NotSerializable("Foo"))
  {
  }

  /** An empty user `Mapping` is written as an empty object. */
  lemma EmptyMappingExample()
    ensures Encode(VObject("Bar", None, false, [], true, [], true, [])) == Ok(JObj([]))
  {
  }

  /** An empty iterable (a dict view, `range(0)`, a generator) is written as an empty array. */
  lemma EmptyIterableExample(cls: string)
    ensures Encode(VObject(cls, None, false, [], false, [], true, [])) == Ok(JArr([]))
  {
  }

  lemma YearExample()
    ensures Encode(VYear(2017)) == Ok(JObj([("year", JInt(2017)), ("kind", JStr("YEAR"))]))
  {
    var es := [(VStr("year"), VInt(2017)), (VStr("kind"), VStr("YEAR"))];
    SmallFits(2017);
    assert Encode(VInt(2017)) == Ok(JInt(2017));
    EncodeMembersCons(VStr("kind"), VStr("YEAR"), []);
    assert [(VStr("kind"), VStr("YEAR"))] + [] == es[1..];
    EncodeMembersCons(VStr("year"), VInt(2017), es[1..]);
    assert [es[0]] + es[1..] == es;
    assert [("kind", JStr("YEAR"))] + [] == [("kind", JStr("YEAR"))];
    assert EncodeMembers(es[1..]) == Ok([("kind", JStr("YEAR"))]);
    assert [("year", JInt(2017))] + [("kind", JStr("YEAR"))] == [("year", JInt(2017)), ("kind", JStr("YEAR"))];
    assert EncodeMembers(es) == Ok([("year", JInt(2017)), ("kind", JStr("YEAR"))]);
    assert Encode(VDict(es)) == Ok(JObj([("year", JInt(2017)), ("kind", JStr("YEAR"))]));
    assert Default(VYear(2017)) == Ok(VDict(es));
  }

  lemma SetExample()
    ensures Encode(VSet([VInt(1), VInt(2)])) == Ok(JArr([JInt(1), JInt(2)]))
  {
    EncodeItemsCons(VInt(2), []);
    assert [VInt(2)] + [] == [VInt(2)];
    EncodeItemsCons(VInt(1), [VInt(2)]);
    assert [VInt(1)] + [VInt(2)] == [VInt(1), VInt(2)];
    assert [JInt(2)] + [] == [JInt(2)];
    assert EncodeItems([VInt(2)]) == Ok([JInt(2)]);
    assert [JInt(1)] + [JInt(2)] == [JInt(1), JInt(2)];
    assert EncodeItems([VInt(1), VInt(2)]) == Ok([JInt(1), JInt(2)]);
    assert Encode(VList([VInt(1), VInt(2)])) == Ok(JArr([JInt(1), JInt(2)]));
    assert Default(VSet([VInt(1), VInt(2)])) == Ok(VList([VInt(1), VInt(2)]));
  }
}
