/**
 * The Python values the codec handles. The encoder's dispatch asks of a
 * value what type it has and which capabilities it offers (`__json__`,
 * `__dict__`, being a `Mapping` or an `Iterable`); here the runtime types
 * are the variants of `Value` and the capabilities of a user-defined
 * object are explicit optional fields of `VObject`.
 */
module Values {
  import opened Wrappers
  import opened JsonText
  import opened Utf8

  // ----- the calendar of Python's `datetime` module ------------------------

  predicate IsLeapYear(y: int)
  {
    y % 4 == 0 && (y % 100 != 0 || y % 400 == 0)
  }

  function DaysInMonth(y: int, m: int): (n: int)
    requires 1 <= m <= 12
    ensures 28 <= n <= 31
  {
    if m == 2 then (if IsLeapYear(y) then 29 else 28)
    else if m == 4 || m == 6 || m == 9 || m == 11 then 30
    else 31
  }

  /** What `datetime.date(year, month, day)` accepts (MINYEAR 1 to MAXYEAR 9999). */
  predicate ValidDate(year: int, month: int, day: int)
  {
    1 <= year <= 9999 && 1 <= month <= 12 && 1 <= day <= DaysInMonth(year, month)
  }

  /** What `datetime.time(hour, minute, second, microsecond)` accepts. */
  predicate ValidTime(hour: int, minute: int, second: int, microsecond: int)
  {
    0 <= hour < 24 && 0 <= minute < 60 && 0 <= second < 60 && 0 <= microsecond < 1000000
  }

  datatype DateFields = DateFields(year: int, month: int, day: int)

  /** A `datetime.date`. */
  type Date = d: DateFields | ValidDate(d.year, d.month, d.day) witness DateFields(1, 1, 1)

  datatype TimeFields = TimeFields(hour: int, minute: int, second: int, microsecond: int)

  /** A naive `datetime.time`. */
  type Time = t: TimeFields | ValidTime(t.hour, t.minute, t.second, t.microsecond)
    witness TimeFields(0, 0, 0, 0)

  /** A naive `datetime.datetime` (no `tzinfo`): a date and a time of day. */
  datatype DateTime = DateTime(date: Date, time: Time)

  // ----- values ------------------------------------------------------------

  datatype Value =
    | VNone
    | VBool(b: bool)
    | VInt(i: int)
    | VFloat(f: FloatText)
    /** A `decimal.Decimal`, carried by the text of `float(d)`. */
    | VDecimal(asFloat: FloatText)
    | VStr(s: string)
    /** A list. (A tuple is written like a list and read back as a list; it is not a value of its own here.) */
    | VList(items: seq<Value>)
    /** A dict (or `OrderedDict`): its items in insertion order, with distinct keys as a dict has. */
    | VDict(entries: seq<(Value, Value)>)
    /** A set: its distinct elements, in its iteration order. */
    | VSet(elems: seq<Value>)
    /** A `ttcal.Year`. */
    | VYear(year: int)
    /** A `ttcal.Duration`, by its `toint()` seconds. */
    | VDuration(seconds: int)
    | VDateTime(dt: DateTime)
    | VDate(d: Date)
    | VTime(t: Time)
    /** A Django `QuerySet`, by the rows it yields. */
    | VQuerySet(rows: seq<Value>)
    | VBytes(bytes: seq<Byte>)
    /**
     * An instance of a user class `cls`: what its `__json__()` returns if it
     * has one; its `__dict__` items if `hasDict`; its items, with distinct
     * keys, if `isMapping`;
     * what iterating over it yields if `isIterable`.
     */
    | VObject(cls: string, hook: Option<Value>,
              hasDict: bool, attrs: seq<(string, Value)>,
              isMapping: bool, mapping: seq<(Value, Value)>,
              isIterable: bool, iter: seq<Value>)

  /** `isinstance(v, datetime.date)`: a `datetime` is a `date` too. */
  predicate IsDateInstance(v: Value)
  {
    v.VDate? || v.VDateTime?
  }

  /** `hasattr(v, '__json__')`. */
  predicate HasJsonHook(v: Value)
  {
    v.VObject? && v.hook.Some?
  }

  /** `hasattr(v, '__dict__')`. */
  predicate HasInstanceDict(v: Value)
  {
    v.VObject? && v.hasDict
  }

  /** `isinstance(v, collections.abc.Mapping)`. */
  predicate IsMapping(v: Value)
  {
    v.VDict? || (v.VObject? && v.isMapping)
  }

  /** `isinstance(v, collections.abc.Iterable)`; a mapping iterates over its keys. */
  predicate IsIterable(v: Value)
  {
    v.VStr? || v.VList? || v.VDict? || v.VSet? || v.VQuerySet? || v.VBytes?
    || (v.VObject? && (v.isIterable || v.isMapping))
  }

  /** The values `json.dumps` writes without calling the encoder's `default`. */
  predicate IsNative(v: Value)
  {
    v.VNone? || v.VBool? || v.VInt? || v.VFloat? || v.VStr? || v.VList? || v.VDict?
  }

  /** `type(v).__name__`, as `TypeError` messages name it. */
  function TypeName(v: Value): string
  {
    match v
    case VNone => "NoneType"
    case VBool(_) => "bool"
    case VInt(_) => "int"
    case VFloat(_) => "float"
    case VDecimal(_) => "Decimal"
    case VStr(_) => "str"
    case VList(_) => "list"
    case VDict(_) => "dict"
    case VSet(_) => "set"
    case VYear(_) => "Year"
    case VDuration(_) => "Duration"
    case VDateTime(_) => "datetime"
    case VDate(_) => "date"
    case VTime(_) => "time"
    case VQuerySet(_) => "QuerySet"
    case VBytes(_) => "bytes"
    case VObject(cls, _, _, _, _, _, _, _) => cls
  }

  function Keys(es: seq<(Value, Value)>): seq<Value>
  {
    if |es| == 0 then [] else [es[0].0] + Keys(es[1..])
  }

  function Chars(s: string): seq<Value>
  {
    if |s| == 0 then [] else [VStr([s[0]])] + Chars(s[1..])
  }

  // ----- a size that every encoding step decreases -------------------------

  function Size(v: Value): nat
    decreases v, 1
  {
    match v
    case VNone => 1
    case VBool(_) => 1
    case VInt(_) => 1
    case VFloat(_) => 1
    case VStr(_) => 1
    case VDecimal(_) => 2
    case VList(items) => 1 + SizeList(items)
    case VDict(entries) => 1 + SizePairs(entries)
    case VSet(elems) => 2 + SizeList(elems)
    case VYear(_) => 8
    case VDuration(_) => 2
    case VDateTime(_) => 2
    case VDate(_) => 2
    case VTime(_) => 17
    case VQuerySet(rows) => 2 + SizeList(rows)
    case VBytes(_) => 2
    case VObject(_, hook, _, attrs, _, mapping, _, iter) =>
      2 + (if hook.Some? then Size(hook.value) else 0)
        + SizeAttrs(attrs) + SizePairs(mapping) + SizeList(iter)
  }

  function SizeList(xs: seq<Value>): nat
    decreases xs, 0
  {
    if |xs| == 0 then 0 else 1 + Size(xs[0]) + SizeList(xs[1..])
  }

  function SizePairs(es: seq<(Value, Value)>): nat
    decreases es, 0
  {
    if |es| == 0 then 0
    else
      assert es[0].0 < es[0] && es[0].1 < es[0];
      1 + Size(es[0].0) + Size(es[0].1) + SizePairs(es[1..])
  }

  function SizeAttrs(attrs: seq<(string, Value)>): nat
    decreases attrs, 0
  {
    if |attrs| == 0 then 0
    else
      assert attrs[0].1 < attrs[0];
      2 + Size(attrs[0].1) + SizeAttrs(attrs[1..])
  }
}
