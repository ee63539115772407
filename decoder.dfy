/**
 * The decoding half of the codec: `loads` and its object hook `obj_decoder`,
 * which turns object member values tagged `@datetime:` and `@date:` back
 * into datetimes and dates. Tags elsewhere (keys, array elements, the top
 * level) are never looked at, because only the object hook sees them.
 */
module Decoder {
  import opened Wrappers
  import opened Text
  import opened JsonText
  import opened Utf8
  import opened Json
  import opened Values

  /** The exception `loads` raises. */
  datatype LoadError =
    | JSONDecodeError(cause: ParseError)
    | UnicodeDecodeError
    /** `datetime_re.match` found nothing and `None.groupdict()` failed. */
    | AttributeError
    | ValueError
    | TypeError
    | OverflowError

  // ----- `_get_tag` ----------------------------------------------------------

  /** `s.split(':', 1)[0] + ':'`: the text up to and including the first colon. */
  function TagText(s: string): (r: Option<string>)
    ensures r.Some? <==> ':' in s
    ensures r.Some? ==> 0 < |r.value| <= |s| && r.value == s[..|r.value|]
    ensures r.Some? ==> r.value[|r.value| - 1] == ':' && ':' !in r.value[..|r.value| - 1]
  {
    if |s| == 0 then None
    else if s[0] == ':' then Some(":")
    else
      assert s == [s[0]] + s[1..];
      match TagText(s[1..])
      case None => None
      case Some(t) =>
        assert ([s[0]] + t)[..|t|] == [s[0]] + t[..|t| - 1];
        Some([s[0]] + t)
  }

  /** `_get_tag(v)`: the tag of a string that starts with `@` and holds a colon, else nothing. */
  function TagOf(v: Value): (r: Option<string>)
    ensures r.Some? ==> v.VStr?
  {
    if v.VStr? && |v.s| > 0 && v.s[0] == '@' then TagText(v.s) else None
  }

  /** A tag whose only colon is its last character is found exactly in the strings it starts. */
  lemma TagTextIs(s: string, p: string)
    requires |p| > 0 && p[|p| - 1] == ':' && ':' !in p[..|p| - 1]
    ensures TagText(s) == Some(p) <==> HasPrefix(s, p)
  {
    if HasPrefix(s, p) {
      TagTextPrefix(p, s[|p|..]);
      assert s == p + s[|p|..];
    }
  }

  /** Whatever follows it, a text whose first colon ends `p` has `p` as its tag text. */
  lemma {:induction false} TagTextPrefix(p: string, rest: string)
    requires |p| > 0 && p[|p| - 1] == ':' && ':' !in p[..|p| - 1]
    ensures TagText(p + rest) == Some(p)
  {
    if |p| > 1 {
      assert p[0] == p[..|p| - 1][0];
      assert p[1..][..|p| - 2] == p[..|p| - 1][1..];
      TagTextPrefix(p[1..], rest);
      assert (p + rest)[1..] == p[1..] + rest;
      assert [p[0]] + p[1..] == p;
    }
  }

  /** `_get_tag` names each of the two known tags exactly for the strings that start with it. */
  lemma KnownTags(s: string)
    ensures TagOf(VStr(s)) == Some("@datetime:") <==> HasPrefix(s, "@datetime:")
    ensures TagOf(VStr(s)) == Some("@date:") <==> HasPrefix(s, "@date:")
  {
    TagTextIs(s, "@datetime:");
    TagTextIs(s, "@date:");
  }

  // ----- `datetime_re` -------------------------------------------------------

  /** `\d\d?` at the start of `s`: how many characters it covers, 0 when it does not match. */
  function OneOrTwoDigits(s: string): (n: nat)
    ensures n <= 2 && n <= |s| && AllDigits(s[..n])
    ensures n == 0 <==> |s| == 0 || !IsDigit(s[0])
    ensures n < 2 && n < |s| ==> !IsDigit(s[n])
  {
    if |s| >= 1 && IsDigit(s[0]) then
      if |s| >= 2 && IsDigit(s[1]) then 2 else 1
    else 0
  }

  /** A separator followed by `\d\d?`: the value of the digits and the text after them. */
  function Field(s: string, sep: char): Option<(nat, string)>
  {
    if |s| > 0 && s[0] == sep && OneOrTwoDigits(s[1..]) > 0 then
      var n := OneOrTwoDigits(s[1..]);
      Some((DigitsValue(s[1..1 + n]), s[1 + n..]))
    else None
  }

  /**
   * `int(g.get('ms', '0') or 0)` for the group `(?:\.(?P<ms>\d+)Z?)?`: the
   * digits after a point as an integer, unscaled, or 0 when the group is
   * absent; `None` where `int()` refuses more digits than the limit allows.
   */
  function Fraction(s: string): Option<int>
  {
    if |s| > 0 && s[0] == '.' && DigitRun(s[1..]) > 0 then ParseInt(LeadingDigits(s[1..]))
    else Some(0)
  }

  /** `\d+` taken greedily: the digits `s` starts with. */
  function LeadingDigits(s: string): (r: string)
    ensures AllDigits(r) && r == s[..DigitRun(s)]
  {
    DigitRunIsRun(s);
    s[..DigitRun(s)]
  }

  /**
   * The integers `int()` makes of the groups of a `datetime_re` match; the
   * fraction is `None` when `int()` raises ValueError on it.
   */
  datatype DateTimeGroups =
    DateTimeGroups(year: nat, month: nat, day: nat, hour: nat, minute: nat, second: nat, fraction: Option<int>)

  /** The groups `sep\d\d?` for each separator in `seps`, in turn: their values and the text after the last. */
  function Fields(s: string, seps: string): (r: Option<(seq<nat>, string)>)
    ensures r.Some? ==> |r.value.0| == |seps|
  {
    if |seps| == 0 then Some(([], s))
    else
      match Field(s, seps[0])
      case None => None
      case Some((n, rest)) =>
        match Fields(rest, seps[1..])
        case None => None
        case Some((ns, after)) => Some(([n] + ns, after))
  }

  /**
   * `datetime_re.match(s)`: `@datetime:` and four digits, then `-`, `-`,
   * `T`, `:`, `:` each followed by one or two digits, then an optional
   * fraction. The match is anchored at the start only, so text after it is
   * ignored.
   */
  function MatchDatetime(s: string): Option<DateTimeGroups>
  {
    if !(HasPrefix(s, "@datetime:") && |s| >= 14 && AllDigits(s[10..14])) then None
    else
      match Fields(s[14..], "--T::")
      case None => None
      case Some((ns, rest)) =>
        Some(DateTimeGroups(DigitsValue(s[10..14]), ns[0], ns[1], ns[2], ns[3], ns[4], Fraction(rest)))
  }

  /** The range of a C `int`, which `datetime`'s constructors convert their arguments to. */
  predicate IsCInt(n: int)
  {
    -0x8000_0000 <= n <= 0x7FFF_FFFF
  }

  /** The `@datetime:` branch of `obj_decoder`: match, then `datetime.datetime(...)`. */
  function DecodeDatetime(s: string): (r: Result<Value, LoadError>)
    ensures r.Ok? ==> r.value.VDateTime?
  {
    match MatchDatetime(s)
    case None => Err(AttributeError)
    case Some(g) =>
      match g.fraction
      case None => Err(ValueError)
      case Some(ms) =>
        if !IsCInt(ms) then Err(OverflowError)
        else if ValidDate(g.year, g.month, g.day) && ValidTime(g.hour, g.minute, g.second, ms) then
          Ok(VDateTime(DateTime(DateFields(g.year, g.month, g.day),
                                TimeFields(g.hour, g.minute, g.second, ms))))
        else Err(ValueError)
  }

  // ----- the `@date:` branch -------------------------------------------------

  /** `s.split(sep)`: never empty; the parts between the separators. */
  function Split(s: string, sep: char): (r: seq<string>)
    ensures |r| >= 1
  {
    if |s| == 0 then [""]
    else
      var rest := Split(s[1..], sep);
      if s[0] == sep then [""] + rest else [[s[0]] + rest[0]] + rest[1..]
  }

  /** `sep.join(parts)`. */
  function Join(parts: seq<string>, sep: char): string
    requires |parts| >= 1
  {
    if |parts| == 1 then parts[0] else parts[0] + [sep] + Join(parts[1..], sep)
  }

  /** Joining the parts with the separator gives the text back. */
  lemma {:induction false} SplitJoin(s: string, sep: char)
    ensures Join(Split(s, sep), sep) == s
  {
    if |s| > 0 {
      SplitJoin(s[1..], sep);
      var rest := Split(s[1..], sep);
      var r := Split(s, sep);
      if s[0] == sep {
        assert r[1..] == rest;
      } else {
        assert r[1..] == rest[1..];
        if |rest| > 1 {
          assert r[0] + [sep] + Join(r[1..], sep) == [s[0]] + (rest[0] + [sep] + Join(rest[1..], sep));
        }
        assert s == [s[0]] + s[1..];
      }
    }
  }

  /** No part holds the separator. */
  lemma {:induction false} SplitParts(s: string, sep: char)
    ensures forall i :: 0 <= i < |Split(s, sep)| ==> sep !in Split(s, sep)[i]
  {
    if |s| > 0 {
      SplitParts(s[1..], sep);
      var rest := Split(s[1..], sep);
      var r := Split(s, sep);
      forall i | 0 <= i < |r|
        ensures sep !in r[i]
      {
        if s[0] == sep {
          if i > 0 { assert r[i] == rest[i - 1]; }
        } else if i > 0 {
          assert r[i] == rest[i];
        } else {
          assert r[0] == [s[0]] + rest[0];
        }
      }
    }
  }

  /** A part without the separator is split off whole. */
  lemma {:induction false} SplitFirst(a: string, sep: char, b: string)
    requires sep !in a
    ensures Split(a + [sep] + b, sep) == [a] + Split(b, sep)
  {
    if |a| == 0 {
      assert a + [sep] + b == [sep] + b;
      assert ([sep] + b)[1..] == b;
    } else {
      SplitFirst(a[1..], sep, b);
      assert (a + [sep] + b)[1..] == a[1..] + [sep] + b;
      assert [a[0]] + a[1..] == a;
    }
  }

  lemma {:induction false} SplitNone(a: string, sep: char)
    requires sep !in a
    ensures Split(a, sep) == [a]
  {
    if |a| > 0 {
      SplitNone(a[1..], sep);
      assert [a[0]] + a[1..] == a;
    }
  }

  /** `[int(part, 10) for part in parts]`, or nothing when some part is not an integer. */
  function ParseParts(parts: seq<string>): Option<seq<int>>
  {
    if |parts| == 0 then Some([])
    else
      match ParseInt(parts[0])
      case None => None
      case Some(n) =>
        match ParseParts(parts[1..])
        case None => None
        case Some(ns) => Some([n] + ns)
  }

  /** The list comprehension succeeds exactly when every part is an integer... */
  lemma ParsePartsSome(parts: seq<string>)
    ensures ParseParts(parts).Some? <==> forall i :: 0 <= i < |parts| ==> ParseInt(parts[i]).Some?
  {
    if ParseParts(parts).Some? {
      ParsePartsEach(parts);
    } else {
      ParsePartsFails(parts);
    }
  }

  lemma {:induction false} ParsePartsEach(parts: seq<string>)
    requires ParseParts(parts).Some?
    ensures forall i :: 0 <= i < |parts| ==> ParseInt(parts[i]).Some?
  {
    if |parts| > 0 {
      var tail := parts[1..];
      ParsePartsEach(tail);
      forall i | 0 <= i < |parts|
        ensures ParseInt(parts[i]).Some?
      {
        if i > 0 { assert parts[i] == tail[i - 1]; }
      }
    }
  }

  lemma {:induction false} ParsePartsFails(parts: seq<string>)
    requires ParseParts(parts).None?
    ensures exists i :: 0 <= i < |parts| && ParseInt(parts[i]).None?
  {
    assert |parts| > 0;
    if ParseInt(parts[0]).Some? {
      var tail := parts[1..];
      ParsePartsFails(tail);
      var j :| 0 <= j < |tail| && ParseInt(tail[j]).None?;
      assert parts[j + 1] == tail[j];
    } else {
      assert ParseInt(parts[0]).None?;
    }
  }

  /** ...and then holds their values in order. */
  lemma {:induction false} ParsePartsValues(parts: seq<string>)
    requires ParseParts(parts).Some?
    ensures |ParseParts(parts).value| == |parts|
    ensures forall i :: 0 <= i < |parts| ==> ParseInt(parts[i]) == Some(ParseParts(parts).value[i])
  {
    if |parts| > 0 {
      var tail := parts[1..];
      ParsePartsValues(tail);
      var ns := ParseParts(parts).value;
      assert ns == [ParseInt(parts[0]).value] + ParseParts(tail).value;
      forall i | 0 <= i < |parts|
        ensures ParseInt(parts[i]) == Some(ns[i])
      {
        if i > 0 {
          assert parts[i] == tail[i - 1];
          assert ns[i] == ParseParts(tail).value[i - 1];
        }
      }
    }
  }

  /**
   * The `@date:` branch of `obj_decoder`: `datetime.date(*[int(part, 10) for
   * part in s[6:].split('-')])`. A part that is not an integer raises
   * ValueError before the call; the call checks the argument count, then
   * converts each argument to a C `int`, then checks the calendar.
   */
  function DecodeDate(s: string): (r: Result<Value, LoadError>)
    ensures r.Ok? ==> r.value.VDate?
  {
    var payload := if |s| >= 6 then s[6..] else "";
    match ParseParts(Split(payload, '-'))
    case None => Err(ValueError)
    case Some(ns) =>
      if |ns| != 3 then Err(TypeError)
      else if !(IsCInt(ns[0]) && IsCInt(ns[1]) && IsCInt(ns[2])) then Err(OverflowError)
      else if ValidDate(ns[0], ns[1], ns[2]) then Ok(VDate(DateFields(ns[0], ns[1], ns[2])))
      else Err(ValueError)
  }

  // ----- `obj_decoder` -------------------------------------------------------

  /** What `obj_decoder` stores for one member value. */
  function DecodeMember(v: Value): Result<Value, LoadError>
  {
    var tag := TagOf(v);
    if tag == Some("@datetime:") then DecodeDatetime(v.s)
    else if tag == Some("@date:") then DecodeDate(v.s)
    else Ok(v)
  }

  /** The value stored under `k`, if any. */
  function Lookup(es: seq<(Value, Value)>, k: Value): Option<Value>
  {
    if |es| == 0 then None else if es[0].0 == k then Some(es[0].1) else Lookup(es[1..], k)
  }

  /** `res[k] = v` on an `OrderedDict`: a new key goes last, an existing one keeps its place. */
  function Assign(res: seq<(Value, Value)>, k: Value, v: Value): seq<(Value, Value)>
  {
    if |res| == 0 then [(k, v)]
    else if res[0].0 == k then [(k, v)] + res[1..]
    else [res[0]] + Assign(res[1..], k, v)
  }

  /** After `res[k] = v`, `k` maps to `v` and every other key to what it mapped to before. */
  lemma {:induction false} AssignLookup(res: seq<(Value, Value)>, k: Value, v: Value)
    ensures Lookup(Assign(res, k, v), k) == Some(v)
    ensures forall k' :: k' != k ==> Lookup(Assign(res, k, v), k') == Lookup(res, k')
  {
    if |res| > 0 {
      var r := Assign(res, k, v);
      if res[0].0 == k {
        assert r[1..] == res[1..];
      } else {
        AssignLookup(res[1..], k, v);
        assert r[1..] == Assign(res[1..], k, v);
      }
    }
  }

  /** A new key goes last and nothing else moves; an existing key keeps its place. */
  lemma {:induction false} AssignKeys(res: seq<(Value, Value)>, k: Value, v: Value)
    ensures Keys(Assign(res, k, v)) == if k in Keys(res) then Keys(res) else Keys(res) + [k]
    ensures k !in Keys(res) ==> Assign(res, k, v) == res + [(k, v)]
  {
    if |res| > 0 {
      var r := Assign(res, k, v);
      assert Keys(res) == [res[0].0] + Keys(res[1..]);
      if res[0].0 == k {
        assert r[1..] == res[1..];
      } else {
        AssignKeys(res[1..], k, v);
        assert r[1..] == Assign(res[1..], k, v);
        assert [res[0]] + res[1..] == res;
      }
    }
  }

  /** The mapping `obj_decoder` returns for `pairs`, or the exception it raises first. */
  function DecodePairs(pairs: seq<(string, Value)>): Result<seq<(Value, Value)>, LoadError>
  {
    if |pairs| == 0 then Ok([])
    else
      var last := pairs[|pairs| - 1];
      match DecodePairs(pairs[..|pairs| - 1])
      case Err(e) => Err(e)
      case Ok(res) =>
        match DecodeMember(last.1)
        case Err(e) => Err(e)
        case Ok(v) => Ok(Assign(res, VStr(last.0), v))
  }

  /** `obj_decoder(pairs)`: builds the ordered result member by member. */
  method ObjDecoder(pairs: seq<(string, Value)>) returns (r: Result<seq<(Value, Value)>, LoadError>)
    ensures r == DecodePairs(pairs)
  {
    var res: seq<(Value, Value)> := [];
    var i := 0;
    while i < |pairs|
      invariant 0 <= i <= |pairs|
      invariant DecodePairs(pairs[..i]) == Ok(res)
    {
      var (key, val) := pairs[i];
      DecodePairsNext(pairs, i, res);
      var d := ReviveMember(val);
      if d.Err? {
        return Err(d.error);
      }
      res := Assign(res, VStr(key), d.value);
      i := i + 1;
    }
    assert pairs[..i] == pairs;
    return Ok(res);
  }

  /** The body of `obj_decoder`'s loop for one member value: revive it by its tag, or keep it. */
  method ReviveMember(val: Value) returns (r: Result<Value, LoadError>)
    ensures r == DecodeMember(val)
  {
    var tag := TagOf(val);
    if tag == Some("@datetime:") {
      r := DecodeDatetime(val.s);
    } else if tag == Some("@date:") {
      r := DecodeDate(val.s);
    } else {
      r := Ok(val);
    }
  }

  /** One more member: its decoded value is assigned, or its exception ends the decoding. */
  lemma DecodePairsNext(pairs: seq<(string, Value)>, i: nat, res: seq<(Value, Value)>)
    requires i < |pairs| && DecodePairs(pairs[..i]) == Ok(res)
    ensures DecodeMember(pairs[i].1).Err? ==> DecodePairs(pairs) == Err(DecodeMember(pairs[i].1).error)
    ensures DecodeMember(pairs[i].1).Ok?
            ==> DecodePairs(pairs[..i + 1]) == Ok(Assign(res, VStr(pairs[i].0), DecodeMember(pairs[i].1).value))
  {
    assert pairs[..i + 1][..i] == pairs[..i];
    if DecodeMember(pairs[i].1).Err? {
      DecodePairsStops(pairs, i + 1);
    }
  }

  /** The first exception ends the decoding: later members are not looked at. */
  lemma {:induction false} DecodePairsStops(pairs: seq<(string, Value)>, k: nat)
    requires k <= |pairs| && DecodePairs(pairs[..k]).Err?
    ensures DecodePairs(pairs) == DecodePairs(pairs[..k])
    decreases |pairs| - k
  {
    if k < |pairs| {
      assert pairs[..k + 1][..k] == pairs[..k];
      DecodePairsStops(pairs, k + 1);
    } else {
      assert pairs[..k] == pairs;
    }
  }

  /** `dict(pairs)`: what `json.loads` builds when no object hook is installed. */
  function DictOf(pairs: seq<(string, Value)>): seq<(Value, Value)>
  {
    if |pairs| == 0 then []
    else Assign(DictOf(pairs[..|pairs| - 1]), VStr(pairs[|pairs| - 1].0), pairs[|pairs| - 1].1)
  }

  predicate DistinctKeys(pairs: seq<(string, Value)>)
  {
    forall i, j :: 0 <= i < j < |pairs| ==> pairs[i].0 != pairs[j].0
  }

  // ----- reviving a parsed document -------------------------------------------

  /**
   * The Python value `json.loads` builds from a parsed document, bottom-up:
   * members' values first, then the object hook on the object's pairs.
   * With `tagAware` the hook is `obj_decoder`, otherwise a plain dict.
   */
  function Revive(j: Json, tagAware: bool): Result<Value, LoadError>
    decreases j, 1
  {
    match j
    case JNull => Ok(VNone)
    case JBool(b) => Ok(VBool(b))
    case JInt(i) => Ok(VInt(i))
    case JFloat(f) => Ok(VFloat(f))
    case JStr(s) => Ok(VStr(s))
    case JArr(items) =>
      (match ReviveItems(items, tagAware)
       case Err(e) => Err(e)
       case Ok(vs) => Ok(VList(vs)))
    case JObj(members) =>
      match ReviveMembers(members, tagAware)
      case Err(e) => Err(e)
      case Ok(pairs) =>
        if tagAware then
          (match DecodePairs(pairs)
           case Err(e) => Err(e)
           case Ok(res) => Ok(VDict(res)))
        else Ok(VDict(DictOf(pairs)))
  }

  function ReviveItems(items: seq<Json>, tagAware: bool): Result<seq<Value>, LoadError>
    decreases items, 0
  {
    if |items| == 0 then Ok([])
    else
      match Revive(items[0], tagAware)
      case Err(e) => Err(e)
      case Ok(v) =>
        match ReviveItems(items[1..], tagAware)
        case Err(e) => Err(e)
        case Ok(vs) => Ok([v] + vs)
  }

  function ReviveMembers(members: seq<(string, Json)>, tagAware: bool): Result<seq<(string, Value)>, LoadError>
    decreases members, 0
  {
    if |members| == 0 then Ok([])
    else
      var m := members[0];
      assert m.1 < m;
      match Revive(m.1, tagAware)
      case Err(e) => Err(e)
      case Ok(v) =>
        match ReviveMembers(members[1..], tagAware)
        case Err(e) => Err(e)
        case Ok(ps) => Ok([(m.0, v)] + ps)
  }

  /** What `loads` accepts: a `str`, or `bytes` it decodes as UTF-8 first. */
  datatype Input = Str(text: string) | Bytes(bytes: seq<Byte>)

  /** `loads(txt)`; `tagAware` is false when the caller passed `cls`. */
  function Loads(txt: Input, tagAware: bool): Result<Value, LoadError>
  {
    var text := if txt.Str? then Some(txt.text) else Utf8.Decode(txt.bytes);
    match text
    case None => Err(UnicodeDecodeError)
    case Some(t) =>
      match Parse(t)
      case Err(e) => Err(ParseFailure(e))
      case Ok(j) => Revive(j, tagAware)
  }

  /** What `json.loads` raises when parsing fails: a JSONDecodeError, except for `int()`'s ValueError on a too-long integer. */
  function ParseFailure(e: ParseError): LoadError
  {
    if e == IntDigitsExceeded then ValueError else JSONDecodeError(e)
  }

  // ----- what decoding promises ----------------------------------------------

  /**
   * A document that is one integer with more digits than the limit: `json`'s
   * scanner hands the token to `int()`, whose ValueError is not a
   * JSONDecodeError.
   */
  lemma LongIntegerRefused(d: string, tagAware: bool)
    requires AllDigits(d) && |d| > MaxStrDigits && d[0] != '0'
    ensures Loads(Str(d), tagAware) == Err(ValueError)
  {
    assert StartsValue(d[0]);
    SkipNothing(d);
    DigitRunUnique(d, |d|);
    assert d[|d|..] == "";
    ScanNumberIs(d, |d|, 0, 0);
    IntTokenTooLong(d);
  }

  /** A member value is stored unchanged exactly when it is not a string tagged `@datetime:` or `@date:`. */
  lemma PassThrough(v: Value)
    ensures DecodeMember(v) == Ok(v)
            <==> !(v.VStr? && (HasPrefix(v.s, "@datetime:") || HasPrefix(v.s, "@date:")))
  {
    if v.VStr? {
      KnownTags(v.s);
    }
  }

  /** A string without a colon has no tag, whatever it starts with, and is stored unchanged. */
  lemma NoColonUntouched(s: string)
    requires ':' !in s
    ensures TagOf(VStr(s)) == None
    ensures DecodeMember(VStr(s)) == Ok(VStr(s))
  {
  }

  /** A tag other than the two supported ones is left alone. */
  lemma OtherTagExample(payload: string)
    ensures TagOf(VStr("@døte:" + payload)) == Some("@døte:")
    ensures DecodeMember(VStr("@døte:" + payload)) == Ok(VStr("@døte:" + payload))
  {
    var p := "@døte:";
    assert p[..|p| - 1] == "@døte";
    TagTextPrefix(p, payload);
    assert p[2] != "@date:"[2];
    assert p != "@datetime:";
  }

  /**
   * The fraction digits are the microseconds as written, not scaled: `.5` is
   * 5 microseconds; more digits than the limit allows raise ValueError.
   */
  lemma {:induction false} FractionUnscaled(ds: string, rest: string)
    requires |ds| > 0 && AllDigits(ds) && (|rest| == 0 || !IsDigit(rest[0]))
    ensures Fraction("." + ds + rest) == if |ds| <= MaxStrDigits then Some(DigitsValue(ds)) else None
  {
    var s := "." + ds + rest;
    assert s[1..] == ds + rest;
    DigitRunUnique(ds + rest, |ds|);
    assert (ds + rest)[..|ds|] == ds;
    ParseIntDigits(ds);
  }

  lemma HalfSecondExample()
    ensures Fraction(".5") == Some(5)
  {
    FractionUnscaled("5", "");
    assert "." + "5" + "" == ".5";
  }

  lemma DecodePairsStep(pairs: seq<(string, Value)>)
    requires |pairs| > 0
    ensures DecodePairs(pairs).Ok?
            <==> DecodePairs(pairs[..|pairs| - 1]).Ok? && DecodeMember(pairs[|pairs| - 1].1).Ok?
  {
  }

  /** The member values must all decode; the first failure is the exception raised. */
  lemma {:induction false} DecodePairsOk(pairs: seq<(string, Value)>)
    ensures DecodePairs(pairs).Ok? <==> forall i :: 0 <= i < |pairs| ==> DecodeMember(pairs[i].1).Ok?
  {
    if |pairs| > 0 {
      var n := |pairs| - 1;
      var init := pairs[..n];
      DecodePairsOk(init);
      DecodePairsStep(pairs);
      if DecodePairs(pairs).Ok? {
        forall i | 0 <= i < |pairs|
          ensures DecodeMember(pairs[i].1).Ok?
        {
          if i < n {
            assert init[i] == pairs[i];
            assert DecodeMember(init[i].1).Ok?;
          } else {
            assert i == n;
          }
        }
      } else if DecodePairs(init).Err? {
        var k :| 0 <= k < n && DecodeMember(init[k].1).Err?;
        assert init[k] == pairs[k];
      }
    }
  }

  /** `e` is the entry `obj_decoder` stores for the member `p`: its key as a string, and its value revived. */
  predicate DecodedEntry(p: (string, Value), e: (Value, Value))
  {
    e.0 == VStr(p.0) && DecodeMember(p.1) == Ok(e.1)
  }

  /** With distinct keys the result holds every key, in input order, with its decoded value. */
  lemma {:induction false} DecodePairsInOrder(pairs: seq<(string, Value)>)
    requires DistinctKeys(pairs) && DecodePairs(pairs).Ok?
    ensures |DecodePairs(pairs).value| == |pairs|
    ensures forall i :: 0 <= i < |pairs| ==> DecodedEntry(pairs[i], DecodePairs(pairs).value[i])
  {
    if |pairs| > 0 {
      var n := |pairs| - 1;
      var init := pairs[..n];
      assert DistinctKeys(init);
      DecodePairsInOrder(init);
      var res := DecodePairs(init).value;
      var k := VStr(pairs[n].0);
      var v := DecodeMember(pairs[n].1).value;
      FreshLastKey(pairs, res);
      AssignKeys(res, k, v);
      InOrderStep(pairs, res, (k, v));
    }
  }

  /** With distinct keys, the last member's key is not among those of the entries built for the others. */
  lemma {:induction false} FreshLastKey(pairs: seq<(string, Value)>, res: seq<(Value, Value)>)
    requires DistinctKeys(pairs) && 0 < |pairs| && |res| == |pairs| - 1
    requires forall i :: 0 <= i < |res| ==> DecodedEntry(pairs[..|res|][i], res[i])
    ensures VStr(pairs[|res|].0) !in Keys(res)
  {
    KeysOf(res);
    forall i | 0 <= i < |res|
      ensures res[i].0 != VStr(pairs[|res|].0)
    {
      assert pairs[..|res|][i] == pairs[i];
      assert pairs[i].0 != pairs[|res|].0;
    }
  }

  /** Appending the last member's entry to the prefix's result extends the member-by-member correspondence. */
  lemma {:induction false} InOrderStep(pairs: seq<(string, Value)>, res: seq<(Value, Value)>, e: (Value, Value))
    requires 0 < |pairs| && |res| == |pairs| - 1
    requires forall i :: 0 <= i < |res| ==> DecodedEntry(pairs[..|res|][i], res[i])
    requires DecodedEntry(pairs[|res|], e)
    ensures forall i :: 0 <= i < |pairs| ==> DecodedEntry(pairs[i], (res + [e])[i])
  {
    forall i | 0 <= i < |pairs|
      ensures DecodedEntry(pairs[i], (res + [e])[i])
    {
      if i < |res| {
        assert (res + [e])[i] == res[i] && pairs[..|res|][i] == pairs[i];
      } else {
        assert (res + [e])[i] == e;
      }
    }
  }

  lemma {:induction false} KeysOf(es: seq<(Value, Value)>)
    ensures |Keys(es)| == |es|
    ensures forall i :: 0 <= i < |es| ==> Keys(es)[i] == es[i].0
  {
    if |es| > 0 {
      KeysOf(es[1..]);
    }
  }

  /** When no member is tagged, `obj_decoder` builds what the plain `dict(pairs)` of `cls=` decoding builds. */
  lemma {:induction false} UntaggedLikePlain(pairs: seq<(string, Value)>)
    requires forall i :: 0 <= i < |pairs| ==>
      !(pairs[i].1.VStr? && (HasPrefix(pairs[i].1.s, "@datetime:") || HasPrefix(pairs[i].1.s, "@date:")))
    ensures DecodePairs(pairs) == Ok(DictOf(pairs))
  {
    if |pairs| > 0 {
      var n := |pairs| - 1;
      assert forall i :: 0 <= i < n ==> pairs[..n][i] == pairs[i];
      UntaggedLikePlain(pairs[..n]);
      PassThrough(pairs[n].1);
    }
  }

  /** `loads` of bytes is `loads` of the text they encode. */
  lemma LoadsBytes(s: string, tagAware: bool)
    ensures Loads(Bytes(Utf8.Encode(s)), tagAware) == Loads(Str(s), tagAware)
  {
    DecodeEncode(s);
  }

  /** A tagged string at the top level is never revived. */
  lemma TopLevelKept(s: string)
    ensures Loads(Str(Compact(JStr(s))), true) == Ok(VStr(s))
  {
    ParseOfCompact(JStr(s));
  }

  /** A tagged string in an array is never revived. */
  lemma ArrayElementKept(s: string)
    ensures Loads(Str(Compact(JArr([JStr(s)]))), true) == Ok(VList([VStr(s)]))
  {
    ParseOfCompact(JArr([JStr(s)]));
    assert [JStr(s)][1..] == [];
    assert [VStr(s)] + [] == [VStr(s)];
    assert ReviveItems([JStr(s)], true) == Ok([VStr(s)]);
  }

  /** A tagged string used as a key is never revived. */
  lemma KeyKept(key: string)
    ensures Loads(Str(Compact(JObj([(key, JNull)]))), true) == Ok(VDict([(VStr(key), VNone)]))
  {
    var ms := [(key, JNull)];
    ParseOfCompact(JObj(ms));
    assert ms[1..] == [];
    assert [(key, VNone)] + [] == [(key, VNone)];
    assert ReviveMembers(ms, true) == Ok([(key, VNone)]);
    var pairs := [(key, VNone)];
    assert pairs[..0] == [];
    assert DecodePairs(pairs) == Ok([(VStr(key), VNone)]);
  }
}
