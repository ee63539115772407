/**
 * The JSON documents the codec exchanges with Python's `json` module: the
 * tree, its compact rendering (`separators=(',', ':')`, no indentation, keys
 * in insertion order, `ensure_ascii`), and the strict parser of `json.loads`
 * that hands every object to the caller as its list of (key, value) pairs.
 */
module Json {
  import opened Wrappers
  import opened Text
  import opened JsonText

  /** The integers that have a decimal text within CPython's digit limit, the only ones `json` can write or read. */
  type JsonInt = i: int | FitsStrDigits(i)

  /** A parsed JSON document; objects keep their members in text order, duplicates included. */
  datatype Json =
    | JNull
    | JBool(b: bool)
    | JInt(i: JsonInt)
    | JFloat(f: FloatText)
    | JStr(s: string)
    | JArr(items: seq<Json>)
    | JObj(members: seq<(string, Json)>)

  // ----- rendering -------------------------------------------------------

  /** `json.dumps(j, separators=(',', ':'))`: the compact text `dump2` produces. */
  function Compact(j: Json): string
    decreases j, 1
  {
    match j
    case JNull => "null"
    case JBool(b) => if b then "true" else "false"
    case JInt(i) => IntText(i)
    case JFloat(f) => f
    case JStr(s) => Quote(s)
    case JArr(items) => "[" + CompactItems(items) + "]"
    case JObj(members) => "{" + CompactMembers(members) + "}"
  }

  function CompactItems(xs: seq<Json>): string
    decreases xs, 0
  {
    if |xs| == 0 then ""
    else if |xs| == 1 then Compact(xs[0])
    else Compact(xs[0]) + "," + CompactItems(xs[1..])
  }

  function CompactMember(m: (string, Json)): string
    decreases m, 0
  {
    Quote(m.0) + ":" + Compact(m.1)
  }

  function CompactMembers(ms: seq<(string, Json)>): string
    decreases ms, 0
  {
    if |ms| == 0 then ""
    else if |ms| == 1 then CompactMember(ms[0])
    else CompactMember(ms[0]) + "," + CompactMembers(ms[1..])
  }

  // ----- parsing ---------------------------------------------------------

  /** The whitespace JSON allows between tokens. */
  predicate IsWhitespace(c: char) { c == ' ' || c == '\t' || c == '\n' || c == '\r' }

  function SkipWhitespace(s: string): (r: string)
    ensures |r| <= |s|
    ensures |r| > 0 ==> !IsWhitespace(r[0])
  {
    if |s| > 0 && IsWhitespace(s[0]) then SkipWhitespace(s[1..]) else s
  }

  predicate HasPrefix(s: string, p: string) { |p| <= |s| && s[..|p|] == p }

  /** The integer a number token without fraction or exponent denotes. */
  function IntToken(s: string): int
    requires ScanNumber(s).intLength > 0
  {
    var n := ScanNumber(s).intLength;
    var t := s[..n];
    IntPartDigits(s);
    assert t[SignLength(t)..] == s[SignLength(s)..n];
    IntValue(t)
  }

  /** A number token with a fraction or an exponent, kept as its literal text. */
  function FloatToken(s: string): FloatText
    requires ScanNumber(s).intLength > 0 && ScanNumber(s).fracLength + ScanNumber(s).expLength > 0
  {
    var len := ScanNumber(s).Length();
    ScanNumberPrefix(s, len);
    s[..len]
  }

  /**
   * Reads the number token at the head of `s` as Python's scanner does: an
   * integer when it has neither fraction nor exponent, a float otherwise.
   * The integer is converted by `int()`, which refuses a token with more
   * digits than the limit allows.
   */
  function ParseNumber(s: string): (r: Result<(Json, string), ParseError>)
    ensures r.Ok? ==> |r.value.1| < |s|
  {
    var n := ScanNumber(s);
    if n.intLength == 0 then Err(ExpectingValue)
    else if n.fracLength + n.expLength == 0 then ParseIntToken(s)
    else Ok((JFloat(FloatToken(s)), s[n.Length()..]))
  }

  /** An integer token and the text after it, or the ValueError for a token with more digits than the limit. */
  function ParseIntToken(s: string): (r: Result<(Json, string), ParseError>)
    requires ScanNumber(s).intLength > 0
    ensures r.Ok? ==> |r.value.1| < |s|
  {
    var n := ScanNumber(s);
    if n.intLength - SignLength(s) > MaxStrDigits then Err(IntDigitsExceeded)
    else
      IntTokenFits(s);
      Ok((JInt(IntToken(s)), s[n.Length()..]))
  }

  /** An integer token within the digit limit denotes an integer within it. */
  lemma IntTokenFits(s: string)
    requires ScanNumber(s).intLength > 0 && ScanNumber(s).intLength - SignLength(s) <= MaxStrDigits
    ensures FitsStrDigits(IntToken(s))
  {
    var n := ScanNumber(s).intLength;
    IntPartDigits(s);
    DigitsFit(s[SignLength(s)..n]);
  }

  /** An integer token with more digits than the limit is refused with ValueError, whatever its value. */
  lemma IntTokenTooLong(s: string)
    requires ScanNumber(s).intLength > 0 && ScanNumber(s).fracLength + ScanNumber(s).expLength == 0
    requires ScanNumber(s).intLength - SignLength(s) > MaxStrDigits
    ensures ParseNumber(s) == Err(IntDigitsExceeded)
    ensures ParseValue(s) == Err(IntDigitsExceeded)
  {
    ParseNumberOpen(s);
  }

  /** Reads one value at the head of `s` (leading whitespace already skipped): the value and the text after it. */
  function ParseValue(s: string): (r: Result<(Json, string), ParseError>)
    ensures r.Ok? ==> |r.value.1| < |s|
    decreases |s|, 0
  {
    if |s| == 0 then Err(ExpectingValue)
    else if s[0] == '"' then
      match ScanString(s[1..])
      case Err(e) => Err(e)
      case Ok((t, rest)) => Ok((JStr(t), rest))
    else if s[0] == '{' then ParseObject(s[1..])
    else if s[0] == '[' then ParseArray(s[1..])
    else if s[0] == 'n' then
      if HasPrefix(s, "null") then Ok((JNull, s[4..])) else Err(ExpectingValue)
    else if s[0] == 't' then
      if HasPrefix(s, "true") then Ok((JBool(true), s[4..])) else Err(ExpectingValue)
    else if s[0] == 'f' then
      if HasPrefix(s, "false") then Ok((JBool(false), s[5..])) else Err(ExpectingValue)
    else ParseNumber(s)
  }

  /** The rest of an array after its `[`. */
  function ParseArray(s: string): (r: Result<(Json, string), ParseError>)
    ensures r.Ok? ==> |r.value.1| < |s|
    decreases |s|, 3
  {
    var t := SkipWhitespace(s);
    if |t| > 0 && t[0] == ']' then Ok((JArr([]), t[1..]))
    else ParseItems(t, [])
  }

  /** The elements of an array from one that starts `t`, after the elements `acc` already read. */
  function ParseItems(t: string, acc: seq<Json>): (r: Result<(Json, string), ParseError>)
    ensures r.Ok? ==> |r.value.1| < |t|
    decreases |t|, 1
  {
    match ParseValue(t)
    case Err(e) => Err(e)
    case Ok((v, u)) => ParseItemsEnd(u, acc + [v])
  }

  /** After an element: `]` closes the array, `,` announces the next element. */
  function ParseItemsEnd(u: string, acc: seq<Json>): (r: Result<(Json, string), ParseError>)
    ensures r.Ok? ==> |r.value.1| < |u|
    decreases |u|, 2
  {
    var w := SkipWhitespace(u);
    if |w| > 0 && w[0] == ']' then Ok((JArr(acc), w[1..]))
    else if |w| > 0 && w[0] == ',' then ParseItems(SkipWhitespace(w[1..]), acc)
    else Err(ExpectingDelimiter)
  }

  /** The rest of an object after its `{`. */
  function ParseObject(s: string): (r: Result<(Json, string), ParseError>)
    ensures r.Ok? ==> |r.value.1| < |s|
    decreases |s|, 4
  {
    var t := SkipWhitespace(s);
    if |t| > 0 && t[0] == '}' then Ok((JObj([]), t[1..]))
    else ParseMembers(t, [])
  }

  /** The members of an object from one whose key starts `t`, after the members `acc` already read. */
  function ParseMembers(t: string, acc: seq<(string, Json)>): (r: Result<(Json, string), ParseError>)
    ensures r.Ok? ==> |r.value.1| < |t|
    decreases |t|, 3
  {
    if |t| == 0 || t[0] != '"' then Err(ExpectingPropertyName)
    else
      match ScanString(t[1..])
      case Err(e) => Err(e)
      case Ok((key, u)) => ParseMemberValue(key, u, acc)
  }

  /** After a key: the colon and the member's value. */
  function ParseMemberValue(key: string, u: string, acc: seq<(string, Json)>): (r: Result<(Json, string), ParseError>)
    ensures r.Ok? ==> |r.value.1| < |u|
    decreases |u|, 2
  {
    var w := SkipWhitespace(u);
    if |w| == 0 || w[0] != ':' then Err(ExpectingColon)
    else
      match ParseValue(SkipWhitespace(w[1..]))
      case Err(e) => Err(e)
      case Ok((v, x)) => ParseMembersEnd(x, acc + [(key, v)])
  }

  /** After a member: `}` closes the object, `,` announces the next member. */
  function ParseMembersEnd(x: string, acc: seq<(string, Json)>): (r: Result<(Json, string), ParseError>)
    ensures r.Ok? ==> |r.value.1| < |x|
    decreases |x|, 1
  {
    var y := SkipWhitespace(x);
    if |y| > 0 && y[0] == '}' then Ok((JObj(acc), y[1..]))
    else if |y| > 0 && y[0] == ',' then ParseMembers(SkipWhitespace(y[1..]), acc)
    else Err(ExpectingDelimiter)
  }

  /**
   * `json.loads` up to the object hook: one value, surrounded only by
   * whitespace; a text that starts with a byte order mark is refused.
   */
  function Parse(text: string): Result<Json, ParseError>
  {
    if |text| > 0 && text[0] == '\U{FEFF}' then Err(UnexpectedBom)
    else
    match ParseValue(SkipWhitespace(text))
    case Err(e) => Err(e)
    case Ok((j, rest)) => if SkipWhitespace(rest) == [] then Ok(j) else Err(ExtraData)
  }

  // ----- the round trip ----------------------------------------------------

  /** Text that may follow a value inside a compact document. */
  predicate Delimits(rest: string)
  {
    |rest| == 0 || rest[0] == ',' || rest[0] == ']' || rest[0] == '}'
  }

  predicate StartsValue(c: char)
  {
    c == 'n' || c == 't' || c == 'f' || c == '"' || c == '[' || c == '{' || c == '-' || IsDigit(c)
  }

  lemma FloatStart(f: FloatText)
    ensures |f| > 0 && (f[0] == '-' || IsDigit(f[0]))
  {
  }

  /** Every compact rendering is non-empty and starts like a value: never with whitespace, `]` or `}`. */
  lemma CompactStart(j: Json)
    ensures |Compact(j)| > 0 && StartsValue(Compact(j)[0])
  {
    match j
    case JFloat(f) => FloatStart(f);
    case JInt(i) => {}
    case _ => {}
  }

  lemma SkipNothing(s: string)
    requires |s| > 0 && StartsValue(s[0])
    ensures SkipWhitespace(s) == s
  {
  }

  lemma ParseNumberOpen(s: string)
    requires |s| > 0 && (s[0] == '-' || IsDigit(s[0]))
    ensures ParseValue(s) == ParseNumber(s)
  {
    assert s[0] != '"' && s[0] != '{' && s[0] != '[' && s[0] != 'n' && s[0] != 't' && s[0] != 'f';
  }

  lemma ParseIntCompact(i: JsonInt, rest: string)
    requires Delimits(rest)
    ensures ParseNumber(IntText(i) + rest) == Ok((JInt(i), rest))
  {
    var s := IntText(i) + rest;
    IntTokenOf(i, rest);
    assert ParseNumber(s) == ParseIntToken(s);
  }

  /** The integer token at the front of an integer's text: the whole text, within the limit, denoting the integer. */
  lemma IntTokenOf(i: JsonInt, rest: string)
    requires Delimits(rest)
    ensures var s := IntText(i) + rest;
      && ScanNumber(s) == NumberShape(|IntText(i)|, 0, 0)
      && ScanNumber(s).intLength - SignLength(s) <= MaxStrDigits
      && IntToken(s) == i && s[|IntText(i)|..] == rest
  {
    var t := IntText(i);
    var s := t + rest;
    IntTextScans(i, rest);
    assert s[..|t|] == t && s[|t|..] == rest;
    assert SignLength(s) == SignLength(t);
    assert FitsStrDigits(i);
  }

  lemma ParseFloatCompact(f: FloatText, rest: string)
    requires Delimits(rest)
    ensures ParseNumber(f + rest) == Ok((JFloat(f), rest))
  {
    var s := f + rest;
    ScanNumberAppend(f, rest);
    assert s[..|f|] == f && s[|f|..] == rest;
  }

  lemma ParseArrayOpen(body: string, rest: string)
    requires |body| == 0 || StartsValue(body[0])
    ensures ParseValue("[" + body + "]" + rest) ==
      if |body| == 0 then Ok((JArr([]), rest)) else ParseItems(body + "]" + rest, [])
  {
    var s := "[" + body + "]" + rest;
    var t := body + "]" + rest;
    assert s[1..] == t;
    assert ParseValue(s) == ParseArray(t) by { assert s[0] == '['; }
    if |body| == 0 {
      assert t == "]" + rest;
      CloseEmpty(']', rest);
    } else {
      assert t[0] == body[0];
      SkipNothing(t);
    }
  }

  lemma ParseObjectOpen(body: string, rest: string)
    requires |body| == 0 || body[0] == '"'
    ensures ParseValue("{" + body + "}" + rest) ==
      if |body| == 0 then Ok((JObj([]), rest)) else ParseMembers(body + "}" + rest, [])
  {
    var s := "{" + body + "}" + rest;
    var t := body + "}" + rest;
    assert s[1..] == t;
    assert ParseValue(s) == ParseObject(t) by { assert s[0] == '{'; }
    if |body| == 0 {
      assert t == "}" + rest;
      CloseEmpty('}', rest);
    } else {
      assert t[0] == body[0];
      SkipNothing(t);
    }
  }

  /** A closing bracket right after the opening one: an empty container. */
  lemma CloseEmpty(close: char, rest: string)
    requires close == ']' || close == '}'
    ensures SkipWhitespace([close] + rest) == [close] + rest
    ensures ([close] + rest)[1..] == rest
  {
  }

  /** A compact rendering parses back to the same tree, and parsing stops right after it. */
  lemma {:induction false} ParseCompact(j: Json, rest: string)
    requires Delimits(rest)
    ensures ParseValue(Compact(j) + rest) == Ok((j, rest))
    decreases j, 2
  {
    match j
    case JNull => ParseLiteralCompact(j, rest);
    case JBool(_) => ParseLiteralCompact(j, rest);
    case JInt(i) => ParseIntValue(i, rest);
    case JFloat(f) => ParseFloatValue(f, rest);
    case JStr(x) => ParseStrCompact(x, rest);
    case JArr(items) => ParseArrCompact(items, rest);
    case JObj(members) => ParseObjCompact(members, rest);
  }

  lemma ParseLiteralCompact(j: Json, rest: string)
    requires j.JNull? || j.JBool?
    ensures ParseValue(Compact(j) + rest) == Ok((j, rest))
  {
    var s := Compact(j) + rest;
    if j.JNull? {
      assert HasPrefix(s, "null") && s[4..] == rest;
    } else if j.b {
      assert HasPrefix(s, "true") && s[4..] == rest;
    } else {
      assert HasPrefix(s, "false") && s[5..] == rest;
    }
  }

  lemma ParseIntValue(i: JsonInt, rest: string)
    requires Delimits(rest)
    ensures ParseValue(Compact(JInt(i)) + rest) == Ok((JInt(i), rest))
  {
    var s := IntText(i) + rest;
    ParseNumberOpen(s);
    ParseIntCompact(i, rest);
  }

  lemma ParseFloatValue(f: FloatText, rest: string)
    requires Delimits(rest)
    ensures ParseValue(Compact(JFloat(f)) + rest) == Ok((JFloat(f), rest))
  {
    var s := f + rest;
    FloatStart(f);
    ParseNumberOpen(s);
    ParseFloatCompact(f, rest);
  }

  lemma ParseStrCompact(x: string, rest: string)
    ensures ParseValue(Compact(JStr(x)) + rest) == Ok((JStr(x), rest))
  {
    var s := Quote(x) + rest;
    assert s[1..] == Escape(x) + "\"" + rest;
    ScanQuoted(x, rest);
  }

  lemma {:induction false} ParseArrCompact(items: seq<Json>, rest: string)
    requires Delimits(rest)
    ensures ParseValue(Compact(JArr(items)) + rest) == Ok((JArr(items), rest))
    decreases items, 3
  {
    var body := CompactItems(items);
    assert Compact(JArr(items)) + rest == "[" + body + "]" + rest;
    if |items| > 0 {
      CompactItemsStart(items);
      ParseItemsCompact(items, [], rest);
      assert [] + items == items;
    }
    ParseArrayOpen(body, rest);
  }

  lemma {:induction false} ParseObjCompact(members: seq<(string, Json)>, rest: string)
    requires Delimits(rest)
    ensures ParseValue(Compact(JObj(members)) + rest) == Ok((JObj(members), rest))
    decreases members, 3
  {
    var body := CompactMembers(members);
    assert Compact(JObj(members)) + rest == "{" + body + "}" + rest;
    if |members| > 0 {
      CompactMembersStart(members);
      ParseMembersCompact(members, [], rest);
      assert [] + members == members;
    }
    ParseObjectOpen(body, rest);
  }

  lemma ItemsLast(t: string, acc: seq<Json>, v: Json, rest: string)
    requires ParseValue(t) == Ok((v, "]" + rest))
    ensures ParseItems(t, acc) == Ok((JArr(acc + [v]), rest))
  {
    assert SkipWhitespace("]" + rest) == "]" + rest;
    assert ("]" + rest)[1..] == rest;
  }

  lemma ItemsNext(t: string, acc: seq<Json>, v: Json, tail: string)
    requires ParseValue(t) == Ok((v, "," + tail))
    requires |tail| > 0 && StartsValue(tail[0])
    ensures ParseItems(t, acc) == ParseItems(tail, acc + [v])
  {
    assert SkipWhitespace("," + tail) == "," + tail;
    assert ("," + tail)[1..] == tail;
    SkipNothing(tail);
  }

  /** A non-empty item list renders starting like a value. */
  lemma CompactItemsStart(xs: seq<Json>)
    requires |xs| > 0
    ensures |CompactItems(xs)| > 0 && StartsValue(CompactItems(xs)[0])
  {
    var c := Compact(xs[0]);
    CompactStart(xs[0]);
    if |xs| > 1 {
      var t := CompactItems(xs[1..]);
      assert CompactItems(xs) == c + "," + t;
      Assoc(c, ",", t);
      assert CompactItems(xs)[0] == c[0];
    } else {
      assert CompactItems(xs) == c;
    }
  }

  /** A non-empty member list renders starting with the quote of its first key. */
  lemma CompactMembersStart(ms: seq<(string, Json)>)
    requires |ms| > 0
    ensures |CompactMembers(ms)| > 0 && CompactMembers(ms)[0] == '"'
  {
    var c := CompactMember(ms[0]);
    assert c[0] == '"';
    if |ms| > 1 {
      var t := CompactMembers(ms[1..]);
      assert CompactMembers(ms) == c + "," + t;
      Assoc(c, ",", t);
      assert CompactMembers(ms)[0] == c[0];
    } else {
      assert CompactMembers(ms) == c;
    }
  }

  lemma {:induction false} ParseItemsCompact(xs: seq<Json>, acc: seq<Json>, rest: string)
    requires |xs| > 0
    ensures ParseItems(CompactItems(xs) + "]" + rest, acc) == Ok((JArr(acc + xs), rest))
    decreases xs, 1
  {
    if |xs| == 1 {
      ParseLastItem(xs, acc, rest);
    } else {
      ParseNextItem(xs, acc, rest);
    }
  }

  lemma {:induction false} ParseLastItem(xs: seq<Json>, acc: seq<Json>, rest: string)
    requires |xs| == 1
    ensures ParseItems(CompactItems(xs) + "]" + rest, acc) == Ok((JArr(acc + xs), rest))
    decreases xs, 0
  {
    var x := xs[0];
    ParseCompact(x, "]" + rest);
    assert ParseItems(CompactItems(xs) + "]" + rest, acc) == Ok((JArr(acc + [x]), rest)) by {
      assert CompactItems(xs) + "]" + rest == Compact(x) + ("]" + rest);
      ItemsLast(Compact(x) + ("]" + rest), acc, x, rest);
    }
    assert acc + [x] == acc + xs;
  }

  lemma {:induction false} ParseNextItem(xs: seq<Json>, acc: seq<Json>, rest: string)
    requires |xs| > 1
    ensures ParseItems(CompactItems(xs) + "]" + rest, acc) == Ok((JArr(acc + xs), rest))
    decreases xs, 0
  {
    var x := xs[0];
    var tail := CompactItems(xs[1..]) + "]" + rest;
    ParseCompact(x, "," + tail);
    ParseItemsCompact(xs[1..], acc + [x], rest);
    assert ParseItems(CompactItems(xs) + "]" + rest, acc) == ParseItems(tail, acc + [x]) by {
      ItemsText(xs, rest);
      CompactItemsStart(xs[1..]);
      assert tail[0] == CompactItems(xs[1..])[0];
      ItemsNext(Compact(x) + ("," + tail), acc, x, tail);
    }
    assert [x] + xs[1..] == xs;
    Assoc(acc, [x], xs[1..]);
  }

  lemma Assoc<T>(a: seq<T>, b: seq<T>, c: seq<T>)
    ensures (a + b) + c == a + (b + c)
  {
  }

  /** The text of two or more items: the first, a comma, then the rest. */
  lemma ItemsText(xs: seq<Json>, rest: string)
    requires |xs| > 1
    ensures CompactItems(xs) + "]" + rest == Compact(xs[0]) + ("," + (CompactItems(xs[1..]) + "]" + rest))
  {
    var x, b := Compact(xs[0]), CompactItems(xs[1..]);
    assert CompactItems(xs) == x + "," + b;
    Assoc(x + "," + b, "]", rest);
    Assoc(x + ",", b, "]" + rest);
    Assoc(x, ",", b + ("]" + rest));
    Assoc(b, "]", rest);
  }

  /** The text of two or more members: the first, a comma, then the rest. */
  lemma MembersText(ms: seq<(string, Json)>, rest: string)
    requires |ms| > 1
    ensures CompactMembers(ms) + "}" + rest
            == Quote(ms[0].0) + (":" + (Compact(ms[0].1) + ("," + (CompactMembers(ms[1..]) + "}" + rest))))
  {
    var q, v, b := Quote(ms[0].0), Compact(ms[0].1), CompactMembers(ms[1..]);
    var tail := b + "}" + rest;
    assert CompactMembers(ms) == (q + ":" + v) + "," + b;
    Assoc(b, "}", rest);
    Assoc((q + ":" + v) + "," + b, "}", rest);
    Assoc((q + ":" + v) + ",", b, "}" + rest);
    Assoc(q + ":" + v, ",", tail);
    Assoc(q + ":", v, "," + tail);
    Assoc(q, ":", v + ("," + tail));
  }

  lemma MemberKey(key: string, after: string, acc: seq<(string, Json)>)
    ensures ParseMembers(Quote(key) + after, acc) == ParseMemberValue(key, after, acc)
  {
    var t := Quote(key) + after;
    assert t[1..] == Escape(key) + "\"" + after;
    ScanQuoted(key, after);
  }

  lemma MemberValue(key: string, vt: string, v: Json, tail: string, acc: seq<(string, Json)>)
    requires |vt| > 0 && StartsValue(vt[0])
    requires |tail| > 0 && (tail[0] == '}' || tail[0] == ',')
    requires ParseValue(vt + tail) == Ok((v, tail))
    ensures ParseMemberValue(key, ":" + (vt + tail), acc) == ParseMembersEnd(tail, acc + [(key, v)])
  {
    var u := ":" + (vt + tail);
    assert SkipWhitespace(u) == u;
    assert u[1..] == vt + tail;
    SkipNothing(u[1..]);
  }

  lemma MembersEndLast(rest: string, acc: seq<(string, Json)>)
    ensures ParseMembersEnd("}" + rest, acc) == Ok((JObj(acc), rest))
  {
    assert SkipWhitespace("}" + rest) == "}" + rest;
    assert ("}" + rest)[1..] == rest;
  }

  lemma MembersEndNext(tail: string, acc: seq<(string, Json)>)
    requires |tail| > 0 && tail[0] == '"'
    ensures ParseMembersEnd("," + tail, acc) == ParseMembers(tail, acc)
  {
    assert SkipWhitespace("," + tail) == "," + tail;
    assert ("," + tail)[1..] == tail;
    SkipNothing(tail);
  }

  /** A last member reads as written, given that its value does. */
  lemma LastMemberText(key: string, vt: string, v: Json, acc: seq<(string, Json)>, rest: string)
    requires |vt| > 0 && StartsValue(vt[0])
    requires ParseValue(vt + ("}" + rest)) == Ok((v, "}" + rest))
    ensures ParseMembers(Quote(key) + (":" + (vt + ("}" + rest))), acc) == Ok((JObj(acc + [(key, v)]), rest))
  {
    MemberKey(key, ":" + (vt + ("}" + rest)), acc);
    MemberValue(key, vt, v, "}" + rest, acc);
    MembersEndLast(rest, acc + [(key, v)]);
  }

  /** A member followed by more members reads as written, given that its value does. */
  lemma NextMemberText(key: string, vt: string, v: Json, acc: seq<(string, Json)>, tail: string)
    requires |vt| > 0 && StartsValue(vt[0])
    requires ParseValue(vt + ("," + tail)) == Ok((v, "," + tail))
    requires |tail| > 0 && tail[0] == '"'
    ensures ParseMembers(Quote(key) + (":" + (vt + ("," + tail))), acc) == ParseMembers(tail, acc + [(key, v)])
  {
    MemberKey(key, ":" + (vt + ("," + tail)), acc);
    MemberValue(key, vt, v, "," + tail, acc);
    MembersEndNext(tail, acc + [(key, v)]);
  }

  lemma {:induction false} ParseMembersCompact(ms: seq<(string, Json)>, acc: seq<(string, Json)>, rest: string)
    requires |ms| > 0
    ensures ParseMembers(CompactMembers(ms) + "}" + rest, acc) == Ok((JObj(acc + ms), rest))
    decreases ms, 1
  {
    if |ms| == 1 {
      ParseLastMember(ms, acc, rest);
    } else {
      ParseNextMember(ms, acc, rest);
    }
  }

  lemma {:induction false} ParseLastMember(ms: seq<(string, Json)>, acc: seq<(string, Json)>, rest: string)
    requires |ms| == 1
    ensures ParseMembers(CompactMembers(ms) + "}" + rest, acc) == Ok((JObj(acc + ms), rest))
    decreases ms, 0
  {
    var m := ms[0];
    assert m.1 < m;
    ParseCompact(m.1, "}" + rest);
    assert ParseMembers(CompactMembers(ms) + "}" + rest, acc) == Ok((JObj(acc + [m]), rest)) by {
      assert CompactMembers(ms) + "}" + rest == Quote(m.0) + (":" + (Compact(m.1) + ("}" + rest)));
      CompactStart(m.1);
      LastMemberText(m.0, Compact(m.1), m.1, acc, rest);
    }
    assert [m] == ms;
  }

  lemma {:induction false} ParseNextMember(ms: seq<(string, Json)>, acc: seq<(string, Json)>, rest: string)
    requires |ms| > 1
    ensures ParseMembers(CompactMembers(ms) + "}" + rest, acc) == Ok((JObj(acc + ms), rest))
    decreases ms, 0
  {
    var m := ms[0];
    assert m.1 < m;
    var tail := CompactMembers(ms[1..]) + "}" + rest;
    ParseCompact(m.1, "," + tail);
    ParseMembersCompact(ms[1..], acc + [m], rest);
    assert ParseMembers(CompactMembers(ms) + "}" + rest, acc) == ParseMembers(tail, acc + [m]) by {
      MembersText(ms, rest);
      CompactStart(m.1);
      CompactMembersStart(ms[1..]);
      assert tail[0] == CompactMembers(ms[1..])[0];
      NextMemberText(m.0, Compact(m.1), m.1, acc, tail);
    }
    assert [m] + ms[1..] == ms;
    Assoc(acc, [m], ms[1..]);
  }

  /** `json.loads(json.dumps(j, separators=(',', ':')))` gives back `j`, before any object hook runs. */
  lemma ParseOfCompact(j: Json)
    ensures Parse(Compact(j)) == Ok(j)
  {
    CompactStart(j);
    SkipNothing(Compact(j));
    ParseCompact(j, []);
    assert Compact(j) + [] == Compact(j);
  }
}
