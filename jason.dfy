/**
 * The public helpers of `dkjason.jason`: the compact `dump2`, the keyword
 * defaults of `dumps`, `dump2` and `loads`, the JSONP envelope and the
 * simple/compound test that chooses it, and `jsonname`.
 */
module Jason {
  import opened Wrappers
  import opened Text
  import opened JsonText
  import opened Json
  import opened Values
  import opened Encoder
  import opened Decoder

  // ----- keyword arguments ---------------------------------------------------

  /** A keyword argument's value: `None`, an integer, a boolean, a class or function by name, or a pair of strings. */
  datatype Arg = ArgNone | ArgInt(i: int) | ArgBool(b: bool) | ArgName(name: string) | ArgPair(first: string, second: string)

  type Kwargs = map<string, Arg>

  /** The keyword parameters of `dumps` and their defaults: four-space indent, sorted keys, the tag-writing encoder. */
  const DumpsDefaults: Kwargs :=
    map["indent" := ArgInt(4), "sort_keys" := ArgBool(true), "cls" := ArgName("DkJSONEncoder")]

  /** The options `dumps(val, **given)` hands to `json.dumps`, or nothing when a keyword is not one of its parameters. */
  function DumpsOptions(given: Kwargs): (r: Option<Kwargs>)
    ensures r.Some? <==> given.Keys <= DumpsDefaults.Keys
    ensures r.Some? ==> r.value.Keys == DumpsDefaults.Keys
    ensures r.Some? ==> forall k :: k in given ==> r.value[k] == given[k]
    ensures r.Some? ==> forall k :: k in DumpsDefaults && k !in given ==> r.value[k] == DumpsDefaults[k]
  {
    if given.Keys <= DumpsDefaults.Keys then
      Some(map k | k in DumpsDefaults :: if k in given then given[k] else DumpsDefaults[k])
    else None
  }

  /** `dump2`'s filling of `kw`: no indent, the tag-writing encoder and compact separators, unless the caller chose otherwise. */
  method Dump2Options(kw: Kwargs) returns (r: Kwargs)
    ensures r.Keys == kw.Keys + {"indent", "cls", "separators"}
    ensures forall k :: k in kw ==> r[k] == kw[k]
    ensures "indent" !in kw ==> r["indent"] == ArgNone
    ensures "cls" !in kw ==> r["cls"] == ArgName("DkJSONEncoder")
    ensures "separators" !in kw ==> r["separators"] == ArgPair(",", ":")
  {
    r := kw;
    r := r["indent" := if "indent" in r then r["indent"] else ArgNone];
    r := r["cls" := if "cls" in r then r["cls"] else ArgName("DkJSONEncoder")];
    r := r["separators" := if "separators" in r then r["separators"] else ArgPair(",", ":")];
  }

  /** `loads`'s filling of `kw`: `obj_decoder` as the object hook, unless the caller passed a decoder class or a hook. */
  method LoadsOptions(kw: Kwargs) returns (r: Kwargs)
    ensures "cls" in kw ==> r == kw
    ensures "cls" !in kw ==> r.Keys == kw.Keys + {"object_pairs_hook"}
    ensures "cls" !in kw ==> forall k :: k in kw ==> r[k] == kw[k]
    ensures "cls" !in kw && "object_pairs_hook" !in kw ==> r["object_pairs_hook"] == ArgName("obj_decoder")
  {
    r := kw;
    if "cls" !in r {
      r := r["object_pairs_hook" := if "object_pairs_hook" in r then r["object_pairs_hook"] else ArgName("obj_decoder")];
    }
  }

  // ----- dump2 -----------------------------------------------------------------

  /** `dump2(val)`: the compact text of the encoded value, or the encoder's exception. */
  function Dump2(v: Value): (r: Result<string, EncodeError>)
    ensures r.Ok? <==> Encode(v).Ok?
    ensures r.Ok? ==> Parse(r.value) == Ok(Encode(v).value)
  {
    match Encode(v)
    case Err(e) => Err(e)
    case Ok(j) =>
      ParseOfCompact(j);
      Ok(Compact(j))
  }

  // ----- jsonp -------------------------------------------------------------------

  /**
   * `_is_simpleval(v)`: integers (booleans among them), Decimals, and strings
   * not starting with `@`; only the top level is looked at.
   */
  predicate IsSimpleVal(v: Value)
  {
    v.VInt? || v.VBool? || v.VDecimal? || (v.VStr? && !(|v.s| > 0 && v.s[0] == '@'))
  }

  /**
   * `_clientparsefn`: the client-side call that parses a JSON text with
   * `dk.jason.parse` when the page has it, else with `JSON.parse`, with all
   * whitespace removed.
   */
  const ClientParseFn: string :=
    "function(val){return(dk&&dk.jason&&dk.jason.parse)?dk.jason.parse(val):JSON.parse(val)}"

  /**
   * The body of `jsonp(callback, val)`: a simple value is passed to the
   * callback as it is; anything else is passed as a JSON string literal
   * holding its compact text, wrapped in `_clientparsefn`.
   */
  function Jsonp(callback: string, v: Value): Result<string, EncodeError>
  {
    match Dump2(v)
    case Err(e) => Err(e)
    case Ok(data) =>
      if IsSimpleVal(v) then Ok(callback + "(" + data + ")")
      else
        match Dump2(VStr(data))
        case Err(e) => Err(e)
        case Ok(literal) => Ok(callback + "(" + ClientParseFn + "(" + literal + "))")
  }

  /**
   * A simple value encodes unless it is an integer too long to write, and
   * always as a scalar, never as a string a tag could match.
   */
  lemma SimpleValueEncodes(v: Value)
    requires IsSimpleVal(v)
    ensures Encode(v).Ok? <==> !(v.VInt? && !FitsStrDigits(v.i))
    ensures Encode(v).Ok? && Encode(v).value.JStr? ==> !HasPrefix(Encode(v).value.s, "@")
    ensures Encode(v).Ok? ==>
              Encode(v).value.JInt? || Encode(v).value.JBool? || Encode(v).value.JFloat? || Encode(v).value.JStr?
  {
  }

  /** Which values are simple, by kind: strings by their first character, everything else by its type. */
  lemma SimpleValKinds(v: Value)
    ensures v.VStr? ==> (IsSimpleVal(v) <==> !HasPrefix(v.s, "@"))
    ensures v.VList? || v.VDict? || v.VSet? || v.VDate? || v.VDateTime? || v.VNone? || v.VFloat? ==> !IsSimpleVal(v)
    ensures IsSimpleVal(VStr(""))
  {
  }

  /** A simple value that encodes: `callback(<compact text>)`, the text parsing back to the encoded value. */
  lemma JsonpSimple(callback: string, v: Value)
    requires IsSimpleVal(v) && Encode(v).Ok?
    ensures Jsonp(callback, v) == Ok(callback + "(" + Compact(Encode(v).value) + ")")
    ensures Parse(Compact(Encode(v).value)) == Ok(Encode(v).value)
  {
    SimpleValueEncodes(v);
    ParseOfCompact(Encode(v).value);
  }

  /**
   * A compound value: `callback(<selector>(<literal>))`, where the literal
   * is a JSON string whose content is the value's compact text.
   */
  lemma JsonpCompound(callback: string, v: Value)
    requires !IsSimpleVal(v) && Encode(v).Ok?
    ensures Jsonp(callback, v)
            == Ok(callback + "(" + ClientParseFn + "(" + Quote(Compact(Encode(v).value)) + "))")
    ensures Parse(Quote(Compact(Encode(v).value))) == Ok(JStr(Compact(Encode(v).value)))
    ensures Parse(Compact(Encode(v).value)) == Ok(Encode(v).value)
  {
    var data := Compact(Encode(v).value);
    ParseOfCompact(JStr(data));
    ParseOfCompact(Encode(v).value);
  }

  /** A value the encoder refuses makes `jsonp` raise the same exception. */
  lemma JsonpRefused(callback: string, v: Value)
    requires Encode(v).Err?
    ensures Jsonp(callback, v) == Err(Encode(v).error)
  {
  }

  // ----- jsonname ------------------------------------------------------------------

  /** `jsonname(val)`: every `.` replaced by `_`. */
  function JsonName(s: string): string
  {
    if |s| == 0 then ""
    else [if s[0] == '.' then '_' else s[0]] + JsonName(s[1..])
  }

  /** Same length, each `.` now `_`, every other character kept. */
  lemma {:induction false} JsonNameChars(s: string)
    ensures |JsonName(s)| == |s|
    ensures forall i :: 0 <= i < |s| ==> JsonName(s)[i] == (if s[i] == '.' then '_' else s[i])
    ensures '.' !in JsonName(s)
  {
    if |s| > 0 {
      JsonNameChars(s[1..]);
      assert forall i :: 1 <= i < |s| ==> JsonName(s)[i] == JsonName(s[1..])[i - 1];
    }
  }

  /** A name already free of dots is its own field name. */
  lemma {:induction false} JsonNameIdempotent(s: string)
    ensures JsonName(JsonName(s)) == JsonName(s)
  {
    if |s| > 0 {
      JsonNameIdempotent(s[1..]);
      assert JsonName(s)[1..] == JsonName(s[1..]);
    }
  }

  /** Renaming a concatenation renames each part. */
  lemma {:induction false} JsonNameAppend(a: string, b: string)
    ensures JsonName(a + b) == JsonName(a) + JsonName(b)
  {
    if |a| > 0 {
      JsonNameAppend(a[1..], b);
      assert (a + b)[1..] == a[1..] + b;
    } else {
      assert a + b == b;
    }
  }

  /** `hello.world` becomes `hello_world`: two dot-free names joined by a dot. */
  lemma JsonNameExample(a: string, b: string)
    requires '.' !in a && '.' !in b
    ensures JsonName(a + "." + b) == a + "_" + b
  {
    JsonNameAppend(a + ".", b);
    JsonNameAppend(a, ".");
    JsonNameNoDot(a);
    JsonNameNoDot(b);
    assert JsonName(".") == "_";
  }

  /** A name without dots is left as it is. */
  lemma {:induction false} JsonNameNoDot(s: string)
    requires '.' !in s
    ensures JsonName(s) == s
  {
    if |s| > 0 {
      assert s[0] != '.';
      assert '.' !in s[1..];
      JsonNameNoDot(s[1..]);
      assert [s[0]] + s[1..] == s;
    }
  }
}
