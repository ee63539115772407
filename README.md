# dkjason: the tagged JSON codec, in Dafny

`dkjason.jason` sends Python values to a browser as JSON and reads JSON
back. JSON has no type for several Python values. The encoder
`DkJSONEncoder.default` turns each of them into a JSON-compatible value by
an ordered chain of rules:

- Decimals become floats.
- Objects with `__json__` become what that method returns.
- Sets and QuerySets become lists.
- `ttcal.Year` and `datetime.time` become small dicts.
- `@duration:`, `@datetime:` and `@date:` strings carry durations, datetimes and dates.
- Objects with `__dict__` become their public attributes.
- Mappings become dicts, bytes become UTF-8 text, and iterables become lists.

The decoder `loads` installs `obj_decoder` as the object hook. Inside
every JSON object, `obj_decoder` turns member values tagged `@datetime:` and
`@date:` back into datetimes and dates. `dump2` writes the compact form.
`jsonp` wraps a value in a JavaScript callback: simple values go in as they
are, and anything else goes in as a JSON string that the page parses again.
`jsonname` turns a dotted name into a field name.

The project models these operations and the parts of Python's `json`,
`re`, `int()`, `isoformat()` and `bytes.decode` they rely on. Python values
form the `Values.Value` datatype. A user object's capabilities
(`__json__`, `__dict__`, being a `Mapping` or an `Iterable`) are explicit
fields. The JSON text layer is a compact renderer with `ensure_ascii`
escaping and a strict parser, which are proved inverse to each other.
`obj_decoder` is an imperative loop (`Decoder.ObjDecoder`) proved against
the function `Decoder.DecodePairs`. Its main theorem is
`RoundTrip.Dump2Loads`: every value made of `None`, booleans, integers,
floats, strings, lists, and dicts with distinct string keys comes back from
`loads(dump2(v))` unchanged, for integers within CPython's limit of 4300
digits. Dates and datetimes are included where they are object member
values. A tuple is written like a list and comes back as a list, so the
model has lists only.

Modules, one per file:

| file | module | contents |
|---|---|---|
| wrappers.dfy | Wrappers | `Option`, `Result` |
| text.dfy | Text | decimal digits, `str(int)`, `'%0Nd'`, `int(text, 10)` |
| utf8.dfy | Utf8 | strict UTF-8 |
| json_text.dfy | JsonText | JSON numbers and string escaping |
| json.dfy | Json | the JSON tree, compact rendering, parsing |
| values.dfy | Values | Python values, the calendar |
| encoder.dfy | Encoder | `isoformat()`, `DkJSONEncoder.default`, `json.dumps(cls=DkJSONEncoder)` |
| decoder.dfy | Decoder | `_get_tag`, `datetime_re`, `obj_decoder`, `loads` |
| jason.dfy | Jason | `dumps`/`dump2`/`loads` keywords, `dump2`, `_is_simpleval`, `jsonp`, `jsonname` |
| roundtrip.dfy | RoundTrip | what the decoder reads back of what the encoder writes |

Behaviour of the code that a reader might not expect, which the model keeps:

- A tagged string is revived only as an object member value, because only
  the object hook sees it. A date or datetime at the top level or in an
  array comes back as its tagged string (`RoundTrip.TopLevelDateKept`,
  `Decoder.ArrayElementKept`), not as a date.
- The digits after the point in `@datetime:` are used as the microsecond
  count without scaling: `.5` is 5 microseconds (`Decoder.FractionUnscaled`).
  The encoder always writes six digits, so its own output reads back
  exactly (`RoundTrip.FractionOf`).
- CPython 3.11 and later refuse to convert between `int` and decimal text
  beyond 4300 digits (the default `sys.int_max_str_digits`), with a
  ValueError. The model keeps this limit wherever the codec converts: in
  `'%d'` of a duration, in `json`'s `repr` of an integer and of an integer
  key, in `json`'s reading of an integer token, and in `int()` of the
  `@date:` parts and the `@datetime:` fraction (`Encoder.IntLimitEdge`,
  `Decoder.LongIntegerRefused`, `RoundTrip.DatetimeLongFraction`). The
  other `@datetime:` groups have at most four digits.

## Model

| member | source | states |
|---|---|---|
| Text.NatText | dkjason/jason.py:59 | `str(n)` is non-empty decimal digits with no leading zero, and denotes `n` |
| Text.IntText | dkjason/jason.py:59 | `'%d' % i` is the magnitude's digits, preceded by `-` exactly when `i` is negative |
| Text.ZeroPad | dkjason/jason.py:62-64 | the zero-padded field holds digits that denote `n`; it has exactly `width` characters when `n` fits |
| Text.StripLeftSuffix | dkjason/jason.py:154 | what `int()` keeps after removing leading whitespace is a suffix that starts with a non-space character, and only whitespace was dropped |
| Text.StripRightPrefix | dkjason/jason.py:154 | the same at the other end: a prefix ending in a non-space character, and only whitespace was dropped |
| Text.ParseIntSeparatorFails | dkjason/jason.py:154 | a character U+001C to U+001F in front makes `int()` raise ValueError, because `int()` strips only ASCII whitespace and the non-ASCII spaces |
| Text.ParseDigits | dkjason/jason.py:154 | the unsigned part of `int(part, 10)` succeeds exactly for underscore-separated digits with at most 4300 digits, CPython's default `int_max_str_digits`; its value is non-negative and can be written back as text, with either sign |
| Text.ParseIntUnderscores | dkjason/jason.py:154 | `int()` ignores the single underscores between digits: `int(b)` is `int()` of the digits alone, and so their value within the limit, as `int('2_020') == 2020` |
| Text.ParseIntDigits | dkjason/jason.py:154 | `int()` of plain decimal digits is the number they denote, leading zeros allowed, when there are at most 4300 of them, and raises ValueError otherwise |
| Text.DigitsValueAppend | dkjason/jason.py:154 | the value of joined digit strings is the first shifted by the second's length plus the second |
| Text.DigitsValueBound | dkjason/jason.py:154 | the value of k digits is below 10^k |
| Text.DigitsFit | dkjason/jason.py:154 | a number written with at most 4300 digits, and its negation, are within the limit of `str()` |
| Text.DigitCountPow10 | dkjason/jason.py:154 | 10^k has k + 1 digits; 10^k - 1 and 1 - 10^k have k |
| Text.Pow10Fits | dkjason/jason.py:154 | 10^k - 1 and 1 - 10^k are within the limit for every k up to 4300, and 10^4300 is not |
| Text.SmallFits | dkjason/jason.py:59 | an integer of at most four digits, such as a year, is within the limit |
| Utf8.DecodeEncode | dkjason/jason.py:165-166 | decoding the UTF-8 encoding of any text gives the text back |
| Utf8.DecodeFirstEncodeChar | dkjason/jason.py:165-166 | the first character decoded from a character's UTF-8 bytes is that character, and it used all of them |
| Utf8.DecodeAscii | dkjason/jason.py:165-166 | ASCII bytes always decode, one character per byte, with the same code |
| JsonText.IntTextScans | dkjason/jason.py:104 | the text `json` writes for an integer scans as one whole number, reads back as that integer, and has as many digits as the integer |
| JsonText.IntTextFits | dkjason/jason.py:104 | an integer is within the limit exactly when its text has at most 4300 digits, and the text reads back as the integer |
| JsonText.ScanQuoted | dkjason/jason.py:104 | the escaped form of any string, closed by a quote, scans back to the string and leaves the rest untouched |
| JsonText.ScanEscapeChar | dkjason/jason.py:104 | scanning a character's escape reads exactly that character and continues after it |
| JsonText.EscapePrintable | dkjason/jason.py:104 | with `ensure_ascii`, the escaped text is printable ASCII only |
| Json.ParseCompact | dkjason/jason.py:104 | the compact text of any tree, followed by a delimiter, parses back to the tree and leaves the rest |
| Json.IntTokenFits | dkjason/jason.py:167 | an integer token of at most 4300 digits gives an integer within the limit |
| Json.IntTokenTooLong | dkjason/jason.py:167 | an integer token of more than 4300 digits makes `int()` raise ValueError, so the value is not parsed |
| Json.IntTokenOf | dkjason/jason.py:104 | the text of an integer within the limit is read as one integer token, of allowed length, denoting that integer |
| Json.ParseOfCompact | dkjason/jason.py:98-104 | `json.loads` without a hook reads back every compact document `dump2` writes |
| Encoder.DateIsoPieces | dkjason/jason.py:63-64 | the ISO date is the year padded to four digits, `-`, the month in two, `-`, the day in two |
| Encoder.ClockIsoPieces | dkjason/jason.py:61-62 | the clock is hour, `:`, minute, `:`, second, two digits each |
| Encoder.TimeIsoPieces | dkjason/jason.py:61-62 | the time is the clock, followed by `.` and six microsecond digits only when there are microseconds |
| Encoder.DateTimeIsoPieces | dkjason/jason.py:61-62 | the ISO datetime is the date, `T`, then the time |
| Encoder.DateIsoShape | dkjason/jason.py:63-64 | `date.isoformat()` is `YYYY-MM-DD`: ten characters, dashes at 4 and 7, and groups that denote year, month and day |
| Encoder.ClockIsoShape | dkjason/jason.py:61-62 | the clock part is `HH:MM:SS`, and its groups denote hour, minute and second |
| Encoder.TimeIsoShape | dkjason/jason.py:61-62 | the time adds `.ffffff` (six digits denoting the microseconds) only when there are microseconds |
| Encoder.DateTimeIsoShape | dkjason/jason.py:61-62 | `datetime.isoformat()` is the date, `T` and the time: 19 characters, or 26 with microseconds |
| Encoder.DefaultShrinks | dkjason/jason.py:47-89 | what `default` returns is smaller than its argument, so the model's `Encode` is well-founded |
| Encoder.ObjectShrinks | dkjason/jason.py:51-77 | what `default` makes of a user object (its `__json__` result or its public attributes) is smaller than the object in the model |
| Encoder.EncodeItemsCons | dkjason/jason.py:79-87 | the items of a list or iterable are encoded one by one, in order |
| Encoder.EncodeMembersCons | dkjason/jason.py:79-87 | the entries of a dict or mapping are encoded one by one, in order, each key as its text |
| Encoder.HookWins | dkjason/jason.py:49-52 | an object with a `__json__` hook is not a Decimal, so `default` returns what the hook returns, before any later rule |
| Encoder.DateTimeTag | dkjason/jason.py:61-64 | a datetime is a date instance, yet is tagged `@datetime:` with its ISO text |
| Encoder.DateTimeTagText | dkjason/jason.py:61-64 | the `@datetime:` prefix is never read as the `@date:` prefix |
| Encoder.DateTag | dkjason/jason.py:63-64 | a date is tagged `@date:` with its ten-character ISO text |
| Encoder.DurationTag | dkjason/jason.py:58-59 | a duration is `@duration:` and its seconds in decimal, which read back as the seconds, exactly when that text has at most 4300 digits; otherwise `'%d'` raises ValueError |
| Encoder.IntEncodes | dkjason/jason.py:104 | an integer is written exactly when its decimal text has at most 4300 digits, and then as that text |
| Encoder.IntEdgeAt | dkjason/jason.py:104 | the integers of k nines, positive and negative, are written for every k up to 4300, and 10^4300 is refused |
| Encoder.IntLimitEdge | dkjason/jason.py:104 | `dump2(10**4300)` raises ValueError, while `10**4300 - 1` and `1 - 10**4300` are written |
| Encoder.PublicAttrsKeepsPublic | dkjason/jason.py:75-77 | the `__dict__` rule keeps exactly the attributes whose names do not start with `_`, with their values |
| Encoder.InstanceDictRule | dkjason/jason.py:75-77 | an object with `__dict__` and no hook becomes the dict of its public attributes |
| Encoder.NotSerializableIffNoRule | dkjason/jason.py:47-89 | `default` raises "not JSON serializable" exactly when no rule applies; its only other failures are bytes that are not UTF-8 and a duration with more than 4300 digits |
| Encoder.HookObjectExample | tests/test_jason.py:76-80 | a class whose `__json__` returns 42 is written as 42 |
| Encoder.InstanceDictExample | tests/test_jason.py:82-86 | an instance with `self.a = 42` is written as `{"a": 42}` |
| Encoder.SlotsObjectExample | tests/test_jason.py:104-108 | a `__slots__` class raises TypeError |
| Encoder.EmptyMappingExample | tests/test_jason.py:113-127 | an empty user Mapping is written as `{}` |
| Encoder.EmptyIterableExample | tests/test_jason.py:42-44 | an empty dict view or range is written as `[]` |
| Encoder.YearExample | tests/test_jason.py:93 | `Year(2017)` is written as `{"year": 2017, "kind": "YEAR"}` |
| Encoder.SetExample | tests/test_jason.py:92 | the set `{1, 2}`, iterated in that order, is written as `[1, 2]` |
| Decoder.TagText | dkjason/jason.py:127-130 | the tag exists exactly when the text holds a colon; it is the prefix up to and including the first colon |
| Decoder.TagTextPrefix | dkjason/jason.py:127-130 | a prefix whose only colon is its last character is the tag, whatever follows it |
| Decoder.TagTextIs | dkjason/jason.py:120-132 | a tag whose only colon is its last character is found exactly in the strings it starts |
| Decoder.KnownTags | dkjason/jason.py:137-152 | `_get_tag` returns `@datetime:` exactly for strings that start with it, and `@date:` exactly for strings that start with that |
| Decoder.OneOrTwoDigits | dkjason/jason.py:110-114 | `\d\d?` takes one or two digits greedily, and matches nothing exactly when no digit comes first |
| Decoder.LeadingDigits | dkjason/jason.py:115 | `\d+` takes the digits at the start of the text |
| Decoder.DecodeDatetime | dkjason/jason.py:137-149 | the `@datetime:` branch either raises or gives a datetime (its values are stated in `RoundTrip`) |
| Decoder.DecodeDate | dkjason/jason.py:152-155 | the `@date:` branch either raises or gives a date (its values are stated in `RoundTrip`) |
| Decoder.SplitJoin | dkjason/jason.py:155 | joining the parts of `split(sep)` with `sep` gives the text back |
| Decoder.SplitFirst | dkjason/jason.py:155 | `split` cuts at the first separator: the part before it, then the split of the rest |
| Decoder.SplitNone | dkjason/jason.py:155 | a text without the separator splits into itself alone |
| Decoder.SplitParts | dkjason/jason.py:155 | no part of `split(sep)` holds `sep` |
| Decoder.ParsePartsSome | dkjason/jason.py:154-155 | the list comprehension of `int(part, 10)` succeeds exactly when every part is an integer |
| Decoder.ParsePartsEach | dkjason/jason.py:154-155 | when the comprehension succeeds, `int()` accepts every part |
| Decoder.ParsePartsFails | dkjason/jason.py:154-155 | when it fails, some part is one `int()` refuses |
| Decoder.ParsePartsValues | dkjason/jason.py:154-155 | when it succeeds, it has one value per part, in order, each the part's `int()` |
| Decoder.AssignLookup | dkjason/jason.py:156 | after `res[key] = val`, the key maps to the value and every other key to what it mapped to before |
| Decoder.AssignKeys | dkjason/jason.py:156 | a new key goes last and nothing moves; an existing key keeps its place |
| Decoder.ObjDecoder | dkjason/jason.py:119-157 | the loop over the pairs returns what `DecodePairs` specifies: the ordered result, or the first member's exception |
| Decoder.ReviveMember | dkjason/jason.py:136-155 | one pass of the loop body: revives a member value by its tag or keeps it |
| Decoder.DecodePairsNext | dkjason/jason.py:135-156 | one more member either extends the result by `res[key] = val` or ends the decoding with its exception |
| Decoder.DecodePairsStops | dkjason/jason.py:135-156 | the first exception ends the decoding, and later members are not looked at |
| Decoder.DecodePairsOk | dkjason/jason.py:135-157 | the decoding succeeds exactly when every member value decodes |
| Decoder.DecodePairsInOrder | dkjason/jason.py:134-157 | with distinct keys, the result holds every key in input order, with its decoded value |
| Decoder.PassThrough | dkjason/jason.py:136-156 | a member value is stored unchanged exactly when it is not a string starting with `@datetime:` or `@date:` |
| Decoder.NoColonUntouched | dkjason/jason.py:127-128 | a string without a colon has no tag and is stored unchanged, e.g. `@date1970-05-02` |
| Decoder.OtherTagExample | tests/test_jason.py:144-146 | `@døte:` is a tag, but not one of the two, so its string is stored unchanged |
| Decoder.FractionUnscaled | dkjason/jason.py:148 | the digits after the point are the microseconds as written, not scaled; more than 4300 of them make `int()` fail |
| Decoder.HalfSecondExample | dkjason/jason.py:148 | `.5` reads as 5 microseconds |
| Decoder.LongIntegerRefused | dkjason/jason.py:165-167 | an integer document of more than 4300 digits makes `loads` raise ValueError, not a JSONDecodeError |
| Decoder.UntaggedLikePlain | dkjason/jason.py:163-164 | with no tagged member, `obj_decoder` builds what the plain `dict(pairs)` of `cls=` decoding builds |
| Decoder.LoadsBytes | dkjason/jason.py:165-166 | `loads` of UTF-8 bytes is `loads` of the text they encode |
| Decoder.TopLevelKept | dkjason/jason.py:164 | a tagged string at the top level is never revived |
| Decoder.ArrayElementKept | dkjason/jason.py:164 | a tagged string in an array is never revived |
| Decoder.KeyKept | dkjason/jason.py:156 | a tagged string used as a key is never revived |
| Jason.DumpsOptions | dkjason/jason.py:92-95 | `dumps` accepts only its three keywords, passes the given ones through and fills the others with indent 4, sorted keys and the tag encoder |
| Jason.Dump2Options | dkjason/jason.py:98-103 | `dump2` keeps every given keyword and adds `indent=None`, the tag encoder and `(',', ':')` only where missing |
| Jason.LoadsOptions | dkjason/jason.py:160-164 | without `cls`, `loads` adds `obj_decoder` as the hook unless one was given; with `cls`, the keywords are untouched |
| Jason.Dump2 | dkjason/jason.py:98-104 | `dump2` succeeds exactly when encoding does, and its text parses back to the encoded tree |
| Jason.SimpleValueEncodes | dkjason/jason.py:35-40 | a simple value encodes exactly unless it is an integer beyond the digit limit, and then as a scalar, never as a string starting with `@` |
| Jason.SimpleValKinds | dkjason/jason.py:35-40 | strings are simple exactly when they do not start with `@` (the empty string is simple); containers, dates, None and floats are compound |
| Jason.JsonpSimple | dkjason/jason.py:203-204 | a simple value that encodes gives `callback(<compact text>)`, and that text parses back to the encoded value (one that does not is `JsonpRefused`) |
| Jason.JsonpCompound | dkjason/jason.py:205-208 | a compound value gives `callback(<selector>(<literal>))`; the literal parses to a string holding the compact text, which parses back to the encoded value |
| Jason.JsonpRefused | dkjason/jason.py:200-208 | a value the encoder refuses makes `jsonp` raise the same exception |
| Jason.JsonNameChars | dkjason/jason.py:176-179 | `jsonname` keeps the length, turns each `.` into `_`, keeps every other character, and leaves no `.` |
| Jason.JsonNameIdempotent | dkjason/jason.py:176-179 | applying `jsonname` twice is applying it once |
| Jason.JsonNameAppend | dkjason/jason.py:176-179 | `jsonname` of a concatenation is the concatenation of the parts' names |
| Jason.JsonNameNoDot | dkjason/jason.py:176-179 | a name without dots is left as it is |
| Jason.JsonNameExample | tests/test_jason.py:167 | two dot-free names joined by a dot come out joined by `_`, as `hello.world` becomes `hello_world` |
| RoundTrip.DigitsLackSep | dkjason/jason.py:155 | decimal digits never hold a separator such as `-` |
| RoundTrip.DateIsoSplit | dkjason/jason.py:155 | the ISO text of a date splits at `-` into its three zero-padded groups |
| RoundTrip.ParseThree | dkjason/jason.py:154-155 | three parts that `int()` reads become the list of their three values |
| RoundTrip.ParseTwo | dkjason/jason.py:154-155 | two parts that `int()` reads become the list of their two values |
| RoundTrip.DateIsoParts | dkjason/jason.py:154-155 | the groups of a date's ISO text read back as its year, month and day |
| RoundTrip.DateRoundTrip | dkjason/jason.py:152-155 | the `@date:` branch reads back the date that the encoder wrote |
| RoundTrip.DateMemberRoundTrip | dkjason/jason.py:152-156 | a date becomes its tagged text, and as a member value that text becomes the same date again |
| RoundTrip.DateWrongCount | dkjason/jason.py:153-155 | integer parts that are not three in number raise TypeError |
| RoundTrip.DateBadPart | dkjason/jason.py:154-155 | a part that `int()` refuses raises ValueError |
| RoundTrip.DateSeparatorRefused | dkjason/jason.py:153-155 | an `@date:` text with U+001C to U+001F before the year raises ValueError |
| RoundTrip.DateOutOfRange | dkjason/jason.py:153-155 | three C-int parts that are not a calendar date raise ValueError |
| RoundTrip.DateTwoGroups | dkjason/jason.py:153-155 | two digit groups such as `2020-01` raise TypeError, or ValueError first when a group is beyond the digit limit |
| RoundTrip.FieldTwo | dkjason/jason.py:110-114 | a separator and two digits match one group and leave the rest |
| RoundTrip.Regroup | dkjason/jason.py:61-62 | the datetime text regroups so that each separator starts the rest |
| RoundTrip.DateTimeIsoSplit | dkjason/jason.py:61-62 | a datetime's text, plus whatever follows it, is the four-digit year followed by the groups, the fraction and the rest |
| RoundTrip.FieldsCons | dkjason/jason.py:110-114 | one more two-digit group in front of matching groups adds its value in front |
| RoundTrip.FiveFields | dkjason/jason.py:110-114 | `-Mo-DTh:Mi:S` with two digits per group matches the five groups, each with its value |
| RoundTrip.AfterYearFields | dkjason/jason.py:110-114 | the groups after the year read back as month, day, hour, minute and second |
| RoundTrip.TagYearRest | dkjason/jason.py:108-109 | after the tag come the four year characters and then the rest |
| RoundTrip.FractionOf | dkjason/jason.py:115 | the fraction group reads the microseconds back from the six digits `isoformat()` writes, or 0 when there are none |
| RoundTrip.MatchIso | dkjason/jason.py:107-116 | `datetime_re` matches the encoder's text, followed by ignorable text, with the datetime's own fields as groups |
| RoundTrip.MatchFrom | dkjason/jason.py:107-116 | how the pattern reads a text once its year and later groups are located |
| RoundTrip.MatchIsoFraction | dkjason/jason.py:107-116 | whatever follows the encoder's datetime text, `datetime_re` reads its fields, and the fraction from what follows the seconds |
| RoundTrip.DatetimeTrailing | dkjason/jason.py:137-149 | the `@datetime:` branch reads back the encoder's datetime, whatever ignorable text follows, because the match is anchored at the start only |
| RoundTrip.DatetimeMemberRoundTrip | dkjason/jason.py:137-149 | a datetime becomes its tagged text, and as a member value that text becomes the same datetime again |
| RoundTrip.DatetimeLongFraction | dkjason/jason.py:137-149 | a datetime without microseconds, followed by a point and more than 4300 digits, matches, and `int(g['ms'])` raises ValueError |
| RoundTrip.MatchLongFraction | dkjason/jason.py:107-116 | for such a text, the pattern gives the datetime's fields and a fraction `int()` refuses |
| RoundTrip.FieldsConsNone | dkjason/jason.py:110-114 | a group in front of groups that do not match does not make them match |
| RoundTrip.DatetimeDateOnly | dkjason/jason.py:139-140 | a date where a datetime is expected does not match, and `None.groupdict()` raises AttributeError |
| RoundTrip.Regroup3 | dkjason/jason.py:63-64 | a date text regroups so that each dash starts the rest |
| RoundTrip.SurfacePairs | dkjason/jason.py:135 | the pairs the hook receives for a dict: one per entry, in order, with the key's text and the value as `loads` first builds it |
| RoundTrip.MemberRevives | dkjason/jason.py:136-156 | every member value that survives is rebuilt by `obj_decoder` from what `loads` built for it |
| RoundTrip.DictRevives | dkjason/jason.py:134-157 | `obj_decoder` rebuilds a dict with distinct string keys, entry by entry and in order |
| RoundTrip.ReviveEncoded | dkjason/jason.py:160-167 | a surviving value encodes, and reading the tree back builds it, with dates still tagged strings at its top |
| RoundTrip.ScalarStep | dkjason/jason.py:160-167 | a surviving scalar encodes to a JSON scalar that reads back as itself |
| RoundTrip.DateStep | dkjason/jason.py:63-64 | a date encodes to its tagged string, which is read as that string |
| RoundTrip.DateTimeStep | dkjason/jason.py:61-62 | a datetime encodes to its tagged string, which is read as that string |
| RoundTrip.ListStep | dkjason/jason.py:160-167 | a list encodes to an array that reads back item by item |
| RoundTrip.DictStep | dkjason/jason.py:160-167 | a dict encodes to an object whose members are read back and handed to the hook |
| RoundTrip.ItemsRevive | dkjason/jason.py:160-167 | list items that survive encode, and read back as themselves |
| RoundTrip.MembersRevive | dkjason/jason.py:160-167 | dict entries that survive encode, and read back as the pairs the hook receives |
| RoundTrip.Dump2Loads | tests/test_jason.py:20-30 | `loads(dump2(v)) == v` for every value that survives at the top level: lists, dicts with distinct string keys, and integers within the digit limit among them |
| RoundTrip.TopLevelDateKept | dkjason/jason.py:164 | a date at the top level encodes, and comes back as its tagged string, not as a date |

## Left out

- `response`, `jsonval` and the `HttpResponse` in `jsonp` (dkjason/jason.py:182-197, 210-213) are Django plumbing. `jsonp` is modelled as the text it builds.
- `json_eval` (dkjason/jason.py:170-173) is `loads` with no keywords, and is not modelled separately.
- The pretty layout of `dumps` (indentation and key sorting) is not rendered. Only its keyword defaults are modelled (`Jason.DumpsOptions`), and documents are rendered in the compact `dump2` form.
- RoundTrip.Dump2Loads: the round trip is stated for `dump2`, not for `dumps`, whose layout is not rendered. The tests' round trip goes through `dumps`.
- Keyword arguments that change `json` itself (a user `cls`, `indent` or `separators` value, or an `object_pairs_hook`) are recorded by the option methods. Their effect on the text is not modelled, because it is user code. With `cls`, decoding is modelled as the plain `dict(pairs)`.
- Floats are carried as their `repr` text, and a Decimal as the text of `float(d)`. Floating-point conversion, NaN and Infinity are not modelled.
- `ttcal.Year`, `ttcal.Duration` and QuerySets are given as their year, their `toint()` seconds and their rows. The libraries' own code is not part of this model.
- A set is given in its iteration order, which Python does not fix.
- Strings are sequences of Unicode scalar values, so lone surrogates cannot be written or read.
- `\d` in `datetime_re` and the digits `int()` accepts are ASCII digits only. Python also accepts other Unicode decimal digits.
- `str(v)` in `_get_tag` cannot raise in Python 3, so its `UnicodeEncodeError` branch (dkjason/jason.py:124-125) is not modelled.
- `loads` is modelled as parse first, then revive. When a text has both a syntax error and a bad tag, Python may report the tag's exception where the model reports the syntax error. Both are failures.
- `datetime.date(*parts)` checks the argument count before converting to C `int`, as CPython 3.13 and later do. Earlier versions may raise OverflowError first for a wrong count of huge parts. The model raises TypeError.
- Decoder.DecodeDatetime: its own contract only says that success gives a datetime. The values it gives and its failures are stated in the `RoundTrip` lemmas for the texts the encoder writes (`DatetimeTrailing`, `DatetimeDateOnly`), not for every text.
- Decoder.DecodeDate: its own contract only says that success gives a date. The value and the TypeError/ValueError cases are stated in the `RoundTrip` lemmas (`DateRoundTrip`, `DateWrongCount`, `DateBadPart`, `DateOutOfRange`).
- Encoder.DefaultShrinks: values are finite, acyclic trees. `json`'s "Circular reference detected" ValueError is not modelled, nor an object whose `__json__` returns itself or ever larger values (RecursionError in Python), nor an infinite iterable.
- Encoder.ObjectShrinks: the `__json__` result is a part of the object's value in the model, so a hook that returns the object itself or builds new objects without end cannot be expressed.
- Aware datetimes and times (with `tzinfo`) are not modelled. For an aware datetime `isoformat()` adds a UTC offset that `datetime_re` stops before, so `loads` would give back a naive datetime and lose the offset.
- Tuples are not a value of their own. `json` writes a tuple as an array and `loads` gives back a list, so a tuple does not survive the round trip as a tuple.
- Dict entries, set elements and mapping entries are taken to have distinct keys, as Python's dicts and sets have. The datatype does not enforce it, and `Default` passes a mapping's entries through where `dict(obj)` would merge duplicates (the last value, at the first position).
- `sys.set_int_max_str_digits` is not modelled: the limit is the default 4300.
- The `NUMPY` test (tests/test_jason.py:6, 33-35) uses a name that `dkjason.jason` does not define, and is not modelled.
