/**
 The parser as a function of the buffer content and offset: parse_value, parse_array, parse_object
 and cJSON_ParseWithOpts. How numbers and strings are read is a parameter here; module JsonTokens
 says how the library reads them.
 */
module JsonParse {
  import opened Json

  const NESTING_LIMIT: nat := 1000

  datatype Parsed<+T> = Failed | Parsed(value: T, offset: nat)

  /** How a number and a string at an offset of a buffer are read. */
  datatype Reader = Reader(number: (string, nat) -> Parsed<real>, text: (string, nat) -> Parsed<string>)

  /** What a reader found, as long as it is a piece of the buffer. */
  function Within<T>(c: string, o: nat, r: Parsed<T>): Parsed<T>
  {
    if r.Parsed? && o < r.offset <= |c| then r else Failed
  }

  /** First character above 32 from an offset on, or the length. */
  function FirstDark(c: string, o: nat): (e: nat)
    requires o <= |c|
    ensures o <= e <= |c|
    ensures e < |c| ==> c[e] > ' '
    decreases |c| - o
  {
    if o == |c| || c[o] > ' ' then o else FirstDark(c, o + 1)
  }

  /** buffer_skip_whitespace: it steps back from the end of the buffer */
  function SkipWhitespace(c: string, o: nat): (e: nat)
    requires o <= |c|
    ensures o <= e <= |c|
    ensures o < |c| ==> e < |c|
  {
    if o < |c| && FirstDark(c, o) == |c| then |c| - 1 else FirstDark(c, o)
  }

  /** The text s is found at this offset. */
  predicate StartsWith(c: string, o: nat, s: string)
    ensures StartsWith(c, o, s) ==> o + |s| <= |c|
    decreases s
  {
    if s == "" then o <= |c| else o < |c| && c[o] == s[0] && StartsWith(c, o + 1, s[1..])
  }

  predicate At(c: string, o: nat, ch: char) { o < |c| && c[o] == ch }

  predicate NumberStart(ch: char) { ch == '-' || '0' <= ch <= '9' }

  function ParseValue(r: Reader, c: string, o: nat, depth: nat): (v: Parsed<Json>)
    requires o <= |c|
    ensures v.Parsed? ==> o < v.offset <= |c|
    decreases |c| - o, 1
  {
    if StartsWith(c, o, "null") then Parsed(Null, o + 4)
    else if StartsWith(c, o, "false") then Parsed(False, o + 5)
    else if StartsWith(c, o, "true") then Parsed(True, o + 4)
    else if At(c, o, '\"') then
      var s := Within(c, o, r.text(c, o));
      if s.Failed? then Failed else Parsed(String(s.value), s.offset)
    else if o < |c| && NumberStart(c[o]) then
      var d := Within(c, o, r.number(c, o));
      if d.Failed? then Failed else Parsed(Number(d.value), d.offset)
    else if At(c, o, '[') then ParseArray(r, c, o, depth)
    else if At(c, o, '{') then ParseObject(r, c, o, depth)
    else Failed
  }

  function ParseArray(r: Reader, c: string, o: nat, depth: nat): (v: Parsed<Json>)
    requires o < |c|
    ensures v.Parsed? ==> o < v.offset <= |c|
    decreases |c| - o, 0
  {
    if depth >= NESTING_LIMIT then Failed
    else
      var s := SkipWhitespace(c, o + 1);
      if At(c, s, ']') then Parsed(Array([]), s + 1)
      else if s >= |c| then Failed
      else
        var items := ParseItems(r, c, s, depth + 1);
        if items.Failed? then Failed else Parsed(Array(items.value), items.offset)
  }

  function ParseObject(r: Reader, c: string, o: nat, depth: nat): (v: Parsed<Json>)
    requires o < |c|
    ensures v.Parsed? ==> o < v.offset <= |c|
    decreases |c| - o, 0
  {
    if depth >= NESTING_LIMIT then Failed
    else
      var s := SkipWhitespace(c, o + 1);
      if At(c, s, '}') then Parsed(Object([]), s + 1)
      else if s >= |c| then Failed
      else
        var ms := ParseMembers(r, c, s, depth + 1);
        if ms.Failed? then Failed else Parsed(Object(ms.value), ms.offset)
  }

  /** The loop of parse_array, from the character after '[' or ','. */
  function ParseItems(r: Reader, c: string, o: nat, depth: nat): (vs: Parsed<seq<Json>>)
    requires o <= |c|
    ensures vs.Parsed? ==> o < vs.offset <= |c|
    decreases |c| - o, 2
  {
    var v := ParseValue(r, c, SkipWhitespace(c, o), depth);
    if v.Failed? then Failed
    else
      var s := SkipWhitespace(c, v.offset);
      if At(c, s, ',') then
        var rest := ParseItems(r, c, s + 1, depth);
        if rest.Failed? then Failed else Parsed([v.value] + rest.value, rest.offset)
      else if At(c, s, ']') then Parsed([v.value], s + 1)
      else Failed
  }

  /** The name of a member and the colon: the name, and the offset after the colon. */
  function ParseName(r: Reader, c: string, o: nat): (key: Parsed<string>)
    requires o <= |c|
    ensures key.Parsed? ==> o < key.offset <= |c|
  {
    var q := SkipWhitespace(c, o);
    var key := if At(c, q, '\"') then Within(c, q, r.text(c, q)) else Failed;
    if key.Failed? then Failed
    else
      var k := SkipWhitespace(c, key.offset);
      if At(c, k, ':') then Parsed(key.value, k + 1) else Failed
  }

  /** One member: its name, the colon and its value. */
  function ParseMember(r: Reader, c: string, o: nat, depth: nat): (m: Parsed<Member>)
    requires o <= |c|
    ensures m.Parsed? ==> o < m.offset <= |c|
    decreases |c| - o, 2
  {
    var key := ParseName(r, c, o);
    if key.Failed? then Failed
    else
      var v := ParseValue(r, c, SkipWhitespace(c, key.offset), depth);
      if v.Failed? then Failed else Parsed(Member(key.value, v.value), v.offset)
  }

  /** The loop of parse_object, from the character after '{' or ','. */
  function ParseMembers(r: Reader, c: string, o: nat, depth: nat): (ms: Parsed<seq<Member>>)
    requires o <= |c|
    ensures ms.Parsed? ==> o < ms.offset <= |c|
    decreases |c| - o, 3
  {
    var m := ParseMember(r, c, o, depth);
    if m.Failed? then Failed
    else
      var s := SkipWhitespace(c, m.offset);
      if At(c, s, ',') then
        var rest := ParseMembers(r, c, s + 1, depth);
        if rest.Failed? then Failed else Parsed([m.value] + rest.value, rest.offset)
      else if At(c, s, '}') then Parsed([m.value], s + 1)
      else Failed
  }

  /** skip_utf8_bom */
  function SkipBom(c: string): (o: nat)
    ensures o <= |c|
  {
    if 4 < |c| && c[0] as int == 0xEF && c[1] as int == 0xBB && c[2] as int == 0xBF then 3 else 0
  }

  /** cJSON_ParseWithLengthOpts */
  function ParseBuffer(r: Reader, c: string, terminated: bool): Option<Json>
  {
    if c == "" then None
    else
      var v := ParseValue(r, c, SkipWhitespace(c, SkipBom(c)), 0);
      if v.Failed? then None
      else if terminated && !At(c, SkipWhitespace(c, v.offset), '\0') then None
      else Some(v.value)
  }

  /** A byte string as a C string: it ends at the first NUL. */
  function CString(s: string): string
  {
    if s == "" || s[0] == '\0' then "" else [s[0]] + CString(s[1..])
  }

  /** cJSON_ParseWithOpts: the buffer is the C string with its terminator */
  function Parse(r: Reader, text: string, terminated: bool): Option<Json>
  {
    ParseBuffer(r, CString(text) + "\0", terminated)
  }
}
