/**
 How the library writes and reads numbers and strings: print_number, print_string_ptr, parse_number
 and parse_string, and that each reader undoes its writer. The C library's number formatting and
 strtod are parameters.
 */
module JsonTokens {
  import opened Json
  import opened JsonText
  import opened JsonParse
  import opened JsonTreeRoundTrip

  // ----- numbers

  /** sprintf with "%1.15g" and "%1.17g", and strtod: the value read and the number of characters
      used, 0 when the text does not start with a number. */
  datatype Libc = Libc(g15: real -> string, g17: real -> string, strtod: string -> (real, nat))

  /** strtod on a text; it stops within it. */
  function Strtod(lib: Libc, s: string): (r: (real, nat))
    ensures r.1 <= |s|
  {
    var (d, n) := lib.strtod(s);
    (d, if n <= |s| then n else |s|)
  }

  /** print_number: 15 digits if they read back close enough, otherwise 17 */
  function NumberText(lib: Libc, d: real): string
  {
    var (test, n) := Strtod(lib, lib.g15(d));
    if n > 0 && CompareDouble(test, d) then lib.g15(d) else lib.g17(d)
  }

  /** The characters parse_number copies: up to 63 of the number class. */
  function NumberRun(c: string, o: nat, n: nat): (r: string)
    requires o <= |c|
    ensures |r| <= n && o + |r| <= |c|
    decreases n
  {
    if n == 0 || o == |c| || !NumberChar(c[o]) then "" else [c[o]] + NumberRun(c, o + 1, n - 1)
  }

  /** They are as many as there are, up to that limit. */
  lemma {:induction false} RunIsLongest(c: string, o: nat, n: nat)
    requires o <= |c|
    ensures
      var r := NumberRun(c, o, n);
      && r == c[o..o + |r|] && (forall i | 0 <= i < |r| :: NumberChar(r[i]))
      && (|r| == n || o + |r| == |c| || !NumberChar(c[o + |r|]))
    decreases n
  {
    if n > 0 && o < |c| && NumberChar(c[o]) { RunIsLongest(c, o + 1, n - 1); }
  }

  function ReadNumber(lib: Libc, c: string, o: nat): (r: Parsed<real>)
    ensures r.Parsed? ==> o < r.offset <= |c|
  {
    if o >= |c| then Failed
    else
      var (d, n) := Strtod(lib, NumberRun(c, o, 63));
      if n == 0 then Failed else Parsed(d, o + n)
  }

  /** What the C library promises of a number it renders: at most 25 characters of a number, all
      of which strtod reads. */
  predicate Token(lib: Libc, s: string)
  {
    && 0 < |s| <= 25 && NumberStart(s[0])
    && (forall i | 0 <= i < |s| :: NumberChar(s[i]))
    && lib.strtod(s).1 == |s|
  }

  /** The number is a double: 17 digits give it back. */
  predicate Renders(lib: Libc, d: real)
  {
    Token(lib, lib.g15(d)) && Token(lib, lib.g17(d)) && lib.strtod(lib.g17(d)).0 == d
  }

  /** The value a printed number has when it is read again. */
  function Again(lib: Libc, d: real): real { Strtod(lib, NumberText(lib, d)).0 }

  /** It is close to the number that was printed, by the library's own measure. */
  lemma AgainIsClose(lib: Libc, d: real)
    requires Renders(lib, d)
    ensures CompareDouble(Again(lib, d), d)
  {
  }

  lemma {:induction false} RunIsToken(c: string, o: nat, t: string, n: nat)
    requires StartsWith(c, o, t) && |t| <= n && Ends(c, o + |t|)
    requires forall i | 0 <= i < |t| :: NumberChar(t[i])
    ensures NumberRun(c, o, n) == t
    decreases |t|
  {
    if t != "" {
      Char(c, o, t, 0);
      assert t == [t[0]] + t[1..];
      RunIsToken(c, o + 1, t[1..], n - 1);
    }
  }

  /** parse_number undoes print_number, up to the digits printed. */
  lemma NumberRoundTrip(lib: Libc, c: string, o: nat, d: real)
    requires Renders(lib, d) && StartsWith(c, o, NumberText(lib, d)) && Ends(c, o + |NumberText(lib, d)|)
    ensures ReadNumber(lib, c, o) == Parsed(Again(lib, d), o + |NumberText(lib, d)|)
  {
    RunIsToken(c, o, NumberText(lib, d), 63);
  }

  // ----- strings

  function HexDigit(n: nat): char
    requires n < 16
  {
    if n < 10 then '0' + n as char else 'a' + (n - 10) as char
  }

  function EscapeChar(ch: char): (r: string)
    ensures 1 <= |r| <= 6
  {
    match ch
    case '\"' => "\\\""
    case '\\' => "\\\\"
    case '\U{8}' => "\\b"
    case '\U{C}' => "\\f"
    case '\n' => "\\n"
    case '\r' => "\\r"
    case '\t' => "\\t"
    case _ => if ch < ' ' then "\\u00" + [HexDigit(ch as int / 16), HexDigit(ch as int % 16)] else [ch]
  }

  function Escaped(s: string): string
  {
    if s == "" then "" else EscapeChar(s[0]) + Escaped(s[1..])
  }

  /** print_string_ptr */
  function Quoted(s: string): string { "\"" + Escaped(s) + "\"" }

  /** The closing quote, skipping the character after each backslash. */
  function ClosingQuote(c: string, p: nat): (e: Option<nat>)
    requires p <= |c|
    ensures e.Some? ==> p <= e.value < |c| && c[e.value] == '\"'
    decreases |c| - p
  {
    if p >= |c| then None
    else if c[p] == '\"' then Some(p)
    else if c[p] != '\\' then ClosingQuote(c, p + 1)
    else if p + 1 >= |c| then None
    else ClosingQuote(c, p + 2)
  }

  function HexValue(ch: char): int
  {
    if '0' <= ch <= '9' then ch as int - '0' as int
    else if 'A' <= ch <= 'F' then 10 + ch as int - 'A' as int
    else if 'a' <= ch <= 'f' then 10 + ch as int - 'a' as int
    else -1
  }

  /** parse_hex4: 0 if a digit is invalid */
  function Hex4(c: string, p: nat): (h: nat)
    requires p + 4 <= |c|
    ensures h < 0x10000
  {
    var (a, b, d, e) := (HexValue(c[p]), HexValue(c[p + 1]), HexValue(c[p + 2]), HexValue(c[p + 3]));
    if a < 0 || b < 0 || d < 0 || e < 0 then 0 else 4096 * a + 256 * b + 16 * d + e
  }

  function Utf8(code: nat): (r: string)
    requires code <= 0x10FFFF
    ensures |r| == if code < 0x80 then 1 else if code < 0x800 then 2 else if code < 0x10000 then 3 else 4
  {
    if code < 0x80 then [code as char]
    else if code < 0x800 then [(0xC0 + code / 64) as char, (0x80 + code % 64) as char]
    else if code < 0x10000 then
      [(0xE0 + code / 4096) as char, (0x80 + code / 64 % 64) as char, (0x80 + code % 64) as char]
    else
      [(0xF0 + code / 262144) as char, (0x80 + code / 4096 % 64) as char, (0x80 + code / 64 % 64) as char,
       (0x80 + code % 64) as char]
  }

  lemma DivideTwice(code: nat)
    ensures code / 64 / 64 == code / 4096 && code / 64 / 64 / 64 == code / 262144
  {
  }

  /** utf16_literal_to_utf8: the length of the sequence, 0 if it is refused, and its bytes */
  function Utf16(c: string, p: nat, end: nat): (r: (nat, string))
    requires p < end <= |c|
    ensures r.0 == 0 || r.0 == 6 || r.0 == 12
    ensures p + r.0 <= end
    ensures r.0 == 6 ==> 1 <= |r.1| <= 3
    ensures r.0 == 12 ==> |r.1| == 4
  {
    if end - p < 6 then (0, "")
    else
      var first := Hex4(c, p + 2);
      if 0xDC00 <= first <= 0xDFFF then (0, "")
      else if !(0xD800 <= first <= 0xDBFF) then (6, Utf8(first))
      else if end - (p + 6) < 6 || c[p + 6] != '\\' || c[p + 7] != 'u' then (0, "")
      else
        var second := Hex4(c, p + 8);
        if !(0xDC00 <= second <= 0xDFFF) then (0, "")
        else (12, Utf8(0x10000 + 1024 * (first - 0xD800) + (second - 0xDC00)))
  }

  /** What a backslash and this character stand for; None for an unknown escape. */
  function Unescaped(ch: char): Option<char>
  {
    match ch
    case 'b' => Some('\U{8}')
    case 'f' => Some('\U{C}')
    case 'n' => Some('\n')
    case 'r' => Some('\r')
    case 't' => Some('\t')
    case '\"' => Some('\"')
    case '\\' => Some('\\')
    case '/' => Some('/')
    case _ => None
  }

  function Prepend(s: string, t: Option<string>): Option<string>
  {
    if t.None? then None else Some(s + t.value)
  }

  /** One step of the second pass: the characters it takes, 0 if it fails, and the bytes they stand for. */
  function DecodeStep(c: string, p: nat, end: nat): (r: (nat, string))
    requires p < end < |c|
    ensures p + r.0 <= end + 1
    ensures r.0 > 0 ==> 1 <= |r.1| <= 4
  {
    if c[p] != '\\' then (1, [c[p]])
    else if c[p + 1] == 'u' then Utf16(c, p, end)
    else
      var ch := Unescaped(c[p + 1]);
      if ch.None? then (0, "") else (2, [ch.value])
  }

  /** The second pass of parse_string, up to the closing quote at `end`. */
  function Decode(c: string, p: nat, end: nat): Option<string>
    requires end < |c| && p <= end + 1
    decreases end + 1 - p
  {
    if p >= end then Some("")
    else
      var (n, bytes) := DecodeStep(c, p, end);
      if n == 0 then None else Prepend(bytes, Decode(c, p + n, end))
  }

  /** parse_string */
  function ReadString(c: string, o: nat): (r: Parsed<string>)
    ensures r.Parsed? ==> o < r.offset <= |c|
  {
    if o >= |c| || c[o] != '\"' then Failed
    else
      var end := ClosingQuote(c, o + 1);
      if end.None? then Failed
      else
        var s := Decode(c, o + 1, end.value);
        if s.None? then Failed else Parsed(CString(s.value), end.value + 1)
  }

  lemma ScanEscape(c: string, p: nat, ch: char)
    requires StartsWith(c, p, EscapeChar(ch))
    ensures ClosingQuote(c, p) == ClosingQuote(c, p + |EscapeChar(ch)|)
  {
    var e := EscapeChar(ch);
    Char(c, p, e, 0);
    if |e| == 6 {
      Char(c, p, e, 2);
      Char(c, p, e, 3);
      Char(c, p, e, 4);
      Char(c, p, e, 5);
      assert ClosingQuote(c, p + 2) == ClosingQuote(c, p + 3);
      assert ClosingQuote(c, p + 3) == ClosingQuote(c, p + 4);
      assert ClosingQuote(c, p + 4) == ClosingQuote(c, p + 5);
    }
  }

  lemma HexBack(n: nat)
    requires n < 16
    ensures HexValue(HexDigit(n)) == n
  {
  }

  /** A control character written as \\u00XY. */
  lemma UnicodeEscape(c: string, p: nat, ch: char, end: nat)
    requires ch < ' ' && StartsWith(c, p, "\\u00" + [HexDigit(ch as int / 16), HexDigit(ch as int % 16)]) && p + 6 <= end < |c|
    ensures c[p] == '\\' && c[p + 1] == 'u' && Utf16(c, p, end) == (6, [ch])
  {
    var e := "\\u00" + [HexDigit(ch as int / 16), HexDigit(ch as int % 16)];
    Char(c, p, e, 0);
    Char(c, p, e, 1);
    Char(c, p, e, 2);
    Char(c, p, e, 3);
    Char(c, p, e, 4);
    Char(c, p, e, 5);
    HexBack(ch as int / 16);
    HexBack(ch as int % 16);
    assert Hex4(c, p + 2) == 16 * (ch as int / 16) + ch as int % 16 == ch as int;
    assert Utf8(ch as int) == [ch];
  }

  /** One step of the decoder takes one escaped character. */
  lemma DecodeEscape(c: string, p: nat, ch: char, end: nat)
    requires StartsWith(c, p, EscapeChar(ch)) && p + |EscapeChar(ch)| <= end < |c|
    ensures DecodeStep(c, p, end) == (|EscapeChar(ch)|, [ch])
  {
    var e := EscapeChar(ch);
    Char(c, p, e, 0);
    if |e| == 6 {
      UnicodeEscape(c, p, ch, end);
    } else if |e| == 2 {
      Char(c, p, e, 1);
    }
  }

  lemma {:induction false} ScanEscaped(c: string, p: nat, s: string)
    requires StartsWith(c, p, Escaped(s) + "\"")
    ensures ClosingQuote(c, p) == Some(p + |Escaped(s)|)
    decreases |s|
  {
    if s == "" {
      Char(c, p, Escaped(s) + "\"", 0);
    } else {
      assert Escaped(s) + "\"" == EscapeChar(s[0]) + (Escaped(s[1..]) + "\"");
      var n := p + |EscapeChar(s[0])|;
      Split(c, p, EscapeChar(s[0]), n, Escaped(s[1..]) + "\"");
      ScanEscape(c, p, s[0]);
      ScanEscaped(c, n, s[1..]);
    }
  }

  lemma {:induction false} DecodeEscaped(c: string, p: nat, s: string, end: nat)
    requires StartsWith(c, p, Escaped(s)) && end == p + |Escaped(s)| < |c|
    ensures Decode(c, p, end) == Some(s)
    decreases |s|
  {
    if s != "" {
      var n := p + |EscapeChar(s[0])|;
      Split(c, p, EscapeChar(s[0]), n, Escaped(s[1..]));
      DecodeEscape(c, p, s[0], end);
      DecodeEscaped(c, n, s[1..], end);
      assert [s[0]] + s[1..] == s;
      assert Decode(c, p, end) == Prepend([s[0]], Decode(c, n, end));
    }
  }

  predicate NulFree(s: string) { forall i | 0 <= i < |s| :: s[i] != '\0' }

  lemma {:induction false} CStringSelf(s: string)
    requires NulFree(s)
    ensures CString(s) == s
  {
    if s != "" {
      CStringSelf(s[1..]);
      assert [s[0]] + s[1..] == s;
    }
  }

  /** The quotes and the text between them. */
  lemma QuotedAt(c: string, o: nat, s: string, end: nat)
    requires StartsWith(c, o, Quoted(s)) && end == o + 1 + |Escaped(s)|
    ensures o < |c| && c[o] == '\"' && end < |c|
    ensures StartsWith(c, o + 1, Escaped(s) + "\"") && StartsWith(c, o + 1, Escaped(s))
  {
    assert Quoted(s) == "\"" + (Escaped(s) + "\"");
    Split(c, o, "\"", o + 1, Escaped(s) + "\"");
    Char(c, o, "\"", 0);
    Split(c, o + 1, Escaped(s), end, "\"");
  }

  /** parse_string undoes print_string_ptr. */
  lemma StringRoundTrip(c: string, o: nat, s: string)
    requires StartsWith(c, o, Quoted(s)) && NulFree(s)
    ensures ReadString(c, o) == Parsed(s, o + |Quoted(s)|)
  {
    var end := o + 1 + |Escaped(s)|;
    QuotedAt(c, o, s, end);
    ScanEscaped(c, o + 1, s);
    DecodeEscaped(c, o + 1, s, end);
    CStringSelf(s);
  }

  // ----- whole trees

  function CWriter(lib: Libc): Writer { Writer(d => NumberText(lib, d), s => Quoted(s)) }

  function CReader(lib: Libc): Reader { Reader((c: string, o: nat) => ReadNumber(lib, c, o), (c: string, o: nat) => ReadString(c, o)) }

  function CCodec(lib: Libc): Codec { Codec(CWriter(lib), CReader(lib), d => Again(lib, d)) }

  /** A tree the printer accepts: no invalid items, C strings, numbers that are doubles. */
  predicate Printable(lib: Libc, v: Json)
  {
    match v
    case Invalid => false
    case Number(d) => Renders(lib, d)
    case String(s) => NulFree(s)
    case Array(items) => forall i | 0 <= i < |items| :: Printable(lib, items[i])
    case Object(ms) => forall i | 0 <= i < |ms| :: NulFree(ms[i].key) && Printable(lib, ms[i].value)
    case _ => true
  }

  lemma StringsFit(lib: Libc, c: string, s: string)
    requires NulFree(s)
    ensures StringFits(CCodec(lib), c, s)
  {
    forall o: nat | StartsWith(c, o, Quoted(s)) ensures ReadString(c, o) == Parsed(s, o + |Quoted(s)|) {
      StringRoundTrip(c, o, s);
    }
  }

  lemma NumbersFit(lib: Libc, c: string, d: real)
    requires Renders(lib, d)
    ensures NumberFits(CCodec(lib), c, d)
  {
    var t := NumberText(lib, d);
    forall o: nat | StartsWith(c, o, t) && Ends(c, o + |t|) ensures ReadNumber(lib, c, o) == Parsed(Again(lib, d), o + |t|) {
      NumberRoundTrip(lib, c, o, d);
    }
  }

  lemma {:induction false} PrintableFits(lib: Libc, c: string, v: Json)
    requires Printable(lib, v)
    ensures Fits(CCodec(lib), c, v)
    decreases v
  {
    match v
    case Number(d) => NumbersFit(lib, c, d);
    case String(s) => StringsFit(lib, c, s);
    case Array(items) =>
      forall i | 0 <= i < |items| ensures Fits(CCodec(lib), c, items[i]) { PrintableFits(lib, c, items[i]); }
    case Object(ms) =>
      forall i | 0 <= i < |ms| ensures StringFits(CCodec(lib), c, ms[i].key) && Fits(CCodec(lib), c, ms[i].value) {
        StringsFit(lib, c, ms[i].key);
        PrintableFits(lib, c, ms[i].value);
      }
    case _ =>
  }
}
