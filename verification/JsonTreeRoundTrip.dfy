/**
 Parsing what was printed, for any writer and reader of numbers and strings that fit each other:
 the tree comes back exactly when its nesting depth is within the parser's limit.
 */
module JsonTreeRoundTrip {
  import opened Json
  import opened JsonText
  import opened JsonParse

  // ----- pieces of text at an offset

  lemma {:induction false} Split(c: string, o: nat, a: string, p: nat, b: string)
    requires StartsWith(c, o, a + b) && p == o + |a|
    ensures StartsWith(c, o, a) && StartsWith(c, p, b)
    decreases |a|
  {
    if a == "" {
      assert a + b == b;
    } else {
      assert (a + b)[1..] == a[1..] + b;
      Split(c, o + 1, a[1..], p, b);
    }
  }

  lemma {:induction false} Join(c: string, o: nat, a: string, p: nat, b: string)
    requires StartsWith(c, o, a) && StartsWith(c, p, b) && p == o + |a|
    ensures StartsWith(c, o, a + b)
    decreases |a|
  {
    if a == "" {
      assert a + b == b;
    } else {
      Join(c, o + 1, a[1..], p, b);
      assert (a + b)[1..] == a[1..] + b;
    }
  }

  lemma {:induction false} SliceStarts(c: string, p: nat, s: string)
    requires p + |s| <= |c| && c[p..p + |s|] == s
    ensures StartsWith(c, p, s)
    decreases |s|
  {
    if s != "" {
      assert c[p + 1..p + |s|] == c[p..p + |s|][1..];
      SliceStarts(c, p + 1, s[1..]);
    }
  }

  lemma {:induction false} Char(c: string, o: nat, t: string, i: nat)
    requires StartsWith(c, o, t) && i < |t|
    ensures c[o + i] == t[i]
    decreases i
  {
    if i > 0 { Char(c, o + 1, t[1..], i - 1); }
  }

  predicate Blank(w: string) { forall i | 0 <= i < |w| :: w[i] <= ' ' }

  lemma {:induction false} DarkAfter(c: string, o: nat, e: nat)
    requires o <= e < |c| && c[e] > ' ' && forall i | o <= i < e :: c[i] <= ' '
    ensures FirstDark(c, o) == e
    decreases e - o
  {
    if o < e { DarkAfter(c, o + 1, e); }
  }

  lemma SkipBlank(c: string, o: nat, w: string)
    requires StartsWith(c, o, w) && Blank(w) && o + |w| < |c| && c[o + |w|] > ' '
    ensures SkipWhitespace(c, o) == o + |w|
  {
    forall i | o <= i < o + |w| ensures c[i] <= ' ' { Char(c, o, w, i - o); }
    DarkAfter(c, o, o + |w|);
  }

  predicate NumberChar(ch: char) { '0' <= ch <= '9' || ch == '+' || ch == '-' || ch == 'e' || ch == 'E' || ch == '.' }

  /** A value ends here: another character follows, and it is not part of a number. */
  predicate Ends(c: string, e: nat) { e < |c| && !NumberChar(c[e]) }

  // ----- writers and readers that fit

  /** A way to write numbers and strings, a way to read them, and what a number is read back as. */
  datatype Codec = Codec(w: Writer, r: Reader, again: real -> real)

  /** Wherever the number is written and ends, it is read. */
  ghost predicate NumberFits(k: Codec, c: string, d: real)
  {
    && k.w.number(d) != "" && NumberStart(k.w.number(d)[0])
    && forall o: nat | StartsWith(c, o, k.w.number(d)) && Ends(c, o + |k.w.number(d)|) ::
         k.r.number(c, o) == Parsed(k.again(d), o + |k.w.number(d)|)
  }

  /** Wherever the string is written, it is read. */
  ghost predicate StringFits(k: Codec, c: string, s: string)
  {
    && k.w.quote(s) != "" && k.w.quote(s)[0] == '\"'
    && forall o: nat | StartsWith(c, o, k.w.quote(s)) :: k.r.text(c, o) == Parsed(s, o + |k.w.quote(s)|)
  }

  ghost predicate Fits(k: Codec, c: string, v: Json)
  {
    match v
    case Invalid => false
    case Number(d) => NumberFits(k, c, d)
    case String(s) => StringFits(k, c, s)
    case Array(items) => ItemsFit(k, c, items)
    case Object(ms) => MembersFit(k, c, ms)
    case _ => true
  }

  ghost predicate ItemsFit(k: Codec, c: string, items: seq<Json>)
  {
    forall i | 0 <= i < |items| :: Fits(k, c, items[i])
  }

  ghost predicate MembersFit(k: Codec, c: string, ms: seq<Member>)
  {
    forall i | 0 <= i < |ms| :: StringFits(k, c, ms[i].key) && Fits(k, c, ms[i].value)
  }

  // ----- trees

  /** The tree with every number as it is read back. */
  function Reread(again: real -> real, v: Json): Json
  {
    match v
    case Number(d) => Number(again(d))
    case Array(items) => Array(RereadItems(again, items))
    case Object(ms) => Object(RereadMembers(again, ms))
    case _ => v
  }

  function RereadItems(again: real -> real, items: seq<Json>): seq<Json>
  {
    if items == [] then [] else [Reread(again, items[0])] + RereadItems(again, items[1..])
  }

  function RereadMembers(again: real -> real, ms: seq<Member>): seq<Member>
  {
    if ms == [] then [] else [Member(ms[0].key, Reread(again, ms[0].value))] + RereadMembers(again, ms[1..])
  }

  lemma TextStarts(k: Codec, c: string, v: Json, fmt: bool, depth: nat)
    requires Fits(k, c, v)
    ensures var t := Text(k.w, v, fmt, depth); t != "" && t[0] > ' ' && t[0] != ']' && t[0] != '}'
  {
  }

  /** The outcome of parsing something of this nesting depth inside `depth` others. */
  function Outcome<T>(v: T, depth: nat, nested: nat, offset: nat): Parsed<T>
  {
    if depth + nested <= NESTING_LIMIT then Parsed(v, offset) else Failed
  }

  lemma NoLiteral(c: string, o: nat)
    requires o < |c| && c[o] != 'n' && c[o] != 'f' && c[o] != 't'
    ensures !StartsWith(c, o, "null") && !StartsWith(c, o, "false") && !StartsWith(c, o, "true")
  {
  }

  lemma LiteralRoundTrip(k: Codec, c: string, o: nat, v: Json, fmt: bool, pd: nat, depth: nat)
    requires (v.Null? || v.False? || v.True?) && StartsWith(c, o, Text(k.w, v, fmt, pd))
    ensures ParseValue(k.r, c, o, depth) == Parsed(v, o + |Text(k.w, v, fmt, pd)|)
  {
    Char(c, o, Text(k.w, v, fmt, pd), 0);
    if StartsWith(c, o, "null") { Char(c, o, "null", 0); }
    if StartsWith(c, o, "false") { Char(c, o, "false", 0); }
  }

  lemma {:induction false} ValueRoundTrip(k: Codec, c: string, o: nat, v: Json, fmt: bool, pd: nat, depth: nat, e: nat)
    requires Fits(k, c, v) && depth <= NESTING_LIMIT
    requires StartsWith(c, o, Text(k.w, v, fmt, pd)) && e == o + |Text(k.w, v, fmt, pd)| && Ends(c, e)
    ensures ParseValue(k.r, c, o, depth) == Outcome(Reread(k.again, v), depth, Depth(v), e)
    decreases v, 2
  {
    match v
    case Number(d) =>
      Char(c, o, k.w.number(d), 0);
      NoLiteral(c, o);
    case String(s) =>
      Char(c, o, k.w.quote(s), 0);
      NoLiteral(c, o);
    case Array(items) => ArrayRoundTrip(k, c, o, items, fmt, pd, depth, e);
    case Object(ms) => ObjectRoundTrip(k, c, o, ms, fmt, pd, depth, e);
    case _ => LiteralRoundTrip(k, c, o, v, fmt, pd, depth);
  }

  // The parser's steps, given the outcomes of the parts.

  lemma ArrayOf(k: Codec, c: string, o: nat, depth: nat, items: seq<Json>, nested: nat, end: nat)
    requires o < |c| && c[o] == '[' && depth <= NESTING_LIMIT
    requires SkipWhitespace(c, o + 1) < |c| && c[SkipWhitespace(c, o + 1)] != ']'
    requires depth < NESTING_LIMIT ==>
               ParseItems(k.r, c, SkipWhitespace(c, o + 1), depth + 1) == Outcome(items, depth + 1, nested, end)
    ensures ParseValue(k.r, c, o, depth) == Outcome(Array(items), depth, 1 + nested, end)
  {
    NoLiteral(c, o);
    assert ParseValue(k.r, c, o, depth) == ParseArray(k.r, c, o, depth);
  }

  lemma ObjectOf(k: Codec, c: string, o: nat, depth: nat, ms: seq<Member>, nested: nat, end: nat)
    requires o < |c| && c[o] == '{' && depth <= NESTING_LIMIT
    requires SkipWhitespace(c, o + 1) < |c| && c[SkipWhitespace(c, o + 1)] != '}'
    requires depth < NESTING_LIMIT ==>
               ParseMembers(k.r, c, SkipWhitespace(c, o + 1), depth + 1) == Outcome(ms, depth + 1, nested, end)
    ensures ParseValue(k.r, c, o, depth) == Outcome(Object(ms), depth, 1 + nested, end)
  {
    NoLiteral(c, o);
    assert ParseValue(k.r, c, o, depth) == ParseObject(k.r, c, o, depth);
  }

  lemma EmptyArray(k: Codec, c: string, o: nat, depth: nat, e: nat)
    requires o < |c| && depth <= NESTING_LIMIT && c[o] == '[' && At(c, SkipWhitespace(c, o + 1), ']')
    requires e == SkipWhitespace(c, o + 1) + 1
    ensures ParseValue(k.r, c, o, depth) == Outcome(Array([]), depth, 1, e)
  {
    NoLiteral(c, o);
    assert ParseValue(k.r, c, o, depth) == ParseArray(k.r, c, o, depth);
  }

  lemma EmptyObject(k: Codec, c: string, o: nat, depth: nat, e: nat)
    requires o < |c| && depth <= NESTING_LIMIT && c[o] == '{' && At(c, SkipWhitespace(c, o + 1), '}')
    requires e == SkipWhitespace(c, o + 1) + 1
    ensures ParseValue(k.r, c, o, depth) == Outcome(Object([]), depth, 1, e)
  {
    NoLiteral(c, o);
    assert ParseValue(k.r, c, o, depth) == ParseObject(k.r, c, o, depth);
  }

  lemma ItemsCons(k: Codec, c: string, o: nat, depth: nat, v: Json, dv: nat, e: nat, rest: seq<Json>, dr: nat, end: nat)
    requires o <= |c| && ParseValue(k.r, c, SkipWhitespace(c, o), depth) == Outcome(v, depth, dv, e)
    requires At(c, e, ',') && SkipWhitespace(c, e) == e
    requires ParseItems(k.r, c, e + 1, depth) == Outcome(rest, depth, dr, end)
    ensures ParseItems(k.r, c, o, depth) == Outcome([v] + rest, depth, Max(dv, dr), end)
  {
  }

  lemma ItemsOne(k: Codec, c: string, o: nat, depth: nat, v: Json, dv: nat, e: nat)
    requires o <= |c| && ParseValue(k.r, c, SkipWhitespace(c, o), depth) == Outcome(v, depth, dv, e)
    requires At(c, e, ']') && SkipWhitespace(c, e) == e
    ensures ParseItems(k.r, c, o, depth) == Outcome([v], depth, dv, e + 1)
  {
  }

  /** The name and the colon of a member, up to its value at offset a. */
  predicate Named(r: Reader, c: string, o: nat, key: string, a: nat)
    requires o <= |c|
  {
    var n := ParseName(r, c, o);
    n.Parsed? && n.value == key && SkipWhitespace(c, n.offset) == a
  }

  lemma MemberOf(k: Codec, c: string, o: nat, depth: nat, key: string, a: nat, v: Json, dv: nat, e: nat)
    requires o <= |c| && Named(k.r, c, o, key, a) && a <= |c| && ParseValue(k.r, c, a, depth) == Outcome(v, depth, dv, e)
    ensures ParseMember(k.r, c, o, depth) == Outcome(Member(key, v), depth, dv, e)
  {
  }

  lemma MembersCons(k: Codec, c: string, o: nat, depth: nat, m: Member, dv: nat, e: nat, rest: seq<Member>, dr: nat, end: nat)
    requires o <= |c| && ParseMember(k.r, c, o, depth) == Outcome(m, depth, dv, e)
    requires At(c, e, ',') && SkipWhitespace(c, e) == e
    requires ParseMembers(k.r, c, e + 1, depth) == Outcome(rest, depth, dr, end)
    ensures ParseMembers(k.r, c, o, depth) == Outcome([m] + rest, depth, Max(dv, dr), end)
  {
  }

  lemma MembersOne(k: Codec, c: string, o: nat, depth: nat, m: Member, dv: nat, e: nat, s: nat)
    requires o <= |c| && ParseMember(k.r, c, o, depth) == Outcome(m, depth, dv, e)
    requires e <= |c| && SkipWhitespace(c, e) == s && At(c, s, '}')
    ensures ParseMembers(k.r, c, o, depth) == Outcome([m], depth, dv, s + 1)
  {
  }

  // ----- arrays

  lemma {:induction false} ArrayRoundTrip(k: Codec, c: string, o: nat, items: seq<Json>, fmt: bool, pd: nat, depth: nat, e: nat)
    requires ItemsFit(k, c, items) && depth <= NESTING_LIMIT
    requires StartsWith(c, o, "[" + (ItemsText(k.w, items, fmt, pd + 1) + "]"))
    requires e == o + 2 + |ItemsText(k.w, items, fmt, pd + 1)|
    ensures ParseValue(k.r, c, o, depth) == Outcome(Array(RereadItems(k.again, items)), depth, 1 + ItemsDepth(items), e)
    decreases items, 1
  {
    var inside := ItemsText(k.w, items, fmt, pd + 1);
    Split(c, o, "[", o + 1, inside + "]");
    Char(c, o, "[", 0);
    ItemsStart(k, c, items, fmt, pd + 1);
    Char(c, o + 1, inside + "]", 0);
    SkipBlank(c, o + 1, "");
    if items == [] {
      EmptyArray(k, c, o, depth, e);
    } else {
      if depth < NESTING_LIMIT { ItemsRoundTrip(k, c, o + 1, o + 1, items, fmt, pd + 1, depth + 1, e); }
      ArrayOf(k, c, o, depth, RereadItems(k.again, items), ItemsDepth(items), e);
    }
  }

  lemma ItemsStart(k: Codec, c: string, items: seq<Json>, fmt: bool, depth: nat)
    requires ItemsFit(k, c, items)
    ensures var t := ItemsText(k.w, items, fmt, depth) + "]"; t[0] > ' ' && (t[0] == ']' <==> items == [])
  {
    if items != [] { TextStarts(k, c, items[0], fmt, depth); }
  }

  lemma {:induction false} ItemsRoundTrip(k: Codec, c: string, o: nat, s: nat, items: seq<Json>, fmt: bool, pd: nat, depth: nat, end: nat)
    requires items != [] && ItemsFit(k, c, items) && depth <= NESTING_LIMIT
    requires o <= |c| && SkipWhitespace(c, o) == s
    requires StartsWith(c, s, ItemsText(k.w, items, fmt, pd) + "]") && end == s + |ItemsText(k.w, items, fmt, pd)| + 1
    ensures ParseItems(k.r, c, o, depth) == Outcome(RereadItems(k.again, items), depth, ItemsDepth(items), end)
    decreases items, 0
  {
    var t := Text(k.w, items[0], fmt, pd);
    var e := s + |t|;
    if |items| == 1 {
      OneItem(k.again, items);
      Split(c, s, t, e, "]");
      Bracket(c, e);
      ValueRoundTrip(k, c, s, items[0], fmt, pd, depth, e);
      ItemsOne(k, c, o, depth, Reread(k.again, items[0]), Depth(items[0]), e);
    } else {
      var rest := items[1..];
      var f := e + |Comma(fmt)|;
      ItemsPieces(c, s, t, e, Comma(fmt), f, ItemsText(k.w, rest, fmt, pd));
      CommaSkipped(k, c, e, f, rest, fmt, pd);
      ValueRoundTrip(k, c, s, items[0], fmt, pd, depth, e);
      ItemsRoundTrip(k, c, e + 1, f, rest, fmt, pd, depth, end);
      ItemsCons(k, c, o, depth, Reread(k.again, items[0]), Depth(items[0]), e, RereadItems(k.again, rest), ItemsDepth(rest), end);
    }
  }

  lemma OneItem(again: real -> real, items: seq<Json>)
    requires |items| == 1
    ensures RereadItems(again, items) == [Reread(again, items[0])] && ItemsDepth(items) == Depth(items[0])
  {
    assert items[1..] == [];
  }

  lemma Bracket(c: string, e: nat)
    requires StartsWith(c, e, "]")
    ensures At(c, e, ']') && SkipWhitespace(c, e) == e && Ends(c, e)
  {
    Char(c, e, "]", 0);
    SkipBlank(c, e, "");
  }

  lemma ItemsPieces(c: string, s: nat, t: string, e: nat, comma: string, f: nat, rest: string)
    requires StartsWith(c, s, (t + (comma + rest)) + "]") && e == s + |t| && f == e + |comma|
    ensures StartsWith(c, s, t) && StartsWith(c, e, comma) && StartsWith(c, f, rest + "]")
  {
    assert (t + (comma + rest)) + "]" == t + (comma + (rest + "]"));
    Split(c, s, t, e, comma + (rest + "]"));
    Split(c, e, comma, f, rest + "]");
  }

  lemma CommaSkipped(k: Codec, c: string, e: nat, f: nat, items: seq<Json>, fmt: bool, pd: nat)
    requires ItemsFit(k, c, items) && f == e + |Comma(fmt)|
    requires StartsWith(c, e, Comma(fmt)) && StartsWith(c, f, ItemsText(k.w, items, fmt, pd) + "]")
    ensures At(c, e, ',') && SkipWhitespace(c, e) == e && Ends(c, e) && SkipWhitespace(c, e + 1) == f
  {
    Char(c, e, Comma(fmt), 0);
    SkipBlank(c, e, "");
    ItemsStart(k, c, items, fmt, pd);
    Char(c, f, ItemsText(k.w, items, fmt, pd) + "]", 0);
    if fmt {
      assert Comma(fmt) == "," + " ";
      Split(c, e, ",", e + 1, " ");
      SkipBlank(c, e + 1, " ");
    } else {
      SkipBlank(c, e + 1, "");
    }
  }

  // ----- objects

  lemma {:induction false} ObjectRoundTrip(k: Codec, c: string, o: nat, ms: seq<Member>, fmt: bool, pd: nat, depth: nat, e: nat)
    requires MembersFit(k, c, ms) && depth <= NESTING_LIMIT
    requires StartsWith(c, o, "{" + (NewLine(fmt) + (MembersText(k.w, ms, fmt, pd + 1) + (Indent(fmt, pd) + "}"))))
    requires e == o + 2 + |NewLine(fmt)| + |MembersText(k.w, ms, fmt, pd + 1)| + |Indent(fmt, pd)|
    ensures ParseValue(k.r, c, o, depth) == Outcome(Object(RereadMembers(k.again, ms)), depth, 1 + MembersDepth(ms), e)
    decreases ms, 1
  {
    var w, inside, close := NewLine(fmt), MembersText(k.w, ms, fmt, pd + 1), Indent(fmt, pd) + "}";
    var i := o + 1 + |w|;
    Split(c, o, "{", o + 1, w + (inside + close));
    Char(c, o, "{", 0);
    Split(c, o + 1, w, i, inside + close);
    if ms == [] {
      assert inside + close == close;
      SkipTwo(c, o + 1, w, i, Indent(fmt, pd), "}");
      EmptyObject(k, c, o, depth, e);
    } else {
      FullObject(k, c, o, i, ms, fmt, pd, depth, e);
    }
  }

  lemma {:induction false} FullObject(k: Codec, c: string, o: nat, i: nat, ms: seq<Member>, fmt: bool, pd: nat, depth: nat, e: nat)
    requires ms != [] && MembersFit(k, c, ms) && depth <= NESTING_LIMIT && At(c, o, '{')
    requires StartsWith(c, o + 1, NewLine(fmt)) && i == o + 1 + |NewLine(fmt)|
    requires StartsWith(c, i, MembersText(k.w, ms, fmt, pd + 1) + (Indent(fmt, pd) + "}"))
    requires e == i + |MembersText(k.w, ms, fmt, pd + 1)| + |Indent(fmt, pd)| + 1
    ensures ParseValue(k.r, c, o, depth) == Outcome(Object(RereadMembers(k.again, ms)), depth, 1 + MembersDepth(ms), e)
    decreases ms, 0, 1
  {
    var s := i + |Indent(fmt, pd + 1)|;
    FirstName(k, c, o + 1, i, s, ms, fmt, pd);
    if depth < NESTING_LIMIT { MembersRoundTrip(k, c, s, i, ms, fmt, pd + 1, depth + 1, e); }
    ObjectOf(k, c, o, depth, RereadMembers(k.again, ms), MembersDepth(ms), e);
  }

  lemma FirstName(k: Codec, c: string, o: nat, i: nat, s: nat, ms: seq<Member>, fmt: bool, pd: nat)
    requires ms != [] && MembersFit(k, c, ms) && StartsWith(c, o, NewLine(fmt)) && i == o + |NewLine(fmt)|
    requires StartsWith(c, i, MembersText(k.w, ms, fmt, pd + 1) + (Indent(fmt, pd) + "}")) && s == i + |Indent(fmt, pd + 1)|
    ensures SkipWhitespace(c, o) == s && At(c, s, '\"') && SkipWhitespace(c, s) == s
  {
    MembersStart(k, c, o, NewLine(fmt), i, ms, fmt, pd + 1, Indent(fmt, pd) + "}");
    SkipAgain(c, o);
  }

  /** Blanks w and x up to a text that starts dark. */
  lemma SkipTwo(c: string, o: nat, w: string, p: nat, x: string, y: string)
    requires StartsWith(c, o, w) && p == o + |w| && StartsWith(c, p, x + y) && Blank(w) && Blank(x)
    requires y != "" && y[0] > ' '
    ensures SkipWhitespace(c, o) == p + |x| && At(c, p + |x|, y[0])
  {
    Split(c, p, x, p + |x|, y);
    Char(c, p + |x|, y, 0);
    Join(c, o, w, p, x);
    SkipBlank(c, o, w + x);
  }

  /** Skipping from where a skip ended goes nowhere. */
  lemma SkipAgain(c: string, o: nat)
    requires o <= |c|
    ensures SkipWhitespace(c, SkipWhitespace(c, o)) == SkipWhitespace(c, o)
  {
  }

  /** The blanks before the first name of a list of members. */
  lemma MembersStart(k: Codec, c: string, o: nat, w: string, p: nat, ms: seq<Member>, fmt: bool, pd: nat, close: string)
    requires ms != [] && MembersFit(k, c, ms) && StartsWith(c, o, w) && Blank(w) && p == o + |w|
    requires StartsWith(c, p, MembersText(k.w, ms, fmt, pd) + close)
    ensures SkipWhitespace(c, o) == p + |Indent(fmt, pd)|
    ensures At(c, SkipWhitespace(c, o), '\"')
  {
    assert StringFits(k, c, ms[0].key);
    var x := MemberText(k.w, ms[0], fmt, pd, |ms| == 1)[|Indent(fmt, pd)|..];
    assert x[0] == k.w.quote(ms[0].key)[0];
    var y := MembersText(k.w, ms[1..], fmt, pd);
    Reassociate(Indent(fmt, pd), x, y);
    Reassociate(Indent(fmt, pd), x + y, close);
    SkipTwo(c, o, w, p, Indent(fmt, pd), (x + y) + close);
  }

  lemma Reassociate(a: string, x: string, close: string)
    ensures (a + x) + close == a + (x + close)
  {
  }

  /** What follows a member's value. */
  function AfterValue(w: Writer, ms: seq<Member>, fmt: bool, pd: nat): string
    requires ms != [] && pd > 0
  {
    LineEnd(fmt, |ms| == 1) + (MembersText(w, ms[1..], fmt, pd) + (Indent(fmt, pd - 1) + "}"))
  }

  lemma {:induction false} MembersRoundTrip(k: Codec, c: string, o: nat, i: nat, ms: seq<Member>, fmt: bool, pd: nat, depth: nat, end: nat)
    requires ms != [] && MembersFit(k, c, ms) && depth <= NESTING_LIMIT && pd > 0
    requires o <= |c| && SkipWhitespace(c, o) == i + |Indent(fmt, pd)|
    requires StartsWith(c, i, MembersText(k.w, ms, fmt, pd) + (Indent(fmt, pd - 1) + "}"))
    requires end == i + |MembersText(k.w, ms, fmt, pd)| + |Indent(fmt, pd - 1)| + 1
    ensures ParseMembers(k.r, c, o, depth) == Outcome(RereadMembers(k.again, ms), depth, MembersDepth(ms), end)
    decreases ms, 0, 0, 1
  {
    var v := ms[0].value;
    var e := i + |Indent(fmt, pd)| + |k.w.quote(ms[0].key)| + |Colon(fmt)| + |Text(k.w, v, fmt, pd)|;
    MemberRead(k, c, o, i, ms, fmt, pd, depth, e);
    if |ms| > 1 {
      MoreMembers(k, c, o, i, ms, fmt, pd, depth, e, end);
    } else {
      LastMember(k, c, o, ms, fmt, pd, depth, e, end);
    }
  }

  lemma LastMember(k: Codec, c: string, o: nat, ms: seq<Member>, fmt: bool, pd: nat, depth: nat, e: nat, end: nat)
    requires |ms| == 1 && pd > 0 && o <= |c|
    requires ParseMember(k.r, c, o, depth)
          == Outcome(Member(ms[0].key, Reread(k.again, ms[0].value)), depth, Depth(ms[0].value), e)
    requires StartsWith(c, e, AfterValue(k.w, ms, fmt, pd))
    requires end == e + |LineEnd(fmt, true)| + |Indent(fmt, pd - 1)| + 1
    ensures ParseMembers(k.r, c, o, depth) == Outcome(RereadMembers(k.again, ms), depth, MembersDepth(ms), end)
  {
    LastAfter(k, c, e, ms, fmt, pd, end);
    OneMember(k.again, ms);
    MembersOne(k, c, o, depth, Member(ms[0].key, Reread(k.again, ms[0].value)), Depth(ms[0].value), e, end - 1);
  }

  /** The first member is read up to offset e, where the rest starts. */
  lemma {:induction false} MemberRead(k: Codec, c: string, o: nat, i: nat, ms: seq<Member>, fmt: bool, pd: nat, depth: nat, e: nat)
    requires ms != [] && MembersFit(k, c, ms) && depth <= NESTING_LIMIT && pd > 0
    requires o <= |c| && SkipWhitespace(c, o) == i + |Indent(fmt, pd)|
    requires StartsWith(c, i, MembersText(k.w, ms, fmt, pd) + (Indent(fmt, pd - 1) + "}"))
    requires e == i + |Indent(fmt, pd)| + |k.w.quote(ms[0].key)| + |Colon(fmt)| + |Text(k.w, ms[0].value, fmt, pd)|
    ensures ParseMember(k.r, c, o, depth)
         == Outcome(Member(ms[0].key, Reread(k.again, ms[0].value)), depth, Depth(ms[0].value), e)
    ensures StartsWith(c, e, AfterValue(k.w, ms, fmt, pd))
    ensures |MembersText(k.w, ms, fmt, pd)| == e - i + |LineEnd(fmt, |ms| == 1)| + |MembersText(k.w, ms[1..], fmt, pd)|
    decreases ms, 0, 0, 0
  {
    var v := ms[0].value;
    var q := i + |Indent(fmt, pd)|;
    var j := q + |k.w.quote(ms[0].key)|;
    var a := j + |Colon(fmt)|;
    MemberPieces(k, c, i, q, j, a, e, ms, fmt, pd);
    NameRead(k, c, o, q, ms[0].key, j, a, v, fmt, pd);
    AfterEnds(k, c, e, ms, fmt, pd);
    ValueRoundTrip(k, c, a, v, fmt, pd, depth, e);
    MemberOf(k, c, o, depth, ms[0].key, a, Reread(k.again, v), Depth(v), e);
  }

  lemma {:induction false} MoreMembers(k: Codec, c: string, o: nat, i: nat, ms: seq<Member>, fmt: bool, pd: nat, depth: nat, e: nat, end: nat)
    requires |ms| > 1 && MembersFit(k, c, ms) && depth <= NESTING_LIMIT && pd > 0 && o <= |c|
    requires ParseMember(k.r, c, o, depth)
          == Outcome(Member(ms[0].key, Reread(k.again, ms[0].value)), depth, Depth(ms[0].value), e)
    requires StartsWith(c, e, AfterValue(k.w, ms, fmt, pd))
    requires end == e + |LineEnd(fmt, false)| + |MembersText(k.w, ms[1..], fmt, pd)| + |Indent(fmt, pd - 1)| + 1
    ensures ParseMembers(k.r, c, o, depth) == Outcome(RereadMembers(k.again, ms), depth, MembersDepth(ms), end)
    decreases ms, 0, 0, 0
  {
    var (m, rest) := (Member(ms[0].key, Reread(k.again, ms[0].value)), ms[1..]);
    var f := e + |LineEnd(fmt, false)|;
    ManyAfter(k, c, e, f, ms, fmt, pd);
    MembersRoundTrip(k, c, e + 1, f, rest, fmt, pd, depth, end);
    MembersCons(k, c, o, depth, m, Depth(ms[0].value), e, RereadMembers(k.again, rest), MembersDepth(rest), end);
  }

  lemma OneMember(again: real -> real, ms: seq<Member>)
    requires |ms| == 1
    ensures RereadMembers(again, ms) == [Member(ms[0].key, Reread(again, ms[0].value))]
    ensures MembersDepth(ms) == Depth(ms[0].value)
  {
    assert ms[1..] == [];
  }

  lemma NameRead(k: Codec, c: string, o: nat, q: nat, key: string, j: nat, a: nat, v: Json, fmt: bool, pd: nat)
    requires o <= |c| && SkipWhitespace(c, o) == q && StringFits(k, c, key) && StartsWith(c, q, k.w.quote(key))
    requires j == q + |k.w.quote(key)| && a == j + |Colon(fmt)| && Fits(k, c, v)
    requires StartsWith(c, j, Colon(fmt)) && StartsWith(c, a, Text(k.w, v, fmt, pd))
    ensures Named(k.r, c, o, key, a)
  {
    Char(c, q, k.w.quote(key), 0);
    ColonSkipped(k, c, j, a, v, fmt, pd);
  }

  lemma MemberPieces(k: Codec, c: string, i: nat, q: nat, j: nat, a: nat, e: nat, ms: seq<Member>, fmt: bool, pd: nat)
    requires ms != [] && pd > 0
    requires q == i + |Indent(fmt, pd)| && j == q + |k.w.quote(ms[0].key)| && a == j + |Colon(fmt)|
    requires e == a + |Text(k.w, ms[0].value, fmt, pd)|
    requires StartsWith(c, i, MembersText(k.w, ms, fmt, pd) + (Indent(fmt, pd - 1) + "}"))
    ensures StartsWith(c, q, k.w.quote(ms[0].key)) && StartsWith(c, j, Colon(fmt))
    ensures StartsWith(c, a, Text(k.w, ms[0].value, fmt, pd)) && StartsWith(c, e, AfterValue(k.w, ms, fmt, pd))
    ensures |MembersText(k.w, ms, fmt, pd)| == e - i + |LineEnd(fmt, |ms| == 1)| + |MembersText(k.w, ms[1..], fmt, pd)|
  {
    assert MemberText(k.w, ms[0], fmt, pd, |ms| == 1)
        == Indent(fmt, pd) + (k.w.quote(ms[0].key) + (Colon(fmt) + (Text(k.w, ms[0].value, fmt, pd) + LineEnd(fmt, |ms| == 1))));
    Pieces(c, i, Indent(fmt, pd), q, k.w.quote(ms[0].key), j, Colon(fmt), a, Text(k.w, ms[0].value, fmt, pd), e,
           LineEnd(fmt, |ms| == 1), MembersText(k.w, ms[1..], fmt, pd), Indent(fmt, pd - 1) + "}");
  }

  lemma Pieces(s: string, i: nat, a: string, p: nat, b: string, q: nat, c: string, r: nat, d: string, x: nat,
               e: string, f: string, g: string)
    requires StartsWith(s, i, ((a + (b + (c + (d + e)))) + f) + g)
    requires p == i + |a| && q == p + |b| && r == q + |c| && x == r + |d|
    ensures StartsWith(s, p, b) && StartsWith(s, q, c) && StartsWith(s, r, d) && StartsWith(s, x, e + (f + g))
  {
    var y := e + (f + g);
    Regroup(a, b, c, d, e, f, g);
    Split(s, i, a, p, b + (c + (d + y)));
    Split(s, p, b, q, c + (d + y));
    Split(s, q, c, r, d + y);
    Split(s, r, d, x, y);
  }

  lemma Regroup(a: string, b: string, c: string, d: string, e: string, f: string, g: string)
    ensures ((a + (b + (c + (d + e)))) + f) + g == a + (b + (c + (d + (e + (f + g)))))
  {
    var h := f + g;
    assert ((a + (b + (c + (d + e)))) + f) + g == (a + (b + (c + (d + e)))) + h;
    assert (d + e) + h == d + (e + h);
    assert (c + (d + e)) + h == c + ((d + e) + h);
    assert (b + (c + (d + e))) + h == b + ((c + (d + e)) + h);
  }

  lemma ColonSkipped(k: Codec, c: string, j: nat, a: nat, v: Json, fmt: bool, pd: nat)
    requires Fits(k, c, v) && a == j + |Colon(fmt)|
    requires StartsWith(c, j, Colon(fmt)) && StartsWith(c, a, Text(k.w, v, fmt, pd))
    ensures SkipWhitespace(c, j) == j && At(c, j, ':') && SkipWhitespace(c, j + 1) == a
  {
    Char(c, j, Colon(fmt), 0);
    SkipBlank(c, j, "");
    TextStarts(k, c, v, fmt, pd);
    Char(c, a, Text(k.w, v, fmt, pd), 0);
    if fmt {
      assert Colon(fmt) == ":" + "\t";
      Split(c, j, ":", j + 1, "\t");
      SkipBlank(c, j + 1, "\t");
    } else {
      SkipBlank(c, j + 1, "");
    }
  }

  lemma AfterEnds(k: Codec, c: string, e: nat, ms: seq<Member>, fmt: bool, pd: nat)
    requires ms != [] && pd > 0 && StartsWith(c, e, AfterValue(k.w, ms, fmt, pd))
    ensures Ends(c, e)
  {
    Char(c, e, AfterValue(k.w, ms, fmt, pd), 0);
  }

  lemma ManyAfter(k: Codec, c: string, e: nat, f: nat, ms: seq<Member>, fmt: bool, pd: nat)
    requires |ms| > 1 && MembersFit(k, c, ms) && pd > 0
    requires StartsWith(c, e, AfterValue(k.w, ms, fmt, pd)) && f == e + |LineEnd(fmt, false)|
    ensures SkipWhitespace(c, e) == e && At(c, e, ',')
    ensures SkipWhitespace(c, e + 1) == f + |Indent(fmt, pd)|
    ensures StartsWith(c, f, MembersText(k.w, ms[1..], fmt, pd) + (Indent(fmt, pd - 1) + "}"))
  {
    var close := Indent(fmt, pd - 1) + "}";
    Split(c, e, LineEnd(fmt, false), f, MembersText(k.w, ms[1..], fmt, pd) + close);
    Char(c, e, LineEnd(fmt, false), 0);
    SkipBlank(c, e, "");
    assert LineEnd(fmt, false) == "," + NewLine(fmt);
    Split(c, e, ",", e + 1, NewLine(fmt));
    MembersStart(k, c, e + 1, NewLine(fmt), f, ms[1..], fmt, pd, close);
  }

  lemma LastAfter(k: Codec, c: string, e: nat, ms: seq<Member>, fmt: bool, pd: nat, end: nat)
    requires |ms| == 1 && pd > 0 && StartsWith(c, e, AfterValue(k.w, ms, fmt, pd))
    requires end == e + |LineEnd(fmt, true)| + |Indent(fmt, pd - 1)| + 1
    ensures SkipWhitespace(c, e) == end - 1 && At(c, end - 1, '}')
  {
    var w, x := LineEnd(fmt, true), Indent(fmt, pd - 1);
    assert MembersText(k.w, ms[1..], fmt, pd) == "";
    assert AfterValue(k.w, ms, fmt, pd) == w + (x + "}");
    Split(c, e, w, e + |w|, x + "}");
    SkipTwo(c, e, w, e + |w|, x, "}");
  }
}
