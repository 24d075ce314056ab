/**
 The layout of printed text, said of the text alone. Unformatted text has no blank outside strings.
 Formatted text is the unformatted text with blanks between some of its characters, and a rule that
 looks at the two neighbours and the open brackets says which: each member stands on a line of its
 own behind as many tabs as brackets are open, and so does the brace that closes an object.
 */
module JsonLayout {
  import opened Json
  import opened JsonText
  import opened JsonParse
  import opened JsonTreeRoundTrip
  import opened JsonTokens

  /** What the character before was. */
  datatype After = Opened | Comma | Colon | Other

  function AfterOf(ch: char): After
  {
    match ch
    case '{' => Opened
    case ',' => Comma
    case ':' => Colon
    case _ => Other
  }

  /** The brackets that are open after a character. */
  function OpenAfter(open: string, ch: char): string
  {
    if ch == '{' || ch == '[' then open + [ch]
    else if (ch == '}' || ch == ']') && open != "" then open[..|open| - 1]
    else open
  }

  predicate InObject(open: string) { open != "" && open[|open| - 1] == '{' }

  /** The blanks between two characters. */
  function Gap(after: After, next: char, open: string): string
  {
    if next == '}' && open != "" then "\n" + Tabs(|open| - 1)
    else if after.Opened? || (after.Comma? && InObject(open)) then "\n" + Tabs(|open|)
    else if after.Comma? then " "
    else if after.Colon? then "\t"
    else ""
  }

  /** The length of the string token a text starts with. */
  function TokenLength(s: string): (n: nat)
    requires s != "" && s[0] == '\"'
    ensures 0 < n <= |s|
  {
    var e := ClosingQuote(s, 1);
    if e.None? then |s| else e.value + 1
  }

  /** The text with the blanks put in. */
  function Pretty(s: string, open: string, after: After): string
    decreases |s|
  {
    if s == "" then ""
    else if s[0] == '\"' then
      Gap(after, s[0], open) + s[..TokenLength(s)] + Pretty(s[TokenLength(s)..], open, Other)
    else
      Gap(after, s[0], open) + [s[0]] + Pretty(s[1..], OpenAfter(open, s[0]), AfterOf(s[0]))
  }

  /** No blank outside strings. */
  predicate Dense(s: string)
    decreases |s|
  {
    if s == "" then true
    else if s[0] == '\"' then Dense(s[TokenLength(s)..])
    else s[0] > ' ' && Dense(s[1..])
  }

  // ----- tokens

  predicate WordChar(ch: char)
  {
    ch > ' ' && ch != '\"' && ch != '{' && ch != '}' && ch != '[' && ch != ']' && ch != ',' && ch != ':'
  }

  /** The layout turns the piece `s` into `t`, whatever follows. */
  predicate Laid(s: string, t: string, rest: string, open: string, after: After)
  {
    && s != "" && Pretty(s + rest, open, after) == Gap(after, s[0], open) + t + Pretty(rest, open, Other)
    && (Dense(rest) ==> Dense(s + rest))
  }

  /** One character of punctuation. */
  lemma MarkLaid(ch: char, rest: string, open: string, after: After)
    requires ch > ' ' && ch != '\"'
    ensures Pretty([ch] + rest, open, after) == Gap(after, ch, open) + [ch] + Pretty(rest, OpenAfter(open, ch), AfterOf(ch))
    ensures Dense(rest) ==> Dense([ch] + rest)
  {
    assert ([ch] + rest)[1..] == rest;
  }

  lemma Regroup(g: string, a: string, b: string, p: string)
    ensures g + a + ("" + b + p) == g + (a + b) + p
  {
    assert "" + b == b;
    assert g + a + (b + p) == g + (a + b) + p;
  }

  lemma {:induction false} WordLaid(s: string, rest: string, open: string, after: After)
    requires s != "" && forall i | 0 <= i < |s| :: WordChar(s[i])
    ensures Laid(s, s, rest, open, after)
    decreases |s|
  {
    var tail := s[1..];
    assert WordChar(s[0]);
    assert s + rest == [s[0]] + (tail + rest) && s == [s[0]] + tail;
    MarkLaid(s[0], tail + rest, open, after);
    if tail == "" {
      assert tail + rest == rest;
    } else {
      assert WordChar(s[1]);
      WordLaid(tail, rest, open, Other);
      assert Gap(Other, tail[0], open) == "";
      Regroup(Gap(after, s[0], open), [s[0]], tail, Pretty(rest, open, Other));
    }
  }

  lemma StringLaid(s: string, rest: string, open: string, after: After)
    ensures Laid(Quoted(s), Quoted(s), rest, open, after)
  {
    var q := Quoted(s);
    var all := q + rest;
    assert all[1..|q|] == Escaped(s) + "\"";
    SliceStarts(all, 1, Escaped(s) + "\"");
    ScanEscaped(all, 1, s);
    assert TokenLength(all) == |q| && all[..|q|] == q && all[|q|..] == rest;
  }

  // ----- trees

  /** A value starts with none of the characters the rule asks for. */
  lemma ValueStarts(lib: Libc, v: Json, fmt: bool, depth: nat)
    requires Printable(lib, v)
    ensures var t := Text(CWriter(lib), v, fmt, depth); t != "" && t[0] != '}'
  {
  }

  lemma {:induction false} ValueLaid(lib: Libc, v: Json, rest: string, open: string, after: After)
    requires Printable(lib, v)
    ensures Laid(Text(CWriter(lib), v, false, |open|), Text(CWriter(lib), v, true, |open|), rest, open, after)
    decreases v, 1
  {
    match v
    case Null => WordLaid("null", rest, open, after);
    case False => WordLaid("false", rest, open, after);
    case True => WordLaid("true", rest, open, after);
    case Number(d) => NumberLaid(lib, d, rest, open, after);
    case String(t) => StringLaid(t, rest, open, after);
    case Array(_) => ArrayLaid(lib, v, rest, open, after);
    case Object(_) => ObjectLaid(lib, v, rest, open, after);
  }

  lemma NumberLaid(lib: Libc, d: real, rest: string, open: string, after: After)
    requires Renders(lib, d)
    ensures Laid(NumberText(lib, d), NumberText(lib, d), rest, open, after)
  {
    var t := NumberText(lib, d);
    assert Token(lib, t);
    forall i | 0 <= i < |t| ensures WordChar(t[i]) { assert NumberChar(t[i]); }
    WordLaid(t, rest, open, after);
  }

  lemma {:induction false} ArrayLaid(lib: Libc, v: Json, rest: string, open: string, after: After)
    requires v.Array? && Printable(lib, v)
    ensures Laid(Text(CWriter(lib), v, false, |open|), Text(CWriter(lib), v, true, |open|), rest, open, after)
    decreases v, 0, 1
  {
    var w, inner := CWriter(lib), open + "[";
    var s, t := ItemsText(w, v.items, false, |inner|), ItemsText(w, v.items, true, |inner|);
    assert ("[" + (s + "]")) + rest == "[" + (s + ("]" + rest));
    MarkLaid('[', s + ("]" + rest), open, after);
    InsideLaid(lib, v, rest, open);
    Wrapped(Gap(after, '[', open), t, Pretty(rest, open, Other));
  }

  lemma Wrapped(g: string, t: string, p: string)
    ensures g + "[" + (t + "]" + p) == g + ("[" + (t + "]")) + p
  {
  }

  /** The items of an array with the closing bracket. */
  lemma {:induction false} InsideLaid(lib: Libc, v: Json, rest: string, open: string)
    requires v.Array? && Printable(lib, v)
    ensures
      var w, inner := CWriter(lib), open + "[";
      var s, t := ItemsText(w, v.items, false, |inner|), ItemsText(w, v.items, true, |inner|);
      && Pretty(s + ("]" + rest), inner, Other) == t + "]" + Pretty(rest, open, Other)
      && (Dense(rest) ==> Dense(s + ("]" + rest)))
    decreases v, 0, 0
  {
    var inner := open + "[";
    BracketLaid(rest, open);
    if v.items == [] {
      assert "" + ("]" + rest) == "]" + rest && "" + "]" == "]";
    } else {
      var t := ItemsText(CWriter(lib), v.items, true, |inner|);
      ItemsLaid(lib, v.items, "]" + rest, inner, Other);
      Ended(t, Pretty(rest, open, Other));
    }
  }

  lemma Ended(t: string, p: string)
    ensures "" + t + ("]" + p) == t + "]" + p
  {
    assert "" + t == t;
  }

  lemma BracketLaid(rest: string, open: string)
    ensures Pretty("]" + rest, open + "[", Other) == "]" + Pretty(rest, open, Other)
    ensures Dense(rest) ==> Dense("]" + rest)
  {
    var inner := open + "[";
    MarkLaid(']', rest, inner, Other);
    assert inner[..|inner| - 1] == open;
  }

  lemma {:induction false} ItemsLaid(lib: Libc, items: seq<Json>, rest: string, open: string, after: After)
    requires items != [] && (forall i | 0 <= i < |items| :: Printable(lib, items[i])) && open != "" && !InObject(open)
    ensures Laid(ItemsText(CWriter(lib), items, false, |open|), ItemsText(CWriter(lib), items, true, |open|), rest, open, after)
    ensures ItemsText(CWriter(lib), items, false, |open|)[0] != '}'
    decreases items, 0
  {
    var w := CWriter(lib);
    var s, t := Text(w, items[0], false, |open|), Text(w, items[0], true, |open|);
    ValueStarts(lib, items[0], false, |open|);
    if |items| == 1 {
      ValueLaid(lib, items[0], rest, open, after);
    } else {
      var ss, ts := ItemsText(w, items[1..], false, |open|), ItemsText(w, items[1..], true, |open|);
      ItemsLaid(lib, items[1..], rest, open, Comma);
      ValueLaid(lib, items[0], "," + (ss + rest), open, after);
      MoreItems(s, t, ss, ts, rest, open, after);
    }
  }

  lemma MoreItems(s: string, t: string, ss: string, ts: string, rest: string, open: string, after: After)
    requires Laid(ss, ts, rest, open, Comma) && ss[0] != '}' && !InObject(open)
    requires Laid(s, t, "," + (ss + rest), open, after)
    ensures Laid(s + ("," + ss), t + (", " + ts), rest, open, after)
  {
    MarkLaid(',', ss + rest, open, Other);
    assert (s + ("," + ss)) + rest == s + ("," + (ss + rest));
    assert Gap(Comma, ss[0], open) == " ";
    Listed(Gap(after, s[0], open), t, ts, Pretty(rest, open, Other));
  }

  lemma Listed(g: string, t: string, ts: string, p: string)
    ensures g + t + ("" + "," + (" " + ts + p)) == g + (t + (", " + ts)) + p
  {
    assert "" + "," == ",";
    assert "," + (" " + ts + p) == ", " + ts + p;
    assert g + t + (", " + ts + p) == g + (t + (", " + ts)) + p;
  }

  lemma {:induction false} ObjectLaid(lib: Libc, v: Json, rest: string, open: string, after: After)
    requires v.Object? && Printable(lib, v)
    ensures Laid(Text(CWriter(lib), v, false, |open|), Text(CWriter(lib), v, true, |open|), rest, open, after)
    decreases v, 0
  {
    var w, inner := CWriter(lib), open + "{";
    var s, t := MembersText(w, v.members, false, |inner|), MembersText(w, v.members, true, |inner|);
    assert "{" + ("" + (s + ("" + "}"))) + rest == "{" + (s + ("}" + rest));
    MarkLaid('{', s + ("}" + rest), open, after);
    MembersLaid(lib, v.members, rest, inner, Opened);
    assert inner[..|inner| - 1] == open;
    Braced(Gap(after, '{', open), t, Tabs(|open|), Pretty(rest, open, Other));
  }

  lemma Braced(g: string, t: string, tabs: string, p: string)
    ensures g + "{" + ("\n" + (t + (tabs + "}")) + p) == g + ("{" + ("\n" + (t + (tabs + "}")))) + p
  {
  }

  lemma CloseLaid(rest: string, open: string, after: After)
    requires open != ""
    ensures Pretty("}" + rest, open, after) == "\n" + (Tabs(|open| - 1) + "}") + Pretty(rest, open[..|open| - 1], Other)
    ensures Dense(rest) ==> Dense("}" + rest)
  {
    MarkLaid('}', rest, open, after);
    var tabs, p := Tabs(|open| - 1), Pretty(rest, open[..|open| - 1], Other);
    assert ("\n" + tabs) + "}" + p == "\n" + (tabs + "}") + p;
  }

  /** The lines of an object from some member on, with the closing brace. */
  lemma {:induction false} MembersLaid(lib: Libc, ms: seq<Member>, rest: string, open: string, after: After)
    requires forall i | 0 <= i < |ms| :: NulFree(ms[i].key) && Printable(lib, ms[i].value)
    requires InObject(open) && (after.Opened? || after.Comma?)
    ensures
      var s, t := MembersText(CWriter(lib), ms, false, |open|), MembersText(CWriter(lib), ms, true, |open|);
      && Pretty(s + ("}" + rest), open, after)
           == "\n" + (t + (Tabs(|open| - 1) + "}")) + Pretty(rest, open[..|open| - 1], Other)
      && (Dense(rest) ==> Dense(s + ("}" + rest)))
    decreases ms, 1
  {
    if ms == [] {
      CloseLaid(rest, open, after);
      assert MembersText(CWriter(lib), ms, false, |open|) + ("}" + rest) == "}" + rest;
      assert "" + (Tabs(|open| - 1) + "}") == Tabs(|open| - 1) + "}";
    } else {
      MemberLaid(lib, ms, rest, open, after);
    }
  }

  /** A name, the colon and the value. */
  lemma {:induction false} PairLaid(lib: Libc, m: Member, rest: string, open: string, after: After)
    requires NulFree(m.key) && Printable(lib, m.value) && InObject(open) && (after.Opened? || after.Comma?)
    ensures
      var s, t := Text(CWriter(lib), m.value, false, |open|), Text(CWriter(lib), m.value, true, |open|);
      && Pretty(Quoted(m.key) + (":" + (s + rest)), open, after)
           == "\n" + (Tabs(|open|) + (Quoted(m.key) + (":\t" + t))) + Pretty(rest, open, Other)
      && (Dense(rest) ==> Dense(Quoted(m.key) + (":" + (s + rest))))
    decreases m, 0
  {
    var s, t := Text(CWriter(lib), m.value, false, |open|), Text(CWriter(lib), m.value, true, |open|);
    ValueStarts(lib, m.value, false, |open|);
    ValueLaid(lib, m.value, rest, open, Colon);
    assert Gap(Colon, s[0], open) == "\t";
    MarkLaid(':', s + rest, open, Other);
    assert Gap(Other, ':', open) == "";
    StringLaid(m.key, ":" + (s + rest), open, after);
    assert Gap(after, '\"', open) == "\n" + Tabs(|open|);
    Paired(Tabs(|open|), Quoted(m.key), t, Pretty(rest, open, Other));
  }

  lemma Paired(tabs: string, q: string, t: string, p: string)
    ensures ("\n" + tabs) + q + ("" + ":" + ("\t" + t + p)) == "\n" + (tabs + (q + (":\t" + t))) + p
  {
    assert "" + ":" == ":";
    assert ":" + ("\t" + t + p) == ":\t" + t + p;
  }

  lemma {:induction false} MemberLaid(lib: Libc, ms: seq<Member>, rest: string, open: string, after: After)
    requires ms != [] && forall i | 0 <= i < |ms| :: NulFree(ms[i].key) && Printable(lib, ms[i].value)
    requires InObject(open) && (after.Opened? || after.Comma?)
    ensures
      var s, t := MembersText(CWriter(lib), ms, false, |open|), MembersText(CWriter(lib), ms, true, |open|);
      && Pretty(s + ("}" + rest), open, after)
           == "\n" + (t + (Tabs(|open| - 1) + "}")) + Pretty(rest, open[..|open| - 1], Other)
      && (Dense(rest) ==> Dense(s + ("}" + rest)))
    decreases ms, 0
  {
    if |ms| == 1 {
      LastMemberLaid(lib, ms[0], rest, open, after);
      assert ms == [ms[0]];
    } else {
      var m, w := ms[0], CWriter(lib);
      var lines, r := MembersText(w, ms[1..], false, |open|), "}" + rest;
      MembersLaid(lib, ms[1..], rest, open, Comma);
      PairLaid(lib, m, "," + (lines + r), open, after);
      MoreLine(w, m, |open|);
      MoreMembers(Quoted(m.key), Text(w, m.value, false, |open|),
                  Tabs(|open|) + (Quoted(m.key) + (":\t" + Text(w, m.value, true, |open|))),
                  lines, MembersText(w, ms[1..], true, |open|), r,
                  Tabs(|open| - 1) + "}", Pretty(rest, open[..|open| - 1], Other), open, after);
    }
  }

  /** A line and the lines that follow it. */
  lemma MoreMembers(q: string, a: string, line: string, ss: string, ts: string, r: string, close: string, p: string,
                    open: string, after: After)
    requires Pretty(ss + r, open, Comma) == "\n" + (ts + close) + p
    requires Pretty(q + (":" + (a + ("," + (ss + r)))), open, after) == "\n" + line + Pretty("," + (ss + r), open, Other)
    requires open != ""
    ensures Pretty(((q + (":" + a) + ",") + ss) + r, open, after) == "\n" + (((line + ",\n") + ts) + close) + p
    ensures Dense(ss + r) ==> Dense("," + (ss + r))
    ensures ((q + (":" + a) + ",") + ss) + r == q + (":" + (a + ("," + (ss + r))))
  {
    MarkLaid(',', ss + r, open, Other);
    Unlined(q, a, ss, r);
    MoreLines(line, ts, close, p);
  }

  lemma {:induction false} LastMemberLaid(lib: Libc, m: Member, rest: string, open: string, after: After)
    requires NulFree(m.key) && Printable(lib, m.value) && InObject(open) && (after.Opened? || after.Comma?)
    ensures
      var s, t := MembersText(CWriter(lib), [m], false, |open|), MembersText(CWriter(lib), [m], true, |open|);
      && Pretty(s + ("}" + rest), open, after)
           == "\n" + (t + (Tabs(|open| - 1) + "}")) + Pretty(rest, open[..|open| - 1], Other)
      && (Dense(rest) ==> Dense(s + ("}" + rest)))
    decreases m, 1
  {
    var w := CWriter(lib);
    var q, a, b := Quoted(m.key), Text(w, m.value, false, |open|), Text(w, m.value, true, |open|);
    CloseLaid(rest, open, Other);
    PairLaid(lib, m, "}" + rest, open, after);
    LastLine(w, m, |open|);
    OneMember(w, m, false, |open|);
    OneMember(w, m, true, |open|);
    Onward(q, a, "}" + rest);
    LastLines(Tabs(|open|) + (q + (":\t" + b)), Tabs(|open| - 1) + "}", Pretty(rest, open[..|open| - 1], Other));
  }

  lemma OneMember(w: Writer, m: Member, fmt: bool, depth: nat)
    ensures MembersText(w, [m], fmt, depth) == MemberText(w, m, fmt, depth, true)
  {
    var t := MemberText(w, m, fmt, depth, true);
    assert [m][1..] == [];
    assert MembersText(w, [], fmt, depth) == "";
    assert t + "" == t;
  }

  lemma LastLine(w: Writer, m: Member, depth: nat)
    ensures MemberText(w, m, false, depth, true) == w.quote(m.key) + (":" + Text(w, m.value, false, depth))
    ensures MemberText(w, m, true, depth, true) == Tabs(depth) + (w.quote(m.key) + (":\t" + Text(w, m.value, true, depth))) + "\n"
  {
    assert LineEnd(false, true) == "" && LineEnd(true, true) == "\n";
  }

  lemma MoreLine(w: Writer, m: Member, depth: nat)
    ensures MemberText(w, m, false, depth, false) == w.quote(m.key) + (":" + Text(w, m.value, false, depth)) + ","
    ensures MemberText(w, m, true, depth, false) == Tabs(depth) + (w.quote(m.key) + (":\t" + Text(w, m.value, true, depth))) + ",\n"
  {
    assert LineEnd(false, false) == "," && LineEnd(true, false) == ",\n";
  }

  lemma Onward(q: string, a: string, rest: string)
    ensures q + (":" + a) + rest == q + (":" + (a + rest))
  {
  }

  lemma LastLines(line: string, close: string, p: string)
    ensures "\n" + line + ("\n" + close + p) == "\n" + ((line + "\n") + close) + p
  {
  }

  lemma MoreLines(line: string, lines: string, close: string, p: string)
    ensures "\n" + line + ("" + "," + ("\n" + (lines + close) + p)) == "\n" + (((line + ",\n") + lines) + close) + p
  {
    assert "" + "," == ",";
    assert "," + ("\n" + (lines + close) + p) == ",\n" + (lines + close) + p;
  }

  lemma Unlined(q: string, a: string, lines: string, rest: string)
    ensures ((q + (":" + a) + ",") + lines) + rest == q + (":" + (a + ("," + (lines + rest))))
  {
  }

  // ----- the printed text

  /** Unformatted text has no blank outside strings. */
  lemma UnformattedIsDense(lib: Libc, v: Json)
    requires Printable(lib, v)
    ensures Dense(Text(CWriter(lib), v, false, 0))
  {
    ValueLaid(lib, v, "", "", Other);
    assert Text(CWriter(lib), v, false, 0) + "" == Text(CWriter(lib), v, false, 0);
  }

  /** Formatted text is the unformatted text with the blanks of the rule. */
  lemma FormattedIsPretty(lib: Libc, v: Json)
    requires Printable(lib, v)
    ensures Text(CWriter(lib), v, true, 0) == Pretty(Text(CWriter(lib), v, false, 0), "", Other)
  {
    var s, t := Text(CWriter(lib), v, false, 0), Text(CWriter(lib), v, true, 0);
    ValueLaid(lib, v, "", "", Other);
    ValueStarts(lib, v, false, 0);
    assert s + "" == s && "" + t + "" == t;
  }
}
