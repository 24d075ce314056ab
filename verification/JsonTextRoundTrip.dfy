/**
 cJSON_Parse of what cJSON_Print or cJSON_PrintUnformatted produced.
 */
module JsonTextRoundTrip {
  import opened Json
  import opened JsonText
  import opened JsonParse
  import opened JsonTreeRoundTrip
  import opened JsonTokens

  // ----- the text is a C string

  lemma NulFreeJoin(a: string, b: string)
    requires NulFree(a) && NulFree(b)
    ensures NulFree(a + b)
  {
  }

  lemma {:induction false} EscapedNulFree(s: string)
    requires NulFree(s)
    ensures NulFree(Escaped(s))
  {
    if s != "" {
      assert NulFree(EscapeChar(s[0]));
      EscapedNulFree(s[1..]);
      NulFreeJoin(EscapeChar(s[0]), Escaped(s[1..]));
    }
  }

  lemma QuotedNulFree(s: string)
    requires NulFree(s)
    ensures NulFree(Quoted(s))
  {
    EscapedNulFree(s);
    NulFreeJoin("\"", Escaped(s));
    NulFreeJoin("\"" + Escaped(s), "\"");
  }

  lemma NumberNulFree(lib: Libc, d: real)
    requires Renders(lib, d)
    ensures NulFree(NumberText(lib, d))
  {
    var t := NumberText(lib, d);
    forall i | 0 <= i < |t| ensures t[i] != '\0' { assert NumberChar(t[i]); }
  }

  /** Every number and string of the tree is written as a C string; there may be invalid items. */
  predicate Clean(w: Writer, v: Json)
  {
    match v
    case Number(d) => NulFree(w.number(d))
    case String(s) => NulFree(w.quote(s))
    case Array(items) => CleanItems(w, items)
    case Object(ms) => CleanMembers(w, ms)
    case _ => true
  }

  predicate CleanItems(w: Writer, items: seq<Json>) { forall i | 0 <= i < |items| :: Clean(w, items[i]) }

  predicate CleanMembers(w: Writer, ms: seq<Member>)
  {
    forall i | 0 <= i < |ms| :: NulFree(w.quote(ms[i].key)) && Clean(w, ms[i].value)
  }

  lemma {:induction false} PrintableClean(lib: Libc, v: Json)
    requires Printable(lib, v)
    ensures Clean(CWriter(lib), v)
  {
    match v
    case Number(d) => NumberNulFree(lib, d);
    case String(s) => QuotedNulFree(s);
    case Array(items) => forall i | 0 <= i < |items| ensures Clean(CWriter(lib), items[i]) { PrintableClean(lib, items[i]); }
    case Object(ms) =>
      forall i | 0 <= i < |ms| ensures NulFree(Quoted(ms[i].key)) && Clean(CWriter(lib), ms[i].value) {
        QuotedNulFree(ms[i].key);
        PrintableClean(lib, ms[i].value);
      }
    case _ =>
  }

  lemma {:induction false} TextNulFree(w: Writer, v: Json, fmt: bool, depth: nat)
    requires Clean(w, v)
    ensures NulFree(Text(w, v, fmt, depth))
    decreases v, 2
  {
    match v
    case Array(items) =>
      ItemsNulFree(w, items, fmt, depth + 1);
      NulFreeJoin(ItemsText(w, items, fmt, depth + 1), "]");
      NulFreeJoin("[", ItemsText(w, items, fmt, depth + 1) + "]");
    case Object(ms) =>
      var inside, close := MembersText(w, ms, fmt, depth + 1), Indent(fmt, depth) + "}";
      MembersNulFree(w, ms, fmt, depth + 1);
      NulFreeJoin(Indent(fmt, depth), "}");
      NulFreeJoin(inside, close);
      NulFreeJoin(NewLine(fmt), inside + close);
      NulFreeJoin("{", NewLine(fmt) + (inside + close));
    case _ =>
  }

  lemma {:induction false} ItemsNulFree(w: Writer, items: seq<Json>, fmt: bool, depth: nat)
    requires CleanItems(w, items)
    ensures NulFree(ItemsText(w, items, fmt, depth))
    decreases items, 0
  {
    if items != [] {
      TextNulFree(w, items[0], fmt, depth);
      ItemsNulFree(w, items[1..], fmt, depth);
      NulFreeJoin(Comma(fmt), ItemsText(w, items[1..], fmt, depth));
      NulFreeJoin(Text(w, items[0], fmt, depth), Comma(fmt) + ItemsText(w, items[1..], fmt, depth));
    }
  }

  lemma {:induction false} MembersNulFree(w: Writer, ms: seq<Member>, fmt: bool, depth: nat)
    requires CleanMembers(w, ms)
    ensures NulFree(MembersText(w, ms, fmt, depth))
    decreases ms, 0
  {
    if ms != [] {
      var q, t, e := w.quote(ms[0].key), Text(w, ms[0].value, fmt, depth), LineEnd(fmt, |ms| == 1);
      TextNulFree(w, ms[0].value, fmt, depth);
      MembersNulFree(w, ms[1..], fmt, depth);
      NulFreeJoin(t, e);
      NulFreeJoin(Colon(fmt), t + e);
      NulFreeJoin(q, Colon(fmt) + (t + e));
      NulFreeJoin(Indent(fmt, depth), q + (Colon(fmt) + (t + e)));
      NulFreeJoin(MemberText(w, ms[0], fmt, depth, |ms| == 1), MembersText(w, ms[1..], fmt, depth));
    }
  }

  // ----- the round trip

  lemma FirstAscii(lib: Libc, v: Json, fmt: bool)
    requires Printable(lib, v)
    ensures var t := Text(CWriter(lib), v, fmt, 0); t != "" && ' ' < t[0] <= '~'
  {
  }

  /** Print then parse: for every tree the printer accepts, formatted or not, with or without the
      check for trailing characters, the parser gives the tree back if its depth is at most 1000
      and refuses it otherwise. Numbers are those that the printed digits stand for. */
  lemma PrintParse(lib: Libc, v: Json, fmt: bool, terminated: bool)
    requires Printable(lib, v)
    ensures Parse(CReader(lib), Text(CWriter(lib), v, fmt, 0), terminated)
         == if Depth(v) <= NESTING_LIMIT then Some(Reread(CCodec(lib).again, v)) else None
  {
    var t := Text(CWriter(lib), v, fmt, 0);
    var c := t + "\0";
    PrintableClean(lib, v);
    TextNulFree(CWriter(lib), v, fmt, 0);
    CStringSelf(t);
    FirstAscii(lib, v, fmt);
    assert c[0] == t[0] && c[..|t|] == t;
    SliceStarts(c, 0, t);
    DarkAfter(c, 0, 0);
    PrintableFits(lib, c, v);
    ValueRoundTrip(CCodec(lib), c, 0, v, fmt, 0, 0, |t|);
    assert FirstDark(c, |t|) == |c|;
  }

  // ----- exact numbers

  /** Every number of the tree is read back exactly. */
  predicate Exact(lib: Libc, v: Json)
  {
    match v
    case Number(d) => Again(lib, d) == d
    case Array(items) => forall i | 0 <= i < |items| :: Exact(lib, items[i])
    case Object(ms) => forall i | 0 <= i < |ms| :: Exact(lib, ms[i].value)
    case _ => true
  }

  lemma {:induction false} ExactSame(lib: Libc, v: Json)
    requires Exact(lib, v)
    ensures Reread(CCodec(lib).again, v) == v
    decreases v, 1
  {
    match v
    case Array(items) => ExactItems(lib, items);
    case Object(ms) => ExactMembers(lib, ms);
    case _ =>
  }

  lemma {:induction false} ExactItems(lib: Libc, items: seq<Json>)
    requires forall i | 0 <= i < |items| :: Exact(lib, items[i])
    ensures RereadItems(CCodec(lib).again, items) == items
    decreases items, 0
  {
    if items != [] {
      ExactSame(lib, items[0]);
      ExactItems(lib, items[1..]);
      assert items == [items[0]] + items[1..];
    }
  }

  lemma {:induction false} ExactMembers(lib: Libc, ms: seq<Member>)
    requires forall i | 0 <= i < |ms| :: Exact(lib, ms[i].value)
    ensures RereadMembers(CCodec(lib).again, ms) == ms
    decreases ms, 0
  {
    if ms != [] {
      ExactSame(lib, ms[0].value);
      ExactMembers(lib, ms[1..]);
      assert ms == [ms[0]] + ms[1..];
    }
  }

  /** With numbers that 15 digits determine, print then parse is the identity, order of members and
      repeated names included. */
  lemma PrintParseIdentity(lib: Libc, v: Json, fmt: bool, terminated: bool)
    requires Printable(lib, v) && Exact(lib, v) && Depth(v) <= NESTING_LIMIT
    ensures Parse(CReader(lib), Text(CWriter(lib), v, fmt, 0), terminated) == Some(v)
  {
    PrintParse(lib, v, fmt, terminated);
    ExactSame(lib, v);
  }
}
