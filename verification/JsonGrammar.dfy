/**
 What the parser accepts, as a grammar: when a stretch of a buffer spells a value, with blanks
 allowed between any two tokens. The parser reads a value exactly from the stretches that spell it
 and nest at most 1000 deep, on every buffer, terminated or not.
 */
module JsonGrammar {
  import opened Json
  import opened JsonParse
  import opened JsonTreeRoundTrip

  // ----- the grammar

  /** Nothing but blanks from `o` to `p`; a blank is any byte up to 32. */
  predicate Blanks(c: string, o: nat, p: nat)
  {
    o <= p <= |c| && forall i | o <= i < p :: c[i] <= ' '
  }

  /** The buffer spells the value from `o` to `e`. */
  ghost predicate Spells(r: Reader, c: string, o: nat, v: Json, e: nat)
    decreases v, 1
  {
    match v
    case Invalid => false
    case Null => StartsWith(c, o, "null") && e == o + 4
    case False => StartsWith(c, o, "false") && e == o + 5
    case True => StartsWith(c, o, "true") && e == o + 4
    case String(s) => SpellsString(r, c, o, s, e)
    case Number(d) => o < e <= |c| && NumberStart(c[o]) && r.number(c, o) == Parsed(d, e)
    case Array(items) =>
      At(c, o, '[') && if items == [] then Closes(c, o + 1, ']', e) else SpellsItems(r, c, o + 1, items, e)
    case Object(ms) =>
      At(c, o, '{') && if ms == [] then Closes(c, o + 1, '}', e) else SpellsMembers(r, c, o + 1, ms, e)
  }

  ghost predicate SpellsString(r: Reader, c: string, o: nat, s: string, e: nat)
  {
    o < e <= |c| && c[o] == '\"' && r.text(c, o) == Parsed(s, e)
  }

  /** Blanks and this character, which ends at `e`. */
  predicate Closes(c: string, o: nat, ch: char, e: nat)
  {
    e > 0 && Blanks(c, o, e - 1) && At(c, e - 1, ch)
  }

  /** A value with blanks before it and behind it, up to the character at `s`. */
  ghost predicate SpellsPadded(r: Reader, c: string, o: nat, v: Json, s: nat)
    decreases v, 2
  {
    exists p: nat, q: nat :: Blanks(c, o, p) && Spells(r, c, p, v, q) && Blanks(c, q, s)
  }

  /** Items with commas between them, and the bracket. */
  ghost predicate SpellsItems(r: Reader, c: string, o: nat, items: seq<Json>, e: nat)
    requires items != []
    decreases items, 1
  {
    exists s: nat :: SpellsPadded(r, c, o, items[0], s) && ItemsGoOn(r, c, s, items, e)
  }

  /** What follows the first item. */
  ghost predicate ItemsGoOn(r: Reader, c: string, s: nat, items: seq<Json>, e: nat)
    requires items != []
    decreases items, 0
  {
    if |items| == 1 then At(c, s, ']') && e == s + 1
    else At(c, s, ',') && SpellsItems(r, c, s + 1, items[1..], e)
  }

  /** A name and the colon behind it, each after blanks. */
  ghost predicate SpellsName(r: Reader, c: string, o: nat, key: string, k: nat)
  {
    exists p: nat, q: nat :: Blanks(c, o, p) && SpellsString(r, c, p, key, q) && Closes(c, q, ':', k)
  }

  ghost predicate SpellsMember(r: Reader, c: string, o: nat, m: Member, s: nat)
    decreases m, 0
  {
    exists k: nat :: SpellsName(r, c, o, m.key, k) && SpellsPadded(r, c, k, m.value, s)
  }

  /** Members with commas between them, and the brace. */
  ghost predicate SpellsMembers(r: Reader, c: string, o: nat, ms: seq<Member>, e: nat)
    requires ms != []
    decreases ms, 1
  {
    exists s: nat :: SpellsMember(r, c, o, ms[0], s) && MembersGoOn(r, c, s, ms, e)
  }

  /** What follows the first member. */
  ghost predicate MembersGoOn(r: Reader, c: string, s: nat, ms: seq<Member>, e: nat)
    requires ms != []
    decreases ms, 0
  {
    if |ms| == 1 then At(c, s, '}') && e == s + 1
    else At(c, s, ',') && SpellsMembers(r, c, s + 1, ms[1..], e)
  }

  // ----- blanks

  lemma {:induction false} DarkIsFirst(c: string, o: nat)
    requires o <= |c|
    ensures Blanks(c, o, FirstDark(c, o))
    decreases |c| - o
  {
    if o < |c| && c[o] <= ' ' { DarkIsFirst(c, o + 1); }
  }

  lemma SkipIsBlank(c: string, o: nat)
    requires o <= |c|
    ensures Blanks(c, o, SkipWhitespace(c, o))
  {
    DarkIsFirst(c, o);
  }

  lemma BlankIsSkipped(c: string, o: nat, p: nat)
    requires Blanks(c, o, p) && p < |c| && c[p] > ' '
    ensures SkipWhitespace(c, o) == p
  {
    DarkAfter(c, o, p);
  }

  lemma SpelledIsDark(r: Reader, c: string, o: nat, v: Json, e: nat)
    requires Spells(r, c, o, v, e)
    ensures o < |c| && c[o] > ' ' && c[o] != ']' && c[o] != '}'
  {
  }

  // ----- the two loops of the parser, turn by turn

  /** A loop from each offset on, and what it reads first there: an element, and the offset of the
      character behind it and its blanks. */
  datatype Loop<T> = Loop(all: nat -> Parsed<seq<T>>, first: nat -> Parsed<T>, close: char)

  /** One turn: the element alone if the closing character follows, with the rest after a comma. */
  function Turn<T>(l: Loop<T>, c: string, v: Parsed<T>): Parsed<seq<T>>
  {
    Joined(c, v, if v.Parsed? && At(c, v.offset, ',') then l.all(v.offset + 1) else Failed, l.close)
  }

  ghost predicate TakesTurns<T>(l: Loop<T>, c: string)
  {
    l.close > ' ' && l.close != ',' && forall o: nat | o <= |c| :: l.all(o) == Turn(l, c, l.first(o))
  }

  /** A value and the offset of the character behind it and its blanks. */
  function Padded(r: Reader, c: string, o: nat, depth: nat): Parsed<Json>
  {
    if o > |c| then Failed
    else
      var v := ParseValue(r, c, SkipWhitespace(c, o), depth);
      if v.Failed? then Failed else Parsed(v.value, SkipWhitespace(c, v.offset))
  }

  function PaddedMember(r: Reader, c: string, o: nat, depth: nat): Parsed<Member>
  {
    if o > |c| then Failed
    else
      var m := ParseMember(r, c, o, depth);
      if m.Failed? then Failed else Parsed(m.value, SkipWhitespace(c, m.offset))
  }

  function ItemLoop(r: Reader, c: string, depth: nat): Loop<Json>
  {
    Loop((o: nat) => if o <= |c| then ParseItems(r, c, o, depth) else Failed, (o: nat) => Padded(r, c, o, depth), ']')
  }

  function MemberLoop(r: Reader, c: string, depth: nat): Loop<Member>
  {
    Loop((o: nat) => if o <= |c| then ParseMembers(r, c, o, depth) else Failed, (o: nat) => PaddedMember(r, c, o, depth), '}')
  }

  /** What a turn makes of the first element and of the rest after it. */
  function Joined<T>(c: string, v: Parsed<T>, rest: Parsed<seq<T>>, close: char): Parsed<seq<T>>
  {
    if v.Failed? then Failed
    else if At(c, v.offset, ',') then (if rest.Failed? then Failed else Parsed([v.value] + rest.value, rest.offset))
    else if At(c, v.offset, close) then Parsed([v.value], v.offset + 1)
    else Failed
  }

  lemma ItemTurn(r: Reader, c: string, o: nat, depth: nat)
    requires o <= |c|
    ensures
      var v := Padded(r, c, o, depth);
      ParseItems(r, c, o, depth)
        == Joined(c, v, if v.Parsed? && At(c, v.offset, ',') then ParseItems(r, c, v.offset + 1, depth) else Failed, ']')
  {
  }

  lemma MemberTurn(r: Reader, c: string, o: nat, depth: nat)
    requires o <= |c|
    ensures
      var m := PaddedMember(r, c, o, depth);
      ParseMembers(r, c, o, depth)
        == Joined(c, m, if m.Parsed? && At(c, m.offset, ',') then ParseMembers(r, c, m.offset + 1, depth) else Failed, '}')
  {
  }

  lemma ItemTurns(r: Reader, c: string, depth: nat)
    ensures TakesTurns(ItemLoop(r, c, depth), c)
  {
    var l := ItemLoop(r, c, depth);
    forall o: nat | o <= |c| ensures l.all(o) == Turn(l, c, l.first(o)) { ItemTurn(r, c, o, depth); }
  }

  lemma MemberTurns(r: Reader, c: string, depth: nat)
    ensures TakesTurns(MemberLoop(r, c, depth), c)
  {
    var l := MemberLoop(r, c, depth);
    forall o: nat | o <= |c| ensures l.all(o) == Turn(l, c, l.first(o)) { MemberTurn(r, c, o, depth); }
  }

  // ----- what is read is spelled

  /** A value that was read is spelled and does not nest too deep. */
  ghost predicate ValueOk(r: Reader, c: string, o: nat, v: Parsed<Json>, depth: nat)
  {
    v.Parsed? ==> o < v.offset <= |c| && Spells(r, c, o, v.value, v.offset) && depth + Depth(v.value) <= NESTING_LIMIT
  }

  ghost predicate ItemOk(r: Reader, c: string, o: nat, v: Parsed<Json>, depth: nat)
  {
    v.Parsed? ==> o <= v.offset && SpellsPadded(r, c, o, v.value, v.offset) && depth + Depth(v.value) <= NESTING_LIMIT
  }

  ghost predicate MemberOk(r: Reader, c: string, o: nat, m: Parsed<Member>, depth: nat)
  {
    m.Parsed? ==> o <= m.offset && SpellsMember(r, c, o, m.value, m.offset) && depth + Depth(m.value.value) <= NESTING_LIMIT
  }

  ghost predicate ItemsOk(r: Reader, c: string, o: nat, vs: Parsed<seq<Json>>, depth: nat)
  {
    vs.Parsed? ==> vs.value != [] && SpellsItems(r, c, o, vs.value, vs.offset) && depth + ItemsDepth(vs.value) <= NESTING_LIMIT
  }

  ghost predicate MembersOk(r: Reader, c: string, o: nat, ms: Parsed<seq<Member>>, depth: nat)
  {
    ms.Parsed? ==> ms.value != [] && SpellsMembers(r, c, o, ms.value, ms.offset) && depth + MembersDepth(ms.value) <= NESTING_LIMIT
  }

  lemma ItemsJoined(r: Reader, c: string, o: nat, v: Parsed<Json>, rest: Parsed<seq<Json>>, depth: nat)
    requires ItemOk(r, c, o, v, depth) && (v.Parsed? && At(c, v.offset, ',') ==> ItemsOk(r, c, v.offset + 1, rest, depth))
    ensures ItemsOk(r, c, o, Joined(c, v, rest, ']'), depth)
  {
    var all := Joined(c, v, rest, ']');
    if all.Parsed? {
      assert all.value[0] == v.value && all.value[1..] == if At(c, v.offset, ',') then rest.value else [];
      assert ItemsGoOn(r, c, v.offset, all.value, all.offset);
    }
  }

  lemma MembersJoined(r: Reader, c: string, o: nat, m: Parsed<Member>, rest: Parsed<seq<Member>>, depth: nat)
    requires MemberOk(r, c, o, m, depth) && (m.Parsed? && At(c, m.offset, ',') ==> MembersOk(r, c, m.offset + 1, rest, depth))
    ensures MembersOk(r, c, o, Joined(c, m, rest, '}'), depth)
  {
    var all := Joined(c, m, rest, '}');
    if all.Parsed? {
      assert all.value[0] == m.value && all.value[1..] == if At(c, m.offset, ',') then rest.value else [];
      assert MembersGoOn(r, c, m.offset, all.value, all.offset);
    }
  }

  /** A turn keeps what `first` says of an element and `all` of the elements. */
  ghost predicate Keeps<T(!new)>(c: string, close: char, first: (nat, Parsed<T>) -> bool, all: (nat, Parsed<seq<T>>) -> bool)
  {
    forall p: nat, v, rest | first(p, v) && (v.Parsed? && At(c, v.offset, ',') ==> all(v.offset + 1, rest)) ::
      all(p, Joined(c, v, rest, close))
  }

  /** What holds of every element that is read first, and is kept by a turn, holds of the whole. */
  lemma {:induction false} LoopKeeps<T(!new)>(l: Loop<T>, c: string, o: nat, first: (nat, Parsed<T>) -> bool,
                                              all: (nat, Parsed<seq<T>>) -> bool)
    requires o <= |c| && TakesTurns(l, c) && Keeps(c, l.close, first, all)
    requires forall p: nat | o <= p <= |c| :: first(p, l.first(p)) && (l.first(p).Parsed? ==> p <= l.first(p).offset)
    ensures all(o, l.all(o))
    decreases |c| - o
  {
    var v := l.first(o);
    if v.Parsed? && At(c, v.offset, ',') {
      LoopKeeps(l, c, v.offset + 1, first, all);
      TurnKeeps(l, c, o, v, l.all(v.offset + 1), first, all);
    } else {
      TurnKeeps(l, c, o, v, Failed, first, all);
    }
  }

  lemma TurnKeeps<T(!new)>(l: Loop<T>, c: string, o: nat, v: Parsed<T>, rest: Parsed<seq<T>>, first: (nat, Parsed<T>) -> bool,
                           all: (nat, Parsed<seq<T>>) -> bool)
    requires Keeps(c, l.close, first, all) && first(o, v)
    requires if v.Parsed? && At(c, v.offset, ',') then rest == l.all(v.offset + 1) && all(v.offset + 1, rest) else rest == Failed
    ensures all(o, Turn(l, c, v))
  {
    assert Turn(l, c, v) == Joined(c, v, rest, l.close);
  }

  lemma PaddedSpelled(r: Reader, c: string, o: nat, depth: nat)
    requires o <= |c| && forall p: nat | o <= p <= |c| :: ValueOk(r, c, p, ParseValue(r, c, p, depth), depth)
    ensures ItemOk(r, c, o, Padded(r, c, o, depth), depth)
  {
    var p := SkipWhitespace(c, o);
    SkipIsBlank(c, o);
    var v := ParseValue(r, c, p, depth);
    assert ValueOk(r, c, p, v, depth);
    if v.Parsed? { SkipIsBlank(c, v.offset); }
  }

  lemma NameSpelled(r: Reader, c: string, o: nat)
    requires o <= |c| && ParseName(r, c, o).Parsed?
    ensures SpellsName(r, c, o, ParseName(r, c, o).value, ParseName(r, c, o).offset)
  {
    var q := SkipWhitespace(c, o);
    var key := Within(c, q, r.text(c, q));
    SkipIsBlank(c, o);
    SkipIsBlank(c, key.offset);
    assert SpellsString(r, c, q, key.value, key.offset);
    assert Closes(c, key.offset, ':', ParseName(r, c, o).offset);
  }

  lemma PaddedMemberSpelled(r: Reader, c: string, o: nat, depth: nat)
    requires o <= |c| && forall p: nat | o <= p <= |c| :: ValueOk(r, c, p, ParseValue(r, c, p, depth), depth)
    ensures MemberOk(r, c, o, PaddedMember(r, c, o, depth), depth)
  {
    var key := ParseName(r, c, o);
    if key.Parsed? {
      NameSpelled(r, c, o);
      PaddedSpelled(r, c, key.offset, depth);
    }
  }

  lemma {:induction false} ReadIsSpelled(r: Reader, c: string, o: nat, depth: nat)
    requires o <= |c| && depth <= NESTING_LIMIT
    ensures ValueOk(r, c, o, ParseValue(r, c, o, depth), depth)
    decreases |c| - o, 1
  {
    if StartsWith(c, o, "null") || StartsWith(c, o, "false") || StartsWith(c, o, "true") {
    } else if At(c, o, '[') {
      NoLiteral(c, o);
      ArrayIsSpelled(r, c, o, depth);
    } else if At(c, o, '{') {
      NoLiteral(c, o);
      ObjectIsSpelled(r, c, o, depth);
    }
  }

  lemma {:induction false} ArrayIsSpelled(r: Reader, c: string, o: nat, depth: nat)
    requires At(c, o, '[')
    ensures ValueOk(r, c, o, ParseArray(r, c, o, depth), depth)
    decreases |c| - o, 0
  {
    if depth < NESTING_LIMIT {
      var s, inner := SkipWhitespace(c, o + 1), depth + 1;
      SkipIsBlank(c, o + 1);
      forall p: nat | s <= p <= |c| ensures ValueOk(r, c, p, ParseValue(r, c, p, inner), inner) {
        ReadIsSpelled(r, c, p, inner);
      }
      ItemsAreSpelled(r, c, s, inner);
      var items := ParseItems(r, c, s, inner);
      if items.Parsed? { ItemsAfterBlanks(r, c, o + 1, s, items.value, items.offset); }
    }
  }

  lemma ItemsAreSpelled(r: Reader, c: string, o: nat, depth: nat)
    requires o <= |c| && forall p: nat | o <= p <= |c| :: ValueOk(r, c, p, ParseValue(r, c, p, depth), depth)
    ensures ItemsOk(r, c, o, ParseItems(r, c, o, depth), depth)
  {
    var l := ItemLoop(r, c, depth);
    ItemTurns(r, c, depth);
    var first := (p: nat, v: Parsed<Json>) => ItemOk(r, c, p, v, depth);
    var all := (p: nat, vs: Parsed<seq<Json>>) => ItemsOk(r, c, p, vs, depth);
    forall p: nat | o <= p <= |c| ensures first(p, l.first(p)) && (l.first(p).Parsed? ==> p <= l.first(p).offset) {
      PaddedSpelled(r, c, p, depth);
    }
    assert Keeps(c, l.close, first, all) by {
      forall p: nat, v, rest | first(p, v) && (v.Parsed? && At(c, v.offset, ',') ==> all(v.offset + 1, rest))
        ensures all(p, Joined(c, v, rest, l.close))
      {
        ItemsJoined(r, c, p, v, rest, depth);
      }
    }
    LoopKeeps(l, c, o, first, all);
  }

  lemma MembersAreSpelled(r: Reader, c: string, o: nat, depth: nat)
    requires o <= |c| && forall p: nat | o <= p <= |c| :: ValueOk(r, c, p, ParseValue(r, c, p, depth), depth)
    ensures MembersOk(r, c, o, ParseMembers(r, c, o, depth), depth)
  {
    var l := MemberLoop(r, c, depth);
    MemberTurns(r, c, depth);
    var first := (p: nat, m: Parsed<Member>) => MemberOk(r, c, p, m, depth);
    var all := (p: nat, ms: Parsed<seq<Member>>) => MembersOk(r, c, p, ms, depth);
    forall p: nat | o <= p <= |c| ensures first(p, l.first(p)) && (l.first(p).Parsed? ==> p <= l.first(p).offset) {
      PaddedMemberSpelled(r, c, p, depth);
    }
    assert Keeps(c, l.close, first, all) by {
      forall p: nat, m, rest | first(p, m) && (m.Parsed? && At(c, m.offset, ',') ==> all(m.offset + 1, rest))
        ensures all(p, Joined(c, m, rest, l.close))
      {
        MembersJoined(r, c, p, m, rest, depth);
      }
    }
    LoopKeeps(l, c, o, first, all);
  }

  lemma {:induction false} ObjectIsSpelled(r: Reader, c: string, o: nat, depth: nat)
    requires At(c, o, '{')
    ensures ValueOk(r, c, o, ParseObject(r, c, o, depth), depth)
    decreases |c| - o, 0
  {
    if depth < NESTING_LIMIT {
      var s, inner := SkipWhitespace(c, o + 1), depth + 1;
      SkipIsBlank(c, o + 1);
      forall p: nat | s <= p <= |c| ensures ValueOk(r, c, p, ParseValue(r, c, p, inner), inner) {
        ReadIsSpelled(r, c, p, inner);
      }
      MembersAreSpelled(r, c, s, inner);
      var ms := ParseMembers(r, c, s, inner);
      if ms.Parsed? { MembersAfterBlanks(r, c, o + 1, s, ms.value, ms.offset); }
    }
  }

  lemma MoreBlanks(c: string, o: nat, s: nat, p: nat)
    requires Blanks(c, o, s) && Blanks(c, s, p)
    ensures Blanks(c, o, p)
  {
  }

  lemma ItemsAfterBlanks(r: Reader, c: string, o: nat, s: nat, items: seq<Json>, e: nat)
    requires Blanks(c, o, s) && items != [] && SpellsItems(r, c, s, items, e)
    ensures SpellsItems(r, c, o, items, e)
  {
    var k: nat :| SpellsPadded(r, c, s, items[0], k) && ItemsGoOn(r, c, k, items, e);
    var p: nat, q: nat :| Blanks(c, s, p) && Spells(r, c, p, items[0], q) && Blanks(c, q, k);
    MoreBlanks(c, o, s, p);
    assert SpellsPadded(r, c, o, items[0], k);
  }

  lemma MembersAfterBlanks(r: Reader, c: string, o: nat, s: nat, ms: seq<Member>, e: nat)
    requires Blanks(c, o, s) && ms != [] && SpellsMembers(r, c, s, ms, e)
    ensures SpellsMembers(r, c, o, ms, e)
  {
    var i: nat :| SpellsMember(r, c, s, ms[0], i) && MembersGoOn(r, c, i, ms, e);
    var k: nat :| SpellsName(r, c, s, ms[0].key, k) && SpellsPadded(r, c, k, ms[0].value, i);
    var p: nat, q: nat :| Blanks(c, s, p) && SpellsString(r, c, p, ms[0].key, q) && Closes(c, q, ':', k);
    MoreBlanks(c, o, s, p);
    assert SpellsName(r, c, o, ms[0].key, k);
    assert SpellsMember(r, c, o, ms[0], i);
  }

  // ----- what is spelled is read

  lemma {:induction false} SpelledIsRead(r: Reader, c: string, o: nat, v: Json, e: nat, depth: nat)
    requires Spells(r, c, o, v, e) && depth + Depth(v) <= NESTING_LIMIT
    ensures ParseValue(r, c, o, depth) == Parsed(v, e)
    decreases v, 1
  {
    SpelledIsDark(r, c, o, v, e);
    match v
    case Array(_) =>
      NoLiteral(c, o);
      ArrayIsRead(r, c, o, v, e, depth);
    case Object(_) =>
      NoLiteral(c, o);
      ObjectIsRead(r, c, o, v, e, depth);
    case String(_) => NoLiteral(c, o);
    case Number(_) => NoLiteral(c, o);
    case _ =>
  }

  /** Wherever the value is spelled, it is read. */
  ghost predicate Reads(r: Reader, c: string, v: Json, depth: nat)
  {
    forall o: nat, e: nat | Spells(r, c, o, v, e) :: ParseValue(r, c, o, depth) == Parsed(v, e)
  }

  lemma PaddedIsRead(r: Reader, c: string, o: nat, v: Json, s: nat, depth: nat)
    requires SpellsPadded(r, c, o, v, s) && s < |c| && c[s] > ' ' && Reads(r, c, v, depth)
    ensures Padded(r, c, o, depth) == Parsed(v, s)
    ensures o <= |c| && SkipWhitespace(c, o) < |c| && c[SkipWhitespace(c, o)] > ' ' && c[SkipWhitespace(c, o)] != ']'
  {
    var p: nat, q: nat :| Blanks(c, o, p) && Spells(r, c, p, v, q) && Blanks(c, q, s);
    SpelledIsDark(r, c, p, v, q);
    BlankIsSkipped(c, o, p);
    BlankIsSkipped(c, q, s);
  }

  lemma NameIsRead(r: Reader, c: string, o: nat, key: string, k: nat)
    requires SpellsName(r, c, o, key, k)
    ensures o <= |c| && SkipWhitespace(c, o) < |c| && c[SkipWhitespace(c, o)] == '\"'
    ensures ParseName(r, c, o) == Parsed(key, k)
  {
    var p: nat, q: nat :| Blanks(c, o, p) && SpellsString(r, c, p, key, q) && Closes(c, q, ':', k);
    BlankIsSkipped(c, o, p);
    BlankIsSkipped(c, q, k - 1);
  }

  lemma MemberIsRead(r: Reader, c: string, o: nat, m: Member, s: nat, depth: nat)
    requires SpellsMember(r, c, o, m, s) && s < |c| && c[s] > ' ' && Reads(r, c, m.value, depth)
    ensures PaddedMember(r, c, o, depth) == Parsed(m, s)
    ensures o <= |c| && SkipWhitespace(c, o) < |c| && c[SkipWhitespace(c, o)] == '\"'
  {
    var k: nat :| SpellsName(r, c, o, m.key, k) && SpellsPadded(r, c, k, m.value, s);
    NameIsRead(r, c, o, m.key, k);
    PaddedIsRead(r, c, k, m.value, s, depth);
  }

  /** One turn gives the elements if it gives the first and the next turns give the others. */
  lemma TurnIs<T>(l: Loop<T>, c: string, o: nat, vs: seq<T>, s: nat, e: nat)
    requires o <= |c| && vs != [] && TakesTurns(l, c) && l.first(o) == Parsed(vs[0], s)
    requires if |vs| == 1 then At(c, s, l.close) && e == s + 1 else At(c, s, ',') && l.all(s + 1) == Parsed(vs[1..], e)
    ensures l.all(o) == Parsed(vs, e)
  {
    if |vs| == 1 { assert vs == [vs[0]]; } else { assert vs == [vs[0]] + vs[1..]; }
  }

  lemma {:induction false} ItemsAreRead(r: Reader, c: string, o: nat, items: seq<Json>, e: nat, depth: nat)
    requires items != [] && SpellsItems(r, c, o, items, e) && forall i | 0 <= i < |items| :: Reads(r, c, items[i], depth)
    ensures o <= |c| && SkipWhitespace(c, o) < |c| && c[SkipWhitespace(c, o)] > ' ' && c[SkipWhitespace(c, o)] != ']'
    ensures ItemLoop(r, c, depth).all(o) == Parsed(items, e)
    decreases |items|
  {
    var s: nat :| SpellsPadded(r, c, o, items[0], s) && ItemsGoOn(r, c, s, items, e);
    PaddedIsRead(r, c, o, items[0], s, depth);
    if |items| > 1 { ItemsAreRead(r, c, s + 1, items[1..], e, depth); }
    ItemsReadOn(r, c, o, items, s, e, depth);
  }

  lemma ItemsReadOn(r: Reader, c: string, o: nat, items: seq<Json>, s: nat, e: nat, depth: nat)
    requires o <= |c| && items != [] && Padded(r, c, o, depth) == Parsed(items[0], s)
    requires if |items| == 1 then At(c, s, ']') && e == s + 1
             else At(c, s, ',') && ItemLoop(r, c, depth).all(s + 1) == Parsed(items[1..], e)
    ensures ItemLoop(r, c, depth).all(o) == Parsed(items, e)
  {
    ItemTurns(r, c, depth);
    TurnIs(ItemLoop(r, c, depth), c, o, items, s, e);
  }

  lemma {:induction false} MembersAreRead(r: Reader, c: string, o: nat, ms: seq<Member>, e: nat, depth: nat)
    requires ms != [] && SpellsMembers(r, c, o, ms, e) && forall i | 0 <= i < |ms| :: Reads(r, c, ms[i].value, depth)
    ensures o <= |c| && SkipWhitespace(c, o) < |c| && c[SkipWhitespace(c, o)] == '\"'
    ensures MemberLoop(r, c, depth).all(o) == Parsed(ms, e)
    decreases |ms|
  {
    var s: nat :| SpellsMember(r, c, o, ms[0], s) && MembersGoOn(r, c, s, ms, e);
    MemberIsRead(r, c, o, ms[0], s, depth);
    if |ms| > 1 { MembersAreRead(r, c, s + 1, ms[1..], e, depth); }
    MembersReadOn(r, c, o, ms, s, e, depth);
  }

  lemma MembersReadOn(r: Reader, c: string, o: nat, ms: seq<Member>, s: nat, e: nat, depth: nat)
    requires o <= |c| && ms != [] && PaddedMember(r, c, o, depth) == Parsed(ms[0], s)
    requires if |ms| == 1 then At(c, s, '}') && e == s + 1
             else At(c, s, ',') && MemberLoop(r, c, depth).all(s + 1) == Parsed(ms[1..], e)
    ensures MemberLoop(r, c, depth).all(o) == Parsed(ms, e)
  {
    MemberTurns(r, c, depth);
    TurnIs(MemberLoop(r, c, depth), c, o, ms, s, e);
  }

  lemma DarkStays(c: string, o: nat)
    requires o <= |c| && SkipWhitespace(c, o) < |c| && c[SkipWhitespace(c, o)] > ' '
    ensures SkipWhitespace(c, SkipWhitespace(c, o)) == SkipWhitespace(c, o)
  {
    BlankIsSkipped(c, SkipWhitespace(c, o), SkipWhitespace(c, o));
  }

  lemma ItemsFromDark(r: Reader, c: string, o: nat, depth: nat)
    requires o <= |c| && SkipWhitespace(c, o) < |c| && c[SkipWhitespace(c, o)] > ' '
    ensures ParseItems(r, c, SkipWhitespace(c, o), depth) == ParseItems(r, c, o, depth)
  {
    DarkStays(c, o);
  }

  lemma MembersFromDark(r: Reader, c: string, o: nat, depth: nat)
    requires o <= |c| && SkipWhitespace(c, o) < |c| && c[SkipWhitespace(c, o)] == '\"'
    ensures ParseMembers(r, c, SkipWhitespace(c, o), depth) == ParseMembers(r, c, o, depth)
  {
    DarkStays(c, o);
    assert ParseName(r, c, SkipWhitespace(c, o)) == ParseName(r, c, o);
    assert ParseMember(r, c, SkipWhitespace(c, o), depth) == ParseMember(r, c, o, depth);
  }

  lemma {:induction false} ItemDepth(items: seq<Json>, i: nat)
    requires i < |items|
    ensures Depth(items[i]) <= ItemsDepth(items)
  {
    if i > 0 { ItemDepth(items[1..], i - 1); }
  }

  lemma {:induction false} ValueReads(r: Reader, c: string, v: Json, depth: nat)
    requires depth + Depth(v) <= NESTING_LIMIT
    ensures Reads(r, c, v, depth)
    decreases v, 2
  {
    forall o: nat, e: nat | Spells(r, c, o, v, e) ensures ParseValue(r, c, o, depth) == Parsed(v, e) {
      SpelledIsRead(r, c, o, v, e, depth);
    }
  }

  lemma {:induction false} ArrayIsRead(r: Reader, c: string, o: nat, v: Json, e: nat, depth: nat)
    requires v.Array? && Spells(r, c, o, v, e) && depth + Depth(v) <= NESTING_LIMIT
    ensures ParseArray(r, c, o, depth) == Parsed(v, e)
    decreases v, 0
  {
    if v.items == [] {
      BlankIsSkipped(c, o + 1, e - 1);
    } else {
      var inner := depth + 1;
      forall i | 0 <= i < |v.items| ensures Reads(r, c, v.items[i], inner) {
        ItemDepth(v.items, i);
        ValueReads(r, c, v.items[i], inner);
      }
      ItemsAreRead(r, c, o + 1, v.items, e, inner);
      ItemsFromDark(r, c, o + 1, inner);
    }
  }

  lemma {:induction false} ObjectIsRead(r: Reader, c: string, o: nat, v: Json, e: nat, depth: nat)
    requires v.Object? && Spells(r, c, o, v, e) && depth + Depth(v) <= NESTING_LIMIT
    ensures ParseObject(r, c, o, depth) == Parsed(v, e)
    decreases v, 0
  {
    if v.members == [] {
      BlankIsSkipped(c, o + 1, e - 1);
    } else {
      var inner := depth + 1;
      forall i | 0 <= i < |v.members| ensures Reads(r, c, v.members[i].value, inner) {
        MemberDepth(v.members, i);
        ValueReads(r, c, v.members[i].value, inner);
      }
      MembersAreRead(r, c, o + 1, v.members, e, inner);
      MembersFromDark(r, c, o + 1, inner);
    }
  }

  // ----- the parser is the grammar

  /** parse_value reads a value up to an offset exactly when the buffer spells it up to there and it
      does not nest too deep. */
  lemma ReadIff(r: Reader, c: string, o: nat, v: Json, e: nat, depth: nat)
    requires o <= |c| && depth <= NESTING_LIMIT
    ensures ParseValue(r, c, o, depth) == Parsed(v, e) <==> Spells(r, c, o, v, e) && depth + Depth(v) <= NESTING_LIMIT
  {
    ReadIsSpelled(r, c, o, depth);
    if Spells(r, c, o, v, e) && depth + Depth(v) <= NESTING_LIMIT {
      SpelledIsRead(r, c, o, v, e, depth);
    }
  }

  /** The byte order mark, which is passed over if at least two more bytes follow. */
  const BOM: string := [0xEF as char, 0xBB as char, 0xBF as char]

  function BomLength(c: string): (n: nat)
    ensures n <= |c|
  {
    if |c| >= 5 && c[..3] == BOM then 3 else 0
  }

  lemma BomIsSkipped(c: string)
    ensures SkipBom(c) == BomLength(c)
  {
    if |c| >= 5 { assert c[..3] == [c[0], c[1], c[2]]; }
  }

  /** A whole buffer: the value after blanks and, if the caller asks for it, nothing but blanks behind
      it, the last of them a NUL. A byte order mark may come first. */
  ghost predicate SpellsBuffer(r: Reader, c: string, v: Json, terminated: bool)
  {
    exists p: nat, e: nat :: Blanks(c, BomLength(c), p) && Spells(r, c, p, v, e) && (terminated ==> EndsBlank(c, e))
  }

  predicate EndsBlank(c: string, e: nat) { e < |c| && Blanks(c, e, |c|) && c[|c| - 1] == '\0' }

  lemma EndIff(c: string, e: nat)
    requires e <= |c|
    ensures At(c, SkipWhitespace(c, e), '\0') <==> EndsBlank(c, e)
  {
    DarkIsFirst(c, e);
  }

  lemma ReadBufferIsSpelled(r: Reader, c: string, v: Json, terminated: bool)
    requires ParseBuffer(r, c, terminated) == Some(v)
    ensures SpellsBuffer(r, c, v, terminated) && Depth(v) <= NESTING_LIMIT
  {
    BomIsSkipped(c);
    var o := SkipWhitespace(c, SkipBom(c));
    var read := ParseValue(r, c, o, 0);
    SkipIsBlank(c, SkipBom(c));
    ReadIff(r, c, o, v, read.offset, 0);
    EndIff(c, read.offset);
  }

  /** cJSON_ParseWithLengthOpts gives a value exactly when the buffer spells it. */
  lemma BufferIff(r: Reader, c: string, v: Json, terminated: bool)
    ensures ParseBuffer(r, c, terminated) == Some(v) <==> SpellsBuffer(r, c, v, terminated) && Depth(v) <= NESTING_LIMIT
  {
    if ParseBuffer(r, c, terminated) == Some(v) {
      ReadBufferIsSpelled(r, c, v, terminated);
    }
    if SpellsBuffer(r, c, v, terminated) && Depth(v) <= NESTING_LIMIT {
      var p: nat, e: nat :| Blanks(c, BomLength(c), p) && Spells(r, c, p, v, e) && (terminated ==> EndsBlank(c, e));
      BomIsSkipped(c);
      SpelledIsDark(r, c, p, v, e);
      BlankIsSkipped(c, SkipBom(c), p);
      ReadIff(r, c, p, v, e, 0);
      EndIff(c, e);
    }
  }
}
