/**
 JSON Pointer (RFC 6901) as cJSON_Utils.c builds and follows it. A node of a tree is named by its
 location, the list of child indices that leads to it, which stands for the node's address.
 Pointer text ends where the sequence ends; a C string has a NUL there.
 */
module JsonPointer {
  import opened Json

  type Loc = seq<nat>

  // ----- escaping

  /** encode_string_as_pointer */
  function Encode(s: string): (r: string)
    ensures |r| >= |s|
  {
    if s == "" then ""
    else (if s[0] == '/' then "~1" else if s[0] == '~' then "~0" else [s[0]]) + Encode(s[1..])
  }

  /** pointer_encoded_length */
  function EncodedLength(s: string): nat
  {
    if s == "" then 0 else (if s[0] == '~' || s[0] == '/' then 2 else 1) + EncodedLength(s[1..])
  }

  /** The space compose_patch and FindPointerFromObjectTo reserve for an encoded name is exact. */
  lemma {:induction false} EncodedLengthExact(s: string)
    ensures EncodedLength(s) == |Encode(s)|
  {
    if s != "" { EncodedLengthExact(s[1..]); }
  }

  lemma {:induction false} EncodedHasNoSlash(s: string)
    ensures '/' !in Encode(s)
  {
    if s != "" { EncodedHasNoSlash(s[1..]); }
  }

  /** compare_pointers: does the next token of `p` name this member? */
  predicate MatchesToken(name: string, p: string, cs: bool)
    decreases |name|
  {
    if name == "" || p == "" || p[0] == '/' then
      (p != "" && p[0] != '/') == (name != "")
    else if p[0] == '~' then
      && |p| > 1 && ((p[1] == '0' && name[0] == '~') || (p[1] == '1' && name[0] == '/'))
      && MatchesToken(name[1..], p[2..], cs)
    else
      Fold(name[0], cs) == Fold(p[0], cs) && MatchesToken(name[1..], p[1..], cs)
  }

  /** A pointer, or what is left of one after a token. */
  predicate AtTokenEnd(p: string) { p == "" || p[0] == '/' }

  function EncodedChar(ch: char): string { if ch == '/' then "~1" else if ch == '~' then "~0" else [ch] }

  lemma EncodedFirst(key: string, rest: string)
    requires key != ""
    ensures Encode(key) + rest == EncodedChar(key[0]) + (Encode(key[1..]) + rest)
  {
  }

  /** One character of a name against the encoding of another. */
  lemma MatchesChar(name: string, ch: char, rest: string)
    requires name != ""
    ensures MatchesToken(name, EncodedChar(ch) + rest, true) <==> name[0] == ch && MatchesToken(name[1..], rest, true)
  {
    var p := EncodedChar(ch) + rest;
    assert p[|EncodedChar(ch)|..] == rest;
  }

  /** Comparing a name with an encoded name decides their equality. */
  lemma {:induction false} MatchesEncoded(name: string, key: string, rest: string)
    requires AtTokenEnd(rest)
    ensures MatchesToken(name, Encode(key) + rest, true) <==> name == key
    decreases |key|
  {
    if key == "" {
      assert Encode(key) + rest == rest;
    } else if name != "" {
      MatchesEncoded(name[1..], key[1..], rest);
      MatchesChar(name, key[0], Encode(key[1..]) + rest);
      EncodedFirst(key, rest);
      assert name == [name[0]] + name[1..] && key == [key[0]] + key[1..];
    }
  }

  lemma MatchesFoldedChar(name: string, ch: char, rest: string)
    requires name != ""
    ensures MatchesToken(name, EncodedChar(ch) + rest, false) <==>
            ToLower(name[0]) == ToLower(ch) && MatchesToken(name[1..], rest, false)
  {
    var p := EncodedChar(ch) + rest;
    assert p[|EncodedChar(ch)|..] == rest;
  }

  /** Without regard to case it decides the equality of the folded names. */
  lemma {:induction false} MatchesFolded(name: string, key: string, rest: string)
    requires AtTokenEnd(rest)
    ensures MatchesToken(name, Encode(key) + rest, false) <==> Folded(name) == Folded(key)
    decreases |key|
  {
    if key == "" {
      assert Encode(key) + rest == rest;
    } else if name != "" {
      MatchesFolded(name[1..], key[1..], rest);
      MatchesFoldedChar(name, key[0], Encode(key[1..]) + rest);
      EncodedFirst(key, rest);
      FoldedStep(name, key);
    }
  }

  lemma FoldedStep(a: string, b: string)
    requires a != "" && b != ""
    ensures Folded(a) == Folded(b) <==> ToLower(a[0]) == ToLower(b[0]) && Folded(a[1..]) == Folded(b[1..])
  {
    FoldedCons(a);
    FoldedCons(b);
    assert Folded(a)[1..] == Folded(a[1..]) && Folded(b)[1..] == Folded(b[1..]);
  }

  // ----- array indices

  function Digit(n: nat): char requires n < 10 { '0' + n as char }

  /** sprintf("%lu") */
  function Decimal(n: nat): (r: string)
    ensures r != ""
  {
    if n < 10 then [Digit(n)] else Decimal(n / 10) + [Digit(n % 10)]
  }

  predicate AllDigits(s: string) { forall i | 0 <= i < |s| :: '0' <= s[i] <= '9' }

  lemma {:induction false} DecimalDigits(n: nat)
    ensures AllDigits(Decimal(n))
    ensures Decimal(n)[0] == '0' ==> n == 0 && |Decimal(n)| == 1
  {
    if n >= 10 { DecimalDigits(n / 10); }
  }

  /** The loop of decode_array_index_from_pointer: it tests the current character from below
      and the first one from above. */
  function IndexLoop(p: string, first: char, acc: nat): (nat, string)
  {
    if p != "" && p[0] >= '0' && first <= '9'
    then IndexLoop(p[1..], first, 10 * acc + (p[0] as int - '0' as int))
    else (acc, p)
  }

  /** decode_array_index_from_pointer */
  function DecodeIndex(p: string): Option<nat>
  {
    if p == "" then Some(0)
    else if p[0] == '0' && |p| > 1 && p[1] != '/' then None
    else
      var (n, rest) := IndexLoop(p, p[0], 0);
      if AtTokenEnd(rest) then Some(n) else None
  }

  /** Characters from '0' on, digits or not. */
  predicate FromZero(s: string) { forall i | 0 <= i < |s| :: s[i] >= '0' }

  function ValueOf(s: string, acc: nat): nat
    requires FromZero(s)
  {
    if s == "" then acc else ValueOf(s[1..], 10 * acc + (s[0] as int - '0' as int))
  }

  lemma {:induction false} LoopReadsDigits(s: string, rest: string, first: char, acc: nat)
    requires FromZero(s) && AtTokenEnd(rest) && first <= '9'
    ensures IndexLoop(s + rest, first, acc) == (ValueOf(s, acc), rest)
    decreases |s|
  {
    if s == "" {
      assert s + rest == rest;
    } else {
      assert (s + rest)[1..] == s[1..] + rest;
      LoopReadsDigits(s[1..], rest, first, 10 * acc + (s[0] as int - '0' as int));
    }
  }

  lemma {:induction false} ValueAppend(s: string, c: char, acc: nat)
    requires AllDigits(s) && '0' <= c <= '9'
    ensures AllDigits(s + [c]) && ValueOf(s + [c], acc) == 10 * ValueOf(s, acc) + (c as int - '0' as int)
    decreases |s|
  {
    if s == "" {
      assert s + [c] == [c];
    } else {
      assert (s + [c])[1..] == s[1..] + [c];
      ValueAppend(s[1..], c, 10 * acc + (s[0] as int - '0' as int));
    }
  }

  lemma {:induction false} DecimalValue(n: nat)
    ensures AllDigits(Decimal(n)) && ValueOf(Decimal(n), 0) == n
  {
    DecimalDigits(n);
    if n >= 10 {
      DecimalValue(n / 10);
      ValueAppend(Decimal(n / 10), Digit(n % 10), 0);
    }
  }

  /** Reading back a printed index gives the index. */
  lemma IndexRoundTrip(n: nat, rest: string)
    requires AtTokenEnd(rest)
    ensures DecodeIndex(Decimal(n) + rest) == Some(n)
  {
    DecimalDigits(n);
    DecimalValue(n);
    LoopReadsDigits(Decimal(n), rest, Decimal(n)[0], 0);
    var p := Decimal(n) + rest;
    assert p[0] == Decimal(n)[0];
    if p[0] == '0' { assert Decimal(n) == ['0'] && p[1..] == rest; }
  }

  lemma {:induction false} LoopStops(s: string, rest: string, first: char, acc: nat)
    requires '/' !in s && !FromZero(s)
    ensures !AtTokenEnd(IndexLoop(s + rest, first, acc).1)
    decreases |s|
  {
    if s[0] >= '0' && first <= '9' {
      assert (s + rest)[1..] == s[1..] + rest;
      assert forall i | 0 < i < |s| :: s[i] == s[1..][i - 1];
      LoopStops(s[1..], rest, first, 10 * acc + (s[0] as int - '0' as int));
    }
  }

  /** The tokens that are read as an index: they start with a digit, and with '0' only if that is
      all; but every other character may also be one above '9'. */
  predicate IndexText(token: string)
  {
    FromZero(token) && (token != "" ==> token[0] <= '9') && (|token| > 1 ==> token[0] != '0')
  }

  /** Which tokens are read as an index, and as which. */
  lemma IndexIff(token: string, rest: string)
    requires '/' !in token && AtTokenEnd(rest)
    ensures DecodeIndex(token + rest) == if IndexText(token) then Some(ValueOf(token, 0)) else None
  {
    var p := token + rest;
    if token == "" {
      assert p == rest;
    } else if FromZero(token) {
      assert p[0] == token[0] && (|token| > 1 ==> p[1] == token[1]);
      if token[0] <= '9' { LoopReadsDigits(token, rest, token[0], 0); }
    } else {
      LoopStops(token, rest, p[0], 0);
    }
  }

  /** Text that RFC 6901 does not allow as an index, and the index it is read as. */
  lemma LetterInIndex()
    ensures DecodeIndex("1a") == Some(59)
  {
    IndexIff("1a", "");
    assert "1a" + "" == "1a" && "1a"[1..] == "a" && "a"[1..] == "";
  }

  // ----- following a pointer

  /** What is left of `p` after its next token. */
  function AfterToken(p: string): (r: string)
    ensures |r| <= |p| && AtTokenEnd(r)
  {
    if p == "" || p[0] == '/' then p else AfterToken(p[1..])
  }

  lemma {:induction false} AfterTokenIs(token: string, rest: string)
    requires '/' !in token && AtTokenEnd(rest)
    ensures AfterToken(token + rest) == rest
    decreases |token|
  {
    if token == "" {
      assert token + rest == rest;
    } else {
      assert (token + rest)[1..] == token[1..] + rest;
      AfterTokenIs(token[1..], rest);
    }
  }

  /** Index of the first member the next token names, or the length of the list. */
  function FindToken(ms: seq<Member>, p: string, cs: bool): (i: nat)
    ensures i <= |ms|
    ensures i < |ms| ==> MatchesToken(ms[i].key, p, cs)
    ensures forall j | 0 <= j < i :: !MatchesToken(ms[j].key, p, cs)
  {
    if ms == [] then 0 else if MatchesToken(ms[0].key, p, cs) then 0 else 1 + FindToken(ms[1..], p, cs)
  }

  /** Looking an encoded name up is looking the name up, with and without regard to case. */
  lemma {:induction false} TokenFindsName(ms: seq<Member>, key: string, rest: string, cs: bool)
    requires AtTokenEnd(rest)
    ensures FindToken(ms, Encode(key) + rest, cs) == Find(ms, key, cs)
  {
    if ms != [] {
      MatchesEncoded(ms[0].key, key, rest);
      MatchesFolded(ms[0].key, key, rest);
      TokenFindsName(ms[1..], key, rest, cs);
    }
  }

  /** The child of a container that the next token leads to. */
  function ChildIndex(j: Json, p: string, cs: bool): Option<nat>
  {
    match j
    case Array(items) =>
      var n := DecodeIndex(p);
      if n.Some? && n.value < |items| then n else None
    case Object(ms) =>
      if FindToken(ms, p, cs) < |ms| then Some(FindToken(ms, p, cs)) else None
    case _ => None
  }

  function ChildCount(j: Json): nat
  {
    match j
    case Array(items) => |items|
    case Object(ms) => |ms|
    case _ => 0
  }

  function Child(j: Json, i: nat): (c: Json)
    requires i < ChildCount(j)
    ensures c < j
  {
    match j
    case Array(items) => items[i]
    case Object(ms) => ms[i].value
  }

  function WithChild(j: Json, i: nat, c: Json): (r: Json)
    requires i < ChildCount(j)
    ensures ChildCount(r) == ChildCount(j) && r.Array? == j.Array? && r.Object? == j.Object?
  {
    match j
    case Array(items) => Array(items[i := c])
    case Object(ms) => Object(ms[i := Member(ms[i].key, c)])
  }

  /** get_item_from_pointer: the location of the node a pointer leads to */
  function Resolve(j: Json, p: string, cs: bool): (r: Option<Loc>)
    ensures r.Some? ==> ValidLoc(j, r.value)
    decreases |p|
  {
    if p == "" || p[0] != '/' then Some([])
    else
      var i := ChildIndex(j, p[1..], cs);
      if i.None? then None
      else
        var below := Resolve(Child(j, i.value), AfterToken(p[1..]), cs);
        if below.None? then None else Some([i.value] + below.value)
  }

  predicate ValidLoc(j: Json, loc: Loc)
    decreases |loc|
  {
    loc != [] ==> loc[0] < ChildCount(j) && ValidLoc(Child(j, loc[0]), loc[1..])
  }

  function NodeAt(j: Json, loc: Loc): Json
    requires ValidLoc(j, loc)
    decreases |loc|
  {
    if loc == [] then j else NodeAt(Child(j, loc[0]), loc[1..])
  }

  /** The tree after the node at `loc` has been changed to `v` in place. */
  function Put(j: Json, loc: Loc, v: Json): Json
    requires ValidLoc(j, loc)
    decreases |loc|
  {
    if loc == [] then v else WithChild(j, loc[0], Put(Child(j, loc[0]), loc[1..], v))
  }

  // ----- naming a node

  /** The token that names child `i`. */
  function TokenOf(j: Json, i: nat): string
    requires i < ChildCount(j)
  {
    match j
    case Array(_) => Decimal(i)
    case Object(ms) => Encode(ms[i].key)
  }

  /** The pointer cJSONUtils_FindPointerFromObjectTo builds for the node at `loc`. */
  function PointerTo(j: Json, loc: Loc): string
    requires ValidLoc(j, loc)
    decreases |loc|
  {
    if loc == [] then "" else "/" + TokenOf(j, loc[0]) + PointerTo(Child(j, loc[0]), loc[1..])
  }

  lemma TokenHasNoSlash(j: Json, i: nat)
    requires i < ChildCount(j)
    ensures '/' !in TokenOf(j, i)
  {
    match j
    case Array(_) => DecimalDigits(i);
    case Object(ms) => EncodedHasNoSlash(ms[i].key);
  }

  /** A child's token leads to that child. */
  lemma TokenLeadsToChild(j: Json, i: nat, rest: string)
    requires i < ChildCount(j) && AtTokenEnd(rest)
    requires j.Object? ==> Distinct(j.members, true)
    ensures ChildIndex(j, TokenOf(j, i) + rest, true) == Some(i)
  {
    match j
    case Array(items) => IndexRoundTrip(i, rest);
    case Object(ms) =>
      var p := Encode(ms[i].key) + rest;
      forall k | 0 <= k < |ms| ensures MatchesToken(ms[k].key, p, true) <==> k == i {
        MatchesEncoded(ms[k].key, ms[i].key, rest);
        if k < i { assert !SameName(ms[k].key, ms[i].key, true); }
        if i < k { assert !SameName(ms[i].key, ms[k].key, true); }
      }
  }

  /** Resolving a pointer whose first token names child `i` continues below that child. */
  lemma ResolveChild(j: Json, i: nat, rest: string)
    requires i < ChildCount(j) && AtTokenEnd(rest)
    requires j.Object? ==> Distinct(j.members, true)
    ensures
      var below := Resolve(Child(j, i), rest, true);
      Resolve(j, "/" + TokenOf(j, i) + rest, true) == if below.None? then None else Some([i] + below.value)
  {
    var p := "/" + TokenOf(j, i) + rest;
    assert p[1..] == TokenOf(j, i) + rest;
    TokenLeadsToChild(j, i, rest);
    TokenHasNoSlash(j, i);
    AfterTokenIs(TokenOf(j, i), rest);
  }

  /** The pointer built for a node leads back to exactly that node, in every tree with distinct
      names; names may be empty or hold '~' and '/'. */
  lemma {:induction false} PointerRoundTrip(j: Json, loc: Loc)
    requires ValidLoc(j, loc) && DistinctKeys(j, true)
    ensures Resolve(j, PointerTo(j, loc), true) == Some(loc)
    decreases |loc|
  {
    if loc != [] {
      var c := Child(j, loc[0]);
      PointerRoundTrip(c, loc[1..]);
      PointerAtEnd(c, loc[1..]);
      ResolveChild(j, loc[0], PointerTo(c, loc[1..]));
      assert [loc[0]] + loc[1..] == loc;
    }
  }

  lemma PointerAtEnd(j: Json, loc: Loc)
    requires ValidLoc(j, loc)
    ensures AtTokenEnd(PointerTo(j, loc))
  {
  }

  // ----- decode_pointer_inplace

  /** The loop of decode_pointer_inplace: `s` reads, `d` writes behind it in the same buffer.
      Ordinary characters are not moved, and "~1" is written one place too far. */
  function DecodeFrom(buf: string, d: nat, s: nat): (r: string)
    requires d <= s <= |buf|
    ensures |r| >= d && r[..d] == buf[..d]
    decreases |buf| - s
  {
    if s == |buf| then buf[..d]
    else if buf[s] != '~' then DecodeFrom(buf, d + 1, s + 1)
    else if s + 1 < |buf| && buf[s + 1] == '0' then DecodeFrom(buf[d := '~'], d + 1, s + 2)
    else if s + 1 < |buf| && buf[s + 1] == '1' then DecodeFrom(buf[d + 1 := '/'], d + 1, s + 2)
    else buf
  }

  function DecodeInplace(token: string): string { DecodeFrom(token, 0, 0) }

  /** A name that comes back from its own encoding. */
  predicate Survives(key: string) { DecodeInplace(Encode(key)) == key }

  /** What the decoder leaves in the places from `d` on: wrong text if a slash follows, and
      otherwise each '~' and the encoding's own character everywhere else. */
  predicate Decoded(key: string, r: string, d: nat)
    requires d <= |key| && d <= |r|
  {
    if '/' in key[d..] then r[d..] != key[d..]
    else |r| == |key| && forall i | d <= i < |key| :: r[i] == if key[i] == '~' then '~' else Encode(key)[i]
  }

  lemma DecodedStep(key: string, r: string, d: nat)
    requires d < |key| && d < |r| && Decoded(key, r, d + 1) && key[d] != '/'
    requires r[..d + 1][d] == if key[d] == '~' then '~' else Encode(key)[d]
    ensures Decoded(key, r, d)
  {
    assert key[d..] == [key[d]] + key[d + 1..];
    assert r[d..][1..] == r[d + 1..] && key[d..][1..] == key[d + 1..];
  }

  lemma EncodeStep(key: string, d: nat)
    requires d < |key|
    ensures Encode(key[d..]) ==
      (if key[d] == '/' then "~1" else if key[d] == '~' then "~0" else [key[d]]) + Encode(key[d + 1..])
  {
    assert key[d..][1..] == key[d + 1..];
  }

  lemma DecodeAtSlash(key: string, buf: string, d: nat, s: nat)
    requires d < |key| && d <= s && s + 1 < |buf| && key[d] == '/' && d < |Encode(key)|
    requires buf[s] == '~' && buf[s + 1] == '1' && buf[d] == Encode(key)[d]
    ensures Decoded(key, DecodeFrom(buf, d, s), d)
  {
    var r := DecodeFrom(buf, d, s);
    assert r[..d + 1] == buf[d + 1 := '/'][..d + 1];
    EncodedHasNoSlash(key);
    assert r[d] == Encode(key)[d];
    assert key[d..][0] == '/' && r[d..][0] == r[d];
  }

  /** The state of the decoder at place d of a name, reading at s. */
  predicate Decoding(key: string, buf: string, d: nat, s: nat)
  {
    && d <= |key| && d <= s <= |buf| == |Encode(key)| && buf[s..] == Encode(key[d..])
    && forall i | d <= i < |buf| :: buf[i] == Encode(key)[i]
  }

  lemma TildeStep(key: string, buf: string, d: nat, s: nat)
    requires Decoding(key, buf, d, s) && d < |key| && key[d] == '~'
    ensures s + 2 <= |buf| && Decoding(key, buf[d := '~'], d + 1, s + 2)
    ensures DecodeFrom(buf, d, s) == DecodeFrom(buf[d := '~'], d + 1, s + 2)
  {
    EncodeStep(key, d);
    Suffix(buf, s, "~0", Encode(key[d + 1..]));
    assert buf[d := '~'][s + 2..] == buf[s + 2..];
  }

  lemma PlainStep(key: string, buf: string, d: nat, s: nat)
    requires Decoding(key, buf, d, s) && d < |key| && key[d] != '~' && key[d] != '/'
    ensures s + 1 <= |buf| && Decoding(key, buf, d + 1, s + 1)
    ensures DecodeFrom(buf, d, s) == DecodeFrom(buf, d + 1, s + 1)
  {
    EncodeStep(key, d);
    Suffix(buf, s, [key[d]], Encode(key[d + 1..]));
  }

  lemma {:induction false} DecodeEncoded(key: string, buf: string, d: nat, s: nat)
    requires Decoding(key, buf, d, s)
    ensures Decoded(key, DecodeFrom(buf, d, s), d)
    decreases |key| - d
  {
    if d < |key| {
      if key[d] == '/' {
        EncodeStep(key, d);
        Suffix(buf, s, "~1", Encode(key[d + 1..]));
        DecodeAtSlash(key, buf, d, s);
      } else if key[d] == '~' {
        TildeStep(key, buf, d, s);
        DecodeEncoded(key, buf[d := '~'], d + 1, s + 2);
        DecodedStep(key, DecodeFrom(buf, d, s), d);
      } else {
        PlainStep(key, buf, d, s);
        DecodeEncoded(key, buf, d + 1, s + 1);
        DecodedStep(key, DecodeFrom(buf, d, s), d);
      }
    }
  }

  lemma Suffix(buf: string, s: nat, head: string, rest: string)
    requires s <= |buf| && buf[s..] == head + rest
    ensures s + |head| <= |buf| && buf[s + |head|..] == rest
    ensures forall i | 0 <= i < |head| :: buf[s + i] == head[i]
  {
    assert |buf[s..]| == |head| + |rest|;
    forall i | 0 <= i < |head| ensures buf[s + i] == head[i] { assert buf[s + i] == buf[s..][i]; }
    assert buf[s + |head|..] == buf[s..][|head|..];
  }

  /** Exactly which names survive: those without a slash whose every other character but '~'
      stands where the encoding puts it. */
  lemma SurvivesIff(key: string)
    ensures Survives(key) <==>
      '/' !in key && forall i | 0 <= i < |key| && key[i] != '~' :: Encode(key)[i] == key[i]
  {
    assert key[0..] == key && Encode(key)[0..] == Encode(key);
    DecodeEncoded(key, Encode(key), 0, 0);
    assert DecodeInplace(Encode(key))[0..] == DecodeInplace(Encode(key));
  }

  lemma {:induction false} EncodePlain(s: string)
    requires '~' !in s && '/' !in s
    ensures Encode(s) == s
  {
    if s != "" {
      assert s[0] in s && forall c | c in s[1..] :: c in s;
      EncodePlain(s[1..]);
      assert s == [s[0]] + s[1..];
    }
  }

  lemma {:induction false} EncodeJoin(a: string, b: string)
    ensures Encode(a + b) == Encode(a) + Encode(b)
  {
    if a == "" {
      assert a + b == b;
    } else {
      assert (a + b)[0] == a[0] && (a + b)[1..] == a[1..] + b;
      EncodeJoin(a[1..], b);
    }
  }

  /** Names without '/' whose only '~' are at the end survive. */
  lemma TrailingSurvives(name: string, tildes: string)
    requires '~' !in name && '/' !in name && forall c | c in tildes :: c == '~'
    ensures Survives(name + tildes)
  {
    var key := name + tildes;
    EncodePlain(name);
    EncodeJoin(name, tildes);
    assert '/' !in key;
    forall i | |name| <= i < |key| ensures key[i] == '~' { assert key[i] == tildes[i - |name|] && key[i] in tildes; }
    assert forall i | 0 <= i < |name| :: Encode(key)[i] == name[i] == key[i];
    SurvivesIff(key);
  }

  /** In particular those without any. */
  lemma PlainSurvives(key: string)
    requires '~' !in key && '/' !in key
    ensures Survives(key)
  {
    TrailingSurvives(key, "");
    assert key + "" == key;
  }

  /** A name with a slash, or with anything but '~' and '0' after a '~', is spoilt. */
  lemma SpoiltNames()
    ensures !Survives("a/b") && !Survives("~a") && Survives("a~")
  {
    assert Encode("~a") == "~0a" by { assert "~a"[1..] == "a" && "a"[1..] == ""; }
    assert Encode("a~") == "a~0" by { assert "a~"[1..] == "~" && "~"[1..] == ""; }
    SurvivesIff("a/b");
    assert "a/b"[1] == '/';
    SurvivesIff("~a");
    assert "~a"[1] == 'a' && Encode("~a")[1] == '0';
    SurvivesIff("a~");
  }

  /** Text without '~' is left alone. */
  lemma {:induction false} DecodePlain(buf: string, d: nat)
    requires d <= |buf| && '~' !in buf
    ensures DecodeFrom(buf, d, d) == buf
    decreases |buf| - d
  {
    if d < |buf| {
      assert buf[d] in buf;
      DecodePlain(buf, d + 1);
    } else {
      assert buf[..d] == buf;
    }
  }
}
