/**
 The parser as the library runs it: a buffer whose offset and depth the parse functions move.
 */
module JsonParser {
  import opened Json
  import opened JsonParse
  import opened JsonTokens
  import opened JsonTreeRoundTrip
  import opened JsonDecoder

  /** What a parse function has done when the specification says r. */
  ghost predicate Follows<T>(r: Parsed<T>, ok: bool, v: T, offset: nat)
  {
    ok == r.Parsed? && (ok ==> v == r.value && offset == r.offset)
  }

  /** Items read before those of r. */
  function Before<T>(done: seq<T>, r: Parsed<seq<T>>): Parsed<seq<T>>
  {
    if r.Failed? then Failed else Parsed(done + r.value, r.offset)
  }

  lemma BeforeTwice<T>(a: seq<T>, x: T, r: Parsed<seq<T>>)
    ensures Before(a, Before([x], r)) == Before(a + [x], r)
    ensures Before([], r) == r
  {
    if r.Parsed? {
      assert a + ([x] + r.value) == (a + [x]) + r.value;
      assert [] + r.value == r.value;
    }
  }

  /** One turn of the loop over members. */
  lemma MembersTurn(r: Reader, c: string, o: nat, depth: nat)
    requires o <= |c|
    ensures
      var m := ParseMember(r, c, o, depth);
      var all := ParseMembers(r, c, o, depth);
      if m.Failed? then all.Failed?
      else
        var s := SkipWhitespace(c, m.offset);
        if At(c, s, ',') then all == Before([m.value], ParseMembers(r, c, s + 1, depth))
        else all == if At(c, s, '}') then Parsed([m.value], s + 1) else Failed
  {
  }

  lemma ItemsTurn(r: Reader, c: string, o: nat, depth: nat)
    requires o <= |c|
    ensures
      var v := ParseValue(r, c, SkipWhitespace(c, o), depth);
      var all := ParseItems(r, c, o, depth);
      if v.Failed? then all.Failed?
      else
        var s := SkipWhitespace(c, v.offset);
        if At(c, s, ',') then all == Before([v.value], ParseItems(r, c, s + 1, depth))
        else all == if At(c, s, ']') then Parsed([v.value], s + 1) else Failed
  {
  }

  lemma ItemsNext(r: Reader, c: string, o: nat, depth: nat, all: Parsed<seq<Json>>, vs: seq<Json>, v: Json)
    requires o <= |c| && all == Before(vs, ParseItems(r, c, o, depth))
    requires ParseValue(r, c, SkipWhitespace(c, o), depth).Parsed? && ParseValue(r, c, SkipWhitespace(c, o), depth).value == v
    ensures
      var s := SkipWhitespace(c, ParseValue(r, c, SkipWhitespace(c, o), depth).offset);
      if At(c, s, ',') then all == Before(vs + [v], ParseItems(r, c, s + 1, depth))
      else all == if At(c, s, ']') then Parsed(vs + [v], s + 1) else Failed
  {
    ItemsTurn(r, c, o, depth);
    var s := SkipWhitespace(c, ParseValue(r, c, SkipWhitespace(c, o), depth).offset);
    if At(c, s, ',') { BeforeTwice(vs, v, ParseItems(r, c, s + 1, depth)); }
  }

  lemma ItemsFail(r: Reader, c: string, o: nat, depth: nat, all: Parsed<seq<Json>>, vs: seq<Json>)
    requires o <= |c| && all == Before(vs, ParseItems(r, c, o, depth))
    requires ParseValue(r, c, SkipWhitespace(c, o), depth).Failed?
    ensures all.Failed?
  {
    ItemsTurn(r, c, o, depth);
  }

  lemma MembersFail(r: Reader, c: string, o: nat, depth: nat, all: Parsed<seq<Member>>, ms: seq<Member>)
    requires o <= |c| && all == Before(ms, ParseMembers(r, c, o, depth))
    requires ParseMember(r, c, o, depth).Failed?
    ensures all.Failed?
  {
    MembersTurn(r, c, o, depth);
  }

  lemma MembersNext(r: Reader, c: string, o: nat, depth: nat, all: Parsed<seq<Member>>, ms: seq<Member>, m: Member)
    requires o <= |c| && all == Before(ms, ParseMembers(r, c, o, depth))
    requires ParseMember(r, c, o, depth).Parsed? && ParseMember(r, c, o, depth).value == m
    ensures
      var s := SkipWhitespace(c, ParseMember(r, c, o, depth).offset);
      if At(c, s, ',') then all == Before(ms + [m], ParseMembers(r, c, s + 1, depth))
      else all == if At(c, s, '}') then Parsed(ms + [m], s + 1) else Failed
  {
    MembersTurn(r, c, o, depth);
    var s := SkipWhitespace(c, ParseMember(r, c, o, depth).offset);
    if At(c, s, ',') { BeforeTwice(ms, m, ParseMembers(r, c, s + 1, depth)); }
  }

  class ParseBuffer {
    const lib: Libc
    const content: string
    var offset: nat
    var depth: nat
    ghost const reader: Reader

    ghost predicate Valid()
      reads this
    {
      offset <= |content| && depth <= NESTING_LIMIT
    }

    /** The reader of the specification is the library's. */
    ghost predicate Tied()
    {
      && (forall o: nat {:trigger ReadString(content, o)} :: reader.text(content, o) == ReadString(content, o))
      && (forall o: nat {:trigger ReadNumber(lib, content, o)} :: reader.number(content, o) == ReadNumber(lib, content, o))
    }

    constructor (lib: Libc, content: string)
      ensures Valid() && Tied() && this.lib == lib && this.content == content && reader == CReader(lib) && offset == 0 && depth == 0
    {
      this.lib, this.content, this.reader := lib, content, CReader(lib);
      offset, depth := 0, 0;
    }

    /** buffer_skip_whitespace */
    method SkipBlanks()
      requires Valid()
      modifies this`offset
      ensures Valid() && offset == SkipWhitespace(content, old(offset))
    {
      if offset >= |content| { return; }
      while offset < |content| && content[offset] <= ' '
        invariant old(offset) <= offset <= |content|
        invariant FirstDark(content, old(offset)) == FirstDark(content, offset)
      {
        offset := offset + 1;
      }
      if offset == |content| { offset := offset - 1; }
    }

    /** The copying loop of parse_number. */
    method CopyNumber() returns (copy: string)
      requires Valid()
      ensures copy == NumberRun(content, offset, 63)
    {
      copy := "";
      var i := 0;
      ghost var goal := NumberRun(content, offset, 63);
      assert copy + goal == goal;
      var o: nat := offset;
      while i < 63 && o < |content| && NumberChar(content[o])
        invariant 0 <= i <= 63 && o <= |content| && goal == copy + NumberRun(content, o, 63 - i)
      {
        Regroup(copy, [content[o]], NumberRun(content, o + 1, 62 - i));
        copy := copy + [content[o]];
        o, i := o + 1, i + 1;
      }
      assert copy + "" == copy;
    }

    static lemma Regroup(a: string, b: string, c: string)
      ensures (a + b) + c == a + (b + c)
    {
    }

    /** parse_number: the characters of the number are copied, and strtod reads the copy */
    method ReadNumberToken() returns (ok: bool, d: real)
      requires Valid() && offset < |content|
      modifies this`offset
      ensures Valid() && Follows(ReadNumber(lib, content, old(offset)), ok, d, offset)
    {
      var copy := CopyNumber();
      var (value, used) := Strtod(lib, copy);
      if used == 0 { return false, value; }
      offset := offset + used;
      return true, value;
    }

    /** parse_string */
    method ReadStringToken() returns (ok: bool, s: string)
      requires Valid() && offset < |content|
      modifies this`offset
      ensures Valid() && Follows(ReadString(content, old(offset)), ok, s, offset)
    {
      var after;
      ok, s, after := DecodeString(content, offset);
      if ok { offset := after; }
    }

    /** strncmp at the offset */
    method Sees(word: string) returns (r: bool)
      requires Valid()
      ensures r == StartsWith(content, offset, word)
    {
      var i := 0;
      assert word[0..] == word;
      while i < |word|
        invariant 0 <= i <= |word|
        invariant StartsWith(content, offset, word) == StartsWith(content, offset + i, word[i..])
      {
        if offset + i >= |content| || content[offset + i] != word[i] { return false; }
        assert word[i..][1..] == word[i + 1..];
        i := i + 1;
      }
      r := offset + i <= |content|;
    }

    /** Blanks, and a comma if there is one. */
    method PassComma() returns (more: bool)
      requires Valid()
      modifies this`offset
      ensures Valid() && old(offset) < offset + 1
      ensures var s := SkipWhitespace(content, old(offset)); more == At(content, s, ',') && offset == if more then s + 1 else s
    {
      SkipBlanks();
      more := offset < |content| && content[offset] == ',';
      if more { offset := offset + 1; }
    }

    /** parse_value */
    method ReadValue() returns (ok: bool, v: Json)
      requires Valid() && Tied()
      modifies this
      ensures offset <= |content| && (ok ==> Valid() && depth == old(depth))
      ensures Follows(ParseValue(reader, content, old(offset), old(depth)), ok, v, offset)
      decreases |content| - offset, 1
    {
      var seen := Sees("null");
      if seen {
        offset := offset + 4;
        return true, Null;
      }
      seen := Sees("false");
      if seen {
        offset := offset + 5;
        return true, False;
      }
      seen := Sees("true");
      if seen {
        offset := offset + 4;
        return true, True;
      }
      if offset >= |content| { return false, Null; }
      if content[offset] == '\"' {
        var s;
        ok, s := ReadStringToken();
        v := String(s);
      } else if NumberStart(content[offset]) {
        var d;
        ok, d := ReadNumberToken();
        v := Number(d);
      } else if content[offset] == '[' {
        ok, v := ReadArray();
      } else if content[offset] == '{' {
        ok, v := ReadObject();
      } else {
        ok, v := false, Null;
      }
    }

    /** parse_array */
    method ReadArray() returns (ok: bool, v: Json)
      requires Valid() && Tied() && At(content, offset, '[')
      modifies this
      ensures offset <= |content| && (ok ==> Valid() && depth == old(depth))
      ensures Follows(ParseArray(reader, content, old(offset), old(depth)), ok, v, offset)
      decreases |content| - offset, 0
    {
      v := Null;
      if depth >= NESTING_LIMIT { return false, v; }
      depth := depth + 1;
      offset := offset + 1;
      SkipBlanks();
      if offset < |content| && content[offset] == ']' {
        depth := depth - 1;
        offset := offset + 1;
        return true, Array([]);
      }
      if offset >= |content| { return false, v; }
      var items;
      ok, items := ReadItems();
      if ok {
        depth := depth - 1;
        v := Array(items);
      }
    }

    /** One turn of the loop over items: a value and what follows it. */
    method ReadItem(items: seq<Json>, ghost all: Parsed<seq<Json>>) returns (ok: bool, longer: seq<Json>, more: bool)
      requires Valid() && Tied() && all == Before(items, ParseItems(reader, content, offset, depth))
      modifies this
      ensures offset <= |content| && (if ok then Valid() && depth == old(depth) && old(offset) < offset + 1 else all.Failed?)
      ensures ok && more ==> old(offset) < offset && all == Before(longer, ParseItems(reader, content, offset, depth))
      ensures ok && !more ==> all == if At(content, offset, ']') then Parsed(longer, offset + 1) else Failed
      decreases |content| - offset, 2
    {
      ghost var before := offset;
      longer, more := items, false;
      SkipBlanks();
      var item;
      ghost var value := ParseValue(reader, content, offset, depth);
      ok, item := ReadValue();
      if ok {
        assert value == Parsed(item, offset);
        ItemsNext(reader, content, before, depth, all, items, item);
        longer := items + [item];
        more := PassComma();
      } else {
        assert value.Failed?;
        ItemsFail(reader, content, before, old(depth), all, items);
      }
    }

    /** The loop over the items of an array, to the closing bracket. */
    method ReadItems() returns (ok: bool, items: seq<Json>)
      requires Valid() && Tied()
      modifies this
      ensures offset <= |content| && (ok ==> Valid() && depth == old(depth))
      ensures Follows(ParseItems(reader, content, old(offset), old(depth)), ok, items, offset)
      decreases |content| - offset, 3
    {
      items := [];
      ghost var all := ParseItems(reader, content, offset, depth);
      BeforeTwice([], Null, all);
      var more := true;
      while more
        invariant Valid() && depth == old(depth) && old(offset) <= offset
        invariant more ==> all == Before(items, ParseItems(reader, content, offset, depth))
        invariant !more ==> all == if At(content, offset, ']') then Parsed(items, offset + 1) else Failed
        decreases more, |content| - offset
      {
        ok, items, more := ReadItem(items, all);
        if !ok { return; }
      }
      ok := offset < |content| && content[offset] == ']';
      if ok { offset := offset + 1; }
    }

    /** parse_object */
    method ReadObject() returns (ok: bool, v: Json)
      requires Valid() && Tied() && At(content, offset, '{')
      modifies this
      ensures offset <= |content| && (ok ==> Valid() && depth == old(depth))
      ensures Follows(ParseObject(reader, content, old(offset), old(depth)), ok, v, offset)
      decreases |content| - offset, 0
    {
      v := Null;
      if depth >= NESTING_LIMIT { return false, v; }
      depth := depth + 1;
      offset := offset + 1;
      SkipBlanks();
      if offset < |content| && content[offset] == '}' {
        depth := depth - 1;
        offset := offset + 1;
        return true, Object([]);
      }
      if offset >= |content| { return false, v; }
      var ms;
      ok, ms := ReadMembers();
      if ok {
        depth := depth - 1;
        v := Object(ms);
      }
    }

    /** The loop over the members of an object, to the closing brace. */
    method ReadMembers() returns (ok: bool, ms: seq<Member>)
      requires Valid() && Tied()
      modifies this
      ensures offset <= |content| && (ok ==> Valid() && depth == old(depth))
      ensures Follows(ParseMembers(reader, content, old(offset), old(depth)), ok, ms, offset)
      decreases |content| - offset, 4
    {
      ms := [];
      ghost var all := ParseMembers(reader, content, offset, depth);
      BeforeTwice([], Member("", Null), all);
      var more := true;
      while more
        invariant Valid() && depth == old(depth) && old(offset) <= offset
        invariant more ==> all == Before(ms, ParseMembers(reader, content, offset, depth))
        invariant !more ==> all == if At(content, offset, '}') then Parsed(ms, offset + 1) else Failed
        decreases more, |content| - offset
      {
        ok, ms, more := ReadNextMember(ms, all);
        if !ok { return; }
      }
      ok := offset < |content| && content[offset] == '}';
      if ok { offset := offset + 1; }
    }

    /** One turn of the loop over members: a member and what follows it. */
    method ReadNextMember(ms: seq<Member>, ghost all: Parsed<seq<Member>>) returns (ok: bool, longer: seq<Member>, more: bool)
      requires Valid() && Tied() && all == Before(ms, ParseMembers(reader, content, offset, depth))
      modifies this
      ensures offset <= |content| && (if ok then Valid() && depth == old(depth) && old(offset) < offset + 1 else all.Failed?)
      ensures ok && more ==> old(offset) < offset && all == Before(longer, ParseMembers(reader, content, offset, depth))
      ensures ok && !more ==> all == if At(content, offset, '}') then Parsed(longer, offset + 1) else Failed
      decreases |content| - offset, 3
    {
      ghost var before := offset;
      longer, more := ms, false;
      var m;
      ghost var member := ParseMember(reader, content, offset, depth);
      ok, m := ReadMember();
      if ok {
        assert member == Parsed(m, offset);
        MembersNext(reader, content, before, depth, all, ms, m);
        longer := ms + [m];
        more := PassComma();
      } else {
        assert member.Failed?;
        MembersFail(reader, content, before, old(depth), all, ms);
      }
    }

    method ReadMember() returns (ok: bool, m: Member)
      requires Valid() && Tied()
      modifies this
      ensures offset <= |content| && (ok ==> Valid() && depth == old(depth))
      ensures Follows(ParseMember(reader, content, old(offset), old(depth)), ok, m, offset)
      decreases |content| - offset, 2
    {
      m := Member("", Null);
      var key;
      ok, key := ReadName();
      if !ok { return false, m; }
      SkipBlanks();
      var v;
      ok, v := ReadValue();
      m := Member(key, v);
    }

    method ReadName() returns (ok: bool, key: string)
      requires Valid() && Tied()
      modifies this`offset
      ensures Valid() && Follows(ParseName(reader, content, old(offset)), ok, key, offset)
    {
      SkipBlanks();
      if offset >= |content| { return false, ""; }
      ok, key := ReadStringToken();
      if !ok { return false, ""; }
      SkipBlanks();
      if offset >= |content| || content[offset] != ':' { return false, ""; }
      offset := offset + 1;
    }
  }

  /** cJSON_ParseWithLengthOpts */
  method ParseWithLength(lib: Libc, c: string, terminated: bool) returns (r: Option<Json>)
    ensures r == JsonParse.ParseBuffer(CReader(lib), c, terminated)
  {
    if c == "" { return None; }
    var buffer := new ParseBuffer(lib, c);
    buffer.offset := SkipBom(c);
    buffer.SkipBlanks();
    var ok, v := buffer.ReadValue();
    if !ok { return None; }
    if terminated {
      buffer.SkipBlanks();
      if buffer.offset >= |c| || c[buffer.offset] != '\0' { return None; }
    }
    r := Some(v);
  }

  /** cJSON_ParseWithOpts */
  method ParseText(lib: Libc, text: string, terminated: bool) returns (r: Option<Json>)
    ensures r == Parse(CReader(lib), text, terminated)
  {
    r := ParseWithLength(lib, CString(text) + "\0", terminated);
  }
}
