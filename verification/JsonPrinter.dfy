/**
 The printer as the library runs it: a byte array that ensure() grows unless it was supplied by the
 caller, and print functions that write at its offset. Every store is into the array, so no write
 goes past the buffer.
 */
module JsonPrinter {
  import opened Json
  import opened JsonText
  import opened JsonTokens
  import opened JsonTextRoundTrip

  /** Every item can be printed: none is invalid, and numbers are at most 25 characters. */
  predicate Sound(w: Writer, v: Json)
  {
    match v
    case Invalid => false
    case Number(d) => |w.number(d)| <= 25
    case Array(items) => SoundItems(w, items)
    case Object(ms) => SoundMembers(w, ms)
    case _ => true
  }

  predicate SoundItems(w: Writer, items: seq<Json>) { forall i | 0 <= i < |items| :: Sound(w, items[i]) }

  predicate SoundMembers(w: Writer, ms: seq<Member>) { forall i | 0 <= i < |ms| :: Sound(w, ms[i].value) }

  lemma SoundStep(w: Writer, items: seq<Json>, i: nat)
    requires i < |items|
    ensures SoundItems(w, items[i..]) == (Sound(w, items[i]) && SoundItems(w, items[i + 1..]))
  {
    var (a, b) := (items[i..], items[i + 1..]);
    if SoundItems(w, a) {
      forall j | 0 <= j < |b| ensures Sound(w, b[j]) { assert b[j] == a[j + 1]; }
    }
    if Sound(w, items[i]) && SoundItems(w, b) {
      forall j | 0 <= j < |a| ensures Sound(w, a[j]) { if j > 0 { assert a[j] == b[j - 1]; } }
    }
  }

  lemma SoundMembersStep(w: Writer, ms: seq<Member>, i: nat)
    requires i < |ms|
    ensures SoundMembers(w, ms[i..]) == (Sound(w, ms[i].value) && SoundMembers(w, ms[i + 1..]))
  {
    var (a, b) := (ms[i..], ms[i + 1..]);
    if SoundMembers(w, a) {
      forall j | 0 <= j < |b| ensures Sound(w, b[j].value) { assert b[j] == a[j + 1]; }
    }
    if Sound(w, ms[i].value) && SoundMembers(w, b) {
      forall j | 0 <= j < |a| ensures Sound(w, a[j].value) { if j > 0 { assert a[j] == b[j - 1]; } }
    }
  }

  lemma EscapedCons(s: string, i: nat)
    requires i < |s|
    ensures Escaped(s[i..]) == EscapeChar(s[i]) + Escaped(s[i + 1..])
  {
    assert s[i..][1..] == s[i + 1..];
  }

  lemma {:induction false} EscapedLonger(s: string)
    ensures |Escaped(s)| >= |s|
    ensures |Escaped(s)| == |s| ==> Escaped(s) == s
  {
    if s != "" {
      EscapedLonger(s[1..]);
      assert s == [s[0]] + s[1..];
      assert |EscapeChar(s[0])| == 1 ==> EscapeChar(s[0]) == [s[0]];
    }
  }

  lemma Regroup3(a: string, b: string, c: string)
    ensures (a + b) + c == a + (b + c)
  {
  }

  lemma QuotedPieces(p: string, e: string)
    ensures ((p + "\"") + e) + "\"\0" == p + (("\"" + e + "\"") + "\0")
  {
    assert "\"\0" == "\"" + "\0";
    assert ("\"" + e + "\"") + "\0" == "\"" + (e + "\"\0");
    assert ((p + "\"") + e) + "\"\0" == (p + "\"") + (e + "\"\0");
  }

  /** The counting pass of print_string_ptr. */
  method EscapedLength(s: string) returns (length: nat)
    ensures length == |Escaped(s)|
  {
    var extra, i := 0, 0;
    assert s[0..] == s;
    while i < |s|
      invariant 0 <= i <= |s| && extra >= 0
      invariant |Escaped(s)| == i + extra + |Escaped(s[i..])|
    {
      EscapedCons(s, i);
      extra := extra + |EscapeChar(s[i])| - 1;
      i := i + 1;
    }
    assert s[i..] == "";
    length := |s| + extra;
  }

  class PrintBuffer {
    const lib: Libc
    const noalloc: bool
    const format: bool
    var buffer: array<char>
    var offset: nat
    var depth: nat
    /** The largest size the buffer can have. */
    ghost const cap: nat
    ghost const writer: Writer

    ghost predicate Valid()
      reads this
    {
      && cap <= INT_MAX && offset <= buffer.Length <= cap
      && (noalloc ==> buffer.Length == cap) && (!noalloc ==> cap == INT_MAX)
    }

    /** The writer of the specification is the library's. */
    ghost predicate Tied()
    {
      && (forall s {:trigger Quoted(s)} :: writer.quote(s) == Quoted(s))
      && (forall d {:trigger NumberText(lib, d)} :: writer.number(d) == NumberText(lib, d))
    }

    /** There is room at the offset, or the buffer is still empty. */
    ghost predicate Room()
      reads this
    {
      offset < buffer.Length || buffer.Length == 0
    }

    /** A buffer supplied by the caller, or one of any starting size that may grow. */
    constructor (lib: Libc, buffer: array<char>, noalloc: bool, format: bool)
      requires buffer.Length <= INT_MAX
      ensures Valid() && Tied() && Room() && offset == 0 && depth == 0 && this.buffer == buffer
      ensures this.lib == lib && writer == CWriter(lib) && this.noalloc == noalloc && this.format == format
      ensures cap == if noalloc then buffer.Length else INT_MAX
    {
      this.lib, this.buffer, this.noalloc, this.format := lib, buffer, noalloc, format;
      offset, depth, writer := 0, 0, CWriter(lib);
      cap := if noalloc then buffer.Length else INT_MAX;
    }

    /** ensure: whether `needed` more bytes and a terminator can be had; the buffer doubles what is
        needed, up to INT_MAX */
    method Ensure(needed: nat) returns (ok: bool)
      requires Valid()
      modifies this`buffer
      ensures Valid() && (buffer == old(buffer) || (fresh(buffer) && !noalloc))
      ensures ok <==> old(Room()) && offset + needed + 1 <= cap
      ensures ok ==> offset + needed + 1 <= buffer.Length && buffer[..offset] == old(buffer[..offset])
      ensures !ok ==> buffer == old(buffer)
    {
      if buffer.Length > 0 && offset >= buffer.Length { return false; }
      if needed > INT_MAX { return false; }
      var total := needed + offset + 1;
      if total <= buffer.Length { return true; }
      if noalloc { return false; }
      var size;
      if total > INT_MAX / 2 {
        if total > INT_MAX { return false; }
        size := INT_MAX;
      } else {
        size := total * 2;
      }
      var larger := new char[size];
      forall i | 0 <= i < buffer.Length { larger[i] := buffer[i]; }
      assert larger[..offset] == buffer[..offset];
      buffer := larger;
      ok := true;
    }

    /** Store a text at a position (strcpy, memcpy). */
    method Store(at: nat, s: string)
      requires Valid() && at + |s| <= buffer.Length
      modifies buffer
      ensures buffer[..at + |s|] == old(buffer[..at]) + s
    {
      ghost var before := buffer[..at];
      var i := 0;
      while i < |s|
        invariant 0 <= i <= |s|
        invariant buffer[..at + i] == before + s[..i]
      {
        buffer[at + i] := s[i];
        i := i + 1;
      }
      assert s[..i] == s;
    }

    /** Reserve, store and move past a piece of text. */
    method Emit(s: string, spare: nat) returns (ok: bool)
      requires Valid() && (s != "" || spare > 0)
      modifies this`buffer, this`offset, buffer
      ensures Valid() && (buffer == old(buffer) || (fresh(buffer) && !noalloc))
      ensures ok <==> old(Room()) && old(offset) + |s| + spare + 1 <= cap
      ensures ok ==> Room() && buffer[..offset] == old(buffer[..offset]) + s
    {
      ok := Ensure(|s| + spare);
      if ok {
        Store(offset, s);
        offset := offset + |s|;
      }
    }

    /** The text t is stored after p and terminated; the offset is within it. */
    ghost predicate Printed(p: string, t: string)
      reads this, buffer
    {
      |p| <= offset <= |p| + |t| < buffer.Length && buffer[..|p| + |t| + 1] == p + (t + "\0")
    }

    /** Reserve and store a terminated text, leaving the offset before it. */
    method Finish(s: string) returns (ok: bool)
      requires Valid()
      modifies this`buffer, buffer
      ensures Valid() && (buffer == old(buffer) || (fresh(buffer) && !noalloc))
      ensures ok <==> old(Room()) && offset + |s| + 2 <= cap
      ensures ok ==> Printed(old(buffer[..offset]), s)
    {
      ok := Ensure(|s| + 1);
      if ok { Store(offset, s + "\0"); }
    }

    /** update_offset: past the terminated text at the offset */
    method UpdateOffset(ghost p: string, ghost t: string)
      requires Valid() && Printed(p, t) && NulFree(t)
      modifies this`offset
      ensures Valid() && Room() && offset == |p| + |t| && buffer[..offset] == p + t
    {
      ghost var end := |p| + |t|;
      ghost var all := buffer[..end + 1];
      assert all[end] == '\0' && all[..end] == p + t;
      assert forall i | |p| <= i < end :: all[i] == t[i - |p|];
      while buffer[offset] != '\0'
        invariant |p| <= offset <= end < buffer.Length && all == buffer[..end + 1]
        decreases end - offset
      {
        offset := offset + 1;
      }
      assert all[offset] == '\0';
    }

    /** What every print function promises for a text t: it succeeds exactly when the text, its
        terminator and one more byte fit, and then the text is stored at the old offset. */
    twostate predicate Outcome(ok: bool, sound: bool, t: string)
      requires old(Valid())
      reads this, buffer
    {
      && Valid() && (buffer == old(buffer) || (fresh(buffer) && !noalloc))
      && (ok <==> sound && old(offset) + |t| + 2 <= cap)
      && (ok ==> Printed(old(buffer[..offset]), t) && depth == old(depth))
    }

    /** print_number */
    method PrintNumber(d: real) returns (ok: bool)
      requires Valid() && Tied() && Room()
      modifies this, buffer
      ensures Outcome(ok, |writer.number(d)| <= 25, writer.number(d))
    {
      assert writer.number(d) == NumberText(lib, d);
      var text := lib.g15(d);
      var (test, n) := Strtod(lib, text);
      if n == 0 || !CompareDouble(test, d) { text := lib.g17(d); }
      if |text| > 25 { return false; }
      ok := Finish(text);
      if ok { offset := offset + |text|; }
    }

    /** The loop of print_string_ptr that stores the escaped characters. */
    method StoreEscaped(at: nat, s: string)
      requires Valid() && at + |Escaped(s)| <= buffer.Length
      modifies buffer
      ensures buffer[..at + |Escaped(s)|] == old(buffer[..at]) + Escaped(s)
    {
      ghost var before, done := buffer[..at], "";
      var i, w := 0, at;
      assert s[0..] == s;
      while i < |s|
        invariant 0 <= i <= |s| && w == at + |done|
        invariant Escaped(s) == done + Escaped(s[i..])
        invariant buffer[..w] == before + done
      {
        EscapedCons(s, i);
        Store(w, EscapeChar(s[i]));
        w := w + |EscapeChar(s[i])|;
        Regroup3(before, done, EscapeChar(s[i]));
        Regroup3(done, EscapeChar(s[i]), Escaped(s[i + 1..]));
        done := done + EscapeChar(s[i]);
        i := i + 1;
      }
      assert s[i..] == "" && done == Escaped(s);
    }

    /** print_string_ptr: one pass to count, one to store */
    method PrintString(s: string) returns (ok: bool)
      requires Valid() && Tied() && Room()
      modifies this, buffer
      ensures Outcome(ok, true, writer.quote(s))
    {
      assert writer.quote(s) == Quoted(s);
      var length := EscapedLength(s);
      ok := Ensure(length + 3);
      if ok { StoreQuoted(s, length); }
    }

    method StoreQuoted(s: string, length: nat)
      requires Valid() && length == |Escaped(s)| && offset + length + 4 <= buffer.Length
      modifies buffer
      ensures Printed(old(buffer[..offset]), Quoted(s))
    {
      ghost var before, e := buffer[..offset], Escaped(s);
      Store(offset, "\"");
      assert buffer[..offset + 1] == before + "\"";
      StoreBody(offset + 1, s, length);
      assert buffer[..offset + 1 + length] == (before + "\"") + e;
      Store(offset + 1 + length, "\"\0");
      assert buffer[..offset + length + 3] == ((before + "\"") + e) + "\"\0";
      assert |before| == offset && |Quoted(s)| == length + 2;
      QuotedPieces(before, e);
    }

    /** The characters of a string, copied if none of them is escaped. */
    method StoreBody(at: nat, s: string, length: nat)
      requires Valid() && length == |Escaped(s)| && at + length <= buffer.Length
      modifies buffer
      ensures buffer[..at + length] == old(buffer[..at]) + Escaped(s)
    {
      EscapedLonger(s);
      if length == |s| { Store(at, s); } else { StoreEscaped(at, s); }
    }

    /** print_value */
    method PrintValue(v: Json) returns (ok: bool)
      requires Valid() && Tied() && Room() && Clean(writer, v)
      modifies this, buffer
      ensures Outcome(ok, Sound(writer, v), Text(writer, v, format, old(depth)))
      decreases v, 3
    {
      match v
      case Null => ok := Finish("null");
      case False => ok := Finish("false");
      case True => ok := Finish("true");
      case Number(d) => ok := PrintNumber(d);
      case String(s) => ok := PrintString(s);
      case Array(items) => ok := PrintArray(items);
      case Object(ms) => ok := PrintObject(ms);
      case Invalid => ok := false;
    }

    /** What printing a piece and moving past it promises. */
    twostate predicate Advanced(ok: bool, sound: bool, t: string)
      requires old(Valid())
      reads this, buffer
    {
      && Valid() && (buffer == old(buffer) || (fresh(buffer) && !noalloc))
      && (ok <==> sound && old(offset) + |t| + 2 <= cap)
      && (ok ==> Room() && buffer[..offset] == old(buffer[..offset]) + t && depth == old(depth))
    }

    ghost function ItemPiece(v: Json, last: bool, depth: nat): string
    {
      Text(writer, v, format, depth) + if last then "" else Comma(format)
    }

    /** One turn of the loop in print_array. */
    method PrintItem(v: Json, last: bool) returns (ok: bool)
      requires Valid() && Tied() && Room() && Clean(writer, v)
      modifies this, buffer
      ensures Advanced(ok, Sound(writer, v), ItemPiece(v, last, old(depth)))
      decreases v, 4
    {
      ghost var p, t := buffer[..offset], Text(writer, v, format, depth);
      ok := PrintValue(v);
      if ok {
        TextNulFree(writer, v, format, depth);
        UpdateOffset(p, t);
        if !last {
          ok := Emit(Comma(format), 1);
          Regroup3(p, t, Comma(format));
        }
      }
    }

    /** print_array */
    method PrintArray(items: seq<Json>) returns (ok: bool)
      requires Valid() && Tied() && Room() && CleanItems(writer, items)
      modifies this, buffer
      ensures Outcome(ok, SoundItems(writer, items), "[" + (ItemsText(writer, items, format, old(depth) + 1) + "]"))
      decreases items, 1
    {
      ghost var p := buffer[..offset];
      ghost var inside := ItemsText(writer, items, format, depth + 1);
      ok := Emit("[", 0);
      if ok {
        depth := depth + 1;
        ok := PrintItems(items);
        if ok {
          ok := Finish("]");
          depth := depth - 1;
          ArrayPieces(p, inside);
        }
      }
    }

    /** The loop of print_array. */
    method PrintItems(items: seq<Json>) returns (ok: bool)
      requires Valid() && Tied() && Room() && CleanItems(writer, items)
      modifies this, buffer
      ensures Valid() && (buffer == old(buffer) || (fresh(buffer) && !noalloc))
      ensures
        var t := ItemsText(writer, items, format, old(depth));
        && (ok <==> SoundItems(writer, items) && (items == [] || old(offset) + |t| + 2 <= cap))
        && (ok ==> Room() && buffer[..offset] == old(buffer[..offset]) + t && depth == old(depth))
      decreases items, 0
    {
      ghost var whole := buffer[..offset] + ItemsText(writer, items, format, depth);
      var i := 0;
      assert items[0..] == items;
      while i < |items|
        invariant 0 <= i <= |items| && Valid() && Room() && depth == old(depth)
        invariant buffer == old(buffer) || (fresh(buffer) && !noalloc)
        invariant buffer[..offset] + ItemsText(writer, items[i..], format, depth) == whole
        invariant SoundItems(writer, items) == SoundItems(writer, items[i..])
        invariant 0 < i == |items| ==> offset + 2 <= cap
      {
        ok := PrintItemAt(items, i, whole);
        if !ok { return; }
        i := i + 1;
      }
      assert items[i..] == [] && buffer[..offset] + "" == buffer[..offset];
      ok := true;
    }

    /** One item, within the text that all of them make. */
    method PrintItemAt(items: seq<Json>, i: nat, ghost whole: string) returns (ok: bool)
      requires Valid() && Tied() && Room() && CleanItems(writer, items) && i < |items|
      requires buffer[..offset] + ItemsText(writer, items[i..], format, depth) == whole
      modifies this, buffer
      ensures Valid() && (buffer == old(buffer) || (fresh(buffer) && !noalloc))
      ensures ok ==> Room() && depth == old(depth) && (i + 1 == |items| ==> offset + 2 <= cap)
      ensures ok ==> buffer[..offset] + ItemsText(writer, items[i + 1..], format, depth) == whole
      ensures ok ==> SoundItems(writer, items[i..]) == SoundItems(writer, items[i + 1..])
      ensures !ok ==> !SoundItems(writer, items[i..]) || |whole| + 2 > cap
      decreases items[i], 5
    {
      ItemsTurn(items, i, buffer[..offset], whole);
      ok := PrintItem(items[i], i + 1 == |items|);
    }

    lemma ItemsTurn(items: seq<Json>, i: nat, b: string, whole: string)
      requires i < |items| && b + ItemsText(writer, items[i..], format, depth) == whole
      ensures
        var piece := ItemPiece(items[i], i + 1 == |items|, depth);
        var rest := ItemsText(writer, items[i + 1..], format, depth);
        (b + piece) + rest == whole && |b| + |piece| + |rest| == |whole|
      ensures SoundItems(writer, items[i..]) == (Sound(writer, items[i]) && SoundItems(writer, items[i + 1..]))
    {
      SoundStep(writer, items, i);
      ItemsStep(items[i..]);
      Regroup3(b, ItemPiece(items[i], i + 1 == |items|, depth), ItemsText(writer, items[i + 1..], format, depth));
    }

    lemma ItemsStep(items: seq<Json>)
      requires items != []
      ensures ItemsText(writer, items, format, depth)
           == ItemPiece(items[0], |items| == 1, depth) + ItemsText(writer, items[1..], format, depth)
    {
      if |items| == 1 {
        assert items[1..] == [];
      } else {
        Regroup3(Text(writer, items[0], format, depth), Comma(format), ItemsText(writer, items[1..], format, depth));
      }
    }

    lemma ArrayPieces(p: string, done: string)
      ensures ((p + "[") + done) + ("]" + "\0") == p + (("[" + (done + "]")) + "\0")
    {
      assert ((p + "[") + done) + ("]" + "\0") == (p + "[") + (done + ("]" + "\0"));
      assert ("[" + (done + "]")) + "\0" == "[" + (done + ("]" + "\0"));
    }

    /** print_object */
    method PrintObject(ms: seq<Member>) returns (ok: bool)
      requires Valid() && Tied() && Room() && CleanMembers(writer, ms)
      modifies this, buffer
      ensures
        var inside := MembersText(writer, ms, format, old(depth) + 1);
        Outcome(ok, SoundMembers(writer, ms), "{" + (NewLine(format) + (inside + (Indent(format, old(depth)) + "}"))))
      decreases ms, 2
    {
      ghost var p := buffer[..offset];
      ghost var inside := MembersText(writer, ms, format, depth + 1);
      ok := PrintOpened(ms);
      if ok {
        ok := Finish(Indent(format, depth - 1) + "}");
        depth := depth - 1;
        ObjectPieces(p, NewLine(format), inside, Indent(format, depth) + "}");
      }
    }

    /** print_object up to the closing brace. */
    method PrintOpened(ms: seq<Member>) returns (ok: bool)
      requires Valid() && Tied() && Room() && CleanMembers(writer, ms)
      modifies this, buffer
      ensures Valid() && (buffer == old(buffer) || (fresh(buffer) && !noalloc))
      ensures
        var t := ("{" + NewLine(format)) + MembersText(writer, ms, format, old(depth) + 1);
        && (ok <==> SoundMembers(writer, ms) && old(offset) + |t| + 2 <= cap)
        && (ok ==> Room() && buffer[..offset] == old(buffer[..offset]) + t && depth == old(depth) + 1)
      decreases ms, 1
    {
      ghost var p := buffer[..offset];
      ok := Emit("{" + NewLine(format), 1);
      if ok {
        depth := depth + 1;
        ok := PrintMembers(ms);
      }
      Regroup3(p, "{" + NewLine(format), MembersText(writer, ms, format, old(depth) + 1));
    }

    lemma ObjectPieces(p: string, w: string, inside: string, close: string)
      ensures (p + (("{" + w) + inside)) + (close + "\0") == p + (("{" + (w + (inside + close))) + "\0")
    {
      assert (p + (("{" + w) + inside)) + (close + "\0") == p + ((("{" + w) + inside) + (close + "\0"));
      assert (("{" + w) + inside) + (close + "\0") == ("{" + w) + (inside + (close + "\0"));
      assert ("{" + (w + (inside + close))) + "\0" == "{" + (w + (inside + (close + "\0")));
    }

    /** The loop of print_object. */
    method PrintMembers(ms: seq<Member>) returns (ok: bool)
      requires Valid() && Tied() && Room() && depth > 0 && CleanMembers(writer, ms)
      modifies this, buffer
      ensures Valid() && (buffer == old(buffer) || (fresh(buffer) && !noalloc))
      ensures
        var t := MembersText(writer, ms, format, old(depth));
        && (ok <==> SoundMembers(writer, ms) && (ms == [] || old(offset) + |t| + 2 <= cap))
        && (ok ==> Room() && buffer[..offset] == old(buffer[..offset]) + t && depth == old(depth))
      decreases ms, 0
    {
      ghost var whole := buffer[..offset] + MembersText(writer, ms, format, depth);
      assert |whole| == offset + |MembersText(writer, ms, format, depth)|;
      var i := 0;
      assert ms[0..] == ms;
      while i < |ms|
        invariant 0 <= i <= |ms| && Valid() && Room() && depth == old(depth)
        invariant buffer == old(buffer) || (fresh(buffer) && !noalloc)
        invariant buffer[..offset] + MembersText(writer, ms[i..], format, depth) == whole
        invariant SoundMembers(writer, ms) == SoundMembers(writer, ms[i..])
        invariant 0 < i == |ms| ==> offset + 2 <= cap
      {
        ok := PrintMemberAt(ms, i, whole);
        if !ok { return; }
        i := i + 1;
      }
      assert ms[i..] == [] && MembersText(writer, [], format, depth) == "";
      assert buffer[..offset] + "" == buffer[..offset];
      ok := true;
    }

    /** One member, within the text that all of them make. */
    method PrintMemberAt(ms: seq<Member>, i: nat, ghost whole: string) returns (ok: bool)
      requires Valid() && Tied() && Room() && depth > 0 && CleanMembers(writer, ms) && i < |ms|
      requires buffer[..offset] + MembersText(writer, ms[i..], format, depth) == whole
      modifies this, buffer
      ensures Valid() && (buffer == old(buffer) || (fresh(buffer) && !noalloc))
      ensures ok ==> Room() && depth == old(depth) && (i + 1 == |ms| ==> offset + 2 <= cap)
      ensures ok ==> buffer[..offset] + MembersText(writer, ms[i + 1..], format, depth) == whole
      ensures ok ==> SoundMembers(writer, ms[i..]) == SoundMembers(writer, ms[i + 1..])
      ensures !ok ==> !SoundMembers(writer, ms[i..]) || |whole| + 2 > cap
      decreases ms[i], 1
    {
      MembersTurn(ms, i, buffer[..offset], whole);
      ok := PrintMember(ms[i], i + 1 == |ms|);
    }

    lemma MembersTurn(ms: seq<Member>, i: nat, b: string, whole: string)
      requires i < |ms| && b + MembersText(writer, ms[i..], format, depth) == whole
      ensures
        var piece := MemberText(writer, ms[i], format, depth, i + 1 == |ms|);
        var rest := MembersText(writer, ms[i + 1..], format, depth);
        (b + piece) + rest == whole && |b| + |piece| + |rest| == |whole|
      ensures SoundMembers(writer, ms[i..]) == (Sound(writer, ms[i].value) && SoundMembers(writer, ms[i + 1..]))
    {
      SoundMembersStep(writer, ms, i);
      assert ms[i..][1..] == ms[i + 1..];
      Regroup3(b, MemberText(writer, ms[i], format, depth, i + 1 == |ms|), MembersText(writer, ms[i + 1..], format, depth));
    }

    /** One turn of the loop in print_object. */
    method PrintMember(m: Member, last: bool) returns (ok: bool)
      requires Valid() && Tied() && Room() && depth > 0 && NulFree(writer.quote(m.key)) && Clean(writer, m.value)
      modifies this, buffer
      ensures Advanced(ok, Sound(writer, m.value), MemberText(writer, m, format, old(depth), last))
      decreases m, 0
    {
      ghost var p := buffer[..offset];
      ghost var t := Text(writer, m.value, format, depth) + LineEnd(format, last);
      MemberPieces(p, Indent(format, depth), writer.quote(m.key), Colon(format), t);
      ok := PrintName(m.key);
      if ok { ok := PrintLine(m.value, last); }
    }

    lemma MemberPieces(p: string, i: string, q: string, c: string, t: string)
      ensures (p + (i + (q + c))) + t == p + (i + (q + (c + t)))
    {
      Regroup3(p, i + (q + c), t);
      Regroup3(i, q + c, t);
      Regroup3(q, c, t);
    }

    /** The value of a member and the end of its line. */
    method PrintLine(v: Json, last: bool) returns (ok: bool)
      requires Valid() && Tied() && Room() && Clean(writer, v)
      modifies this, buffer
      ensures Advanced(ok, Sound(writer, v), Text(writer, v, format, old(depth)) + LineEnd(format, last))
      decreases v, 4
    {
      ghost var p, t := buffer[..offset], Text(writer, v, format, depth);
      ok := PrintValue(v);
      if ok {
        TextNulFree(writer, v, format, depth);
        UpdateOffset(p, t);
        ok := Emit(LineEnd(format, last), 1);
        Regroup3(p, t, LineEnd(format, last));
      }
    }

    /** The indentation, the name and the colon of a member. */
    method PrintName(key: string) returns (ok: bool)
      requires Valid() && Tied() && Room() && depth > 0 && NulFree(writer.quote(key))
      modifies this, buffer
      ensures Valid() && (buffer == old(buffer) || (fresh(buffer) && !noalloc))
      ensures
        var t := Indent(format, old(depth)) + (writer.quote(key) + Colon(format));
        && (ok <==> old(offset) + |t| + 1 <= cap)
        && (ok ==> Room() && buffer[..offset] == old(buffer[..offset]) + t && depth == old(depth))
    {
      ghost var p := buffer[..offset];
      ok := true;
      if format { ok := Emit(Tabs(depth), 0); }
      if ok {
        assert buffer[..offset] == p + Indent(format, depth);
        ok := PrintString(key);
      }
      if ok {
        UpdateOffset(p + Indent(format, depth), writer.quote(key));
        ok := Emit(Colon(format), 0);
      }
      Regroup3(p + Indent(format, depth), writer.quote(key), Colon(format));
      Regroup3(p, Indent(format, depth), writer.quote(key) + Colon(format));
    }
  }

  /** cJSON_PrintPreallocated: into the caller's buffer exactly when it has two bytes more than the text. */
  method PrintPreallocated(lib: Libc, v: Json, buffer: array<char>, format: bool) returns (ok: bool)
    requires buffer.Length <= INT_MAX && Clean(CWriter(lib), v)
    modifies buffer
    ensures
      var t := Text(CWriter(lib), v, format, 0);
      && (ok <==> Sound(CWriter(lib), v) && |t| + 2 <= buffer.Length)
      && (ok ==> buffer[..|t| + 1] == t + "\0")
  {
    var p := new PrintBuffer(lib, buffer, true, format);
    assert buffer[..0] == "";
    ok := p.PrintValue(v);
    if ok { assert buffer[..|Text(CWriter(lib), v, format, 0)| + 1] == "" + (Text(CWriter(lib), v, format, 0) + "\0"); }
    if ok { assert "" + (Text(CWriter(lib), v, format, 0) + "\0") == Text(CWriter(lib), v, format, 0) + "\0"; }
  }

  /** cJSON_PrintBuffered: the same text for every starting size */
  method PrintBuffered(lib: Libc, v: Json, prebuffer: int, format: bool) returns (r: Option<string>)
    requires prebuffer <= INT_MAX && Clean(CWriter(lib), v)
    ensures
      var t := Text(CWriter(lib), v, format, 0);
      r == if prebuffer >= 0 && Sound(CWriter(lib), v) && |t| + 2 <= INT_MAX then Some(t) else None
  {
    if prebuffer < 0 { return None; }
    var buffer := new char[prebuffer];
    var p := new PrintBuffer(lib, buffer, false, format);
    assert buffer[..0] == "";
    var ok := p.PrintValue(v);
    if !ok { return None; }
    TextNulFree(CWriter(lib), v, format, 0);
    p.UpdateOffset("", Text(CWriter(lib), v, format, 0));
    assert "" + Text(CWriter(lib), v, format, 0) == Text(CWriter(lib), v, format, 0);
    r := Some(p.buffer[..p.offset]);
  }

  /** cJSON_Print and cJSON_PrintUnformatted */
  method Print(lib: Libc, v: Json, format: bool) returns (r: Option<string>)
    requires Clean(CWriter(lib), v)
    ensures
      var t := Text(CWriter(lib), v, format, 0);
      r == if Sound(CWriter(lib), v) && |t| + 2 <= INT_MAX then Some(t) else None
  {
    r := PrintBuffered(lib, v, 256, format);
  }
}
