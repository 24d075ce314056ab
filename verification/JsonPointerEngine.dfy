/**
 The JSON Pointer functions as the library runs them: loops over the characters and over the
 children.
 */
module JsonPointerEngine {
  import opened Json
  import opened JsonPointer

  /** compare_pointers */
  method ComparePointers(name: string, pointer: string, cs: bool) returns (r: bool)
    ensures r == MatchesToken(name, pointer, cs)
  {
    var i, j := 0, 0;
    assert name[0..] == name && pointer[0..] == pointer;
    while i < |name| && j < |pointer| && pointer[j] != '/'
      invariant 0 <= i <= |name| && 0 <= j <= |pointer|
      invariant MatchesToken(name, pointer, cs) == MatchesToken(name[i..], pointer[j..], cs)
    {
      ghost var n, p := name[i..], pointer[j..];
      assert n[1..] == name[i + 1..] && p[1..] == pointer[j + 1..];
      if pointer[j] == '~' {
        if j + 1 >= |pointer| { return false; }
        if (pointer[j + 1] != '0' || name[i] != '~') && (pointer[j + 1] != '1' || name[i] != '/') { return false; }
        assert p[2..] == pointer[j + 2..];
        j := j + 1;
      } else if Fold(name[i], cs) != Fold(pointer[j], cs) {
        return false;
      }
      i, j := i + 1, j + 1;
    }
    r := (j < |pointer| && pointer[j] != '/') == (i < |name|);
  }

  /** pointer_encoded_length */
  method MeasureEncoded(s: string) returns (length: nat)
    ensures length == |Encode(s)|
  {
    length := 0;
    var i := 0;
    assert s[0..] == s;
    while i < |s|
      invariant 0 <= i <= |s| && EncodedLength(s) == length + EncodedLength(s[i..])
    {
      assert s[i..][1..] == s[i + 1..];
      if s[i] == '~' || s[i] == '/' { length := length + 1; }
      length := length + 1;
      i := i + 1;
    }
    assert s[i..] == "";
    EncodedLengthExact(s);
  }

  lemma EncodeAt(s: string, i: nat)
    requires i < |s|
    ensures Encode(s[i..]) == EncodedChar(s[i]) + Encode(s[i + 1..])
  {
    assert s[i..][1..] == s[i + 1..];
  }

  lemma Regroup(a: string, b: string, c: string)
    ensures (a + b) + c == a + (b + c)
  {
  }

  /** One character of the encoding loop: the second character of an escape is stored after the first. */
  method StoreEncoded(destination: array<char>, d: nat, ch: char) returns (next: nat)
    requires d + |EncodedChar(ch)| < destination.Length
    modifies destination
    ensures next == d + |EncodedChar(ch)| && destination[..next] == old(destination[..d]) + EncodedChar(ch)
  {
    next := d;
    if ch == '/' {
      destination[next], destination[next + 1] := '~', '1';
      next := next + 1;
    } else if ch == '~' {
      destination[next], destination[next + 1] := '~', '0';
      next := next + 1;
    } else {
      destination[next] := ch;
    }
    next := next + 1;
  }

  /** encode_string_as_pointer, into memory of the measured size and a terminator */
  method EncodeInto(destination: array<char>, start: nat, source: string)
    requires start + |Encode(source)| < destination.Length
    modifies destination
    ensures destination[..start + |Encode(source)|] == old(destination[..start]) + Encode(source)
    ensures destination[start + |Encode(source)|] == '\0'
  {
    ghost var before, done := destination[..start], "";
    var i, d := 0, start;
    assert source[0..] == source;
    while i < |source|
      invariant 0 <= i <= |source| && d == start + |done|
      invariant Encode(source) == done + Encode(source[i..])
      invariant destination[..d] == before + done
    {
      EncodeAt(source, i);
      Regroup(done, EncodedChar(source[i]), Encode(source[i + 1..]));
      Regroup(before, done, EncodedChar(source[i]));
      d := StoreEncoded(destination, d, source[i]);
      done := done + EncodedChar(source[i]);
      i := i + 1;
    }
    assert source[i..] == "" && done + "" == done;
    destination[d] := '\0';
  }

  /** decode_pointer_inplace: it writes behind its reading position; the length of what is left */
  method DecodeBuffer(buf: array<char>) returns (length: nat)
    modifies buf
    ensures length <= buf.Length && buf[..length] == DecodeInplace(old(buf[..]))
  {
    var d, s := 0, 0;
    while s < buf.Length
      invariant 0 <= d <= s <= buf.Length
      invariant DecodeFrom(buf[..], d, s) == DecodeInplace(old(buf[..]))
    {
      ghost var was := buf[..];
      if buf[s] == '~' {
        if s + 1 < buf.Length && buf[s + 1] == '0' {
          buf[d] := '~';
          assert buf[..] == was[d := '~'];
        } else if s + 1 < buf.Length && buf[s + 1] == '1' {
          buf[d + 1] := '/';
          assert buf[..] == was[d + 1 := '/'];
        } else {
          return buf.Length;
        }
        s := s + 1;
      }
      d, s := d + 1, s + 1;
    }
    length := d;
    assert buf[..][..d] == buf[..d];
  }

  /** decode_array_index_from_pointer */
  method DecodeArrayIndex(p: string) returns (r: Option<nat>)
    ensures r == DecodeIndex(p)
  {
    if |p| > 1 && p[0] == '0' && p[1] != '/' { return None; }
    var n: nat, i: nat := 0, 0;
    assert p[0..] == p;
    while i < |p| && p[i] >= '0' && p[0] <= '9'
      invariant 0 <= i <= |p|
      invariant p != "" ==> IndexLoop(p, p[0], 0) == IndexLoop(p[i..], p[0], n)
      invariant p == "" ==> n == 0
    {
      assert p[i..][1..] == p[i + 1..];
      n := 10 * n + (p[i] as int - '0' as int);
      i := i + 1;
    }
    if i < |p| && p[i] != '/' { return None; }
    r := Some(n);
  }

  lemma {:induction false} NodeBelow(j: Json, loc: Loc, i: nat)
    requires ValidLoc(j, loc) && i < ChildCount(NodeAt(j, loc))
    ensures ValidLoc(j, loc + [i]) && NodeAt(j, loc + [i]) == Child(NodeAt(j, loc), i)
    decreases |loc|
  {
    if loc == [] {
      assert loc + [i] == [i] && [i][1..] == [];
    } else {
      NodeBelow(Child(j, loc[0]), loc[1..], i);
      assert (loc + [i])[1..] == loc[1..] + [i];
    }
  }

  function Below(loc: Loc, r: Option<Loc>): Option<Loc> { if r.None? then None else Some(loc + r.value) }

  /** The child a token leads to. */
  method FindChild(j: Json, p: string, cs: bool) returns (r: Option<nat>)
    ensures r == ChildIndex(j, p, cs)
  {
    if j.Array? {
      r := DecodeArrayIndex(p);
      if r.Some? && r.value >= |j.items| { r := None; }
    } else if j.Object? {
      var i := 0;
      while i < |j.members|
        invariant 0 <= i <= |j.members| && forall k | 0 <= k < i :: !MatchesToken(j.members[k].key, p, cs)
      {
        var found := ComparePointers(j.members[i].key, p, cs);
        if found { return Some(i); }
        i := i + 1;
      }
      r := None;
    } else {
      r := None;
    }
  }

  /** get_item_from_pointer: walk down the tree, one token at a time */
  method FindNode(j: Json, pointer: string, cs: bool) returns (r: Option<Loc>)
    ensures r == Resolve(j, pointer, cs)
  {
    var p, loc: Loc, node := pointer, [], j;
    ghost var goal := Resolve(j, pointer, cs);
    BelowNothing(goal);
    while p != "" && p[0] == '/'
      invariant ValidLoc(j, loc) && node == NodeAt(j, loc)
      invariant goal == Below(loc, Resolve(node, p, cs))
      decreases |p|
    {
      ghost var q := p;
      p := p[1..];
      var i := FindChild(node, p, cs);
      if i.None? { return None; }
      NodeBelow(j, loc, i.value);
      p := SkipToken(p);
      BelowTwice(loc, i.value, Resolve(Child(node, i.value), p, cs));
      loc, node := loc + [i.value], Child(node, i.value);
    }
    r := Some(loc);
    assert loc + [] == loc;
  }

  lemma BelowNothing(r: Option<Loc>)
    ensures Below([], r) == r
  {
    if r.Some? { assert [] + r.value == r.value; }
  }

  lemma BelowTwice(loc: Loc, i: nat, r: Option<Loc>)
    ensures Below(loc, if r.None? then None else Some([i] + r.value)) == Below(loc + [i], r)
  {
    if r.Some? { assert loc + ([i] + r.value) == (loc + [i]) + r.value; }
  }

  /** Skip to the next slash or the end. */
  method SkipToken(p: string) returns (r: string)
    ensures r == AfterToken(p)
  {
    r := p;
    while r != "" && r[0] != '/'
      invariant AfterToken(p) == AfterToken(r)
      decreases |r|
    {
      r := r[1..];
    }
  }

  /** cJSONUtils_FindPointerFromObjectTo: a search of the whole tree for one node. `here` is the
      place of the object, `target` the place that is searched. */
  method FindPointer(tree: Json, here: Loc, target: Loc) returns (r: Option<string>)
    ensures r == if here <= target && ValidLoc(tree, target[|here|..]) then Some(PointerTo(tree, target[|here|..])) else None
    decreases tree
  {
    if here == target { return Some(""); }
    var i := 0;
    while i < ChildCount(tree)
      invariant 0 <= i <= ChildCount(tree)
      invariant here < target && ValidLoc(tree, target[|here|..]) ==> target[|here|] >= i
    {
      var below := FindPointer(Child(tree, i), here + [i], target);
      Prefixes(here, i, target);
      if below.Some? {
        assert target[|here|..][1..] == target[|here + [i]|..];
        return Some("/" + TokenOf(tree, i) + below.value);
      }
      if here < target && target[|here|] == i { assert target[|here|..][1..] == target[|here + [i]|..]; }
      i := i + 1;
    }
    r := None;
  }

  lemma Prefixes(here: Loc, i: nat, target: Loc)
    ensures here + [i] <= target <==> here < target && target[|here|] == i
  {
  }
}
