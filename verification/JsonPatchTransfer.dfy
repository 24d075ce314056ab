/**
 What move, copy and test do to a document, said of containers instead of the detach and the add
 they are made of: an array as its items, an object as the map its members stand for.
 */
module JsonPatchTransfer {
  import opened Json
  import opened JsonSort
  import opened JsonOrder
  import opened JsonPointer
  import opened JsonPatch
  import opened JsonPatchLocality
  import opened JsonPatchTheorems

  /** A place in a container: an index, the end of an array, a name. */
  datatype Place = Index(i: nat) | End | Name(key: string)

  function Token(p: Place): string
  {
    match p
    case Index(i) => Decimal(i)
    case End => "-"
    case Name(key) => Encode(key)
  }

  /** The container has a child at this place, and detach_path finds it. */
  predicate Found(c: Json, p: Place)
  {
    match p
    case Index(i) => c.Array? && i < |c.items|
    case End => false
    case Name(key) => c.Object? && Distinct(c.members, true) && Survives(key) && Reachable(c.members, key)
  }

  /** A value can be put at this place. */
  predicate Open(c: Json, p: Place)
  {
    match p
    case Index(i) => c.Array? && i <= |c.items|
    case End => c.Array?
    case Name(key) => c.Object? && Distinct(c.members, true) && Survives(key)
  }

  /** `rest` is the container without its child at the place, which is `v`. */
  predicate Takes(c: Json, p: Place, v: Json, rest: Json)
  {
    match p
    case Index(i) =>
      c.Array? && rest.Array? && i < |c.items| && v == c.items[i] && rest.items == c.items[..i] + c.items[i + 1..]
    case End => false
    case Name(key) =>
      && c.Object? && rest.Object? && Distinct(c.members, true) && Distinct(rest.members, true)
      && key in AsMap(c.members) && v == AsMap(c.members)[key]
      && AsMap(rest.members) == AsMap(c.members) - {key}
  }

  /** `r` is the container with `v` at the place: inserted, appended, or under the name. */
  predicate Gives(c: Json, p: Place, v: Json, r: Json)
  {
    match p
    case Index(i) => c.Array? && r.Array? && i <= |c.items| && r.items == c.items[..i] + [v] + c.items[i..]
    case End => c.Array? && r.Array? && r.items == c.items + [v]
    case Name(key) =>
      && c.Object? && r.Object? && Distinct(c.members, true) && Distinct(r.members, true)
      && AsMap(r.members) == AsMap(c.members)[key := v]
  }

  lemma TokenOfPlace(p: Place)
    ensures '/' !in Token(p)
  {
    match p
    case Index(i) => IndexToken(i);
    case End =>
    case Name(key) => EncodedHasNoSlash(key);
  }

  lemma TakesChild(c: Json, p: Place) returns (v: Json, rest: Json)
    requires Found(c, p)
    ensures DetachFrom(c, Token(p)) == Some((v, rest)) && Takes(c, p, v, rest)
  {
    match p
    case Index(i) =>
      IndexToken(i);
      v, rest := c.items[i], Array(RemoveAt(c.items, i));
    case Name(key) =>
      var k := Find(c.members, key, false);
      v, rest := c.members[k].value, Object(RemoveAt(c.members, k));
      AsMapRemove(c.members, k);
  }

  lemma GivesChild(c: Json, p: Place, v: Json) returns (r: Json)
    requires Open(c, p)
    ensures AddTo(c, Token(p), v, true) == (0, r) && Gives(c, p, v, r)
  {
    match p
    case Index(i) =>
      IndexToken(i);
      r := Array(c.items[..i] + [v] + c.items[i..]);
    case End =>
      DecodePlain("-", 0);
      r := Array(c.items + [v]);
    case Name(key) =>
      r := Object(Without(c.members, key, true) + [Member(key, v)]);
      GivesName(c.members, key, v);
  }

  lemma GivesName(ms: seq<Member>, key: string, v: Json)
    requires Distinct(ms, true)
    ensures
      var r := Without(ms, key, true) + [Member(key, v)];
      Distinct(r, true) && AsMap(r) == AsMap(ms)[key := v]
  {
    AsMapFind(ms, key);
    if Find(ms, key, true) < |ms| {
      ReplacesName(ms, Find(ms, key, true), v);
    } else {
      AsMapAppend(ms, Member(key, v));
    }
  }

  lemma ReplacesName(ms: seq<Member>, k: nat, v: Json)
    requires k < |ms| && Distinct(ms, true)
    ensures
      var r := RemoveAt(ms, k) + [Member(ms[k].key, v)];
      Distinct(r, true) && AsMap(r) == AsMap(ms)[ms[k].key := v]
  {
    var key := ms[k].key;
    AsMapRemove(ms, k);
    PutBack(AsMap(ms), key, v);
    AsMapAppend(RemoveAt(ms, k), Member(key, v));
  }

  lemma PutBack(m: map<string, Json>, key: string, v: Json)
    ensures key !in m - {key} && (m - {key})[key := v] == m[key := v]
  {
  }

  // ----- the operations at any depth

  /** The document asks for this operation at this path. */
  predicate Says(patch: Json, op: string, path: string)
  {
    Item(patch, "op", true) == Some(String(op)) && Item(patch, "path", true) == Some(String(path))
  }

  /** Each operation goes by the name section 4 of RFC 6902 gives it. */
  lemma OperationNames(root: Json, patch: Json, op: string, path: string)
    requires Says(patch, op, path)
    ensures
      var r, v, from := ApplyPatch(root, patch, true), Item(patch, "value", true), Item(patch, "from", true);
      && (op == "add" ==> r == ApplyOp(root, Patch(Add, path, v), true))
      && (op == "remove" ==> r == ApplyOp(root, Patch(Remove, path, v), true))
      && (op == "replace" ==> r == ApplyOp(root, Patch(Replace, path, v), true))
      && (op == "move" ==> r == ApplyFrom(root, true, path, from, true))
      && (op == "copy" ==> r == ApplyFrom(root, false, path, from, true))
      && (op !in {"add", "remove", "replace", "move", "copy", "test"} ==> r == (3, root))
  {
    assert DecodeOp(patch, true).Bad? <==> op !in {"add", "remove", "replace", "move", "copy", "test"};
  }

  /** The document asks to move, or copy, a value from one path to another. */
  predicate Transfers(patch: Json, op: string, from: string, path: string)
  {
    Says(patch, op, path) && Item(patch, "from", true) == Some(String(from))
  }

  /** What such a document does to a tree. */
  function Transferred(root: Json, move: bool, from: string, path: string): (r: (int, Json))
    ensures forall patch | Transfers(patch, if move then "move" else "copy", from, path) :: ApplyPatch(root, patch, true) == r
  {
    forall patch | Transfers(patch, if move then "move" else "copy", from, path)
      ensures ApplyPatch(root, patch, true) == ApplyFrom(root, move, path, Some(String(from)), true)
    {
      OperationNames(root, patch, if move then "move" else "copy", path);
    }
    ApplyFrom(root, move, path, Some(String(from)), true)
  }

  /** A path that goes on from `parent` with one token. */
  lemma LastToken(parent: string, p: Place)
    ensures
      var path := parent + "/" + Token(p);
      LastSlash(path) == |parent| && path[..|parent|] == parent && path[|parent| + 1..] == Token(p)
  {
    TokenOfPlace(p);
    LastTokenOf(parent, Token(p));
  }

  lemma LastTokenOf(parent: string, token: string)
    requires '/' !in token
    ensures
      var path := parent + "/" + token;
      LastSlash(path) == |parent| && path[..|parent|] == parent && path[|parent| + 1..] == token
  {
    NoSlash(token);
    LastSlashAppend(parent + "/", token);
  }

  lemma DetachesChild(root: Json, parent: string, p: Place) returns (v: Json, rest: Json)
    requires Resolve(root, parent, true).Some? && Found(NodeAt(root, Resolve(root, parent, true).value), p)
    ensures
      var loc := Resolve(root, parent, true).value;
      Takes(NodeAt(root, loc), p, v, rest) && Detach(root, parent + "/" + Token(p), true) == Some((v, Put(root, loc, rest)))
  {
    LastToken(parent, p);
    v, rest := TakesChild(NodeAt(root, Resolve(root, parent, true).value), p);
  }

  lemma AddsChild(root: Json, parent: string, p: Place, v: Json) returns (r: Json)
    ensures
      var loc := Resolve(root, parent, true);
      var (status, left) := AddAt(root, parent + "/" + Token(p), v, true);
      if loc.None? then status == 9 && left == root
      else Open(NodeAt(root, loc.value), p) ==>
        status == 0 && Gives(NodeAt(root, loc.value), p, v, r) && left == Put(root, loc.value, r)
  {
    LastToken(parent, p);
    var loc := Resolve(root, parent, true);
    r := Null;
    if loc.Some? && Open(NodeAt(root, loc.value), p) {
      r := GivesChild(NodeAt(root, loc.value), p, v);
    }
  }

  /** move: the child leaves the container its path leads to; in the tree that is left it is put at
      the place the other path leads to. If that path leads nowhere, the child is gone. */
  lemma MoveEffect(root: Json, fromParent: string, a: Place, parent: string, b: Place) returns (v: Json, mid: Json, r: Json)
    requires Resolve(root, fromParent, true).Some? && Found(NodeAt(root, Resolve(root, fromParent, true).value), a)
    ensures
      var la := Resolve(root, fromParent, true).value;
      exists rest :: Takes(NodeAt(root, la), a, v, rest) && mid == Put(root, la, rest)
    ensures
      var lb := Resolve(mid, parent, true);
      var (status, left) := Transferred(root, true, fromParent + "/" + Token(a), parent + "/" + Token(b));
      if lb.None? then status == 9 && left == mid
      else Open(NodeAt(mid, lb.value), b) ==>
        status == 0 && Gives(NodeAt(mid, lb.value), b, v, r) && left == Put(mid, lb.value, r)
  {
    var la := Resolve(root, fromParent, true).value;
    var rest;
    v, rest := DetachesChild(root, fromParent, a);
    mid := Put(root, la, rest);
    r := AddsChild(mid, parent, b, v);
  }

  /** copy: the value its path leads to is put at the other place, and stays where it is. */
  lemma CopyEffect(root: Json, from: string, parent: string, b: Place) returns (r: Json)
    ensures
      var v, lb := Resolve(root, from, true), Resolve(root, parent, true);
      var (status, left) := Transferred(root, false, from, parent + "/" + Token(b));
      if v.None? then status == 5 && left == root
      else if lb.None? then status == 9 && left == root
      else Open(NodeAt(root, lb.value), b) ==>
        status == 0 && Gives(NodeAt(root, lb.value), b, NodeAt(root, v.value), r) && left == Put(root, lb.value, r)
  {
    var v := Resolve(root, from, true);
    r := AddsChild(root, parent, b, if v.None? then Null else NodeAt(root, v.value));
  }

  // ----- within one container

  lemma NamesStay(j: Json, i: nat, c: Json, p: string)
    requires i < ChildCount(j)
    ensures ChildIndex(WithChild(j, i, c), p, true) == ChildIndex(j, p, true)
  {
    if j.Object? {
      SameTokens(j.members, WithChild(j, i, c).members, p);
    }
  }

  lemma {:induction false} SameTokens(ms: seq<Member>, ns: seq<Member>, p: string)
    requires |ms| == |ns| && forall i | 0 <= i < |ms| :: ms[i].key == ns[i].key
    ensures FindToken(ms, p, true) == FindToken(ns, p, true)
  {
    if ms != [] { SameTokens(ms[1..], ns[1..], p); }
  }

  /** A pointer leads to the same node after a change at that node. */
  lemma {:induction false} ResolveAfterPut(j: Json, p: string, v: Json)
    requires Resolve(j, p, true).Some?
    ensures
      var loc := Resolve(j, p, true).value;
      var r := Put(j, loc, v);
      Resolve(r, p, true) == Some(loc) && NodeAt(r, loc) == v
    decreases |p|
  {
    if p != "" && p[0] == '/' {
      var i, rest := ChildIndex(j, p[1..], true).value, AfterToken(p[1..]);
      var below := Resolve(Child(j, i), rest, true).value;
      ResolveAfterPut(Child(j, i), rest, v);
      NamesStay(j, i, Put(Child(j, i), below, v), p[1..]);
      PutBelow(j, i, below, v);
      WithChildAgain(j, i, Put(Child(j, i), below, v), v);
      PutBelow(Put(j, [i] + below, v), i, below, v);
    }
  }

  lemma {:induction false} PutAgain(j: Json, loc: Loc, v: Json, w: Json)
    requires ValidLoc(j, loc)
    ensures ValidLoc(Put(j, loc, v), loc) && Put(Put(j, loc, v), loc, w) == Put(j, loc, w)
    decreases |loc|
  {
    if loc != [] {
      PutAgain(Child(j, loc[0]), loc[1..], v, w);
      WithChildAgain(j, loc[0], Put(Child(j, loc[0]), loc[1..], v), Put(Child(j, loc[0]), loc[1..], w));
    }
  }

  /** Moving a child within its container, wherever the container is. */
  lemma MoveInside(root: Json, parent: string, a: Place, b: Place) returns (v: Json, rest: Json, r: Json)
    requires Resolve(root, parent, true).Some? && Found(NodeAt(root, Resolve(root, parent, true).value), a)
    ensures Takes(NodeAt(root, Resolve(root, parent, true).value), a, v, rest)
    ensures Open(rest, b) ==>
      && Gives(rest, b, v, r)
      && Transferred(root, true, parent + "/" + Token(a), parent + "/" + Token(b))
           == (0, Put(root, Resolve(root, parent, true).value, r))
  {
    var loc := Resolve(root, parent, true).value;
    var mid;
    v, mid, r := MoveEffect(root, parent, a, parent, b);
    rest :| Takes(NodeAt(root, loc), a, v, rest) && mid == Put(root, loc, rest);
    ResolveAfterPut(root, parent, rest);
    PutAgain(root, loc, rest, r);
  }

  /** Moving a member to another name of its object, wherever the object is. */
  lemma MoveWithin(root: Json, parent: string, a: string, b: string) returns (ns: seq<Member>)
    requires Resolve(root, parent, true).Some? && Found(NodeAt(root, Resolve(root, parent, true).value), Name(a)) && Survives(b)
    ensures
      var loc := Resolve(root, parent, true).value;
      var ms := NodeAt(root, loc).members;
      && Distinct(ms, true) && Distinct(ns, true) && a in AsMap(ms) && AsMap(ns) == (AsMap(ms) - {a})[b := AsMap(ms)[a]]
      && Transferred(root, true, parent + "/" + Encode(a), parent + "/" + Encode(b))
           == (0, Put(root, loc, Object(ns)))
  {
    var v, rest, r := MoveInside(root, parent, Name(a), Name(b));
    ns := r.members;
  }

  lemma {:induction false} MatchesAppend(name: string, p: string, q: string)
    requires AtTokenEnd(q)
    ensures MatchesToken(name, p + q, true) == MatchesToken(name, p, true)
    decreases |name|
  {
    if p == "" {
      assert p + q == q;
    } else if name != "" && p[0] != '/' {
      assert (p + q)[1..] == p[1..] + q;
      MatchesAppend(name[1..], p[1..], q);
      if |p| > 1 {
        assert (p + q)[2..] == p[2..] + q;
        MatchesAppend(name[1..], p[2..], q);
      }
    }
  }

  lemma {:induction false} FindAppend(ms: seq<Member>, p: string, q: string)
    requires AtTokenEnd(q)
    ensures FindToken(ms, p + q, true) == FindToken(ms, p, true)
  {
    if ms != [] {
      MatchesAppend(ms[0].key, p, q);
      FindAppend(ms[1..], p, q);
    }
  }

  lemma {:induction false} LoopAppend(p: string, q: string, first: char, acc: nat)
    requires AtTokenEnd(q)
    ensures
      var (n, rest) := IndexLoop(p, first, acc);
      IndexLoop(p + q, first, acc) == (n, rest + q)
    decreases |p|
  {
    if p == "" {
      assert p + q == q;
    } else if p[0] >= '0' && first <= '9' {
      assert (p + q)[1..] == p[1..] + q;
      LoopAppend(p[1..], q, first, 10 * acc + (p[0] as int - '0' as int));
    }
  }

  lemma IndexAppend(p: string, q: string)
    requires AtTokenEnd(q)
    ensures DecodeIndex(p + q) == DecodeIndex(p)
  {
    if p == "" {
      assert p + q == q;
    } else {
      LoopAppend(p, q, p[0], 0);
      assert |p| > 1 ==> (p + q)[1] == p[1];
    }
  }

  lemma {:induction false} AfterAppend(p: string, q: string)
    requires AtTokenEnd(q)
    ensures AfterToken(p + q) == AfterToken(p) + q
    decreases |p|
  {
    if p == "" {
      assert p + q == q;
    } else if p[0] != '/' {
      assert (p + q)[1..] == p[1..] + q;
      AfterAppend(p[1..], q);
    }
  }

  /** What follows a whole pointer does not change where its first token leads. */
  lemma SameFirstToken(j: Json, p: string, q: string)
    requires AtTokenEnd(q)
    ensures ChildIndex(j, p + q, true) == ChildIndex(j, p, true) && AfterToken(p + q) == AfterToken(p) + q
  {
    IndexAppend(p, q);
    AfterAppend(p, q);
    if j.Object? { FindAppend(j.members, p, q); }
  }

  lemma ResolveStep(j: Json, p: string, q: string, i: nat)
    requires p != "" && p[0] == '/' && AtTokenEnd(q) && ChildIndex(j, p[1..], true) == Some(i)
    ensures i < ChildCount(j)
    ensures
      var below := Resolve(Child(j, i), AfterToken(p[1..]) + q, true);
      Resolve(j, p + q, true) == Onward([i], below)
  {
    assert (p + q)[1..] == p[1..] + q;
    SameFirstToken(j, p[1..], q);
  }

  function Onward(loc: Loc, below: Option<Loc>): Option<Loc>
  {
    if below.None? then None else Some(loc + below.value)
  }

  lemma OnwardStep(i: nat, loc: Loc, below: Option<Loc>)
    ensures Onward([i] + loc, below) == Onward([i], Onward(loc, below)) && Onward([], below) == below
  {
    if below.Some? {
      assert [i] + (loc + below.value) == [i] + loc + below.value;
      assert [] + below.value == below.value;
    }
  }

  lemma {:induction false} ResolveAppend(j: Json, p: string, q: string)
    requires AtTokenEnd(p) && AtTokenEnd(q) && Resolve(j, p, true).Some?
    ensures
      var loc := Resolve(j, p, true).value;
      Resolve(j, p + q, true) == Onward(loc, Resolve(NodeAt(j, loc), q, true))
    decreases |p|
  {
    if p == "" {
      assert p + q == q;
      OnwardStep(0, [], Resolve(j, q, true));
    } else {
      var i, rest := ChildIndex(j, p[1..], true).value, AfterToken(p[1..]);
      var loc := Resolve(Child(j, i), rest, true).value;
      ResolveStep(j, p, q, i);
      ResolveAppend(Child(j, i), rest, q);
      PutBelow(j, i, loc, Null);
      OnwardStep(i, loc, Resolve(NodeAt(Child(j, i), loc), q, true));
    }
  }

  /** A name of an object leads to its value. */
  lemma NameLeads(c: Json, key: string)
    requires c.Object? && Distinct(c.members, true) && key in AsMap(c.members)
    ensures
      var loc := Resolve(c, "/" + Encode(key), true);
      loc.Some? && NodeAt(c, loc.value) == AsMap(c.members)[key]
  {
    AsMapFind(c.members, key);
    var i := Find(c.members, key, true);
    ResolveChild(c, i, "");
    assert "/" + TokenOf(c, i) + "" == "/" + Encode(key);
  }

  lemma {:induction false} NodeAtAppend(j: Json, loc: Loc, below: Loc)
    requires ValidLoc(j, loc) && ValidLoc(NodeAt(j, loc), below)
    ensures ValidLoc(j, loc + below) && NodeAt(j, loc + below) == NodeAt(NodeAt(j, loc), below)
    decreases |loc|
  {
    if loc == [] {
      assert loc + below == below;
    } else {
      assert (loc + below)[1..] == loc[1..] + below;
      NodeAtAppend(Child(j, loc[0]), loc[1..], below);
    }
  }

  /** The same from any place above the object. */
  lemma NameLeadsBelow(root: Json, parent: string, key: string)
    requires AtTokenEnd(parent) && Resolve(root, parent, true).Some?
    requires
      var c := NodeAt(root, Resolve(root, parent, true).value);
      c.Object? && Distinct(c.members, true) && key in AsMap(c.members)
    ensures
      var c, loc := NodeAt(root, Resolve(root, parent, true).value), Resolve(root, parent + "/" + Encode(key), true);
      loc.Some? && NodeAt(root, loc.value) == AsMap(c.members)[key]
  {
    var loc := Resolve(root, parent, true).value;
    var c := NodeAt(root, loc);
    NameLeads(c, key);
    ResolveAppend(root, parent, "/" + Encode(key));
    assert parent + "/" + Encode(key) == parent + ("/" + Encode(key));
    NodeAtAppend(root, loc, Resolve(c, "/" + Encode(key), true).value);
  }

  /** Copying a member to another name of its object, wherever the object is; the name may be any. */
  lemma CopyWithin(root: Json, parent: string, a: string, b: string) returns (ns: seq<Member>)
    requires AtTokenEnd(parent) && Resolve(root, parent, true).Some? && Survives(b)
    requires
      var c := NodeAt(root, Resolve(root, parent, true).value);
      c.Object? && Distinct(c.members, true) && a in AsMap(c.members)
    ensures
      var loc := Resolve(root, parent, true).value;
      var ms := NodeAt(root, loc).members;
      && Distinct(ns, true) && AsMap(ns) == AsMap(ms)[b := AsMap(ms)[a]]
      && Transferred(root, false, parent + "/" + Encode(a), parent + "/" + Encode(b))
           == (0, Put(root, loc, Object(ns)))
  {
    NameLeadsBelow(root, parent, a);
    var r := CopyEffect(root, parent + "/" + Encode(a), parent, Name(b));
    ns := r.members;
  }

  /** Moving an item of an array to another place of the array, wherever the array is. */
  lemma MoveItem(root: Json, parent: string, i: nat, k: nat)
    requires Resolve(root, parent, true).Some?
    requires
      var c := NodeAt(root, Resolve(root, parent, true).value);
      c.Array? && i < |c.items| && k < |c.items|
    ensures
      var loc := Resolve(root, parent, true).value;
      var items := NodeAt(root, loc).items;
      var rest := items[..i] + items[i + 1..];
      Transferred(root, true, parent + "/" + Decimal(i), parent + "/" + Decimal(k))
        == (0, Put(root, loc, Array(rest[..k] + [items[i]] + rest[k..])))
  {
    var v, rest, r := MoveInside(root, parent, Index(i), Index(k));
  }

  // ----- between two containers

  predicate Apart(a: Loc, b: Loc)
    decreases |a|
  {
    a != [] && b != [] && (a[0] != b[0] || Apart(a[1..], b[1..]))
  }

  lemma {:induction false} ResolveElsewhere(j: Json, p: string, loc: Loc, v: Json)
    requires ValidLoc(j, loc) && Resolve(j, p, true).Some? && Apart(loc, Resolve(j, p, true).value)
    ensures
      var at := Resolve(j, p, true).value;
      Resolve(Put(j, loc, v), p, true) == Some(at) && NodeAt(Put(j, loc, v), at) == NodeAt(j, at)
    decreases |p|
  {
    var i, rest := ChildIndex(j, p[1..], true).value, AfterToken(p[1..]);
    var below := Resolve(Child(j, i), rest, true).value;
    var c := Put(Child(j, loc[0]), loc[1..], v);
    var r := WithChild(j, loc[0], c);
    NamesStay(j, loc[0], c, p[1..]);
    assert ([i] + below)[1..] == below;
    PutBelow(j, i, below, v);
    if i == loc[0] {
      ResolveElsewhere(Child(j, i), rest, loc[1..], v);
      WithChildAgain(j, i, c, v);
    }
    PutBelow(r, i, below, v);
  }

  /** Moving a member between two objects, neither of which is inside the other. */
  lemma MoveAcross(root: Json, fromParent: string, a: string, parent: string, b: string)
    returns (fs: seq<Member>, ts: seq<Member>)
    requires Resolve(root, fromParent, true).Some? && Resolve(root, parent, true).Some?
    requires Apart(Resolve(root, fromParent, true).value, Resolve(root, parent, true).value)
    requires Found(NodeAt(root, Resolve(root, fromParent, true).value), Name(a))
    requires Open(NodeAt(root, Resolve(root, parent, true).value), Name(b))
    ensures
      var la, lb := Resolve(root, fromParent, true).value, Resolve(root, parent, true).value;
      var ms, ns := NodeAt(root, la).members, NodeAt(root, lb).members;
      && Distinct(ms, true) && a in AsMap(ms) && Distinct(fs, true) && AsMap(fs) == AsMap(ms) - {a}
      && Distinct(ns, true) && Distinct(ts, true) && AsMap(ts) == AsMap(ns)[b := AsMap(ms)[a]]
      && ValidLoc(Put(root, la, Object(fs)), lb)
      && Transferred(root, true, fromParent + "/" + Encode(a), parent + "/" + Encode(b))
           == (0, Put(Put(root, la, Object(fs)), lb, Object(ts)))
  {
    var la, lb := Resolve(root, fromParent, true).value, Resolve(root, parent, true).value;
    var v, mid, r := MoveEffect(root, fromParent, Name(a), parent, Name(b));
    var rest :| Takes(NodeAt(root, la), Name(a), v, rest) && mid == Put(root, la, rest);
    ResolveElsewhere(root, parent, la, rest);
    fs, ts := rest.members, r.members;
  }

  // ----- failures

  lemma {:induction false} PutSame(j: Json, loc: Loc)
    requires ValidLoc(j, loc)
    ensures Put(j, loc, NodeAt(j, loc)) == j
    decreases |loc|
  {
    if loc != [] {
      PutSame(Child(j, loc[0]), loc[1..]);
      WithSameChild(j, loc[0]);
    }
  }

  /** The status of an addition to a container says why it fails: not a container, an index past
      the end, or text that is no index. */
  lemma AdditionStatus(c: Json, token: string, v: Json)
    ensures
      var (status, left) := AddTo(c, token, v, true);
      var child := DecodeInplace(token);
      && (status == 9 <==> !c.Array? && !c.Object?)
      && (status == 10 <==> c.Array? && child != "-" && DecodeIndex(child).Some? && DecodeIndex(child).value > |c.items|)
      && (status == 11 <==> c.Array? && child != "-" && DecodeIndex(child).None?)
      && status in {0, 9, 10, 11} && (status != 0 ==> left == c)
  {
  }

  /** Anywhere in a tree an addition that fails changes nothing; 9 also stands for a parent path that
      leads nowhere. */
  lemma FailedAddition(root: Json, parent: string, token: string, v: Json)
    requires '/' !in token
    ensures
      var loc := Resolve(root, parent, true);
      var (status, left) := AddAt(root, parent + "/" + token, v, true);
      && (status != 0 ==> left == root)
      && status == if loc.None? then 9 else AddTo(NodeAt(root, loc.value), token, v, true).0
  {
    LastTokenOf(parent, token);
    var loc := Resolve(root, parent, true);
    if loc.Some? {
      PutSame(root, loc.value);
      AdditionStatus(NodeAt(root, loc.value), token, v);
    }
  }

  /** A replacement with a value is all or nothing: once the old value is out, the new one goes in. */
  lemma ReplaceIsAtomic(root: Json, path: string, v: Json)
    requires path != ""
    ensures
      var (status, left) := ApplyOp(root, Patch(Replace, path, Some(v)), true);
      status == 0 || (status == 13 && left == root)
  {
    var d := Detach(root, path, true);
    if d.Some? {
      var i := LastSlash(path);
      var loc := Resolve(root, path[..i], true).value;
      var c := DetachFrom(NodeAt(root, loc), path[i + 1..]).value.1;
      ResolveAfterPut(root, path[..i], c);
      TakenCanBeAdded(NodeAt(root, loc), path[i + 1..], v);
      assert d.value.1 == Put(root, loc, c);
      assert AddAt(d.value.1, path, v, true).0 == 0;
    }
  }

  lemma TakenCanBeAdded(c: Json, token: string, v: Json)
    requires DetachFrom(c, token).Some?
    ensures AddTo(DetachFrom(c, token).value.1, token, v, true).0 == 0
  {
  }

  // ----- test

  lemma {:induction false} ReorderedPut(j: Json, loc: Loc, v: Json)
    requires ValidLoc(j, loc) && DistinctKeys(j, true) && Reordered(NodeAt(j, loc), v)
    ensures Reordered(j, Put(j, loc, v))
    decreases |loc|
  {
    if loc != [] {
      var c := Put(Child(j, loc[0]), loc[1..], v);
      ReorderedPut(Child(j, loc[0]), loc[1..], v);
      if j.Object? { MemberReordered(j.members, loc[0], c); }
    }
  }

  lemma MemberReordered(ms: seq<Member>, i: nat, c: Json)
    requires i < |ms| && Distinct(ms, true) && Reordered(ms[i].value, c)
    ensures Reordered(Object(ms), Object(ms[i := Member(ms[i].key, c)]))
  {
    var ns := ms[i := Member(ms[i].key, c)];
    assert Parallel(ms, ns);
    ParallelReordered(ms, ms, ns);
  }

  lemma {:induction false} NodeDistinct(j: Json, loc: Loc)
    requires ValidLoc(j, loc) && DistinctKeys(j, true)
    ensures DistinctKeys(NodeAt(j, loc), true)
    decreases |loc|
  {
    if loc != [] { NodeDistinct(Child(j, loc[0]), loc[1..]); }
  }

  predicate TestPatch(patch: Json, path: string, v: Json)
  {
    Says(patch, "test", path) && Item(patch, "value", true) == Some(v)
  }

  /** test succeeds exactly when the value is there, up to the order of members; whatever the
      outcome, the tree holds what it held. */
  lemma TestEffect(root: Json, patch: Json, path: string, v: Json)
    requires DistinctKeys(root, true) && DistinctKeys(v, true) && TestPatch(patch, path, v)
    ensures
      var loc := Resolve(root, path, true);
      var (status, left) := ApplyPatch(root, patch, true);
      && (status == 0 <==> loc.Some? && Same(NodeAt(root, loc.value), v))
      && (status == 0 || status == 1) && Reordered(root, left)
  {
    var loc := Resolve(root, path, true);
    TestOutcome(root, patch, path, v);
    if loc.Some? {
      var node := NodeAt(root, loc.value);
      NodeDistinct(root, loc.value);
      CompareIffSame(node, v);
      LeftReordered(node, v, true);
      ReorderedPut(root, loc.value, Left(node, v, true).0);
    }
  }

  lemma TestOutcome(root: Json, patch: Json, path: string, v: Json)
    requires TestPatch(patch, path, v)
    ensures
      var loc := Resolve(root, path, true);
      ApplyPatch(root, patch, true) ==
        if loc.None? then (1, root)
        else (if CompareJson(NodeAt(root, loc.value), v, true) then 0 else 1,
              Put(root, loc.value, Left(NodeAt(root, loc.value), v, true).0))
  {
    assert DecodeOp(patch, true).Test?;
  }
}
