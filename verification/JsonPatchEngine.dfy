/**
 compare_json, create_patches and the application of patches as the library runs them: loops over
 children, a growing list of patches, a document that is changed in place.
 */
module JsonPatchEngine {
  import opened Json
  import opened JsonSort
  import opened JsonOrder
  import opened JsonPointer
  import opened JsonPointerEngine
  import opened JsonPatch

  // ----- compare_json

  /** compare_json: the answer, and both trees with the objects it has reached sorted */
  method CompareTrees(a: Json, b: Json, cs: bool) returns (r: bool, a': Json, b': Json)
    ensures r == CompareJson(a, b, cs) && (a', b') == Left(a, b, cs)
    decreases a, 1
  {
    a', b' := a, b;
    if !SameType(a, b) { return false, a, b; }
    match a
    case Number(d) => r := ValueInt(d) == ValueInt(b.d) && CompareDouble(d, b.d);
    case String(s) => r := s == b.s;
    case Array(items) =>
      var xs, ys;
      r, xs, ys := CompareItems(a, items, b.items, cs);
      a', b' := Array(xs), Array(ys);
    case Object(ms) =>
      SortMembers(ms, cs);
      var xs, ys;
      r, xs, ys := CompareMembers(a, Sort(ms, cs), Sort(b.members, cs), cs);
      a', b' := Object(xs), Object(ys);
    case _ => r := true;
  }

  predicate EqualItems(xs: seq<Json>, ys: seq<Json>, cs: bool)
  {
    |xs| == |ys| && forall i | 0 <= i < |xs| :: CompareJson(xs[i], ys[i], cs)
  }

  predicate EqualMembers(xs: seq<Member>, ys: seq<Member>, cs: bool)
  {
    |xs| == |ys| && forall i | 0 <= i < |xs| :: Compare(xs[i].key, ys[i].key, cs) == 0 && CompareJson(xs[i].value, ys[i].value, cs)
  }

  lemma EqualItemsCons(xs: seq<Json>, ys: seq<Json>, cs: bool)
    requires xs != [] && ys != []
    ensures EqualItems(xs, ys, cs) <==> CompareJson(xs[0], ys[0], cs) && EqualItems(xs[1..], ys[1..], cs)
  {
    if CompareJson(xs[0], ys[0], cs) && EqualItems(xs[1..], ys[1..], cs) {
      forall i | 0 <= i < |xs| ensures CompareJson(xs[i], ys[i], cs) {
        if i > 0 { assert xs[i] == xs[1..][i - 1] && ys[i] == ys[1..][i - 1]; }
      }
    }
  }

  lemma EqualMembersCons(xs: seq<Member>, ys: seq<Member>, cs: bool)
    requires xs != [] && ys != []
    ensures EqualMembers(xs, ys, cs) <==>
              Compare(xs[0].key, ys[0].key, cs) == 0 && CompareJson(xs[0].value, ys[0].value, cs) && EqualMembers(xs[1..], ys[1..], cs)
  {
    if Compare(xs[0].key, ys[0].key, cs) == 0 && CompareJson(xs[0].value, ys[0].value, cs) && EqualMembers(xs[1..], ys[1..], cs) {
      forall i | 0 <= i < |xs| ensures Compare(xs[i].key, ys[i].key, cs) == 0 && CompareJson(xs[i].value, ys[i].value, cs) {
        if i > 0 { assert xs[i] == xs[1..][i - 1] && ys[i] == ys[1..][i - 1]; }
      }
    }
  }

  /** Two sequences put behind two others. */
  function Behind<T>(front: (seq<T>, seq<T>), rest: (seq<T>, seq<T>)): (seq<T>, seq<T>)
  {
    (front.0 + rest.0, front.1 + rest.1)
  }

  lemma BehindTwice<T>(front: (seq<T>, seq<T>), x: T, y: T, rest: (seq<T>, seq<T>))
    ensures Behind(front, ([x] + rest.0, [y] + rest.1)) == Behind((front.0 + [x], front.1 + [y]), rest)
  {
    assert front.0 + ([x] + rest.0) == (front.0 + [x]) + rest.0;
    assert front.1 + ([y] + rest.1) == (front.1 + [y]) + rest.1;
  }

  /** The loop over two arrays. */
  method CompareItems(ghost top: Json, items: seq<Json>, others: seq<Json>, cs: bool) returns (r: bool, xs: seq<Json>, ys: seq<Json>)
    requires top.Array? && forall x | x in items :: x in top.items
    ensures r == EqualItems(items, others, cs) && (xs, ys) == LeftItems(top, items, others, cs)
    decreases top, 0
  {
    var dx: seq<Json>, dy: seq<Json>, a, b := [], [], items, others;
    ghost var goal := LeftItems(top, items, others, cs);
    assert [] + goal.0 == goal.0 && [] + goal.1 == goal.1;
    while a != [] && b != []
      invariant forall x | x in a :: x in top.items
      invariant EqualItems(items, others, cs) == EqualItems(a, b, cs)
      invariant Behind((dx, dy), LeftItems(top, a, b, cs)) == goal
      decreases |a|
    {
      EqualItemsCons(a, b, cs);
      assert a[0] in top.items;
      var identical, x, y := CompareTrees(a[0], b[0], cs);
      BehindTwice((dx, dy), x, y, if identical then LeftItems(top, a[1..], b[1..], cs) else (a[1..], b[1..]));
      if !identical { return false, dx + [x] + a[1..], dy + [y] + b[1..]; }
      dx, dy, a, b := dx + [x], dy + [y], a[1..], b[1..];
    }
    r, xs, ys := a == [] && b == [], dx + a, dy + b;
  }

  /** The loop over two sorted member lists. */
  method CompareMembers(ghost top: Json, members: seq<Member>, others: seq<Member>, cs: bool)
    returns (r: bool, xs: seq<Member>, ys: seq<Member>)
    requires top.Object? && forall m | m in members :: m in top.members
    ensures r == EqualMembers(members, others, cs) && (xs, ys) == LeftMembers(top, members, others, cs)
    decreases top, 0
  {
    var dx: seq<Member>, dy: seq<Member>, a, b := [], [], members, others;
    ghost var goal := LeftMembers(top, members, others, cs);
    assert [] + goal.0 == goal.0 && [] + goal.1 == goal.1;
    while a != [] && b != []
      invariant forall m | m in a :: m in top.members
      invariant EqualMembers(members, others, cs) == EqualMembers(a, b, cs)
      invariant Behind((dx, dy), LeftMembers(top, a, b, cs)) == goal
      decreases |a|
    {
      EqualMembersCons(a, b, cs);
      if Compare(a[0].key, b[0].key, cs) != 0 { return false, dx + a, dy + b; }
      assert a[0] in top.members;
      var identical, x, y := CompareTrees(a[0].value, b[0].value, cs);
      BehindTwice((dx, dy), Member(a[0].key, x), Member(b[0].key, y),
                  if identical then LeftMembers(top, a[1..], b[1..], cs) else (a[1..], b[1..]));
      if !identical { return false, dx + [Member(a[0].key, x)] + a[1..], dy + [Member(b[0].key, y)] + b[1..]; }
      dx, dy, a, b := dx + [Member(a[0].key, x)], dy + [Member(b[0].key, y)], a[1..], b[1..];
    }
    r, xs, ys := a == [] && b == [], dx + a, dy + b;
  }

  // ----- create_patches

  /** The patch documents for patches below a path. */
  function Composed(path: string, ps: seq<Patch>): (r: seq<Json>)
    ensures |r| == |ps| && forall i | 0 <= i < |ps| :: r[i] == ToJson(ps[i].(path := path + ps[i].path))
  {
    seq(|ps|, i requires 0 <= i < |ps| => ToJson(ps[i].(path := path + ps[i].path)))
  }

  lemma ComposedJoin(path: string, a: seq<Patch>, b: seq<Patch>)
    ensures Composed(path, a + b) == Composed(path, a) + Composed(path, b)
  {
  }

  lemma ComposedBelow(path: string, token: string, ps: seq<Patch>)
    ensures Composed(path, Prefixed(token, ps)) == Composed(path + token, ps)
  {
    forall i | 0 <= i < |ps| ensures Composed(path, Prefixed(token, ps))[i] == Composed(path + token, ps)[i] {
      assert path + (token + ps[i].path) == (path + token) + ps[i].path;
    }
  }

  lemma ComposedOne(path: string, p: Patch)
    ensures Composed(path, [p]) == [ToJson(p.(path := path + p.path))]
    ensures Composed(path, []) == []
  {
  }

  lemma Step(done: seq<Json>, path: string, first: seq<Patch>, rest: seq<Patch>)
    ensures done + Composed(path, first + rest) == (done + Composed(path, first)) + Composed(path, rest)
  {
    ComposedJoin(path, first, rest);
  }

  class PatchList {
    var patches: seq<Json>

    constructor ()
      ensures patches == []
    {
      patches := [];
    }

    /** compose_patch with a suffix, which is encoded into the path */
    method ComposeBelow(op: Op, path: string, suffix: string, value: Option<Json>)
      modifies this
      ensures patches == old(patches) + Composed(path, [Patch(op, "/" + Encode(suffix), value)])
    {
      var length := MeasureEncoded(suffix);
      var full := new char[|path| + 1 + length + 1](i => '\0');
      var prefix := path + "/";
      for i := 0 to |prefix|
        modifies full
        invariant full[..i] == prefix[..i]
      {
        full[i] := prefix[i];
      }
      EncodeInto(full, |prefix|, suffix);
      var text := full[..|prefix| + length];
      assert prefix[..|prefix|] == prefix;
      assert text == path + ("/" + Encode(suffix));
      ComposedOne(path, Patch(op, "/" + Encode(suffix), value));
      patches := patches + [ToJson(Patch(op, text, value))];
    }

    /** compose_patch without a suffix */
    method Compose(op: Op, path: string, value: Option<Json>)
      modifies this
      ensures patches == old(patches) + Composed(path, [Patch(op, "", value)])
    {
      assert path + "" == path;
      ComposedOne(path, Patch(op, "", value));
      patches := patches + [ToJson(Patch(op, path, value))];
    }

    /** create_patches */
    method Create(path: string, from: Json, to: Json)
      modifies this
      ensures patches == old(patches) + Composed(path, Diff(from, to))
      decreases from, 1
    {
      if !SameType(from, to) {
        Compose(Replace, path, Some(to));
        return;
      }
      ComposedOne(path, Patch(Bad, "", None));
      assert old(patches) + [] == old(patches);
      match from
      case Number(d) => if !CloseNumber(d, to.d) { Compose(Replace, path, Some(to)); }
      case String(s) => if s != to.s { Compose(Replace, path, Some(to)); }
      case Array(items) => CreateItems(path, items, to.items);
      case Object(ms) =>
        SortMembers(ms, true);
        CreateMembers(path, from, Sort(ms, true), Sort(to.members, true));
      case _ =>
    }

    /** The loops over the items of two arrays. */
    method CreateItems(path: string, fs: seq<Json>, ts: seq<Json>)
      modifies this
      ensures patches == old(patches) + Composed(path, DiffItems(fs, ts, 0))
      decreases Array(fs), 0
    {
      var i := 0;
      ghost var goal := patches + Composed(path, DiffItems(fs, ts, 0));
      while i < |fs| && i < |ts|
        invariant 0 <= i <= |fs| && i <= |ts|
        invariant patches + Composed(path, DiffItems(fs, ts, i)) == goal
      {
        var token := "/" + Decimal(i);
        ComposedBelow(path, token, Diff(fs[i], ts[i]));
        Step(patches, path, Prefixed(token, Diff(fs[i], ts[i])), DiffItems(fs, ts, i + 1));
        Create(path + token, fs[i], ts[i]);
        i := i + 1;
      }
      Step(patches, path, Removals(i, |fs| - i), Additions(ts[i..]));
      RemoveRest(path, i, |fs| - i);
      AddRest(path, ts[i..]);
    }

    /** The loop that removes the items left in `from`, all at the same index. */
    method RemoveRest(path: string, index: nat, count: nat)
      modifies this
      ensures patches == old(patches) + Composed(path, Removals(index, count))
    {
      var left := count;
      ghost var goal := patches + Composed(path, Removals(index, count));
      while left > 0
        invariant 0 <= left <= count && patches + Composed(path, Removals(index, left)) == goal
      {
        DecimalDigits(index);
        EncodePlain(Decimal(index));
        Step(patches, path, [Patch(Remove, "/" + Decimal(index), None)], Removals(index, left - 1));
        ComposeBelow(Remove, path, Decimal(index), None);
        left := left - 1;
      }
      ComposedOne(path, Patch(Bad, "", None));
    }

    /** The loop that adds the items left in `to` at the end. */
    method AddRest(path: string, vs: seq<Json>)
      modifies this
      ensures patches == old(patches) + Composed(path, Additions(vs))
    {
      var i := 0;
      ghost var goal := patches + Composed(path, Additions(vs));
      assert vs[0..] == vs;
      while i < |vs|
        invariant 0 <= i <= |vs| && patches + Composed(path, Additions(vs[i..])) == goal
      {
        assert vs[i..][1..] == vs[i + 1..];
        EncodePlain("-");
        assert "/" + Encode("-") == "/-";
        Step(patches, path, [Patch(Add, "/-", Some(vs[i]))], Additions(vs[i + 1..]));
        ComposeBelow(Add, path, "-", Some(vs[i]));
        i := i + 1;
      }
      assert vs[i..] == [];
      ComposedOne(path, Patch(Bad, "", None));
    }

    /** The loop over the sorted members of two objects. */
    method CreateMembers(path: string, ghost top: Json, fs: seq<Member>, ts: seq<Member>)
      requires top.Object? && forall m | m in fs :: m in top.members
      modifies this
      ensures patches == old(patches) + Composed(path, DiffMembers(top, fs, ts))
      decreases top, 0
    {
      var x, y := fs, ts;
      ghost var goal := patches + Composed(path, DiffMembers(top, fs, ts));
      while x != [] || y != []
        invariant forall m | m in x :: m in top.members
        invariant patches + Composed(path, DiffMembers(top, x, y)) == goal
        decreases |x| + |y|
      {
        var diff := if x == [] then 1 else if y == [] then -1 else Compare(x[0].key, y[0].key, true);
        if diff == 0 {
          var token := "/" + Encode(x[0].key);
          assert x[0] in top.members;
          ComposedBelow(path, token, Diff(x[0].value, y[0].value));
          Step(patches, path, Prefixed(token, Diff(x[0].value, y[0].value)), DiffMembers(top, x[1..], y[1..]));
          Create(path + token, x[0].value, y[0].value);
          x, y := x[1..], y[1..];
        } else if diff < 0 {
          Step(patches, path, [Patch(Remove, "/" + Encode(x[0].key), None)], DiffMembers(top, x[1..], y));
          ComposeBelow(Remove, path, x[0].key, None);
          x := x[1..];
        } else {
          Step(patches, path, [Patch(Add, "/" + Encode(y[0].key), Some(y[0].value))], DiffMembers(top, x, y[1..]));
          ComposeBelow(Add, path, y[0].key, Some(y[0].value));
          y := y[1..];
        }
      }
      ComposedOne(path, Patch(Bad, "", None));
    }
  }

  lemma ComposedAtRoot(ps: seq<Patch>)
    ensures Composed("", ps) == seq(|ps|, i requires 0 <= i < |ps| => ToJson(ps[i]))
  {
    forall i | 0 <= i < |ps| ensures Composed("", ps)[i] == ToJson(ps[i]) {
      assert "" + ps[i].path == ps[i].path;
    }
  }

  /** cJSONUtils_GeneratePatchesCaseSensitive */
  method Generate(from: Json, to: Json) returns (r: Json)
    ensures r == GeneratePatches(from, to)
  {
    var list := new PatchList();
    list.Create("", from, to);
    ComposedAtRoot(Diff(from, to));
    r := Array(list.patches);
  }

  // ----- applying patches

  /** strrchr(path, '/'), the end of the loop from the back */
  method FindLastSlash(path: string) returns (i: int)
    ensures i == LastSlash(path)
    ensures -1 <= i < |path| && (i >= 0 ==> path[i] == '/') && forall j | i < j < |path| :: path[j] != '/'
  {
    var n := |path|;
    assert path[..n] == path;
    while n > 0
      invariant 0 <= n <= |path| && LastSlash(path) == LastSlash(path[..n])
    {
      if path[n - 1] == '/' { return n - 1; }
      assert path[..n][..n - 1] == path[..n - 1];
      n := n - 1;
    }
    i := -1;
  }

  /** The decoded last token. */
  method DecodeToken(token: string) returns (r: string)
    ensures r == DecodeInplace(token)
  {
    var copy := new char[|token|](i requires 0 <= i < |token| => token[i]);
    assert copy[..] == token;
    var length := DecodeBuffer(copy);
    r := copy[..length];
  }

  /** get_object_item: the place of the first member with this name, or the length */
  method FindMember(ms: seq<Member>, key: string, cs: bool) returns (i: nat)
    ensures i == Find(ms, key, cs)
  {
    i := 0;
    while i < |ms| && Compare(key, ms[i].key, cs) != 0
      invariant 0 <= i <= |ms| && forall k | 0 <= k < i :: !SameName(key, ms[k].key, cs)
    {
      NameCompare(key, ms[i].key, cs);
      i := i + 1;
    }
    if i < |ms| { NameCompare(key, ms[i].key, cs); }
  }

  method GetItem(j: Json, name: string, cs: bool) returns (r: Option<Json>)
    ensures r == Item(j, name, cs)
  {
    if !j.Object? { return None; }
    var i := FindMember(j.members, name, cs);
    r := if i < |j.members| then Some(j.members[i].value) else None;
  }

  /** The part of detach_path that works on the parent: names are looked up ignoring case. */
  method DetachChild(parent: Json, token: string) returns (d: Option<(Json, Json)>)
    ensures d == DetachFrom(parent, token)
  {
    var child := DecodeToken(token);
    d := None;
    if parent.Array? {
      var n := DecodeArrayIndex(child);
      if n.Some? && n.value < |parent.items| {
        d := Some((parent.items[n.value], Array(RemoveAt(parent.items, n.value))));
      }
    } else if parent.Object? {
      var i := FindMember(parent.members, child, false);
      if i < |parent.members| {
        d := Some((parent.members[i].value, Object(RemoveAt(parent.members, i))));
      }
    }
  }

  /** The part of apply_patch that adds a value to the parent. */
  method AddChild(parent: Json, token: string, v: Json, cs: bool) returns (status: int, changed: Json)
    ensures (status, changed) == AddTo(parent, token, v, cs)
  {
    var child := DecodeToken(token);
    if parent.Array? {
      if child == "-" { return 0, Array(parent.items + [v]); }
      var n := DecodeArrayIndex(child);
      if n.None? { return 11, parent; }
      if n.value > |parent.items| { return 10, parent; }
      return 0, Array(parent.items[..n.value] + [v] + parent.items[n.value..]);
    } else if parent.Object? {
      var ms := parent.members;
      var i := FindMember(ms, child, cs);
      if i < |ms| { ms := RemoveAt(ms, i); }
      return 0, Object(ms + [Member(child, v)]);
    }
    return 9, parent;
  }

  lemma EachStep(root: Json, items: seq<Json>, i: nat, cs: bool)
    requires i < |items|
    ensures
      var r := ApplyPatch(root, items[i], cs);
      ApplyEach(root, items[i..], cs) == if r.0 != 0 then r else ApplyEach(r.1, items[i + 1..], cs)
  {
    assert items[i..][1..] == items[i + 1..];
  }

  /** A document that patches change in place. */
  class Document {
    var root: Json

    constructor (root: Json)
      ensures this.root == root
    {
      this.root := root;
    }

    /** detach_path */
    method DetachPath(path: string, cs: bool) returns (item: Option<Json>)
      modifies this
      ensures
        var d := Detach(old(root), path, cs);
        if d.None? then item == None && root == old(root) else item == Some(d.value.0) && root == d.value.1
    {
      var slash := FindLastSlash(path);
      if slash < 0 { return None; }
      var loc := FindNode(root, path[..slash], cs);
      if loc.None? { return None; }
      var d := DetachChild(NodeAt(root, loc.value), path[slash + 1..]);
      if d.None? { return None; }
      root := Put(root, loc.value, d.value.1);
      item := Some(d.value.0);
    }

    /** The end of apply_patch: the value is added at the path. */
    method AddValue(path: string, v: Json, cs: bool) returns (status: int)
      modifies this
      ensures (status, root) == AddAt(old(root), path, v, cs)
    {
      var slash := FindLastSlash(path);
      if slash < 0 { return 9; }
      var loc := FindNode(root, path[..slash], cs);
      if loc.None? { return 9; }
      var parent;
      status, parent := AddChild(NodeAt(root, loc.value), path[slash + 1..], v, cs);
      root := Put(root, loc.value, parent);
    }

    /** add, remove and replace */
    method ApplyChange(p: Patch, cs: bool) returns (status: int)
      requires p.op.Add? || p.op.Remove? || p.op.Replace?
      modifies this
      ensures (status, root) == ApplyOp(old(root), p, cs)
    {
      if p.path == "" {
        if p.op.Remove? {
          root := Invalid;
          return 0;
        }
        if p.value.None? { return 7; }
        root := p.value.value;
        return 0;
      }
      if p.op.Remove? || p.op.Replace? {
        var item := DetachPath(p.path, cs);
        if item.None? { return 13; }
        if p.op.Remove? { return 0; }
      }
      if p.value.None? { return 7; }
      status := AddValue(p.path, p.value.value, cs);
    }

    /** move and copy */
    method ApplyTransfer(move: bool, path: string, from: Option<Json>, cs: bool) returns (status: int)
      modifies this
      ensures (status, root) == ApplyFrom(old(root), move, path, from, cs)
    {
      if from.None? { return 4; }
      if !from.value.String? { return 5; }
      var value;
      if move {
        value := DetachPath(from.value.s, cs);
      } else {
        var loc := FindNode(root, from.value.s, cs);
        value := if loc.None? then None else Some(NodeAt(root, loc.value));
      }
      if value.None? { return 5; }
      status := AddValue(path, value.value, cs);
    }

    /** apply_patch */
    method ApplyOne(patch: Json, cs: bool) returns (status: int)
      modifies this
      ensures (status, root) == ApplyPatch(old(root), patch, cs)
    {
      var path := GetItem(patch, "path", cs);
      if path.None? || !path.value.String? { return 2; }
      var op := DecodeOp(patch, cs);
      if op.Bad? { return 3; }
      var value := GetItem(patch, "value", cs);
      if op.Test? {
        var loc := FindNode(root, path.value.s, cs);
        if loc.None? || value.None? { return 1; }
        var same, node, other := CompareTrees(NodeAt(root, loc.value), value.value, cs);
        root := Put(root, loc.value, node);
        return if same then 0 else 1;
      }
      if op.Move? || op.Copy? {
        var from := GetItem(patch, "from", cs);
        status := ApplyTransfer(op.Move?, path.value.s, from, cs);
      } else {
        status := ApplyChange(Patch(op, path.value.s, value), cs);
      }
    }

    /** cJSONUtils_ApplyPatchesCaseSensitive, or ignoring case: it stops at the first failure */
    method ApplyAll(patches: Json, cs: bool) returns (status: int)
      modifies this
      ensures (status, root) == ApplyPatches(old(root), patches, cs)
    {
      if !patches.Array? { return 1; }
      var items, i := patches.items, 0;
      ghost var goal := ApplyEach(root, items, cs);
      assert items[0..] == items;
      while i < |items|
        invariant 0 <= i <= |items| && goal == ApplyEach(root, items[i..], cs)
      {
        EachStep(root, items, i, cs);
        status := ApplyOne(items[i], cs);
        if status != 0 { return; }
        i := i + 1;
      }
      status := 0;
    }
  }
}
