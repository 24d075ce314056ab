/**
 Locality of patches: an operation whose path starts with the token of one child acts on that
 child alone, exactly as the operation with the rest of the path acts on the child by itself.
 */
module JsonPatchLocality {
  import opened Json
  import opened JsonPointer
  import opened JsonPatch

  predicate Simple(p: Patch) { p.op.Add? || p.op.Remove? || p.op.Replace? }

  /** The path goes below the node it is applied to. */
  predicate Below(p: Patch) { Simple(p) && p.path != "" && p.path[0] == '/' }

  /** The children of an object can be told apart. */
  predicate Addressable(j: Json) { j.Object? ==> Distinct(j.members, true) }

  lemma {:induction false} LeadingSlash(s: string)
    requires s != "" && s[0] == '/'
    ensures LastSlash(s) >= 0
  {
    if |s| > 1 && s[|s| - 1] != '/' {
      LeadingSlash(s[..|s| - 1]);
    }
  }

  /** Splitting a path that goes through a child at its last slash. */
  lemma SplitBelow(j: Json, i: nat, q: string)
    requires i < ChildCount(j) && q != "" && q[0] == '/'
    ensures
      var path, k := "/" + TokenOf(j, i) + q, LastSlash(q);
      && k >= 0 && AtTokenEnd(q[..k])
      && LastSlash(path) == 1 + |TokenOf(j, i)| + k
      && path[..LastSlash(path)] == "/" + TokenOf(j, i) + q[..k]
      && path[LastSlash(path) + 1..] == q[k + 1..]
  {
    LeadingSlash(q);
    LastSlashAppend("/" + TokenOf(j, i), q);
    var path, k := "/" + TokenOf(j, i) + q, LastSlash(q);
    var head := "/" + TokenOf(j, i);
    assert path == head + q && |head| == 1 + |TokenOf(j, i)|;
    assert (head + q)[..|head| + k] == head + q[..k];
    assert (head + q)[|head| + k + 1..] == q[k + 1..];
    assert k > 0 ==> q[..k][0] == '/';
  }

  lemma PutBelow(j: Json, i: nat, loc: Loc, v: Json)
    requires i < ChildCount(j) && ValidLoc(Child(j, i), loc)
    ensures ValidLoc(j, [i] + loc)
    ensures NodeAt(j, [i] + loc) == NodeAt(Child(j, i), loc)
    ensures Put(j, [i] + loc, v) == WithChild(j, i, Put(Child(j, i), loc, v))
  {
    assert ([i] + loc)[1..] == loc;
  }

  /** The parent of a path through child i, found in the tree and found in the child. */
  predicate SameParent(j: Json, i: nat, path: string, q: string, loc: Option<Loc>)
    requires i < ChildCount(j)
  {
    var (l, k) := (LastSlash(path), LastSlash(q));
    && l >= 0 && k >= 0 && path[l + 1..] == q[k + 1..]
    && Resolve(Child(j, i), q[..k], true) == loc
    && Resolve(j, path[..l], true) == if loc.None? then None else Some([i] + loc.value)
  }

  lemma ParentBelow(j: Json, i: nat, q: string) returns (loc: Option<Loc>)
    requires i < ChildCount(j) && Addressable(j) && q != "" && q[0] == '/'
    ensures SameParent(j, i, "/" + TokenOf(j, i) + q, q, loc)
  {
    SplitBelow(j, i, q);
    var path, k := "/" + TokenOf(j, i) + q, LastSlash(q);
    var front := q[..k];
    loc := Resolve(Child(j, i), front, true);
    ResolveChild(j, i, front);
    assert path[..LastSlash(path)] == "/" + TokenOf(j, i) + front;
  }

  lemma ChangeVia(j: Json, i: nat, path: string, q: string, loc: Option<Loc>, change: (Json, string) -> Option<(Json, Json)>)
    requires i < ChildCount(j) && SameParent(j, i, path, q, loc)
    ensures
      var d := AtParent(Child(j, i), q, change, true);
      AtParent(j, path, change, true) == if d.None? then None else Some((d.value.0, WithChild(j, i, d.value.1)))
  {
    if loc.Some? {
      PutBelow(j, i, loc.value, Null);
      var r := change(NodeAt(Child(j, i), loc.value), q[LastSlash(q) + 1..]);
      if r.Some? { PutBelow(j, i, loc.value, r.value.1); }
    }
  }

  lemma StatusVia(j: Json, i: nat, path: string, q: string, loc: Option<Loc>, change: (Json, string) -> (int, Json))
    requires i < ChildCount(j) && SameParent(j, i, path, q, loc)
    ensures
      var (status, c) := StatusAtParent(Child(j, i), q, change, true);
      StatusAtParent(j, path, change, true) == (status, WithChild(j, i, c))
  {
    if loc.Some? {
      var (status, r) := change(NodeAt(Child(j, i), loc.value), q[LastSlash(q) + 1..]);
      PutBelow(j, i, loc.value, r);
    } else {
      WithSameChild(j, i);
    }
  }

  lemma ChangeBelow(j: Json, i: nat, q: string, change: (Json, string) -> Option<(Json, Json)>)
    requires i < ChildCount(j) && Addressable(j) && q != "" && q[0] == '/'
    ensures
      var d := AtParent(Child(j, i), q, change, true);
      AtParent(j, "/" + TokenOf(j, i) + q, change, true)
        == if d.None? then None else Some((d.value.0, WithChild(j, i, d.value.1)))
  {
    var loc := ParentBelow(j, i, q);
    ChangeVia(j, i, "/" + TokenOf(j, i) + q, q, loc, change);
  }

  lemma AddBelow(j: Json, i: nat, q: string, v: Json)
    requires i < ChildCount(j) && Addressable(j) && q != "" && q[0] == '/'
    ensures
      var (status, c) := AddAt(Child(j, i), q, v, true);
      AddAt(j, "/" + TokenOf(j, i) + q, v, true) == (status, WithChild(j, i, c))
  {
    var loc := ParentBelow(j, i, q);
    StatusVia(j, i, "/" + TokenOf(j, i) + q, q, loc, (parent: Json, token: string) => AddTo(parent, token, v, true));
  }

  lemma WithSameChild(j: Json, i: nat)
    requires i < ChildCount(j)
    ensures WithChild(j, i, Child(j, i)) == j
  {
    match j
    case Array(items) => assert items[i := items[i]] == items;
    case Object(ms) => assert ms[i := Member(ms[i].key, ms[i].value)] == ms;
  }

  lemma WithChildAgain(j: Json, i: nat, c: Json, d: Json)
    requires i < ChildCount(j)
    ensures Child(WithChild(j, i, c), i) == c
    ensures TokenOf(WithChild(j, i, c), i) == TokenOf(j, i)
    ensures WithChild(WithChild(j, i, c), i, d) == WithChild(j, i, d)
    ensures Addressable(j) ==> Addressable(WithChild(j, i, c))
  {
    match j
    case Array(items) => assert items[i := c][i := d] == items[i := d];
    case Object(ms) =>
      if Distinct(ms, true) { DistinctUpdate(ms, i, c); }
      assert ms[i := Member(ms[i].key, c)][i := Member(ms[i].key, d)] == ms[i := Member(ms[i].key, d)];
  }

  /** One operation below a child. */
  lemma OpBelow(j: Json, i: nat, p: Patch)
    requires i < ChildCount(j) && Addressable(j) && Below(p)
    ensures
      var (status, c) := ApplyOp(Child(j, i), p, true);
      ApplyOp(j, p.(path := "/" + TokenOf(j, i) + p.path), true) == (status, WithChild(j, i, c))
  {
    WithSameChild(j, i);
    if p.op.Add? {
      if p.value.Some? { AddBelow(j, i, p.path, p.value.value); }
    } else {
      ChangeBelow(j, i, p.path, DetachFrom);
      var d := Detach(Child(j, i), p.path, true);
      if d.Some? && p.op.Replace? && p.value.Some? {
        var j' := WithChild(j, i, d.value.1);
        WithChildAgain(j, i, d.value.1, AddAt(d.value.1, p.path, p.value.value, true).1);
        AddBelow(j', i, p.path, p.value.value);
      }
    }
  }

  // ----- runs of patches

  predicate AllSimple(ps: seq<Patch>) { forall i | 0 <= i < |ps| :: Simple(ps[i]) }

  predicate AllBelow(ps: seq<Patch>) { forall i | 0 <= i < |ps| :: Below(ps[i]) }

  function Apply(root: Json, ps: seq<Patch>): (int, Json)
    requires AllSimple(ps)
    decreases |ps|
  {
    if ps == [] then (0, root)
    else
      var (status, r) := ApplyOp(root, ps[0], true);
      if status != 0 then (status, r) else Apply(r, ps[1..])
  }

  lemma {:induction false} ApplyAppend(root: Json, a: seq<Patch>, b: seq<Patch>)
    requires AllSimple(a) && AllSimple(b)
    ensures AllSimple(a + b)
    ensures
      var (status, r) := Apply(root, a);
      Apply(root, a + b) == if status != 0 then (status, r) else Apply(r, b)
    decreases |a|
  {
    if a == [] {
      assert a + b == b;
    } else {
      assert (a + b)[1..] == a[1..] + b;
      ApplyAppend(ApplyOp(root, a[0], true).1, a[1..], b);
    }
  }

  /** A run of operations below a child is the run on the child by itself. */
  lemma {:induction false} ApplyBelow(j: Json, i: nat, ps: seq<Patch>)
    requires i < ChildCount(j) && Addressable(j) && AllBelow(ps)
    ensures AllSimple(Prefixed("/" + TokenOf(j, i), ps))
    ensures
      var (status, c) := Apply(Child(j, i), ps);
      Apply(j, Prefixed("/" + TokenOf(j, i), ps)) == (status, WithChild(j, i, c))
    decreases |ps|
  {
    var pre := Prefixed("/" + TokenOf(j, i), ps);
    if ps == [] {
      WithSameChild(j, i);
    } else {
      OpBelow(j, i, ps[0]);
      var (status, c) := ApplyOp(Child(j, i), ps[0], true);
      if status == 0 {
        var j' := WithChild(j, i, c);
        WithChildAgain(j, i, c, Apply(c, ps[1..]).1);
        ApplyBelow(j', i, ps[1..]);
        assert pre[1..] == Prefixed("/" + TokenOf(j, i), ps[1..]);
      }
    }
  }
}
