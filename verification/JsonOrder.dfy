/**
 What compare_json does to the order of members: it sorts the objects it reaches in both trees and
 leaves them that way. Trees that differ in nothing but the order of members.
 */
module JsonOrder {
  import opened Json
  import opened JsonSort

  // ----- another order

  /** The same tree with the members of some objects in another order. */
  predicate Reordered(f: Json, g: Json)
  {
    f == g ||
      match f
      case Array(items) => g.Array? && |g.items| == |items| && forall i | 0 <= i < |items| :: Reordered(items[i], g.items[i])
      case Object(ms) =>
        && g.Object? && Distinct(ms, true) && Distinct(g.members, true) && AsMap(ms).Keys == AsMap(g.members).Keys
        && forall i | 0 <= i < |ms| :: Reordered(ms[i].value, AsMap(g.members)[ms[i].key])
      case _ => false
  }

  /** The same names at the same places, with reordered values. */
  predicate Parallel(fs: seq<Member>, gs: seq<Member>)
  {
    |fs| == |gs| && forall i | 0 <= i < |fs| :: fs[i].key == gs[i].key && Reordered(fs[i].value, gs[i].value)
  }

  lemma ParallelKeys(fs: seq<Member>, gs: seq<Member>)
    requires Parallel(fs, gs) && Distinct(fs, true)
    ensures Distinct(gs, true) && AsMap(fs).Keys == AsMap(gs).Keys
  {
    forall i, j | 0 <= i < j < |gs| ensures !SameName(gs[i].key, gs[j].key, true) {
      assert !SameName(fs[i].key, fs[j].key, true);
    }
    AlignedKeys(fs, gs);
  }

  /** A list whose members are those of another, place by place reordered, stands for a reordered object. */
  lemma ParallelReordered(ms: seq<Member>, xs: seq<Member>, ys: seq<Member>)
    requires Distinct(ms, true) && Distinct(xs, true) && AsMap(xs) == AsMap(ms) && Parallel(xs, ys)
    ensures Reordered(Object(ms), Object(ys))
  {
    ParallelKeys(xs, ys);
    forall i | 0 <= i < |ms| ensures Reordered(ms[i].value, AsMap(ys)[ms[i].key]) {
      assert ms[i].key in AsMap(xs) && AsMap(xs)[ms[i].key] == ms[i].value;
      var j :| 0 <= j < |xs| && xs[j].key == ms[i].key;
      assert AsMap(xs)[xs[j].key] == xs[j].value && AsMap(ys)[ys[j].key] == ys[j].value;
    }
  }

  lemma ParallelSelf(ms: seq<Member>)
    ensures Parallel(ms, ms)
  {
  }

  /** What sort_object makes of an object. */
  lemma SortIsReordering(ms: seq<Member>, cs: bool)
    requires Distinct(ms, true)
    ensures Reordered(Object(ms), Object(Sort(ms, cs)))
  {
    SortedMap(ms, cs);
    ParallelSelf(Sort(ms, cs));
    ParallelReordered(ms, Sort(ms, cs), Sort(ms, cs));
  }

  /** Sorting by either rule keeps which name has which value. */
  lemma SortedMap(ms: seq<Member>, cs: bool)
    requires Distinct(ms, true)
    ensures Distinct(Sort(ms, cs), true) && AsMap(Sort(ms, cs)) == AsMap(ms)
  {
    SortKeeps(ms, cs);
    SortAsMap(ms);
    SortKeeps(ms, true);
    PermutedDistinct(Sort(ms, true), Sort(ms, cs));
    AsMapPermutation(Sort(ms, cs), ms);
  }

  lemma {:induction false} PermutedDistinct(a: seq<Member>, b: seq<Member>)
    requires Distinct(a, true) && multiset(a) == multiset(b)
    ensures Distinct(b, true)
    decreases |b|
  {
    if b != [] {
      assert b[0] in multiset(a);
      var i :| 0 <= i < |a| && a[i] == b[0];
      var rest := RemoveAt(a, i);
      AsMapRemove(a, i);
      WithoutFirst(a, b, i);
      PermutedDistinct(rest, b[1..]);
      NameGone(rest, b[1..], b[0].key);
      ConsDistinct(b);
    }
  }

  lemma WithoutFirst(a: seq<Member>, b: seq<Member>, i: nat)
    requires b != [] && i < |a| && a[i] == b[0] && multiset(a) == multiset(b)
    ensures multiset(RemoveAt(a, i)) == multiset(b[1..])
  {
    assert a == a[..i] + [a[i]] + a[i + 1..];
    assert RemoveAt(a, i) == a[..i] + a[i + 1..];
    assert multiset(a) == multiset(a[..i]) + multiset{a[i]} + multiset(a[i + 1..]);
    assert b == [b[0]] + b[1..];
    assert multiset(b) == multiset{b[0]} + multiset(b[1..]);
    assert multiset(RemoveAt(a, i)) == multiset(a) - multiset{a[i]};
    assert multiset(b[1..]) == multiset(b) - multiset{b[0]};
  }

  lemma NameGone(rest: seq<Member>, b: seq<Member>, key: string)
    requires multiset(rest) == multiset(b) && Distinct(rest, true) && key !in AsMap(rest)
    ensures forall j | 0 <= j < |b| :: b[j].key != key
  {
    forall j | 0 <= j < |b| ensures b[j].key != key {
      assert b[j] in multiset(rest);
      var k :| 0 <= k < |rest| && rest[k] == b[j];
    }
  }

  lemma ConsDistinct(b: seq<Member>)
    requires b != [] && Distinct(b[1..], true) && forall j | 0 <= j < |b[1..]| :: b[1..][j].key != b[0].key
    ensures Distinct(b, true)
  {
    forall i, j | 0 <= i < j < |b| ensures !SameName(b[i].key, b[j].key, true) {
      assert b[j] == b[1..][j - 1];
      if i > 0 { assert b[i] == b[1..][i - 1]; }
    }
  }

  /** Reordered objects give the same names at the same places once sorted. */
  lemma SortedParallel(ms: seq<Member>, ns: seq<Member>)
    requires Reordered(Object(ms), Object(ns)) && ms != ns
    ensures Parallel(Sort(ms, true), Sort(ns, true))
  {
    var fs, gs := Sort(ms, true), Sort(ns, true);
    SortStrict(ms, true);
    SortStrict(ns, true);
    SortAsMap(ms);
    SortAsMap(ns);
    SameNamesInOrder(fs, gs);
    SortMembers(ms, true);
    forall i | 0 <= i < |fs| ensures Reordered(fs[i].value, gs[i].value) {
      var j :| 0 <= j < |ms| && ms[j] == fs[i];
      assert AsMap(ns)[ms[j].key] == AsMap(gs)[gs[i].key] == gs[i].value;
    }
  }

  /** Where a member of the reordered list was before. */
  lemma Counterpart(ms: seq<Member>, ns: seq<Member>, i: nat) returns (j: nat)
    requires Reordered(Object(ms), Object(ns)) && ms != ns && i < |ns|
    ensures j < |ms| && ms[j].key == ns[i].key && Reordered(ms[j].value, ns[i].value)
  {
    assert ns[i].key in AsMap(ms);
    j :| 0 <= j < |ms| && ms[j].key == ns[i].key;
    assert AsMap(ns)[ns[i].key] == ns[i].value;
  }

  lemma {:induction false} ReorderedBack(f: Json, g: Json)
    requires Reordered(f, g)
    ensures Reordered(g, f)
  {
    if f != g {
      match f
      case Array(items) =>
        forall i | 0 <= i < |items| ensures Reordered(g.items[i], items[i]) { ReorderedBack(items[i], g.items[i]); }
      case Object(ms) =>
        var ns := g.members;
        forall i | 0 <= i < |ns| ensures Reordered(ns[i].value, AsMap(ms)[ns[i].key]) {
          var j := Counterpart(ms, ns, i);
          ReorderedBack(ms[j].value, ns[i].value);
          assert AsMap(ms)[ms[j].key] == ms[j].value;
        }
    }
  }

  lemma {:induction false} ReorderedDistinct(f: Json, g: Json)
    requires Reordered(f, g) && DistinctKeys(f, true)
    ensures DistinctKeys(g, true)
  {
    if f != g {
      match f
      case Array(items) =>
        forall i | 0 <= i < |items| ensures DistinctKeys(g.items[i], true) { ReorderedDistinct(items[i], g.items[i]); }
      case Object(ms) =>
        var ns := g.members;
        forall i | 0 <= i < |ns| ensures DistinctKeys(ns[i].value, true) {
          var j := Counterpart(ms, ns, i);
          ReorderedDistinct(ms[j].value, ns[i].value);
        }
    }
  }

  /** Equality up to order does not see the order of its first argument. */
  lemma {:induction false} SameReordered(x: Json, y: Json, t: Json)
    requires Reordered(x, y) && Same(x, t)
    ensures Same(y, t)
  {
    if x != y {
      match x
      case Array(items) =>
        forall i | 0 <= i < |items| ensures Same(y.items[i], t.items[i]) { SameReordered(items[i], y.items[i], t.items[i]); }
      case Object(ms) =>
        var ns := y.members;
        forall i | 0 <= i < |ns| ensures ns[i].key in AsMap(t.members) && Same(ns[i].value, AsMap(t.members)[ns[i].key]) {
          var j := Counterpart(ms, ns, i);
          SameReordered(ms[j].value, ns[i].value, AsMap(t.members)[ms[j].key]);
        }
    }
  }

  /** Nor that of its second. */
  lemma {:induction false} SameToReordered(x: Json, t: Json, u: Json)
    requires Reordered(t, u) && Same(x, t)
    ensures Same(x, u)
    decreases x
  {
    if t != u {
      match x
      case Array(items) =>
        forall i | 0 <= i < |items| ensures Same(items[i], u.items[i]) { SameToReordered(items[i], t.items[i], u.items[i]); }
      case Object(ms) =>
        forall i | 0 <= i < |ms| ensures ms[i].key in AsMap(u.members) && Same(ms[i].value, AsMap(u.members)[ms[i].key]) {
          assert ms[i].key in AsMap(t.members);
          var j :| 0 <= j < |t.members| && t.members[j].key == ms[i].key;
          SameToReordered(ms[i].value, t.members[j].value, AsMap(u.members)[ms[i].key]);
        }
      case _ =>
    }
  }

  lemma SameIffReordered(x: Json, y: Json, t: Json, u: Json)
    requires Reordered(x, y) && Reordered(t, u)
    ensures Same(x, t) <==> Same(y, u)
  {
    ReorderedBack(x, y);
    ReorderedBack(t, u);
    if Same(x, t) { SameReordered(x, y, t); SameToReordered(y, t, u); }
    if Same(y, u) { SameReordered(y, x, u); SameToReordered(x, u, t); }
  }

  // ----- what compare_json leaves behind

  /** The two trees after compare_json: the objects it has reached are sorted. */
  function Left(a: Json, b: Json, cs: bool): (Json, Json)
    decreases a, 1
  {
    if a.Array? && b.Array? then
      var (xs, ys) := LeftItems(a, a.items, b.items, cs);
      (Array(xs), Array(ys))
    else if a.Object? && b.Object? then
      SortMembers(a.members, cs);
      var (xs, ys) := LeftMembers(a, Sort(a.members, cs), Sort(b.members, cs), cs);
      (Object(xs), Object(ys))
    else (a, b)
  }

  /** The loop over two arrays, up to the first difference. */
  function LeftItems(ghost top: Json, xs: seq<Json>, ys: seq<Json>, cs: bool): (seq<Json>, seq<Json>)
    requires top.Array? && forall x | x in xs :: x in top.items
    decreases top, 0, |xs|
  {
    if xs == [] || ys == [] then (xs, ys)
    else
      assert xs[0] in top.items;
      var (x, y) := Left(xs[0], ys[0], cs);
      var (rx, ry) := if CompareJson(xs[0], ys[0], cs) then LeftItems(top, xs[1..], ys[1..], cs) else (xs[1..], ys[1..]);
      ([x] + rx, [y] + ry)
  }

  /** The loop over two sorted member lists, up to the first difference. */
  function LeftMembers(ghost top: Json, xs: seq<Member>, ys: seq<Member>, cs: bool): (seq<Member>, seq<Member>)
    requires top.Object? && forall m | m in xs :: m in top.members
    decreases top, 0, |xs|
  {
    if xs == [] || ys == [] || Compare(xs[0].key, ys[0].key, cs) != 0 then (xs, ys)
    else
      assert xs[0] in top.members;
      var (x, y) := Left(xs[0].value, ys[0].value, cs);
      var (rx, ry) := if CompareJson(xs[0].value, ys[0].value, cs) then LeftMembers(top, xs[1..], ys[1..], cs) else (xs[1..], ys[1..]);
      ([Member(xs[0].key, x)] + rx, [Member(ys[0].key, y)] + ry)
  }

  /** Sorting does not nest trees deeper. */
  lemma {:induction false} LeftDepth(a: Json, b: Json, cs: bool)
    ensures Depth(Left(a, b, cs).0) <= Depth(a) && Depth(Left(a, b, cs).1) <= Depth(b)
    decreases a, 1
  {
    if a.Array? && b.Array? {
      LeftItemsDepth(a, a.items, b.items, cs);
    } else if a.Object? && b.Object? {
      SortMembers(a.members, cs);
      LeftMembersDepth(a, Sort(a.members, cs), Sort(b.members, cs), cs);
      SortedDepth(a.members, cs);
      SortedDepth(b.members, cs);
    }
  }

  lemma SortedDepth(ms: seq<Member>, cs: bool)
    ensures MembersDepth(Sort(ms, cs)) <= MembersDepth(ms)
  {
    SortMembers(ms, cs);
    var x := Sort(ms, cs);
    forall i | 0 <= i < |x| ensures Depth(x[i].value) <= MembersDepth(ms) {
      var j :| 0 <= j < |ms| && ms[j] == x[i];
      MemberDepth(ms, j);
    }
    MembersNoDeeper(x, MembersDepth(ms));
  }

  lemma {:induction false} LeftItemsDepth(top: Json, xs: seq<Json>, ys: seq<Json>, cs: bool)
    requires top.Array? && forall x | x in xs :: x in top.items
    ensures
      var (rx, ry) := LeftItems(top, xs, ys, cs);
      ItemsDepth(rx) <= ItemsDepth(xs) && ItemsDepth(ry) <= ItemsDepth(ys)
    decreases top, 0, |xs|
  {
    if xs != [] && ys != [] {
      assert xs[0] in top.items;
      LeftDepth(xs[0], ys[0], cs);
      LeftItemsDepth(top, xs[1..], ys[1..], cs);
      var (rx, ry) := LeftItems(top, xs, ys, cs);
      assert rx[1..] == (if CompareJson(xs[0], ys[0], cs) then LeftItems(top, xs[1..], ys[1..], cs).0 else xs[1..]);
      assert ry[1..] == (if CompareJson(xs[0], ys[0], cs) then LeftItems(top, xs[1..], ys[1..], cs).1 else ys[1..]);
    }
  }

  lemma {:induction false} LeftMembersDepth(top: Json, xs: seq<Member>, ys: seq<Member>, cs: bool)
    requires top.Object? && forall m | m in xs :: m in top.members
    ensures
      var (rx, ry) := LeftMembers(top, xs, ys, cs);
      MembersDepth(rx) <= MembersDepth(xs) && MembersDepth(ry) <= MembersDepth(ys)
    decreases top, 0, |xs|
  {
    if xs != [] && ys != [] && Compare(xs[0].key, ys[0].key, cs) == 0 {
      assert xs[0] in top.members;
      LeftDepth(xs[0].value, ys[0].value, cs);
      LeftMembersDepth(top, xs[1..], ys[1..], cs);
      var (rx, ry) := LeftMembers(top, xs, ys, cs);
      var same := CompareJson(xs[0].value, ys[0].value, cs);
      assert rx[1..] == (if same then LeftMembers(top, xs[1..], ys[1..], cs).0 else xs[1..]);
      assert ry[1..] == (if same then LeftMembers(top, xs[1..], ys[1..], cs).1 else ys[1..]);
    }
  }

  /** compare_json changes nothing but the order of members. */
  lemma {:induction false} LeftReordered(a: Json, b: Json, cs: bool)
    requires DistinctKeys(a, true) && DistinctKeys(b, true)
    ensures Reordered(a, Left(a, b, cs).0) && Reordered(b, Left(a, b, cs).1)
    decreases a, 1
  {
    if a.Array? && b.Array? {
      LeftItemsReordered(a, a.items, b.items, cs);
    } else if a.Object? && b.Object? {
      var xs, ys := Sort(a.members, cs), Sort(b.members, cs);
      SortMembers(a.members, cs);
      SortMembers(b.members, cs);
      SortedMap(a.members, cs);
      SortedMap(b.members, cs);
      LeftMembersParallel(a, b, xs, ys, cs);
      ParallelReordered(a.members, xs, LeftMembers(a, xs, ys, cs).0);
      ParallelReordered(b.members, ys, LeftMembers(a, xs, ys, cs).1);
    }
  }

  predicate ReorderedItems(xs: seq<Json>, ys: seq<Json>)
  {
    |xs| == |ys| && forall i | 0 <= i < |xs| :: Reordered(xs[i], ys[i])
  }

  lemma {:induction false} LeftItemsReordered(top: Json, xs: seq<Json>, ys: seq<Json>, cs: bool)
    requires top.Array? && forall x | x in xs :: x in top.items
    requires (forall i | 0 <= i < |xs| :: DistinctKeys(xs[i], true)) && (forall i | 0 <= i < |ys| :: DistinctKeys(ys[i], true))
    ensures ReorderedItems(xs, LeftItems(top, xs, ys, cs).0) && ReorderedItems(ys, LeftItems(top, xs, ys, cs).1)
    decreases top, 0, |xs|
  {
    if xs != [] && ys != [] {
      assert xs[0] in top.items;
      LeftReordered(xs[0], ys[0], cs);
      LeftItemsReordered(top, xs[1..], ys[1..], cs);
      var (rx, ry) := LeftItems(top, xs, ys, cs);
      var same := CompareJson(xs[0], ys[0], cs);
      ConsItems(xs, rx, if same then LeftItems(top, xs[1..], ys[1..], cs).0 else xs[1..]);
      ConsItems(ys, ry, if same then LeftItems(top, xs[1..], ys[1..], cs).1 else ys[1..]);
    }
  }

  lemma ConsItems(xs: seq<Json>, rx: seq<Json>, rest: seq<Json>)
    requires xs != [] && rx != [] && rx == [rx[0]] + rest && Reordered(xs[0], rx[0]) && ReorderedItems(xs[1..], rest)
    ensures ReorderedItems(xs, rx)
  {
    forall i | 0 <= i < |xs| ensures Reordered(xs[i], rx[i]) {
      if i > 0 { assert xs[i] == xs[1..][i - 1] && rx[i] == rest[i - 1]; }
    }
  }

  lemma ConsParallel(xs: seq<Member>, rx: seq<Member>, rest: seq<Member>)
    requires xs != [] && rx != [] && rx == [rx[0]] + rest && Parallel([xs[0]], [rx[0]]) && Parallel(xs[1..], rest)
    ensures Parallel(xs, rx)
  {
    assert [xs[0]][0] == xs[0] && [rx[0]][0] == rx[0];
    forall i | 0 <= i < |xs| ensures xs[i].key == rx[i].key && Reordered(xs[i].value, rx[i].value) {
      if i > 0 { assert xs[i] == xs[1..][i - 1] && rx[i] == rest[i - 1]; }
    }
  }

  lemma {:induction false} LeftMembersParallel(a: Json, b: Json, xs: seq<Member>, ys: seq<Member>, cs: bool)
    requires a.Object? && b.Object? && DistinctKeys(a, true) && DistinctKeys(b, true)
    requires (forall m | m in xs :: m in a.members) && (forall m | m in ys :: m in b.members)
    ensures Parallel(xs, LeftMembers(a, xs, ys, cs).0) && Parallel(ys, LeftMembers(a, xs, ys, cs).1)
    decreases a, 0, |xs|
  {
    if xs != [] && ys != [] && Compare(xs[0].key, ys[0].key, cs) == 0 {
      assert xs[0] in a.members && ys[0] in b.members;
      MemberDistinct(a.members, xs[0]);
      MemberDistinct(b.members, ys[0]);
      LeftReordered(xs[0].value, ys[0].value, cs);
      LeftMembersParallel(a, b, xs[1..], ys[1..], cs);
      var (rx, ry) := LeftMembers(a, xs, ys, cs);
      var same := CompareJson(xs[0].value, ys[0].value, cs);
      ParallelSelf(xs[1..]);
      ParallelSelf(ys[1..]);
      ConsParallel(xs, rx, if same then LeftMembers(a, xs[1..], ys[1..], cs).0 else xs[1..]);
      ConsParallel(ys, ry, if same then LeftMembers(a, xs[1..], ys[1..], cs).1 else ys[1..]);
    } else {
      ParallelSelf(xs);
      ParallelSelf(ys);
    }
  }
}
