/**
 What create_patches generates, said without its loops: a patch is in the list exactly when the two
 trees differ where it points. Nothing is generated exactly for trees that are the same.
 */
module JsonPatchMinimal {
  import opened Json
  import opened JsonSort
  import opened JsonPointer
  import opened JsonPatch
  import opened JsonPatchLocality
  import opened JsonPatchTheorems
  import opened JsonPatchLimits

  // ----- when nothing is generated

  lemma {:induction false} NoItemsIff(fs: seq<Json>, ts: seq<Json>, i: nat)
    requires i <= |fs| && i <= |ts|
    ensures DiffItems(fs, ts, i) == [] <==>
            |fs| == |ts| && forall k | i <= k < |fs| :: Diff(fs[k], ts[k]) == []
    decreases |fs| - i
  {
    if i < |fs| && i < |ts| {
      NoItemsIff(fs, ts, i + 1);
      assert |Prefixed("/" + Decimal(i), Diff(fs[i], ts[i]))| == |Diff(fs[i], ts[i])|;
    }
  }

  /** The members pair up in order, and each pair gives nothing. */
  predicate PairedAlike(fs: seq<Member>, ts: seq<Member>)
  {
    |fs| == |ts| && forall k | 0 <= k < |fs| :: fs[k].key == ts[k].key && Diff(fs[k].value, ts[k].value) == []
  }

  lemma PairedTail(fs: seq<Member>, ts: seq<Member>)
    requires fs != [] && ts != []
    ensures PairedAlike(fs, ts) <==>
            fs[0].key == ts[0].key && Diff(fs[0].value, ts[0].value) == [] && PairedAlike(fs[1..], ts[1..])
  {
    if PairedAlike(fs[1..], ts[1..]) {
      assert forall k | 0 < k < |fs| :: fs[k] == fs[1..][k - 1] && ts[k] == ts[1..][k - 1];
    }
  }

  lemma {:induction false} NoMembersIff(top: Json, fs: seq<Member>, ts: seq<Member>)
    requires top.Object? && forall m | m in fs :: m in top.members
    ensures DiffMembers(top, fs, ts) == [] <==> PairedAlike(fs, ts)
    decreases |fs| + |ts|
  {
    if fs != [] && ts != [] {
      CompareEqual(fs[0].key, ts[0].key);
      PairedTail(fs, ts);
      if fs[0].key == ts[0].key {
        assert fs[0] in fs && fs[0] in top.members;
        NoMembersIff(top, fs[1..], ts[1..]);
        assert |Prefixed("/" + Encode(fs[0].key), Diff(fs[0].value, ts[0].value))| == |Diff(fs[0].value, ts[0].value)|;
      }
    }
  }

  /** Nothing is generated exactly when the trees are the same. */
  lemma {:induction false} NothingIff(f: Json, t: Json)
    requires DistinctKeys(f, true) && DistinctKeys(t, true)
    ensures Diff(f, t) == [] <==> Same(f, t)
    decreases f, 1
  {
    if f.Array? && t.Array? {
      NoItemsIff(f.items, t.items, 0);
      forall k | 0 <= k < |f.items| && k < |t.items|
        ensures Diff(f.items[k], t.items[k]) == [] <==> Same(f.items[k], t.items[k])
      {
        NothingIff(f.items[k], t.items[k]);
      }
    } else if f.Object? && t.Object? {
      NothingOfObjectsIff(f, t);
    }
  }

  lemma {:induction false} NothingOfObjectsIff(f: Json, t: Json)
    requires f.Object? && t.Object? && DistinctKeys(f, true) && DistinctKeys(t, true)
    ensures Diff(f, t) == [] <==> Same(f, t)
    decreases f, 0
  {
    var fs, ts := Sort(f.members, true), Sort(t.members, true);
    DiffOfObjects(f, t);
    NoMembersIff(f, fs, ts);
    SortMembers(t.members, true);
    forall k | 0 <= k < |fs| && k < |ts|
      ensures Diff(fs[k].value, ts[k].value) == [] <==> Same(fs[k].value, ts[k].value)
    {
      assert fs[k] in f.members && ts[k] in t.members;
      MemberDistinct(f.members, fs[k]);
      MemberDistinct(t.members, ts[k]);
      NothingIff(fs[k].value, ts[k].value);
    }
    if PairedAlike(fs, ts) {
      SameFromSorted(f.members, t.members);
    }
    if Same(f, t) {
      SortedFromSame(f.members, t.members);
    }
  }

  /** cJSONUtils_GeneratePatches returns the empty array exactly for trees that are the same. */
  lemma NothingGeneratedIff(from: Json, to: Json)
    requires DistinctKeys(from, true) && DistinctKeys(to, true)
    ensures GeneratePatches(from, to) == Array([]) <==> Same(from, to)
  {
    NothingIff(from, to);
    assert |GeneratePatches(from, to).items| == |Diff(from, to)|;
  }

  // ----- which patches are generated

  function Deeper(prefix: string, p: Patch): Patch { p.(path := prefix + p.path) }

  lemma PrefixedHas(prefix: string, ps: seq<Patch>, p: Patch)
    ensures p in Prefixed(prefix, ps) <==> exists q :: q in ps && p == Deeper(prefix, q)
  {
    var r := Prefixed(prefix, ps);
    if p in r {
      var i :| 0 <= i < |r| && r[i] == p;
      assert ps[i] in ps && p == Deeper(prefix, ps[i]);
    }
    if q :| q in ps && p == Deeper(prefix, q) {
      var i :| 0 <= i < |ps| && ps[i] == q;
      assert r[i] == p;
    }
  }

  /** One array is longer than the other: its last items go from the first index the other does not
      have, or are appended. */
  predicate LengthDiffers(fs: seq<Json>, ts: seq<Json>, p: Patch)
  {
    || (|ts| < |fs| && p == Patch(Remove, "/" + Decimal(|ts|), None))
    || exists k | |fs| <= k < |ts| :: p == Patch(Add, "/-", Some(ts[k]))
  }

  /** Only the first object has a member with this name. */
  predicate OnlyFirst(fs: seq<Member>, ts: seq<Member>, p: Patch)
  {
    exists m | m in fs :: m.key !in KeySet(ts) && p == Patch(Remove, "/" + Encode(m.key), None)
  }

  /** Only the second object has a member with this name. */
  predicate OnlySecond(fs: seq<Member>, ts: seq<Member>, p: Patch)
  {
    exists m | m in ts :: m.key !in KeySet(fs) && p == Patch(Add, "/" + Encode(m.key), Some(m.value))
  }

  /** The patch stands for a place where the trees differ: two values of different types, numbers or
      strings are replaced, and otherwise the children are compared by index or by name. */
  ghost predicate Differs(f: Json, t: Json, p: Patch)
    decreases f
  {
    if Replaced(f, t) then p == Patch(Replace, "", Some(t))
    else
      match f
      case Array(fs) =>
        || LengthDiffers(fs, t.items, p)
        || exists k, q :: 0 <= k < |fs| && k < |t.items| && Differs(fs[k], t.items[k], q)
                          && p == Deeper("/" + Decimal(k), q)
      case Object(fs) =>
        || OnlyFirst(fs, t.members, p) || OnlySecond(fs, t.members, p)
        || exists i, k, q :: 0 <= i < |fs| && 0 <= k < |t.members| && fs[i].key == t.members[k].key
                             && Differs(fs[i].value, t.members[k].value, q) && p == Deeper("/" + Encode(fs[i].key), q)
      case _ => false
  }

  predicate FromItem(fs: seq<Json>, ts: seq<Json>, i: nat, p: Patch)
  {
    exists k | i <= k < |fs| && k < |ts| :: p in Prefixed("/" + Decimal(k), Diff(fs[k], ts[k]))
  }

  lemma {:induction false} RemovalsHave(index: nat, n: nat, p: Patch)
    ensures p in Removals(index, n) <==> n > 0 && p == Patch(Remove, "/" + Decimal(index), None)
  {
    if n > 0 { RemovalsHave(index, n - 1, p); }
  }

  lemma {:induction false} AdditionsHave(vs: seq<Json>, p: Patch)
    ensures p in Additions(vs) <==> exists k | 0 <= k < |vs| :: p == Patch(Add, "/-", Some(vs[k]))
  {
    if vs != [] {
      AdditionsHave(vs[1..], p);
      if k :| 0 <= k < |vs[1..]| && p == Patch(Add, "/-", Some(vs[1..][k])) {
        assert vs[k + 1] == vs[1..][k];
      }
      if k :| 0 < k < |vs| && p == Patch(Add, "/-", Some(vs[k])) {
        assert vs[k] == vs[1..][k - 1];
      }
    }
  }

  lemma LastHave(fs: seq<Json>, ts: seq<Json>, i: nat, p: Patch)
    requires i <= |fs| && i <= |ts| && (i == |fs| || i == |ts|)
    ensures p in Removals(i, |fs| - i) + Additions(ts[i..]) <==> LengthDiffers(fs, ts, p)
  {
    RemovalsHave(i, |fs| - i, p);
    AdditionsHave(ts[i..], p);
    if k :| 0 <= k < |ts[i..]| && p == Patch(Add, "/-", Some(ts[i..][k])) {
      assert ts[i + k] == ts[i..][k];
    }
    if k :| |fs| <= k < |ts| && p == Patch(Add, "/-", Some(ts[k])) {
      assert ts[k] == ts[i..][k - i];
    }
  }

  lemma {:induction false} ItemsHave(fs: seq<Json>, ts: seq<Json>, i: nat, p: Patch)
    requires i <= |fs| && i <= |ts|
    ensures p in DiffItems(fs, ts, i) <==> FromItem(fs, ts, i, p) || LengthDiffers(fs, ts, p)
    decreases |fs| - i
  {
    if i < |fs| && i < |ts| {
      ItemsHave(fs, ts, i + 1, p);
      var first := Prefixed("/" + Decimal(i), Diff(fs[i], ts[i]));
      assert p in DiffItems(fs, ts, i) <==> p in first || p in DiffItems(fs, ts, i + 1);
      assert FromItem(fs, ts, i, p) <==> p in first || FromItem(fs, ts, i + 1, p);
    } else {
      LastHave(fs, ts, i, p);
    }
  }

  predicate FromPair(fs: seq<Member>, ts: seq<Member>, p: Patch)
  {
    exists m, n | m in fs && n in ts :: m.key == n.key && p in Prefixed("/" + Encode(m.key), Diff(m.value, n.value))
  }

  predicate FromMembers(fs: seq<Member>, ts: seq<Member>, p: Patch)
  {
    FromPair(fs, ts, p) || OnlyFirst(fs, ts, p) || OnlySecond(fs, ts, p)
  }

  lemma HeadOrTail(ms: seq<Member>, m: Member)
    requires ms != []
    ensures m in ms <==> m == ms[0] || m in ms[1..]
  {
    assert ms == [ms[0]] + ms[1..];
  }

  /** A first member whose name the second object does not have. */
  lemma FirstAlone(fs: seq<Member>, ts: seq<Member>, p: Patch)
    requires fs != [] && StrictlySorted(fs, true) && fs[0].key !in KeySet(ts)
    ensures FromMembers(fs, ts, p) <==> p == Patch(Remove, "/" + Encode(fs[0].key), None) || FromMembers(fs[1..], ts, p)
  {
    StrictTail(fs);
    forall m ensures m in fs <==> m == fs[0] || m in fs[1..] { HeadOrTail(fs, m); }
    forall m | m in ts ensures m.key in KeySet(ts) { KeyOf(ts, m); }
    assert FromPair(fs, ts, p) <==> FromPair(fs[1..], ts, p);
    assert OnlyFirst(fs, ts, p) <==> p == Patch(Remove, "/" + Encode(fs[0].key), None) || OnlyFirst(fs[1..], ts, p);
    assert OnlySecond(fs, ts, p) <==> OnlySecond(fs[1..], ts, p);
  }

  /** A second member whose name the first object does not have. */
  lemma SecondAlone(fs: seq<Member>, ts: seq<Member>, p: Patch)
    requires ts != [] && StrictlySorted(ts, true) && ts[0].key !in KeySet(fs)
    ensures FromMembers(fs, ts, p) <==>
            p == Patch(Add, "/" + Encode(ts[0].key), Some(ts[0].value)) || FromMembers(fs, ts[1..], p)
  {
    StrictTail(ts);
    forall m ensures m in ts <==> m == ts[0] || m in ts[1..] { HeadOrTail(ts, m); }
    forall m | m in fs ensures m.key in KeySet(fs) { KeyOf(fs, m); }
    assert FromPair(fs, ts, p) <==> FromPair(fs, ts[1..], p);
    assert OnlyFirst(fs, ts, p) <==> OnlyFirst(fs, ts[1..], p);
    assert OnlySecond(fs, ts, p) <==>
      p == Patch(Add, "/" + Encode(ts[0].key), Some(ts[0].value)) || OnlySecond(fs, ts[1..], p);
  }

  /** A name both objects have. */
  lemma Paired(fs: seq<Member>, ts: seq<Member>, p: Patch)
    requires fs != [] && ts != [] && StrictlySorted(fs, true) && StrictlySorted(ts, true) && fs[0].key == ts[0].key
    ensures FromMembers(fs, ts, p) <==>
            p in Prefixed("/" + Encode(fs[0].key), Diff(fs[0].value, ts[0].value)) || FromMembers(fs[1..], ts[1..], p)
  {
    StrictTail(fs);
    StrictTail(ts);
    forall m ensures m in fs <==> m == fs[0] || m in fs[1..] { HeadOrTail(fs, m); }
    forall m ensures m in ts <==> m == ts[0] || m in ts[1..] { HeadOrTail(ts, m); }
    forall m | m in fs[1..] ensures m.key in KeySet(fs[1..]) { KeyOf(fs[1..], m); }
    forall m | m in ts[1..] ensures m.key in KeySet(ts[1..]) { KeyOf(ts[1..], m); }
    assert FromPair(fs, ts, p) <==>
      p in Prefixed("/" + Encode(fs[0].key), Diff(fs[0].value, ts[0].value)) || FromPair(fs[1..], ts[1..], p);
    assert OnlyFirst(fs, ts, p) <==> OnlyFirst(fs[1..], ts[1..], p);
    assert OnlySecond(fs, ts, p) <==> OnlySecond(fs[1..], ts[1..], p);
  }

  lemma SecondComesFirst(fs: seq<Member>, ts: seq<Member>)
    requires ts != [] && StrictlySorted(fs, true) && (fs != [] ==> Compare(fs[0].key, ts[0].key, true) > 0)
    ensures ts[0].key !in KeySet(fs)
  {
    if fs != [] { CompareSymmetric(fs[0].key, ts[0].key, true); }
    BelowAll(ts[0].key, fs);
  }

  lemma {:induction false} MembersHave(top: Json, fs: seq<Member>, ts: seq<Member>, p: Patch)
    requires top.Object? && (forall m | m in fs :: m in top.members)
    requires StrictlySorted(fs, true) && StrictlySorted(ts, true)
    ensures p in DiffMembers(top, fs, ts) <==> FromMembers(fs, ts, p)
    decreases |fs| + |ts|
  {
    if fs == [] && ts == [] {
    } else if fs == [] || (ts != [] && Compare(fs[0].key, ts[0].key, true) > 0) {
      SecondComesFirst(fs, ts);
      SecondAlone(fs, ts, p);
      StrictTail(ts);
      MembersHave(top, fs, ts[1..], p);
    } else if ts == [] || Compare(fs[0].key, ts[0].key, true) < 0 {
      BelowAll(fs[0].key, ts);
      FirstAlone(fs, ts, p);
      StrictTail(fs);
      MembersHave(top, fs[1..], ts, p);
    } else {
      CompareEqual(fs[0].key, ts[0].key);
      assert fs[0] in fs && fs[0] in top.members;
      Paired(fs, ts, p);
      StrictTail(fs);
      StrictTail(ts);
      MembersHave(top, fs[1..], ts[1..], p);
    }
  }

  ghost predicate SameMembers(a: seq<Member>, b: seq<Member>)
  {
    (forall m :: m in a <==> m in b) && KeySet(a) == KeySet(b)
  }

  lemma SortedSame(ms: seq<Member>)
    requires Distinct(ms, true)
    ensures SameMembers(Sort(ms, true), ms)
  {
    SortKeeps(ms, true);
    SortAsMap(ms);
    forall m ensures m in Sort(ms, true) <==> m in ms { assert m in multiset(ms) <==> m in ms; }
    assert KeySet(Sort(ms, true)) == AsMap(Sort(ms, true)).Keys == KeySet(ms);
  }

  /** The order of the members changes nothing. */
  lemma AnyOrderHas(fs: seq<Member>, gs: seq<Member>, ts: seq<Member>, us: seq<Member>, p: Patch)
    requires SameMembers(fs, gs) && SameMembers(ts, us)
    ensures FromMembers(fs, ts, p) <==> FromMembers(gs, us, p)
  {
    assert FromPair(fs, ts, p) <==> FromPair(gs, us, p);
    assert OnlyFirst(fs, ts, p) <==> OnlyFirst(gs, us, p);
    assert OnlySecond(fs, ts, p) <==> OnlySecond(gs, us, p);
  }

  /** create_patches generates exactly the patches of the places where the trees differ. */
  lemma {:induction false} GeneratedIffDiffers(f: Json, t: Json, p: Patch)
    requires DistinctKeys(f, true) && DistinctKeys(t, true)
    ensures p in Diff(f, t) <==> Differs(f, t, p)
    decreases f, 1
  {
    if Replaced(f, t) {
    } else if f.Array? {
      ArrayPatches(f, t, p);
    } else if f.Object? {
      ObjectPatches(f, t, p);
    }
  }

  lemma {:induction false} ArrayPatches(f: Json, t: Json, p: Patch)
    requires f.Array? && t.Array? && DistinctKeys(f, true) && DistinctKeys(t, true)
    ensures p in Diff(f, t) <==> Differs(f, t, p)
    decreases f, 0
  {
    var fs, ts := f.items, t.items;
    ItemsHave(fs, ts, 0, p);
    forall k, q | 0 <= k < |fs| && k < |ts| ensures q in Diff(fs[k], ts[k]) <==> Differs(fs[k], ts[k], q) {
      GeneratedIffDiffers(fs[k], ts[k], q);
    }
    forall k | 0 <= k < |fs| && k < |ts|
      ensures p in Prefixed("/" + Decimal(k), Diff(fs[k], ts[k])) <==>
              exists q :: q in Diff(fs[k], ts[k]) && p == Deeper("/" + Decimal(k), q)
    {
      PrefixedHas("/" + Decimal(k), Diff(fs[k], ts[k]), p);
    }
  }

  lemma {:induction false} ObjectPatches(f: Json, t: Json, p: Patch)
    requires f.Object? && t.Object? && DistinctKeys(f, true) && DistinctKeys(t, true)
    ensures p in Diff(f, t) <==> Differs(f, t, p)
    decreases f, 0
  {
    var fs, ts := f.members, t.members;
    DiffOfObjects(f, t);
    SortStrict(fs, true);
    SortStrict(ts, true);
    MembersHave(f, Sort(fs, true), Sort(ts, true), p);
    SortedSame(fs);
    SortedSame(ts);
    AnyOrderHas(Sort(fs, true), fs, Sort(ts, true), ts, p);
    forall i, k, q | 0 <= i < |fs| && 0 <= k < |ts|
      ensures q in Diff(fs[i].value, ts[k].value) <==> Differs(fs[i].value, ts[k].value, q)
    {
      GeneratedIffDiffers(fs[i].value, ts[k].value, q);
    }
    PairsHave(fs, ts, p);
  }

  lemma PairsHave(fs: seq<Member>, ts: seq<Member>, p: Patch)
    requires forall i, k, q | 0 <= i < |fs| && 0 <= k < |ts| ::
               q in Diff(fs[i].value, ts[k].value) <==> Differs(fs[i].value, ts[k].value, q)
    ensures FromPair(fs, ts, p) <==>
            exists i, k, q :: 0 <= i < |fs| && 0 <= k < |ts| && fs[i].key == ts[k].key
                              && Differs(fs[i].value, ts[k].value, q) && p == Deeper("/" + Encode(fs[i].key), q)
  {
    if m, n :| m in fs && n in ts && m.key == n.key && p in Prefixed("/" + Encode(m.key), Diff(m.value, n.value)) {
      PrefixedHas("/" + Encode(m.key), Diff(m.value, n.value), p);
      var i :| 0 <= i < |fs| && fs[i] == m;
      var k :| 0 <= k < |ts| && ts[k] == n;
      var q :| q in Diff(m.value, n.value) && p == Deeper("/" + Encode(m.key), q);
      assert Differs(fs[i].value, ts[k].value, q);
    }
    if i, k, q :| 0 <= i < |fs| && 0 <= k < |ts| && fs[i].key == ts[k].key
                  && Differs(fs[i].value, ts[k].value, q) && p == Deeper("/" + Encode(fs[i].key), q) {
      assert q in Diff(fs[i].value, ts[k].value);
      PairHas(fs, ts, fs[i], ts[k], p, q);
    }
  }

  lemma PairHas(fs: seq<Member>, ts: seq<Member>, m: Member, n: Member, p: Patch, q: Patch)
    requires m in fs && n in ts && m.key == n.key && q in Diff(m.value, n.value) && p == Deeper("/" + Encode(m.key), q)
    ensures FromPair(fs, ts, p)
  {
    PrefixedHas("/" + Encode(m.key), Diff(m.value, n.value), p);
  }

  // ----- where the patches point

  /** The node a pointer leads to. */
  function At(j: Json, path: string): Option<Json>
  {
    var loc := Resolve(j, path, true);
    if loc.None? then None else Some(NodeAt(j, loc.value))
  }

  lemma AtBelow(j: Json, i: nat, rest: string)
    requires i < ChildCount(j) && AtTokenEnd(rest) && Addressable(j)
    ensures At(j, "/" + TokenOf(j, i) + rest) == At(Child(j, i), rest)
  {
    ResolveChild(j, i, rest);
  }

  /** The token names a child the first container has and the second, of the same kind, has not. */
  predicate FirstHas(a: Json, b: Json, token: string)
  {
    || (a.Array? && b.Array? && |b.items| < |a.items| && token == Decimal(|b.items|))
    || (a.Object? && b.Object? && exists m | m in a.members :: m.key !in KeySet(b.members) && token == Encode(m.key))
  }

  /** The token adds to the first container a child that only the second, of the same kind, has. */
  predicate SecondHas(a: Json, b: Json, token: string, v: Json)
  {
    || (a.Array? && b.Array? && token == "-" && exists k | |a.items| <= k < |b.items| :: v == b.items[k])
    || (a.Object? && b.Object? && exists m | m in b.members ::
          m.key !in KeySet(a.members) && token == Encode(m.key) && v == m.value)
  }

  predicate Both(f: Json, t: Json, path: string) { At(f, path).Some? && At(t, path).Some? }

  predicate PointsAtParent(f: Json, t: Json, parent: string, token: string, v: Option<Json>)
  {
    Both(f, t, parent) &&
    if v.None? then FirstHas(At(f, parent).value, At(t, parent).value, token)
    else SecondHas(At(f, parent).value, At(t, parent).value, token, v.value)
  }

  /** The change is at this path, seen as a parent and a token. */
  predicate PointsBelow(f: Json, t: Json, path: string, v: Option<Json>)
  {
    LastSlash(path) >= 0 && PointsAtParent(f, t, path[..LastSlash(path)], path[LastSlash(path) + 1..], v)
  }

  predicate PointsAtNode(f: Json, t: Json, path: string, v: Option<Json>)
  {
    Both(f, t, path) && Replaced(At(f, path).value, At(t, path).value) && v == At(t, path)
  }

  /** What a patch says of the two trees, at the node its path leads to or at that node's parent. */
  predicate Points(f: Json, t: Json, p: Patch)
  {
    if p.op.Replace? then AtTokenEnd(p.path) && PointsAtNode(f, t, p.path, p.value)
    else
      Below(p) && (p.op.Remove? <==> p.value.None?) && PointsBelow(f, t, p.path, p.value)
  }

  lemma OneToken(token: string)
    requires '/' !in token
    ensures LastSlash("/" + token) == 0 && ("/" + token)[..0] == "" && ("/" + token)[1..] == token
  {
    var p := "/" + token;
    LeadingSlash(p);
    assert forall i | 0 < i < |p| :: p[i] == token[i - 1];
  }

  /** A patch for two children with one token, seen from their parents. */
  lemma PointsDeeper(f: Json, i: nat, t: Json, k: nat, q: Patch)
    requires i < ChildCount(f) && k < ChildCount(t) && Addressable(f) && Addressable(t)
    requires TokenOf(f, i) == TokenOf(t, k) && Points(Child(f, i), Child(t, k), q)
    ensures Points(f, t, Deeper("/" + TokenOf(f, i), q))
  {
    if q.op.Replace? {
      NodeDeeper(f, i, t, k, q.path, q.value);
    } else {
      ChangeDeeper(f, i, t, k, q);
    }
  }

  lemma ChangeDeeper(f: Json, i: nat, t: Json, k: nat, q: Patch)
    requires i < ChildCount(f) && k < ChildCount(t) && Addressable(f) && Addressable(t) && !q.op.Replace?
    requires TokenOf(f, i) == TokenOf(t, k) && Points(Child(f, i), Child(t, k), q)
    ensures Points(f, t, Deeper("/" + TokenOf(f, i), q))
  {
    PathDeeper(f, i, t, k, q.path, q.value);
    assert Deeper("/" + TokenOf(f, i), q).path == "/" + TokenOf(f, i) + q.path;
  }

  lemma PathDeeper(f: Json, i: nat, t: Json, k: nat, q: string, v: Option<Json>)
    requires i < ChildCount(f) && k < ChildCount(t) && Addressable(f) && Addressable(t) && TokenOf(f, i) == TokenOf(t, k)
    requires q != "" && q[0] == '/' && PointsBelow(Child(f, i), Child(t, k), q, v)
    ensures PointsBelow(f, t, "/" + TokenOf(f, i) + q, v)
  {
    var cut, path := LastSlash(q), "/" + TokenOf(f, i) + q;
    SplitBelow(f, i, q);
    ParentDeeper(f, i, t, k, q[..cut], q[cut + 1..], path[..LastSlash(path)], path[LastSlash(path) + 1..], v);
  }

  lemma NodeDeeper(f: Json, i: nat, t: Json, k: nat, path: string, v: Option<Json>)
    requires i < ChildCount(f) && k < ChildCount(t) && Addressable(f) && Addressable(t) && AtTokenEnd(path)
    requires TokenOf(f, i) == TokenOf(t, k) && PointsAtNode(Child(f, i), Child(t, k), path, v)
    ensures PointsAtNode(f, t, "/" + TokenOf(f, i) + path, v)
  {
    AtBelow(f, i, path);
    AtBelow(t, k, path);
  }

  lemma ParentDeeper(f: Json, i: nat, t: Json, k: nat, parent: string, token: string, whole: string, last: string,
                     v: Option<Json>)
    requires i < ChildCount(f) && k < ChildCount(t) && Addressable(f) && Addressable(t) && AtTokenEnd(parent)
    requires TokenOf(f, i) == TokenOf(t, k) && whole == "/" + TokenOf(f, i) + parent && last == token
    requires PointsAtParent(Child(f, i), Child(t, k), parent, token, v)
    ensures PointsAtParent(f, t, whole, last, v)
  {
    AtBelow(f, i, parent);
    AtBelow(t, k, parent);
  }

  lemma LengthPoints(f: Json, t: Json, p: Patch)
    requires f.Array? && t.Array? && LengthDiffers(f.items, t.items, p)
    ensures Points(f, t, p)
  {
    DecimalDigits(|t.items|);
    OneToken(if p.op.Remove? then Decimal(|t.items|) else "-");
  }

  lemma NamePoints(f: Json, t: Json, p: Patch)
    requires f.Object? && t.Object? && (OnlyFirst(f.members, t.members, p) || OnlySecond(f.members, t.members, p))
    ensures Points(f, t, p)
  {
    if OnlyFirst(f.members, t.members, p) {
      var m :| m in f.members && m.key !in KeySet(t.members) && p == Patch(Remove, "/" + Encode(m.key), None);
      EncodedHasNoSlash(m.key);
      OneToken(Encode(m.key));
    } else {
      var m :| m in t.members && m.key !in KeySet(f.members) && p == Patch(Add, "/" + Encode(m.key), Some(m.value));
      EncodedHasNoSlash(m.key);
      OneToken(Encode(m.key));
    }
  }

  lemma {:induction false} DiffersPoints(f: Json, t: Json, p: Patch)
    requires DistinctKeys(f, true) && DistinctKeys(t, true) && Differs(f, t, p)
    ensures Points(f, t, p)
    decreases f
  {
    if Replaced(f, t) {
    } else if f.Array? {
      if LengthDiffers(f.items, t.items, p) {
        LengthPoints(f, t, p);
      } else {
        var k, q :| 0 <= k < |f.items| && k < |t.items| && Differs(f.items[k], t.items[k], q)
                    && p == Deeper("/" + Decimal(k), q);
        DiffersPoints(f.items[k], t.items[k], q);
        PointsDeeper(f, k, t, k, q);
      }
    } else {
      MemberPoints(f, t, p);
    }
  }

  lemma {:induction false} MemberPoints(f: Json, t: Json, p: Patch)
    requires f.Object? && t.Object? && DistinctKeys(f, true) && DistinctKeys(t, true) && Differs(f, t, p)
    ensures Points(f, t, p)
    decreases f, 0
  {
    var fs, ts := f.members, t.members;
    if OnlyFirst(fs, ts, p) || OnlySecond(fs, ts, p) {
      NamePoints(f, t, p);
    } else {
      var i, k, q :| 0 <= i < |fs| && 0 <= k < |ts| && fs[i].key == ts[k].key
                     && Differs(fs[i].value, ts[k].value, q) && p == Deeper("/" + Encode(fs[i].key), q);
      DiffersPoints(fs[i].value, ts[k].value, q);
      PointsDeeper(f, i, t, k, q);
    }
  }

  /** Every generated patch points, in both trees, at a real difference: a replacement at two values
      of different types, two numbers or two strings, a removal or an addition at a child that only
      one of two containers has. */
  lemma GeneratedPoints(from: Json, to: Json, p: Patch)
    requires DistinctKeys(from, true) && DistinctKeys(to, true) && p in Diff(from, to)
    ensures Points(from, to, p)
  {
    GeneratedIffDiffers(from, to, p);
    DiffersPoints(from, to, p);
  }

  /** Where a replacement is generated, the two values are not containers of one kind. */
  lemma NoContainerReplaced(from: Json, to: Json, p: Patch)
    requires DistinctKeys(from, true) && DistinctKeys(to, true) && p in Diff(from, to) && p.op.Replace?
    ensures Both(from, to, p.path)
    ensures
      var a, b := At(from, p.path).value, At(to, p.path).value;
      !Same(a, b) && !(a.Array? && b.Array?) && !(a.Object? && b.Object?)
  {
    GeneratedPoints(from, to, p);
  }
}
