/**
 The conditions of the patch round trip: a plain form of them, what each operation needs exactly,
 inputs that break them, and that the order of members plays no part in what is generated.
 */
module JsonPatchLimits {
  import opened Json
  import opened JsonPointer
  import opened JsonSort
  import opened JsonOrder
  import opened JsonPatch
  import opened JsonPatchTheorems

  // ===== a plain form of the conditions

  /** Names free of '~' and '/'. */
  predicate PlainNames(j: Json)
  {
    match j
    case Array(items) => forall i | 0 <= i < |items| :: PlainNames(items[i])
    case Object(ms) => forall i | 0 <= i < |ms| :: '~' !in ms[i].key && '/' !in ms[i].key && PlainNames(ms[i].value)
    case _ => true
  }

  lemma DistinctReachable(ms: seq<Member>, i: nat)
    requires i < |ms| && Distinct(ms, false)
    ensures Reachable(ms, ms[i].key)
  {
    forall k | 0 <= k < i ensures !SameName(ms[i].key, ms[k].key, false) {
      assert !SameName(ms[k].key, ms[i].key, false);
    }
    ReachableIs(ms, ms[i].key, i);
  }

  /** Plain names, distinct ignoring case where they are looked up that way, are always enough. */
  lemma {:induction false} PlainNamesEditable(f: Json, t: Json)
    requires PlainNames(f) && PlainNames(t) && DistinctKeys(f, false) && DistinctKeys(t, true)
    ensures Editable(f, t)
    decreases f
  {
    if SameType(f, t) {
      match f
      case Array(items) =>
        forall i | 0 <= i < |items| && i < |t.items| ensures Editable(items[i], t.items[i]) {
          PlainNamesEditable(items[i], t.items[i]);
        }
      case Object(ms) => PlainMembersEditable(f, t);
      case _ =>
    }
  }

  lemma {:induction false} PlainMembersEditable(f: Json, t: Json)
    requires PlainNames(f) && PlainNames(t) && DistinctKeys(f, false) && DistinctKeys(t, true)
    requires f.Object? && t.Object?
    ensures Editable(f, t)
    decreases f, 0
  {
    var ms, ts := f.members, t.members;
    DistinctFolded(ms);
    forall i | 0 <= i < |ms| ensures Survives(ms[i].key) && Reachable(ms, ms[i].key) {
      PlainSurvives(ms[i].key);
      DistinctReachable(ms, i);
    }
    forall i | 0 <= i < |ms| && ms[i].key in AsMap(ts) ensures Editable(ms[i].value, AsMap(ts)[ms[i].key]) {
      var j := Find(ts, ms[i].key, true);
      AsMapFind(ts, ms[i].key);
      PlainNamesEditable(ms[i].value, ts[j].value);
    }
    forall i | 0 <= i < |ts| ensures Survives(ts[i].key) { PlainSurvives(ts[i].key); }
  }

  // ===== where it fails

  /** Exactly when a generated removal takes out the member it was generated for: when the first
      member that matches the decoded name, ignoring case, is that member. */
  lemma RemovalIsRightIff(ms: seq<Member>, i: nat)
    requires i < |ms| && Distinct(ms, true)
    ensures ApplyOp(Object(ms), Patch(Remove, "/" + Encode(ms[i].key), None), true) == (0, Object(RemoveAt(ms, i)))
       <==> Find(ms, DecodeInplace(Encode(ms[i].key)), false) == i
  {
    RemovalTakes(ms, ms[i].key);
    var k := Find(ms, DecodeInplace(Encode(ms[i].key)), false);
    if k < |ms| && k != i { RemovalsDiffer(ms, i, k); }
  }

  /** A removal takes out the first member that matches the decoded name, ignoring case. */
  lemma RemovalTakes(ms: seq<Member>, key: string)
    ensures
      var k := Find(ms, DecodeInplace(Encode(key)), false);
      ApplyOp(Object(ms), Patch(Remove, "/" + Encode(key), None), true)
        == if k < |ms| then (0, Object(RemoveAt(ms, k))) else (13, Object(ms))
  {
    EncodedHasNoSlash(key);
    AtRoot(Object(ms), Encode(key), Null);
  }

  lemma RemovalsDiffer(ms: seq<Member>, i: nat, k: nat)
    requires i < |ms| && k < |ms| && i != k && Distinct(ms, true)
    ensures RemoveAt(ms, i) != RemoveAt(ms, k)
  {
    RemovedKey(ms, i);
    RemovedKey(ms, k);
    SamePlace(ms, i, k);
    KeyOf(ms, ms[i]);
    assert ms[i].key in KeySet(RemoveAt(ms, k)) && ms[i].key !in KeySet(RemoveAt(ms, i));
  }

  /** Exactly when a generated addition puts in the name it was generated for. */
  lemma AdditionIsRightIff(ms: seq<Member>, key: string, v: Json)
    requires key !in KeySet(ms)
    ensures ApplyOp(Object(ms), Patch(Add, "/" + Encode(key), Some(v)), true) == (0, Object(ms + [Member(key, v)]))
       <==> Survives(key)
  {
    EncodedHasNoSlash(key);
    AtRoot(Object(ms), Encode(key), v);
    if Survives(key) {
      NotFound(ms, key);
    } else {
      var d := DecodeInplace(Encode(key));
      var r := Without(ms, d, true) + [Member(d, v)];
      assert r[|r| - 1].key == d && (ms + [Member(key, v)])[|ms + [Member(key, v)]| - 1].key == key;
    }
  }

  /** Exactly when a generated replacement, which takes the member out and puts the new one at the
      end, leaves all others alone: it needs both conditions. */
  lemma ReplacementIsRightIff(ms: seq<Member>, i: nat, v: Json)
    requires i < |ms| && Distinct(ms, true)
    ensures ApplyOp(Object(ms), Patch(Replace, "/" + Encode(ms[i].key), Some(v)), true)
              == (0, Object(RemoveAt(ms, i) + [Member(ms[i].key, v)]))
       <==> Survives(ms[i].key) && Reachable(ms, ms[i].key)
  {
    var key := ms[i].key;
    var d := DecodeInplace(Encode(key));
    var k := Find(ms, d, false);
    EncodedHasNoSlash(key);
    AtRoot(Object(ms), Encode(key), v);
    if k < |ms| {
      AtRoot(Object(RemoveAt(ms, k)), Encode(key), v);
      var r := Without(RemoveAt(ms, k), d, true) + [Member(d, v)];
      var want := RemoveAt(ms, i) + [Member(key, v)];
      assert r[|r| - 1].key == d && want[|want| - 1].key == key;
      if Survives(key) { ReplacedWell(ms, i, k, v); }
    }
  }

  lemma ReplacedWell(ms: seq<Member>, i: nat, k: nat, v: Json)
    requires i < |ms| && Distinct(ms, true) && k == Find(ms, ms[i].key, false) < |ms|
    ensures
      var key := ms[i].key;
      (Without(RemoveAt(ms, k), key, true) + [Member(key, v)] == RemoveAt(ms, i) + [Member(key, v)])
      <==> Reachable(ms, key)
  {
    var key := ms[i].key;
    SamePlace(ms, i, k);
    RemovedKey(ms, k);
    var rest := RemoveAt(ms, k);
    if i == k {
      NotFound(rest, key);
    } else {
      KeyOf(ms, ms[i]);
      AsMapFind(rest, key);
      assert |Without(rest, key, true) + [Member(key, v)]| != |RemoveAt(ms, i) + [Member(key, v)]|;
    }
  }

  /** Names that differ only in case: the patch that should remove "a" removes "A". */
  lemma CaseClashRemovesTheWrongMember()
    ensures
      var ms := [Member("A", Number(1.0)), Member("a", Number(2.0))];
      ApplyOp(Object(ms), Patch(Remove, "/" + Encode("a"), None), true) == (0, Object([ms[1]]))
  {
    var ms := [Member("A", Number(1.0)), Member("a", Number(2.0))];
    assert Folded("A") == "a" && Folded("a") == "a";
    TakesTheOther(ms, "a");
    assert ms[1..] == [ms[1]];
  }

  /** A name with a slash: the patch that should remove it finds nothing. */
  lemma SlashedNameIsNotFound()
    ensures ApplyOp(Object([Member("/", Null)]), Patch(Remove, "/" + Encode("/"), None), true) == (13, Object([Member("/", Null)]))
  {
    var ms := [Member("/", Null)];
    assert Encode("/") == "~1" by { assert "/"[1..] == ""; }
    var buf := "~1"[1 := '/'];
    assert DecodeFrom("~1", 0, 0) == DecodeFrom(buf, 1, 2) == buf[..1] == "~";
    EncodedHasNoSlash("/");
    AtRoot(Object(ms), Encode("/"), Null);
    assert Folded("/")[0] == '/' && Folded("~")[0] == '~';
  }

  // ===== the order of members

  /** What is generated does not depend on the order of members in the tree it starts from. */
  lemma {:induction false} DiffIgnoresOrder(f: Json, g: Json, t: Json)
    requires Reordered(f, g)
    ensures Diff(f, t) == Diff(g, t)
    decreases f, 1
  {
    if f != g && SameType(f, t) {
      match f
      case Array(items) => ItemsIgnoreOrder(items, g.items, t.items, 0);
      case Object(ms) => ObjectIgnoresOrder(f, g, t);
    }
  }

  lemma {:induction false} ObjectIgnoresOrder(f: Json, g: Json, t: Json)
    requires f.Object? && g.Object? && t.Object? && f != g && Reordered(f, g)
    ensures Diff(f, t) == Diff(g, t)
    decreases f, 0, |f.members| + |t.members| + 1
  {
    var fs, gs, ts := Sort(f.members, true), Sort(g.members, true), Sort(t.members, true);
    SortedParallel(f.members, g.members);
    SortMembers(f.members, true);
    SortMembers(g.members, true);
    SortLength(f.members);
    SortLength(t.members);
    MembersIgnoreOrder(f, g, fs, gs, ts);
    DiffOfObjects(f, t);
    DiffOfObjects(g, t);
  }

  lemma DiffOfObjects(f: Json, t: Json)
    requires f.Object? && t.Object?
    ensures forall m | m in Sort(f.members, true) :: m in f.members
    ensures Diff(f, t) == DiffMembers(f, Sort(f.members, true), Sort(t.members, true))
  {
    SortMembers(f.members, true);
  }

  lemma {:induction false} ItemsIgnoreOrder(fs: seq<Json>, gs: seq<Json>, ts: seq<Json>, i: nat)
    requires |fs| == |gs| && i <= |fs| && i <= |ts| && forall j | 0 <= j < |fs| :: Reordered(fs[j], gs[j])
    ensures DiffItems(fs, ts, i) == DiffItems(gs, ts, i)
    decreases Array(fs), 0, |fs| - i
  {
    if i < |fs| && i < |ts| {
      DiffIgnoresOrder(fs[i], gs[i], ts[i]);
      ItemsIgnoreOrder(fs, gs, ts, i + 1);
    }
  }

  lemma {:induction false} MembersIgnoreOrder(f: Json, g: Json, fs: seq<Member>, gs: seq<Member>, ts: seq<Member>)
    requires f.Object? && g.Object? && Parallel(fs, gs)
    requires (forall m | m in fs :: m in f.members) && (forall m | m in gs :: m in g.members)
    ensures DiffMembers(f, fs, ts) == DiffMembers(g, gs, ts)
    decreases f, 0, |fs| + |ts|
  {
    if fs != [] || ts != [] {
      var diff := if fs == [] then 1 else if ts == [] then -1 else Compare(fs[0].key, ts[0].key, true);
      if diff == 0 {
        assert fs[0] in fs && fs[0] in f.members;
        DiffIgnoresOrder(fs[0].value, gs[0].value, ts[0].value);
        MembersIgnoreOrder(f, g, fs[1..], gs[1..], ts[1..]);
      } else if diff < 0 {
        MembersIgnoreOrder(f, g, fs[1..], gs[1..], ts);
      } else {
        MembersIgnoreOrder(f, g, fs, gs, ts[1..]);
      }
    }
  }

  /** The round trip on a copy in another order: the patches generated from `from` turn a copy of
      `from` into `to`, also one made after generation has sorted `from`. (On the sorted tree itself
      an addition can be lost, see ListAppend.) */
  lemma ReorderedRoundTrip(from: Json, copy: Json, to: Json)
    requires Reordered(from, copy) && Editable(copy, to) && DistinctKeys(to, true)
    ensures
      var (status, r) := ApplyPatches(copy, GeneratePatches(from, to), true);
      status == 0 && Same(r, to) && CompareJson(r, to, true)
  {
    DiffIgnoresOrder(from, copy, to);
    PatchRoundTrip(copy, to);
  }

  // ===== why the conditions are not also necessary

  const BOTH_CASES := [Member("a", Null), Member("A", Null)]

  lemma TakesTheOther(ms: seq<Member>, key: string)
    requires ms != [] && '~' !in key && '/' !in key && Folded(key) == Folded(ms[0].key)
    ensures ApplyOp(Object(ms), Patch(Remove, "/" + Encode(key), None), true) == (0, Object(ms[1..]))
  {
    PlainSurvives(key);
    EncodedHasNoSlash(key);
    AtRoot(Object(ms), Encode(key), Null);
    assert Find(ms, key, false) == 0;
    assert RemoveAt(ms, 0) == ms[1..];
  }

  /** The two names in order. */
  lemma BothCasesSort()
    ensures Sort(BOTH_CASES, true) == [Member("A", Null), Member("a", Null)]
  {
    var a, b := Member("a", Null), Member("A", Null);
    assert BOTH_CASES[..1] == [a] && BOTH_CASES[1..] == [b];
    assert Compare("a", "A", true) > 0;
    assert Less(b, a, true) && !Less(a, b, true);
    assert Merge([a], [b], true) == [b] + Merge([a], [], true);
  }

  lemma BothCasesGenerate()
    ensures Diff(Object(BOTH_CASES), Object([]))
         == [Patch(Remove, "/" + Encode("A"), None), Patch(Remove, "/" + Encode("a"), None)]
  {
    var a, b := Member("a", Null), Member("A", Null);
    BothCasesSort();
    SortMembers(BOTH_CASES, true);
    assert Sort([], true) == [];
    assert [b, a][1..] == [a] && [a][1..] == [];
    assert DiffMembers(Object(BOTH_CASES), [a], []) == [Patch(Remove, "/" + Encode("a"), None)];
  }

  lemma BothCasesClash()
    ensures !Editable(Object(BOTH_CASES), Object([]))
  {
    assert Folded("A") == "a" && Folded("a") == "a";
    assert Find(BOTH_CASES, "A", false) == 0;
    assert BOTH_CASES[1].key == "A" && !Reachable(BOTH_CASES, "A") && "A" !in AsMap([]);
    assert Touched(BOTH_CASES[1], AsMap([]));
  }

  /** Two wrong removals can make up for each other: from {"a", "A"}, in this order, to the empty
      object, the patch for "A" takes out "a" and the patch for "a" takes out "A". */
  lemma WrongRemovalsCancel()
    ensures !Editable(Object(BOTH_CASES), Object([])) && Turns(Object(BOTH_CASES), Object([]))
  {
    BothCasesClash();
    BothCasesGenerate();
    assert Folded("A") == "a" && Folded("a") == "a";
    TakesTheOther(BOTH_CASES, "A");
    TakesTheOther(BOTH_CASES[1..], "a");
    var ps := Diff(Object(BOTH_CASES), Object([]));
    assert ps[1..] == [ps[1]] && ps[1..][1..] == [] && BOTH_CASES[1..][1..] == [];
  }
}
