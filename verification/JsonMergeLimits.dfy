/**
 Conditions under which generate_merge_patch and merge_patch are inverse that a caller can see at a
 glance, the partners of the exact condition of JsonMergeRoundTrip, and inputs that break them.
 */
module JsonMergeLimits {
  import opened Json
  import opened JsonSort
  import opened JsonOrder
  import opened JsonMerge
  import opened JsonMergeJoin
  import opened JsonMergeRoundTrip

  // ----- the guards

  /** In every pair of objects that generation reaches, the sorted lists ascend for strcmp and the
      comparison of a common name does not depend on case. */
  predicate Guarded(from: Json, to: Json, cs: bool)
    decreases Depth(to), 1
  {
    from.Object? && to.Object? ==>
      && StrictlySorted(Sort(from.members, cs), true) && StrictlySorted(Sort(to.members, cs), true)
      && forall i | 0 <= i < |to.members| :: NameGuarded(from, to, i, cs)
  }

  predicate NameGuarded(from: Json, to: Json, i: nat, cs: bool)
    requires from.Object? && to.Object? && i < |to.members|
    decreases Depth(to), 0
  {
    var f, t := Get(from.members, to.members[i].key, true), to.members[i].value;
    MemberDepth(to.members, i);
    f.Some? ==> PairGuarded(f.value, t, cs)
  }

  predicate PairGuarded(f: Json, t: Json, cs: bool)
    decreases Depth(t), 2
  {
    && CompareJson(f, t, cs) == CompareJson(f, t, true)
    && (!CompareJson(f, t, cs) ==> (LeftDepth(f, t, cs); Guarded(Left(f, t, cs).0, Left(f, t, cs).1, false)))
  }

  /** The nulls of reordered trees are in the same places. */
  lemma {:induction false} NullsReordered(f: Option<Json>, f': Option<Json>, t: Json, t': Json)
    requires ReorderedOption(f, f') && Reordered(t, t') && NullsKept(f, t)
    requires DistinctKeys(t, true) && (f.Some? ==> DistinctKeys(f.value, true))
    ensures NullsKept(f', t')
    decreases t, 0
  {
    if t.Object? {
      var ts, ts' := t.members, t'.members;
      forall i | 0 <= i < |ts'| ensures NameKept(Get(MembersOf(f'), ts'[i].key, true), ts'[i].value) {
        var k := ts'[i].key;
        var j: nat := i;
        if ts != ts' { j := Counterpart(ts, ts', i); }
        MembersReordered(f, f', k);
        MembersDistinct(f, k);
        NameReordered(Get(MembersOf(f), k, true), Get(MembersOf(f'), k, true), ts[j].value, ts'[i].value);
      }
    }
  }

  lemma {:induction false} NameReordered(f: Option<Json>, f': Option<Json>, t: Json, t': Json)
    requires ReorderedOption(f, f') && Reordered(t, t') && NameKept(f, t)
    requires DistinctKeys(t, true) && (f.Some? ==> DistinctKeys(f.value, true))
    ensures NameKept(f', t')
    decreases t, 1
  {
    if !t.Null? { NullsReordered(f, f', t, t'); }
  }

  lemma MembersDistinct(f: Option<Json>, k: string)
    requires f.Some? ==> DistinctKeys(f.value, true)
    ensures Get(MembersOf(f), k, true).Some? ==> DistinctKeys(Get(MembersOf(f), k, true).value, true)
  {
    if f.Some? && f.value.Object? { GetDistinct(f.value.members, k); }
  }

  lemma MembersReordered(f: Option<Json>, f': Option<Json>, k: string)
    requires ReorderedOption(f, f') && (f.Some? ==> DistinctKeys(f.value, true))
    ensures ReorderedOption(Get(MembersOf(f), k, true), Get(MembersOf(f'), k, true))
  {
    if f.Some? && f.value.Object? {
      ReorderedDistinct(f.value, f'.value);
      ReorderedGet(f.value.members, f'.value.members, k);
    }
  }

  lemma NullsKeptIff(f: Json, f': Json, t: Json, t': Json)
    requires Reordered(f, f') && Reordered(t, t') && DistinctKeys(f, true) && DistinctKeys(t, true)
    ensures NullsKept(Some(f), t) <==> NullsKept(Some(f'), t')
  {
    ReorderedBack(f, f');
    ReorderedBack(t, t');
    ReorderedDistinct(f, f');
    ReorderedDistinct(t, t');
    if NullsKept(Some(f), t) { NullsReordered(Some(f), Some(f'), t, t'); }
    if NullsKept(Some(f'), t') { NullsReordered(Some(f'), Some(f), t', t); }
  }

  /** Under the guards the round trip works exactly when every null member of the target is null in
      the source already. */
  lemma {:induction false} GuardedRestores(from: Json, to: Json, cs: bool)
    requires DistinctKeys(from, true) && DistinctKeys(to, true) && Guarded(from, to, cs)
    ensures Restorable(from, to, cs) <==> NullsKept(Some(from), to)
    decreases Depth(to), 1, 1
  {
    if to.Object? && !from.Object? {
      NoNullsIff(to);
      assert MembersOf(Some(from)) == MembersOf(None);
    } else if to.Object? {
      forall i | 0 <= i < |to.members|
        ensures NameRestorable(from, to, i, cs) <==> NameKept(Get(from.members, to.members[i].key, true), to.members[i].value)
      {
        GuardedName(from, to, i, cs);
      }
    }
  }

  lemma {:induction false} GuardedName(from: Json, to: Json, i: nat, cs: bool)
    requires DistinctKeys(from, true) && DistinctKeys(to, true) && Guarded(from, to, cs)
    requires from.Object? && to.Object? && i < |to.members|
    ensures NameRestorable(from, to, i, cs) <==> NameKept(Get(from.members, to.members[i].key, true), to.members[i].value)
    decreases Depth(to), 0
  {
    var k, t := to.members[i].key, to.members[i].value;
    var fs, ts, f := Sort(from.members, cs), Sort(to.members, cs), Get(from.members, k, true);
    GetAt(to.members, i);
    SortedGet(from.members, cs, k);
    SortedGet(to.members, cs, k);
    KeyGet(fs, k);
    KeyGet(ts, k);
    MemberDepth(to.members, i);
    if f.Some? {
      AscendingMeet(fs, ts, k);
      GetDistinct(from.members, k);
      assert NameGuarded(from, to, i, cs);
      GuardedPair(f.value, t, cs);
    } else {
      OneSided(fs, ts, k);
      NoNullsIff(t);
    }
  }

  lemma {:induction false} GuardedPair(f: Json, t: Json, cs: bool)
    requires DistinctKeys(f, true) && DistinctKeys(t, true) && PairGuarded(f, t, cs)
    ensures PairRestorable(f, t, cs) <==> NameKept(Some(f), t)
    decreases Depth(t), 2
  {
    CompareIffSame(f, t);
    if CompareJson(f, t, cs) {
      SameKeepsNulls(f, t);
    } else {
      GuardedDifferent(f, t, cs);
    }
  }

  lemma {:induction false} GuardedDifferent(f: Json, t: Json, cs: bool)
    requires DistinctKeys(f, true) && DistinctKeys(t, true) && PairGuarded(f, t, cs) && !CompareJson(f, t, cs)
    ensures Restorable(Left(f, t, cs).0, Left(f, t, cs).1, false) <==> NullsKept(Some(f), t)
    decreases Depth(t), 2, 0
  {
    var (f', t') := Left(f, t, cs);
    LeftDepth(f, t, cs);
    LeftReordered(f, t, cs);
    ReorderedDistinct(f, f');
    ReorderedDistinct(t, t');
    NullsKeptIff(f, f', t, t');
    GuardedRestores(f', t', false);
  }

  /** The guard on comparisons is needed: below the top level, where generation ignores case, a name
      whose values are equal only when case is ignored is never restored. */
  lemma IgnoredCaseIsLost(from: Json, copy: Json, to: Json, i: nat)
    requires DistinctKeys(from, true) && DistinctKeys(to, true) && Reordered(from, copy)
    requires from.Object? && to.Object? && i < |to.members|
    requires FateOf(Sort(from.members, false), Sort(to.members, false), to.members[i].key) == Met
    requires
      var f := Get(from.members, to.members[i].key, true);
      f.Some? && CompareJson(f.value, to.members[i].value, false) && !CompareJson(f.value, to.members[i].value, true)
    ensures !Same(After(copy, Generate(from, to, false)), to)
  {
    var f, t := Get(from.members, to.members[i].key, true).value, to.members[i].value;
    GetDistinct(from.members, to.members[i].key);
    CompareIffSame(f, t);
    assert !PairRestorable(f, t, false) && !FateRestorable(Met, Some(f), t, false);
    assert !NameRestorable(from, to, i, false);
    RestoredIff(from, copy, to, false);
  }

  /** Under the guards nothing is generated exactly for two equal objects. */
  lemma {:induction false} NothingToDoIff(from: Json, to: Json, cs: bool)
    requires DistinctKeys(from, true) && DistinctKeys(to, true) && Guarded(from, to, cs)
    ensures Generate(from, to, cs).None? <==> from.Object? && to.Object? && Same(from, to)
    decreases Depth(to)
  {
    if from.Object? && to.Object? {
      var fs, ts := Sort(from.members, cs), Sort(to.members, cs);
      SortMembers(from.members, cs);
      NothingJoined(from, fs, ts, cs);
      if NothingAsked(fs, ts, cs) {
        forall i | 0 <= i < |fs| ensures Same(fs[i].value, ts[i].value) { NothingIsSame(from, to, cs, i); }
        SortedMap(from.members, cs);
        SortedMap(to.members, cs);
        SameFromAligned(from.members, fs, to.members, ts);
      }
      if Same(from, to) { SameAsksNothing(from, to, cs); }
    }
  }

  /** The pair of values at one place of both sorted lists, as the guards see it. */
  lemma AtPlace(from: Json, to: Json, cs: bool, i: nat)
    requires DistinctKeys(from, true) && DistinctKeys(to, true) && Guarded(from, to, cs) && from.Object? && to.Object?
    requires i < |Sort(from.members, cs)| && i < |Sort(to.members, cs)|
    requires Sort(from.members, cs)[i].key == Sort(to.members, cs)[i].key
    ensures
      var f, t := Sort(from.members, cs)[i].value, Sort(to.members, cs)[i].value;
      DistinctKeys(f, true) && DistinctKeys(t, true) && PairGuarded(f, t, cs) && Depth(t) < Depth(to)
  {
    var x, y := Sort(from.members, cs)[i], Sort(to.members, cs)[i];
    SortMembers(from.members, cs);
    SortMembers(to.members, cs);
    MemberDistinct(from.members, x);
    MemberDistinct(to.members, y);
    var j :| 0 <= j < |to.members| && to.members[j] == y;
    var k :| 0 <= k < |from.members| && from.members[k] == x;
    GetAt(from.members, k);
    MemberDepth(to.members, j);
    assert NameGuarded(from, to, j, cs);
  }

  lemma {:induction false} NothingIsSame(from: Json, to: Json, cs: bool, i: nat)
    requires DistinctKeys(from, true) && DistinctKeys(to, true) && Guarded(from, to, cs) && from.Object? && to.Object?
    requires NothingAsked(Sort(from.members, cs), Sort(to.members, cs), cs) && i < |Sort(from.members, cs)|
    ensures Same(Sort(from.members, cs)[i].value, Sort(to.members, cs)[i].value)
    decreases Depth(to), 0
  {
    AtPlace(from, to, cs, i);
    var f, t := Sort(from.members, cs)[i].value, Sort(to.members, cs)[i].value;
    CompareIffSame(f, t);
    if !CompareJson(f, t, cs) {
      var f', t' := Left(f, t, cs).0, Left(f, t, cs).1;
      LeftDepth(f, t, cs);
      LeftReordered(f, t, cs);
      ReorderedDistinct(f, f');
      ReorderedDistinct(t, t');
      NothingToDoIff(f', t', false);
      SameIffReordered(f, f', t, t');
    }
  }

  lemma SameAsksNothing(from: Json, to: Json, cs: bool)
    requires DistinctKeys(from, true) && DistinctKeys(to, true) && Guarded(from, to, cs) && from.Object? && to.Object?
    requires Same(from, to)
    ensures NothingAsked(Sort(from.members, cs), Sort(to.members, cs), cs)
  {
    var fs, ts := Sort(from.members, cs), Sort(to.members, cs);
    SortedMap(from.members, cs);
    SortedMap(to.members, cs);
    SameNamesInOrder(fs, ts);
    forall i | 0 <= i < |fs| ensures Nested(fs[i].value, ts[i].value, cs).None? {
      AtPlace(from, to, cs, i);
      NameBySame(from.members, to.members, fs[i].key);
      SortedGet(from.members, cs, fs[i].key);
      SortedGet(to.members, cs, fs[i].key);
      GetAt(fs, i);
      GetAt(ts, i);
      SameImpliesCompare(fs[i].value, ts[i].value);
    }
  }

  // ----- without upper-case letters the case flag makes no difference

  predicate LowerList(ms: seq<Member>) { forall i | 0 <= i < |ms| :: NoUpper(ms[i].key) }

  predicate LowerNames(j: Json)
  {
    match j
    case Array(items) => forall i | 0 <= i < |items| :: LowerNames(items[i])
    case Object(ms) => LowerList(ms) && forall i | 0 <= i < |ms| :: LowerNames(ms[i].value)
    case _ => true
  }

  lemma {:induction false} MergeBlind(a: seq<Member>, b: seq<Member>)
    requires LowerList(a) && LowerList(b)
    ensures Merge(a, b, false) == Merge(a, b, true)
  {
    if a != [] && b != [] {
      CompareNoUpper(a[0].key, b[0].key);
      if Less(a[0], b[0], true) { MergeBlind(a[1..], b); } else { MergeBlind(a, b[1..]); }
    }
  }

  lemma SortLower(ms: seq<Member>, cs: bool)
    requires LowerList(ms)
    ensures LowerList(Sort(ms, cs))
  {
    SortMembers(ms, cs);
  }

  lemma {:induction false} SortBlind(ms: seq<Member>)
    requires LowerList(ms)
    ensures Sort(ms, false) == Sort(ms, true)
    decreases |ms|
  {
    forall i | 0 <= i < |ms| - 1 ensures Less(ms[i], ms[i + 1], false) == Less(ms[i], ms[i + 1], true) {
      CompareNoUpper(ms[i].key, ms[i + 1].key);
    }
    assert Ascending(ms, false) == Ascending(ms, true);
    if |ms| > 1 && !Ascending(ms, true) {
      var half := (|ms| + 1) / 2;
      SortBlind(ms[..half]);
      SortBlind(ms[half..]);
      SortLower(ms[..half], true);
      SortLower(ms[half..], true);
      MergeBlind(Sort(ms[..half], true), Sort(ms[half..], true));
    }
  }

  lemma {:induction false} CompareBlind(a: Json, b: Json)
    requires LowerNames(a) && LowerNames(b)
    ensures CompareJson(a, b, false) == CompareJson(a, b, true)
  {
    if a.Array? && b.Array? {
      forall i | 0 <= i < |a.items| && i < |b.items|
        ensures CompareJson(a.items[i], b.items[i], false) == CompareJson(a.items[i], b.items[i], true)
      {
        CompareBlind(a.items[i], b.items[i]);
      }
    } else if a.Object? && b.Object? {
      SortBlind(a.members);
      SortBlind(b.members);
      var x, y := Sort(a.members, true), Sort(b.members, true);
      SortMembers(a.members, true);
      SortMembers(b.members, true);
      forall i | 0 <= i < |x| && i < |y|
        ensures Compare(x[i].key, y[i].key, false) == Compare(x[i].key, y[i].key, true)
        ensures CompareJson(x[i].value, y[i].value, false) == CompareJson(x[i].value, y[i].value, true)
      {
        CompareNoUpper(x[i].key, y[i].key);
        CompareBlind(x[i].value, y[i].value);
      }
    }
  }

  /** Names below the top level, and at it when case is ignored there, have no upper-case letters. */
  predicate Blind(j: Json, cs: bool)
  {
    if !cs then LowerNames(j) else j.Object? ==> forall i | 0 <= i < |j.members| :: LowerNames(j.members[i].value)
  }

  lemma {:induction false} LowerReordered(f: Json, g: Json)
    requires Reordered(f, g) && LowerNames(f)
    ensures LowerNames(g)
  {
    if f != g {
      match f
      case Array(items) =>
        forall i | 0 <= i < |items| ensures LowerNames(g.items[i]) { LowerReordered(items[i], g.items[i]); }
      case Object(ms) =>
        var ns := g.members;
        forall i | 0 <= i < |ns| ensures NoUpper(ns[i].key) && LowerNames(ns[i].value) {
          var j := Counterpart(ms, ns, i);
          LowerReordered(ms[j].value, ns[i].value);
        }
    }
  }

  lemma SortedStrict(ms: seq<Member>, cs: bool)
    requires Distinct(ms, true) && (!cs ==> LowerList(ms))
    ensures StrictlySorted(Sort(ms, cs), true)
  {
    if !cs { SortBlind(ms); }
    SortStrict(ms, true);
  }

  /** Names without upper-case letters below the top level satisfy the guards. */
  lemma {:induction false} LowerGuarded(from: Json, to: Json, cs: bool)
    requires DistinctKeys(from, true) && DistinctKeys(to, true) && Blind(from, cs) && Blind(to, cs)
    ensures Guarded(from, to, cs)
    decreases Depth(to)
  {
    if from.Object? && to.Object? {
      SortedStrict(from.members, cs);
      SortedStrict(to.members, cs);
      forall i | 0 <= i < |to.members| ensures NameGuarded(from, to, i, cs) {
        var f, t := Get(from.members, to.members[i].key, true), to.members[i].value;
        MemberDepth(to.members, i);
        GetDistinct(from.members, to.members[i].key);
        if f.Some? { LowerPair(f.value, t, cs, Depth(to)); }
      }
    }
  }

  lemma {:induction false} LowerPair(f: Json, t: Json, cs: bool, depth: nat)
    requires DistinctKeys(f, true) && DistinctKeys(t, true) && LowerNames(f) && LowerNames(t) && Depth(t) < depth
    ensures PairGuarded(f, t, cs)
    decreases depth, 0
  {
    if !cs { CompareBlind(f, t); }
    if !CompareJson(f, t, cs) {
      var f', t' := Left(f, t, cs).0, Left(f, t, cs).1;
      LeftDepth(f, t, cs);
      LeftReordered(f, t, cs);
      ReorderedDistinct(f, f');
      ReorderedDistinct(t, t');
      LowerReordered(f, f');
      LowerReordered(t, t');
      LowerGuarded(f', t', false);
    }
  }

  /** The round trip in its plain form: no null members in the target, no upper-case letters below
      the top level. Merging into a copy of the source gives the target, as compare_json sees it, and
      nothing is generated only for equal trees. */
  lemma MergeRoundTrip(from: Json, copy: Json, to: Json)
    requires DistinctKeys(from, true) && DistinctKeys(to, true) && Blind(from, true) && Blind(to, true)
    requires NoNulls(to) && Reordered(from, copy)
    ensures Same(After(copy, Generate(from, to, true)), to)
    ensures CompareJson(After(copy, Generate(from, to, true)), to, true)
  {
    LowerGuarded(from, to, true);
    GuardedRestores(from, to, true);
    NoNullsKept(Some(from), to);
    RestoredIff(from, copy, to, true);
    SameImpliesCompare(After(copy, Generate(from, to, true)), to);
  }

  lemma {:induction false} NoNullsKept(from: Option<Json>, to: Json)
    requires NoNulls(to)
    ensures NullsKept(from, to)
    decreases (to)
  {
    if to.Object? {
      forall i | 0 <= i < |to.members|
        ensures NameKept(Get(MembersOf(from), to.members[i].key, true), to.members[i].value)
      {
        NoNullsKept(Get(MembersOf(from), to.members[i].key, true), to.members[i].value);
      }
    }
  }

  // ----- where it fails

  /** A null member of `to` that `from` does not have is lost. */
  lemma NullMemberIsLost()
    ensures var to := Object([Member("a", Null)]);
            MergePatch(Some(Object([])), Generate(Object([]), to, true).value, true) == Object([])
  {
    var to := Object([Member("a", Null)]);
    var from := Object([]);
    assert Sort(to.members, true) == to.members && Sort(from.members, true) == [];
    var p := MergeJoin(from, [], to.members, true);
    assert p == to.members + MergeJoin(from, [], [], true);
    assert p == to.members;
    assert MergeMember([], p[0], true) == [];
  }

  lemma TakeSecond(a: Member, b: Member)
    requires a.key != b.key
    ensures Taken([a, b], b.key, true) == [a]
  {
    assert [a, b][1..] == [b];
    assert Find([a, b], b.key, true) == 1;
  }

  lemma TakeFirst(a: Member, b: Member)
    ensures Taken([a, b], a.key, true) == [b]
  {
  }

  const MIXED: seq<Member> := [Member("a", True), Member("B", True)]
  const SORTED: seq<Member> := [Member("B", True), Member("a", True)]
  const UPPER: seq<Member> := [Member("B", True)]
  const MIXED_PATCH: seq<Member> := [Member("B", True), Member("a", Null), Member("B", Null)]

  lemma TwoOrders()
    ensures Sort(MIXED, true) == SORTED && Sort(SORTED, false) == MIXED
  {
    var a, b := MIXED[0], MIXED[1];
    assert Compare("a", "B", true) > 0;
    assert !Less(a, b, true);
    assert MIXED[..1] == [a] && MIXED[1..] == [b];
    assert Merge([a], [b], true) == [b] + Merge([a], [], true);
    assert ToLower("B"[0]) == 'b' && Compare("B", "a", false) > 0;
    assert !Less(b, a, false);
    assert SORTED[..1] == [b] && SORTED[1..] == [a];
    assert Merge([b], [a], false) == [a] + Merge([b], [], false);
  }

  lemma LeftOfObjects(a: Json, b: Json, cs: bool)
    requires a.Object? && b.Object?
    ensures forall m | m in Sort(a.members, cs) :: m in a.members
    ensures
      var r := LeftMembers(a, Sort(a.members, cs), Sort(b.members, cs), cs);
      Left(a, b, cs) == (Object(r.0), Object(r.1))
  {
    SortMembers(a.members, cs);
  }

  lemma LengthsDiffer(ms: seq<Member>, ns: seq<Member>)
    requires |ms| != |ns|
    ensures !CompareJson(Object(ms), Object(ns), true)
  {
    SortKeeps(ms, true);
    SortKeeps(ns, true);
    assert |multiset(Sort(ms, true))| == |multiset(ms)| && |multiset(Sort(ns, true))| == |multiset(ns)|;
  }

  /** The comparison leaves the first object in strcmp order. */
  lemma MixedCaseLeft()
    ensures !CompareJson(Object(MIXED), Object(UPPER), true)
    ensures Left(Object(MIXED), Object(UPPER), true) == (Object(SORTED), Object(UPPER))
  {
    TwoOrders();
    var top := Object(MIXED);
    SortMembers(MIXED, true);
    assert Sort(UPPER, true) == UPPER;
    CompareSelf("B", true);
    assert SORTED[1..] == [MIXED[0]] && UPPER[1..] == [];
    assert LeftMembers(top, [MIXED[0]], [], true) == ([MIXED[0]], []);
    assert CompareJson(True, True, true) && Left(True, True, true) == (True, True);
    assert LeftMembers(top, SORTED, UPPER, true) == ([SORTED[0]] + [MIXED[0]], [UPPER[0]] + []);
    assert [SORTED[0]] + [MIXED[0]] == SORTED && [UPPER[0]] + [] == UPPER;
    LeftOfObjects(top, Object(UPPER), true);
    LengthsDiffer(MIXED, UPPER);
  }

  /** With "a" before "B" ignoring case but after it for strcmp, the nested patch adds "B" and then
      removes it. */
  lemma MixedCasePatch()
    ensures Generate(Object(SORTED), Object(UPPER), false) == Some(Object(MIXED_PATCH))
  {
    var top := Object(SORTED);
    TwoOrders();
    SortMembers(SORTED, false);
    assert Sort(UPPER, false) == UPPER;
    assert Compare("a", "B", true) > 0;
    var one := [MIXED[1]];
    assert MIXED[1..] == one && one[1..] == [] && UPPER[1..] == [];
    assert MergeJoin(top, [], [], false) == [];
    assert MergeJoin(top, one, [], false) == [Member("B", Null)];
    assert MergeJoin(top, MIXED, [], false) == [Member("a", Null)] + MergeJoin(top, one, [], false);
    assert MergeJoin(top, MIXED, UPPER, false) == [UPPER[0]] + MergeJoin(top, MIXED, [], false);
    assert MergeJoin(top, MIXED, UPPER, false) == MIXED_PATCH;
  }

  /** What is generated for two objects with one common name. */
  lemma OneName(key: string, f: Json, t: Json)
    ensures
      var p := Nested(f, t, true);
      Generate(Object([Member(key, f)]), Object([Member(key, t)]), true)
        == if p.None? then None else Some(Object([Member(key, p.value)]))
  {
    var fs, ts := [Member(key, f)], [Member(key, t)];
    var top := Object(fs);
    CompareSelf(key, true);
    assert Sort(fs, true) == fs && Sort(ts, true) == ts;
    assert fs[1..] == [] && ts[1..] == [];
    assert MergeJoin(top, [], [], true) == [];
    var p := Nested(f, t, true);
    assert MergeJoin(top, fs, ts, true) == (if p.Some? then [Member(key, p.value)] else []) + MergeJoin(top, fs[1..], ts[1..], true);
    if p.Some? {
      assert [Member(key, p.value)] + [] == [Member(key, p.value)];
      assert MergeJoin(top, fs, ts, true) == [Member(key, p.value)];
    } else {
      assert MergeJoin(top, fs, ts, true) == [];
    }
  }

  lemma OneMerged(key: string, f: Json, p: Json)
    requires !p.Null?
    ensures MergePatch(Some(Object([Member(key, f)])), Object([Member(key, p)]), true)
         == Object([Member(key, MergePatch(Some(f), p, true))])
  {
    var ts, ps := [Member(key, f)], [Member(key, p)];
    assert ps[1..] == [];
    assert Find(ts, key, true) == 0 && RemoveAt(ts, 0) == [];
    assert MergeMember(ts, ps[0], true) == [] + [Member(key, MergePatch(Some(f), p, true))];
    assert MergeMembers(ts, ps, true) == MergeMembers(MergeMember(ts, ps[0], true), ps[1..], true);
  }

  /** A case-sensitive call: from {"x": {"a", "B"}} to {"x": {"B"}}. The round trip loses "B". */
  lemma MixedCaseLosesMember()
    ensures
      var from, to := Object([Member("x", Object(MIXED))]), Object([Member("x", Object(UPPER))]);
      var g := GenerateMergePatch(Some(from), Some(to), true);
      g.Some? && MergePatch(Some(from), g.value, true) == Object([Member("x", Object([]))])
  {
    MixedCaseLeft();
    MixedCasePatch();
    OneName("x", Object(MIXED), Object(UPPER));
    OneMerged("x", Object(MIXED), Object(MIXED_PATCH));
    AddThenRemove(MIXED[0], MIXED[1]);
    assert MIXED == [MIXED[0], MIXED[1]];
  }

  const LOWER_A := Object([Member("a", True)])
  const UPPER_A := Object([Member("A", True)])

  lemma OneCompared(key: string, f: Json, t: Json, cs: bool)
    ensures CompareJson(Object([Member(key, f)]), Object([Member(key, t)]), cs) == CompareJson(f, t, cs)
  {
    var fs, ts := [Member(key, f)], [Member(key, t)];
    CompareSelf(key, cs);
    assert Sort(fs, cs) == fs && Sort(ts, cs) == ts;
    assert fs[0].value == f && ts[0].value == t;
  }

  lemma OneLeft(key: string, f: Json, t: Json, cs: bool)
    requires Left(f, t, cs) == (f, t)
    ensures Left(Object([Member(key, f)]), Object([Member(key, t)]), cs) == (Object([Member(key, f)]), Object([Member(key, t)]))
  {
    var fs, ts := [Member(key, f)], [Member(key, t)];
    var top := Object(fs);
    CompareSelf(key, cs);
    SortMembers(fs, cs);
    assert Sort(fs, cs) == fs && Sort(ts, cs) == ts;
    assert fs[1..] == [] && ts[1..] == [];
    assert LeftMembers(top, [], [], cs) == ([], []);
    assert LeftMembers(top, fs, ts, cs) == ([fs[0]] + [], [ts[0]] + []);
    assert [fs[0]] + [] == fs && [ts[0]] + [] == ts;
    LeftOfObjects(top, Object(ts), cs);
  }

  lemma TwoCases()
    ensures !CompareJson(LOWER_A, UPPER_A, true) && CompareJson(LOWER_A, UPPER_A, false)
  {
    assert Compare("a", "A", true) > 0 && ToLower("A"[0]) == 'a' && Compare("a", "A", false) == 0;
    var x, y := LOWER_A.members, UPPER_A.members;
    assert Sort(x, true) == x && Sort(y, true) == y && Sort(x, false) == x && Sort(y, false) == y;
    assert x[0].key == "a" && y[0].key == "A" && CompareJson(x[0].value, y[0].value, false);
  }

  lemma TwoCasesLeft()
    ensures Left(LOWER_A, UPPER_A, true) == (LOWER_A, UPPER_A)
  {
    var x, y := LOWER_A.members, UPPER_A.members;
    assert Compare("a", "A", true) > 0;
    SortMembers(x, true);
    assert Sort(x, true) == x && Sort(y, true) == y;
    assert x[0].key == "a" && y[0].key == "A";
    assert LeftMembers(LOWER_A, x, y, true) == (x, y);
  }

  /** A case-sensitive call that finds nothing to do: from {"x": {"y": {"a"}}} to {"x": {"y": {"A"}}}
      no patch is returned, although the trees differ. */
  lemma NoPatchForDifferentTrees()
    ensures
      var from := Object([Member("x", Object([Member("y", LOWER_A)]))]);
      var to := Object([Member("x", Object([Member("y", UPPER_A)]))]);
      GenerateMergePatch(Some(from), Some(to), true).None? && !Same(from, to)
  {
    var f, t := Object([Member("y", LOWER_A)]), Object([Member("y", UPPER_A)]);
    TwoCases();
    TwoCasesLeft();
    OneLeft("y", LOWER_A, UPPER_A, true);
    OneCompared("y", LOWER_A, UPPER_A, true);
    NothingIgnoringCase();
    OneName("x", f, t);
    OneCompared("x", f, t, true);
    if Same(Object([Member("x", f)]), Object([Member("x", t)])) {
      SameImpliesCompare(Object([Member("x", f)]), Object([Member("x", t)]));
    }
  }

  lemma NothingIgnoringCase()
    ensures Generate(Object([Member("y", LOWER_A)]), Object([Member("y", UPPER_A)]), false).None?
  {
    var fs, ts := [Member("y", LOWER_A)], [Member("y", UPPER_A)];
    TwoCases();
    CompareSelf("y", true);
    assert Sort(fs, false) == fs && Sort(ts, false) == ts;
    assert fs[1..] == [] && ts[1..] == [];
    assert fs[0].value == LOWER_A && ts[0].value == UPPER_A;
    assert Nested(LOWER_A, UPPER_A, false).None?;
    assert MergeJoin(Object(fs), [], [], false) == [];
    assert MergeJoin(Object(fs), fs, ts, false) == [] + MergeJoin(Object(fs), fs[1..], ts[1..], false);
  }

  lemma AddThenRemove(a: Member, b: Member)
    requires a.key != b.key && b.value == True
    ensures MergeMembers([a, b], [b, Member(a.key, Null), Member(b.key, Null)], true) == []
  {
    TakeSecond(a, b);
    assert MergeMember([a, b], b, true) == [a, b];
    TakeFirst(a, b);
    assert MergeMember([b], Member(b.key, Null), true) == [];
    ThreeMerges([a, b], b, Member(a.key, Null), Member(b.key, Null));
  }

  lemma ThreeMerges(ts: seq<Member>, p: Member, q: Member, r: Member)
    ensures MergeMembers(ts, [p, q, r], true) == MergeMember(MergeMember(MergeMember(ts, p, true), q, true), r, true)
  {
    assert [p, q, r][1..] == [q, r] && [q, r][1..] == [r] && [r][1..] == [];
    var x := MergeMember(ts, p, true);
    var y := MergeMember(x, q, true);
    assert MergeMembers(y, [r], true) == MergeMembers(MergeMember(y, r, true), [], true);
    assert MergeMembers(x, [q, r], true) == MergeMembers(y, [r], true);
  }
}