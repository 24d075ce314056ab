/**
 sort_list and compare_json: the merge sort that both the patch generators and the comparison use
 to put members in order, on the sequence of members that the linked list stands for.
 */
module JsonSort {
  import opened Json

  predicate Less(a: Member, b: Member, cs: bool) { Compare(a.key, b.key, cs) < 0 }

  /** Every member's name is smaller than the next one's. */
  predicate Ascending(ms: seq<Member>, cs: bool)
  {
    forall i | 0 <= i < |ms| - 1 :: Less(ms[i], ms[i + 1], cs)
  }

  function Merge(a: seq<Member>, b: seq<Member>, cs: bool): seq<Member>
  {
    if a == [] then b
    else if b == [] then a
    else if Less(a[0], b[0], cs) then [a[0]] + Merge(a[1..], b, cs)
    else [b[0]] + Merge(a, b[1..], cs)
  }

  /** sort_list: lists already in order are left alone, others are cut after the middle */
  function Sort(ms: seq<Member>, cs: bool): seq<Member>
    decreases |ms|
  {
    if |ms| <= 1 || Ascending(ms, cs) then ms
    else
      var half := (|ms| + 1) / 2;
      Merge(Sort(ms[..half], cs), Sort(ms[half..], cs), cs)
  }

  /** Names never go down. */
  predicate Sorted(ms: seq<Member>, cs: bool)
  {
    forall i, j | 0 <= i < j < |ms| :: Compare(ms[i].key, ms[j].key, cs) <= 0
  }

  /** Names go up at every step. */
  predicate StrictlySorted(ms: seq<Member>, cs: bool)
  {
    forall i, j | 0 <= i < j < |ms| :: Compare(ms[i].key, ms[j].key, cs) < 0
  }

  lemma HeadTail(ms: seq<Member>)
    requires ms != []
    ensures multiset(ms) == multiset{ms[0]} + multiset(ms[1..])
  {
    assert ms == [ms[0]] + ms[1..];
  }

  lemma Consed(m: Member, ms: seq<Member>)
    ensures multiset([m] + ms) == multiset{m} + multiset(ms)
  {
  }

  lemma {:induction false} MergeKeeps(a: seq<Member>, b: seq<Member>, cs: bool)
    ensures multiset(Merge(a, b, cs)) == multiset(a) + multiset(b)
  {
    if a == [] || b == [] {
    } else if Less(a[0], b[0], cs) {
      MergeKeeps(a[1..], b, cs);
      HeadTail(a);
      Consed(a[0], Merge(a[1..], b, cs));
    } else {
      MergeKeeps(a, b[1..], cs);
      HeadTail(b);
      Consed(b[0], Merge(a, b[1..], cs));
    }
  }

  lemma CutKeeps(ms: seq<Member>, half: nat)
    requires half <= |ms|
    ensures multiset(ms) == multiset(ms[..half]) + multiset(ms[half..])
  {
    assert ms == ms[..half] + ms[half..];
  }

  lemma {:induction false} SortKeeps(ms: seq<Member>, cs: bool)
    ensures multiset(Sort(ms, cs)) == multiset(ms)
    decreases |ms|
  {
    if !(|ms| <= 1 || Ascending(ms, cs)) {
      var half := (|ms| + 1) / 2;
      SortKeeps(ms[..half], cs);
      SortKeeps(ms[half..], cs);
      MergeKeeps(Sort(ms[..half], cs), Sort(ms[half..], cs), cs);
      CutKeeps(ms, half);
    }
  }

  predicate NoneBefore(m: Member, ms: seq<Member>, cs: bool)
  {
    forall i | 0 <= i < |ms| :: Compare(m.key, ms[i].key, cs) <= 0
  }

  lemma NoneBeforeMerge(m: Member, a: seq<Member>, b: seq<Member>, cs: bool)
    requires NoneBefore(m, a, cs) && NoneBefore(m, b, cs)
    ensures NoneBefore(m, Merge(a, b, cs), cs)
  {
    MergeKeeps(a, b, cs);
    var r := Merge(a, b, cs);
    forall i | 0 <= i < |r| ensures Compare(m.key, r[i].key, cs) <= 0 {
      assert r[i] in multiset(r);
      assert r[i] in a || r[i] in b;
    }
  }

  lemma ConsSorted(m: Member, ms: seq<Member>, cs: bool)
    requires NoneBefore(m, ms, cs) && Sorted(ms, cs)
    ensures Sorted([m] + ms, cs)
  {
  }

  lemma HeadFirst(x: Member, ms: seq<Member>, cs: bool)
    requires ms != [] && Sorted(ms, cs) && Compare(x.key, ms[0].key, cs) <= 0
    ensures NoneBefore(x, ms, cs)
  {
    forall i | 0 <= i < |ms| ensures Compare(x.key, ms[i].key, cs) <= 0 {
      if i > 0 { CompareTransitive(x.key, ms[0].key, ms[i].key, cs); }
    }
  }

  lemma {:induction false} MergeSorted(a: seq<Member>, b: seq<Member>, cs: bool)
    requires Sorted(a, cs) && Sorted(b, cs)
    ensures Sorted(Merge(a, b, cs), cs)
  {
    if a == [] || b == [] {
    } else if Less(a[0], b[0], cs) {
      MergeSorted(a[1..], b, cs);
      HeadFirst(a[0], b, cs);
      NoneBeforeMerge(a[0], a[1..], b, cs);
      ConsSorted(a[0], Merge(a[1..], b, cs), cs);
    } else {
      MergeSorted(a, b[1..], cs);
      CompareSymmetric(a[0].key, b[0].key, cs);
      HeadFirst(b[0], a, cs);
      NoneBeforeMerge(b[0], a, b[1..], cs);
      ConsSorted(b[0], Merge(a, b[1..], cs), cs);
    }
  }

  lemma {:induction false} AscendingSorted(ms: seq<Member>, cs: bool)
    requires Ascending(ms, cs)
    ensures Sorted(ms, cs)
  {
    if |ms| > 1 {
      AscendingSorted(ms[1..], cs);
      HeadFirst(ms[0], ms[1..], cs);
      ConsSorted(ms[0], ms[1..], cs);
      assert ms == [ms[0]] + ms[1..];
    }
  }

  /** The sort is correct: a permutation in order of names. */
  lemma {:induction false} SortSorted(ms: seq<Member>, cs: bool)
    ensures Sorted(Sort(ms, cs), cs)
    decreases |ms|
  {
    if |ms| <= 1 {
    } else if Ascending(ms, cs) {
      AscendingSorted(ms, cs);
    } else {
      var half := (|ms| + 1) / 2;
      SortSorted(ms[..half], cs);
      SortSorted(ms[half..], cs);
      MergeSorted(Sort(ms[..half], cs), Sort(ms[half..], cs), cs);
    }
  }

  // ----- distinct names

  lemma SortedDistinct(ms: seq<Member>, cs: bool)
    requires Sorted(ms, cs) && Distinct(ms, cs)
    ensures StrictlySorted(ms, cs)
  {
    forall i, j | 0 <= i < j < |ms| ensures Compare(ms[i].key, ms[j].key, cs) < 0 {
      NameCompare(ms[i].key, ms[j].key, cs);
    }
  }

  lemma StrictlySortedDistinct(ms: seq<Member>, cs: bool)
    requires StrictlySorted(ms, cs)
    ensures Distinct(ms, cs)
  {
    forall i, j | 0 <= i < j < |ms| ensures !SameName(ms[i].key, ms[j].key, cs) {
      NameCompare(ms[i].key, ms[j].key, cs);
    }
  }

  /** No name of one list occurs in the other. */
  predicate Apart(a: seq<Member>, b: seq<Member>, cs: bool)
  {
    forall i, j | 0 <= i < |a| && 0 <= j < |b| :: Compare(a[i].key, b[j].key, cs) != 0
  }

  lemma {:induction false} MergeDistinct(a: seq<Member>, b: seq<Member>, cs: bool)
    requires StrictlySorted(a, cs) && StrictlySorted(b, cs) && Apart(a, b, cs)
    ensures StrictlySorted(Merge(a, b, cs), cs)
  {
    if a == [] || b == [] {
    } else if Less(a[0], b[0], cs) {
      MergeDistinct(a[1..], b, cs);
      AllAfterMerge(a[0], a[1..], b, cs);
    } else {
      MergeDistinct(a, b[1..], cs);
      CompareSymmetric(a[0].key, b[0].key, cs);
      AllAfterMerge(b[0], a, b[1..], cs);
    }
  }

  /** A name below everything in two lists is below everything in their merge. */
  lemma AllAfterMerge(x: Member, a: seq<Member>, b: seq<Member>, cs: bool)
    requires StrictlySorted(a, cs) && StrictlySorted(b, cs)
    requires a != [] ==> Compare(x.key, a[0].key, cs) < 0
    requires b != [] ==> Compare(x.key, b[0].key, cs) < 0
    ensures forall i | 0 <= i < |Merge(a, b, cs)| :: Compare(x.key, Merge(a, b, cs)[i].key, cs) < 0
  {
    var r := Merge(a, b, cs);
    MergeKeeps(a, b, cs);
    forall i | 0 <= i < |r| ensures Compare(x.key, r[i].key, cs) < 0 {
      assert r[i] in multiset(r);
      if r[i] in a {
        var j :| 0 <= j < |a| && a[j] == r[i];
        if j > 0 { CompareTransitive(x.key, a[0].key, a[j].key, cs); }
      } else {
        var j :| 0 <= j < |b| && b[j] == r[i];
        if j > 0 { CompareTransitive(x.key, b[0].key, b[j].key, cs); }
      }
    }
  }

  lemma SortMembers(ms: seq<Member>, cs: bool)
    ensures forall i | 0 <= i < |Sort(ms, cs)| :: Sort(ms, cs)[i] in ms
  {
    SortKeeps(ms, cs);
    forall i | 0 <= i < |Sort(ms, cs)| ensures Sort(ms, cs)[i] in ms {
      assert Sort(ms, cs)[i] in multiset(ms);
    }
  }

  /** Members with distinct names come out strictly in order. */
  lemma {:induction false} SortStrict(ms: seq<Member>, cs: bool)
    requires Distinct(ms, cs)
    ensures StrictlySorted(Sort(ms, cs), cs)
    decreases |ms|
  {
    if |ms| <= 1 || Ascending(ms, cs) {
      SortSorted(ms, cs);
      SortedDistinct(ms, cs);
    } else {
      var half := (|ms| + 1) / 2;
      var a, b := Sort(ms[..half], cs), Sort(ms[half..], cs);
      SortStrict(ms[..half], cs);
      SortStrict(ms[half..], cs);
      SortMembers(ms[..half], cs);
      SortMembers(ms[half..], cs);
      forall i, j | 0 <= i < |a| && 0 <= j < |b| ensures Compare(a[i].key, b[j].key, cs) != 0 {
        var p :| 0 <= p < half && ms[p] == a[i];
        var q :| half <= q < |ms| && ms[q] == b[j];
        NameCompare(ms[p].key, ms[q].key, cs);
      }
      MergeDistinct(a, b, cs);
    }
  }

  /** The sorted list stands for the same object. */
  lemma SortAsMap(ms: seq<Member>)
    requires Distinct(ms, true)
    ensures Distinct(Sort(ms, true), true) && AsMap(Sort(ms, true)) == AsMap(ms)
  {
    SortStrict(ms, true);
    StrictlySortedDistinct(Sort(ms, true), true);
    SortKeeps(ms, true);
    AsMapPermutation(Sort(ms, true), ms);
  }

  /** A name below the first of a sorted list is not in it. */
  lemma BelowAll(key: string, ms: seq<Member>)
    requires StrictlySorted(ms, true) && (ms != [] ==> Compare(key, ms[0].key, true) < 0)
    ensures Distinct(ms, true) && key !in AsMap(ms)
  {
    StrictlySortedDistinct(ms, true);
    forall i | 0 <= i < |ms| ensures ms[i].key != key {
      if i > 0 { CompareTransitive(key, ms[0].key, ms[i].key, true); }
      CompareEqual(key, ms[i].key);
    }
  }

  // ----- compare_json

  predicate CompareJson(a: Json, b: Json, cs: bool)
  {
    match a
    case Number(d) => b.Number? && CloseNumber(d, b.d)
    case String(s) => b.String? && s == b.s
    case Array(items) =>
      b.Array? && |items| == |b.items| && forall i | 0 <= i < |items| :: CompareJson(items[i], b.items[i], cs)
    case Object(ms) =>
      b.Object? && |Sort(ms, cs)| == |Sort(b.members, cs)| &&
      (SortMembers(ms, cs);
       forall i | 0 <= i < |Sort(ms, cs)| ::
         && Compare(Sort(ms, cs)[i].key, Sort(b.members, cs)[i].key, cs) == 0
         && CompareJson(Sort(ms, cs)[i].value, Sort(b.members, cs)[i].value, cs))
    case _ => a == b
  }

  lemma TailKeys(a: seq<Member>)
    requires a != [] && Distinct(a, true)
    ensures Distinct(a[1..], true) && AsMap(a[1..]).Keys == AsMap(a).Keys - {a[0].key}
  {
    AsMapRemove(a, 0);
    assert RemoveAt(a, 0) == a[1..];
  }

  /** Sorted lists of the same names have the same name at every place. */
  lemma {:induction false} SameNamesInOrder(a: seq<Member>, b: seq<Member>)
    requires StrictlySorted(a, true) && StrictlySorted(b, true)
    requires Distinct(a, true) && Distinct(b, true) && AsMap(a).Keys == AsMap(b).Keys
    ensures |a| == |b| && forall i | 0 <= i < |a| :: a[i].key == b[i].key
  {
    NoKeys(a);
    NoKeys(b);
    if a != [] {
      SameHead(a, b);
      TailKeys(a);
      TailKeys(b);
      SameNamesInOrder(a[1..], b[1..]);
      ConsAligned(a, b);
    }
  }

  lemma NoKeys(ms: seq<Member>)
    ensures KeySet(ms) == {} <==> ms == []
  {
    if ms != [] { assert ms[0].key in KeySet(ms); }
  }

  lemma ConsAligned(a: seq<Member>, b: seq<Member>)
    requires a != [] && b != [] && a[0].key == b[0].key && |a| == |b|
    requires forall i | 0 <= i < |a[1..]| :: a[1..][i].key == b[1..][i].key
    ensures forall i | 0 <= i < |a| :: a[i].key == b[i].key
  {
    forall i | 0 <= i < |a| ensures a[i].key == b[i].key {
      if i > 0 { assert a[i] == a[1..][i - 1] && b[i] == b[1..][i - 1]; }
    }
  }

  lemma SameHead(a: seq<Member>, b: seq<Member>)
    requires a != [] && StrictlySorted(a, true) && StrictlySorted(b, true)
    requires Distinct(a, true) && Distinct(b, true) && AsMap(a).Keys == AsMap(b).Keys
    ensures b != [] && a[0].key == b[0].key
  {
    assert a[0].key in AsMap(b);
    var j :| 0 <= j < |b| && b[j].key == a[0].key;
    assert b[0].key in AsMap(a);
    var k :| 0 <= k < |a| && a[k].key == b[0].key;
    CompareSymmetric(a[0].key, b[0].key, true);
  }

  lemma {:induction false} CompareImpliesSame(a: Json, b: Json)
    requires DistinctKeys(a, true) && DistinctKeys(b, true) && CompareJson(a, b, true)
    ensures Same(a, b)
  {
    match a
    case Array(items) =>
      forall i | 0 <= i < |items| ensures Same(items[i], b.items[i]) { CompareImpliesSame(items[i], b.items[i]); }
    case Object(ms) =>
      var x, y := Sort(ms, true), Sort(b.members, true);
      SortMembers(ms, true);
      SortMembers(b.members, true);
      SortAsMap(ms);
      SortAsMap(b.members);
      forall i | 0 <= i < |x| ensures x[i].key == y[i].key && Same(x[i].value, y[i].value) {
        CompareEqual(x[i].key, y[i].key);
        MemberDistinct(ms, x[i]);
        MemberDistinct(b.members, y[i]);
        CompareImpliesSame(x[i].value, y[i].value);
      }
      SameFromSorted(ms, b.members);
    case _ =>
  }

  lemma MemberDistinct(ms: seq<Member>, m: Member)
    requires m in ms && DistinctKeys(Object(ms), true)
    ensures DistinctKeys(m.value, true)
  {
  }

  /** Lists that agree place by place stand for objects with the same names. */
  lemma AlignedKeys(x: seq<Member>, y: seq<Member>)
    requires |x| == |y| && Distinct(x, true) && Distinct(y, true)
    requires forall i | 0 <= i < |x| :: x[i].key == y[i].key
    ensures AsMap(x).Keys == AsMap(y).Keys
  {
    forall k | k in AsMap(x) ensures k in AsMap(y) { var i :| 0 <= i < |x| && x[i].key == k; assert y[i].key == k; }
    forall k | k in AsMap(y) ensures k in AsMap(x) { var i :| 0 <= i < |y| && y[i].key == k; assert x[i].key == k; }
  }

  lemma SameFromSorted(ms: seq<Member>, ns: seq<Member>)
    requires Distinct(ms, true) && Distinct(ns, true)
    requires var x, y := Sort(ms, true), Sort(ns, true);
             |x| == |y| && forall i | 0 <= i < |x| :: x[i].key == y[i].key && Same(x[i].value, y[i].value)
    ensures Same(Object(ms), Object(ns))
  {
    SortAsMap(ms);
    SortAsMap(ns);
    SameFromAligned(ms, Sort(ms, true), ns, Sort(ns, true));
  }

  lemma SameFromAligned(ms: seq<Member>, x: seq<Member>, ns: seq<Member>, y: seq<Member>)
    requires Distinct(ms, true) && Distinct(x, true) && AsMap(x) == AsMap(ms)
    requires Distinct(ns, true) && Distinct(y, true) && AsMap(y) == AsMap(ns)
    requires |x| == |y| && forall i | 0 <= i < |x| :: x[i].key == y[i].key && Same(x[i].value, y[i].value)
    ensures Same(Object(ms), Object(ns))
  {
    AlignedKeys(x, y);
    forall i | 0 <= i < |ms| ensures ms[i].key in AsMap(ns) && Same(ms[i].value, AsMap(ns)[ms[i].key]) {
      assert ms[i].key in AsMap(x) && AsMap(x)[ms[i].key] == ms[i].value;
      var j :| 0 <= j < |x| && x[j].key == ms[i].key;
      assert y[j].key in AsMap(y) && AsMap(y)[y[j].key] == y[j].value;
    }
  }

  /** Objects that are the same up to order agree place by place once sorted. */
  lemma SortedFromSame(ms: seq<Member>, ns: seq<Member>)
    requires Same(Object(ms), Object(ns))
    ensures
      var x, y := Sort(ms, true), Sort(ns, true);
      |x| == |y| && forall i | 0 <= i < |x| :: x[i].key == y[i].key && Same(x[i].value, y[i].value)
  {
    var x, y := Sort(ms, true), Sort(ns, true);
    SortMembers(ms, true);
    SortAsMap(ms);
    SortAsMap(ns);
    SortStrict(ms, true);
    SortStrict(ns, true);
    SameNamesInOrder(x, y);
    forall i | 0 <= i < |x| ensures Same(x[i].value, y[i].value) {
      var j :| 0 <= j < |ms| && ms[j] == x[i];
      assert y[i].key in AsMap(y) && AsMap(y)[y[i].key] == y[i].value;
    }
  }

  lemma {:induction false} SameImpliesCompare(a: Json, b: Json)
    requires Same(a, b)
    ensures CompareJson(a, b, true)
  {
    match a
    case Array(items) =>
      forall i | 0 <= i < |items| ensures CompareJson(items[i], b.items[i], true) { SameImpliesCompare(items[i], b.items[i]); }
    case Object(ms) =>
      var x, y := Sort(ms, true), Sort(b.members, true);
      SortMembers(ms, true);
      SortedFromSame(ms, b.members);
      forall i | 0 <= i < |x|
        ensures Compare(x[i].key, y[i].key, true) == 0 && CompareJson(x[i].value, y[i].value, true)
      {
        CompareSelf(x[i].key, true);
        SameImpliesCompare(x[i].value, y[i].value);
      }
    case _ =>
  }

  /** compare_json decides equality up to member order, for trees with distinct names. */
  lemma CompareIffSame(a: Json, b: Json)
    requires DistinctKeys(a, true) && DistinctKeys(b, true)
    ensures CompareJson(a, b, true) <==> Same(a, b)
  {
    if CompareJson(a, b, true) { CompareImpliesSame(a, b); }
    if Same(a, b) { SameImpliesCompare(a, b); }
  }
}
