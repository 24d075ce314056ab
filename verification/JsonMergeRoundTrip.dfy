/**
 Generating a merge patch and merging it into a copy of the tree it was generated from. Whether the
 outcome is the target is decided exactly, for all trees with distinct names: null members can be
 lost, and so can names and differences below the top level, where generation ignores case when it
 sorts and compares but not when it walks the sorted lists.
 */
module JsonMergeRoundTrip {
  import opened Json
  import opened JsonSort
  import opened JsonOrder
  import opened JsonMerge
  import opened JsonMergeJoin

  // ----- equality, name by name

  predicate SameOption(a: Option<Json>, b: Option<Json>)
  {
    a.Some? == b.Some? && (a.Some? ==> Same(a.value, b.value))
  }

  lemma SameByName(ms: seq<Member>, ns: seq<Member>)
    requires Distinct(ms, true) && Distinct(ns, true)
    requires forall k :: SameOption(Get(ms, k, true), Get(ns, k, true))
    ensures Same(Object(ms), Object(ns))
  {
    forall k ensures k in AsMap(ms) <==> k in AsMap(ns) {
      GetMap(ms, k);
      GetMap(ns, k);
      assert SameOption(Get(ms, k, true), Get(ns, k, true));
    }
    forall i | 0 <= i < |ms| ensures ms[i].key in AsMap(ns) && Same(ms[i].value, AsMap(ns)[ms[i].key]) {
      GetAt(ms, i);
      GetMap(ns, ms[i].key);
      assert SameOption(Get(ms, ms[i].key, true), Get(ns, ms[i].key, true));
    }
  }

  lemma NameBySame(ms: seq<Member>, ns: seq<Member>, k: string)
    requires Same(Object(ms), Object(ns))
    ensures SameOption(Get(ms, k, true), Get(ns, k, true))
  {
    GetMap(ms, k);
    GetMap(ns, k);
    if k in AsMap(ms) {
      var i :| 0 <= i < |ms| && ms[i].key == k;
    }
  }

  lemma SameIffByName(ms: seq<Member>, ns: seq<Member>)
    requires Distinct(ms, true) && Distinct(ns, true)
    ensures Same(Object(ms), Object(ns)) <==> forall k :: SameOption(Get(ms, k, true), Get(ns, k, true))
  {
    if Same(Object(ms), Object(ns)) {
      forall k ensures SameOption(Get(ms, k, true), Get(ns, k, true)) { NameBySame(ms, ns, k); }
    }
    if forall k :: SameOption(Get(ms, k, true), Get(ns, k, true)) { SameByName(ms, ns); }
  }

  /** Equal trees have their nulls in the same places. */
  lemma {:induction false} SameKeepsNulls(from: Json, to: Json)
    requires Same(from, to)
    ensures NullsKept(Some(from), to)
    ensures NameKept(Some(from), to)
    decreases (to)
  {
    if to.Object? {
      var fs, ts := from.members, to.members;
      forall i | 0 <= i < |ts| ensures NameKept(Get(fs, ts[i].key, true), ts[i].value) {
        NameBySame(fs, ts, ts[i].key);
        GetAt(ts, i);
        SameKeepsNulls(Get(fs, ts[i].key, true).value, ts[i].value);
      }
    }
  }

  predicate ReorderedOption(a: Option<Json>, b: Option<Json>)
  {
    a.Some? == b.Some? && (a.Some? ==> Reordered(a.value, b.value))
  }

  lemma ReorderedGet(ms: seq<Member>, ns: seq<Member>, k: string)
    requires Reordered(Object(ms), Object(ns)) && Distinct(ms, true) && Distinct(ns, true)
    ensures ReorderedOption(Get(ms, k, true), Get(ns, k, true))
  {
    GetMap(ms, k);
    GetMap(ns, k);
    if ms != ns && k in AsMap(ms) {
      var i :| 0 <= i < |ms| && ms[i].key == k;
    }
  }

  lemma SortedGet(ms: seq<Member>, cs: bool, k: string)
    requires Distinct(ms, true)
    ensures Distinct(Sort(ms, cs), true) && Get(Sort(ms, cs), k, true) == Get(ms, k, true)
    ensures KeySet(Sort(ms, cs)) == KeySet(ms)
  {
    SortedMap(ms, cs);
    GetMap(ms, k);
    GetMap(Sort(ms, cs), k);
    assert AsMap(ms).Keys == KeySet(ms);
  }

  // ----- what is lost to null members

  /** Every null member of `to` that is reached through objects is null in `from` already. */
  predicate NullsKept(from: Option<Json>, to: Json)
    decreases (to), 0
  {
    to.Object? ==>
      forall i | 0 <= i < |to.members| ::
        NameKept(Get(MembersOf(from), to.members[i].key, true), to.members[i].value)
  }

  predicate NameKept(f: Option<Json>, t: Json)
    decreases t, 1
  {
    if t.Null? then f == Some(Null) else NullsKept(f, t)
  }

  /** No null members reachable through objects: the usual sufficient condition. */
  predicate NoNulls(to: Json)
  {
    to.Object? ==> forall i | 0 <= i < |to.members| :: !to.members[i].value.Null? && NoNulls(to.members[i].value)
  }

  lemma {:induction false} NoNullsIff(to: Json)
    ensures NullsKept(None, to) <==> NoNulls(to)
  {
    if to.Object? {
      forall i | 0 <= i < |to.members|
        ensures NameKept(None, to.members[i].value) <==> !to.members[i].value.Null? && NoNulls(to.members[i].value)
      {
        NoNullsIff(to.members[i].value);
      }
      assert forall k :: Get([], k, true) == None;
    }
  }

  /** A name of a tree that is merged into nothing stays as it is. */
  predicate NothingLost(t: Option<Json>) { t.Some? ==> !t.value.Null? && NoNulls(t.value) }

  lemma NoNullsByName(ts: seq<Member>)
    requires Distinct(ts, true)
    ensures NoNulls(Object(ts)) <==> forall k :: NothingLost(Get(ts, k, true))
  {
    if forall k :: NothingLost(Get(ts, k, true)) {
      forall i | 0 <= i < |ts| ensures !ts[i].value.Null? && NoNulls(ts[i].value) {
        GetAt(ts, i);
        assert NothingLost(Get(ts, ts[i].key, true));
      }
    }
  }

  /** Merging a tree into nothing drops its null members, and so gives the tree exactly when it has none. */
  lemma {:induction false} MergeNothing(to: Json)
    requires DistinctKeys(to, true)
    ensures Same(MergePatch(None, to, true), to) <==> NoNulls(to)
    decreases (to)
  {
    if !to.Object? {
      SameSelf(to);
    } else {
      var ts := to.members;
      var r := MergeMembers([], ts, true);
      forall k ensures SameOption(Get(r, k, true), Get(ts, k, true)) <==> NothingLost(Get(ts, k, true)) {
        MergeGet([], ts, k);
        var i := Find(ts, k, true);
        if i < |ts| { MergeNothing(ts[i].value); }
      }
      MergeGet([], ts, "");
      SameIffByName(r, ts);
      NoNullsByName(ts);
    }
  }

  // ----- the exact condition

  /** The round trip works for these trees, of which `from` may be given to the merge in any order. */
  predicate Restorable(from: Json, to: Json, cs: bool)
    decreases Depth(to), 1
  {
    if !to.Object? then true
    else if !from.Object? then NoNulls(to)
    else forall i | 0 <= i < |to.members| :: NameRestorable(from, to, i, cs)
  }

  predicate NameRestorable(from: Json, to: Json, i: nat, cs: bool)
    requires from.Object? && to.Object? && i < |to.members|
    decreases Depth(to), 0
  {
    var k, t := to.members[i].key, to.members[i].value;
    MemberDepth(to.members, i);
    FateRestorable(FateOf(Sort(from.members, cs), Sort(to.members, cs), k), Get(from.members, k, true), t, cs)
  }

  /** It works for one name of the target: a name that the walk meets in both lists needs the pair
      of values to work; one that is only added, or removed and then added, must bring no nulls; one
      that is added and then removed is lost. */
  predicate FateRestorable(fate: Fate, f: Option<Json>, t: Json, cs: bool)
    decreases Depth(t), 3
  {
    match fate
    case Met => f.Some? && PairRestorable(f.value, t, cs)
    case AddedFirst => false
    case _ => !t.Null? && NoNulls(t)
  }

  /** It works for two values of one name: if the comparison finds them equal they are, and
      otherwise the nested patch, generated ignoring case, restores the second. */
  predicate PairRestorable(f: Json, t: Json, cs: bool)
    decreases Depth(t), 2
  {
    if CompareJson(f, t, cs) then Same(f, t)
    else (LeftDepth(f, t, cs); !t.Null? && Restorable(Left(f, t, cs).0, Left(f, t, cs).1, false))
  }

  /** A copy of the source with the generated patch merged into it. */
  function After(copy: Json, g: Option<Json>): Json
  {
    if g.None? then copy else MergePatch(Some(copy), g.value, true)
  }

  /** The claim for one pair of trees. */
  predicate Decided(from: Json, copy: Json, to: Json, cs: bool)
  {
    Same(After(copy, Generate(from, to, cs)), to) <==> Restorable(from, to, cs)
  }

  lemma {:induction false} ReorderedTwice(a: Json, b: Json, c: Json)
    requires Reordered(a, b) && Reordered(b, c)
    ensures Reordered(a, c)
    decreases a
  {
    if a != b && b != c {
      match a
      case Array(items) =>
        forall i | 0 <= i < |items| ensures Reordered(items[i], c.items[i]) { ReorderedTwice(items[i], b.items[i], c.items[i]); }
      case Object(ms) =>
        forall i | 0 <= i < |ms| ensures Reordered(ms[i].value, AsMap(c.members)[ms[i].key]) {
          assert ms[i].key in AsMap(b.members);
          var j :| 0 <= j < |b.members| && b.members[j].key == ms[i].key;
          ReorderedTwice(ms[i].value, b.members[j].value, AsMap(c.members)[ms[i].key]);
        }
    }
  }

  /** Two values of one name: what the name holds after the merge is right exactly when the pair is
      restorable, given that for the values as the comparison leaves them. */
  lemma PairDecided(f: Json, v: Json, t: Json, cs: bool)
    requires DistinctKeys(f, true) && DistinctKeys(t, true) && Reordered(f, v)
    requires !CompareJson(f, t, cs) ==> Decided(Left(f, t, cs).0, v, Left(f, t, cs).1, false)
    ensures SameOption(Merged(Some(v), Nested(f, t, cs)), Some(t)) <==> PairRestorable(f, t, cs)
  {
    if CompareJson(f, t, cs) {
      SameIffReordered(f, v, t, t);
    } else {
      LeftReordered(f, t, cs);
      var f', t' := Left(f, t, cs).0, Left(f, t, cs).1;
      var g := Generate(f', t', false);
      var r := After(v, g);
      SameIffReordered(r, r, t, t');
    }
  }

  /** The values of a pair, as the comparison leaves them, are decided. */
  predicate Below(f: Option<Json>, v: Option<Json>, t: Json, cs: bool)
  {
    f.Some? && v.Some? && !CompareJson(f.value, t, cs) ==>
      Decided(Left(f.value, t, cs).0, v.value, Left(f.value, t, cs).1, false)
  }

  lemma FateDecided(fate: Fate, f: Option<Json>, v: Option<Json>, t: Json, cs: bool)
    requires DistinctKeys(t, true) && (f.Some? ==> DistinctKeys(f.value, true)) && ReorderedOption(f, v)
    requires if f.Some? then fate in {Met, RemovedFirst, AddedFirst} else fate == Added
    requires Below(f, v, t, cs)
    ensures SameOption(Outcome(fate, v, f, Some(t), cs), Some(t)) <==> FateRestorable(fate, f, t, cs)
  {
    MergeNothing(t);
    if fate == Met { PairDecided(f.value, v.value, t, cs); }
  }

  /** What a name holds after the merge. */
  function Held(from: Json, copy: Json, to: Json, cs: bool, k: string): Option<Json>
    requires from.Object? && copy.Object? && to.Object?
  {
    Outcome(FateOf(Sort(from.members, cs), Sort(to.members, cs), k),
            Get(copy.members, k, true), Get(from.members, k, true), Get(to.members, k, true), cs)
  }

  lemma NameDecided(from: Json, copy: Json, to: Json, cs: bool, i: nat)
    requires from.Object? && copy.Object? && to.Object? && Reordered(from, copy) && i < |to.members|
    requires DistinctKeys(from, true) && DistinctKeys(to, true) && Distinct(copy.members, true)
    requires
      var k := to.members[i].key;
      Below(Get(from.members, k, true), Get(copy.members, k, true), to.members[i].value, cs)
    ensures
      var k := to.members[i].key;
      SameOption(Held(from, copy, to, cs, k), Get(to.members, k, true)) <==> NameRestorable(from, to, i, cs)
  {
    var k := to.members[i].key;
    var fs, ts := Sort(from.members, cs), Sort(to.members, cs);
    GetAt(to.members, i);
    SortedGet(from.members, cs, k);
    SortedGet(to.members, cs, k);
    ReorderedGet(from.members, copy.members, k);
    KeyGet(fs, k);
    KeyGet(ts, k);
    GetDistinct(from.members, k);
    if Get(from.members, k, true).Some? { TwoSided(fs, ts, k); } else { OneSided(fs, ts, k); }
    FateDecided(FateOf(fs, ts, k), Get(from.members, k, true), Get(copy.members, k, true), to.members[i].value, cs);
  }

  /** A name the target does not have is gone after the merge. */
  lemma OtherName(from: Json, copy: Json, to: Json, cs: bool, k: string)
    requires from.Object? && copy.Object? && to.Object? && Reordered(from, copy)
    requires DistinctKeys(from, true) && DistinctKeys(to, true) && Distinct(copy.members, true)
    requires Get(to.members, k, true).None?
    ensures Held(from, copy, to, cs, k).None?
  {
    var fs, ts := Sort(from.members, cs), Sort(to.members, cs);
    SortedGet(from.members, cs, k);
    SortedGet(to.members, cs, k);
    ReorderedGet(from.members, copy.members, k);
    KeyGet(fs, k);
    KeyGet(ts, k);
    OneSided(fs, ts, k);
  }

  lemma HeldAfter(from: Json, copy: Json, to: Json, cs: bool, k: string)
    requires from.Object? && copy.Object? && to.Object?
    requires Distinct(from.members, true) && Distinct(to.members, true) && Distinct(copy.members, true)
    ensures
      var r := After(copy, Generate(from, to, cs));
      r.Object? && Distinct(r.members, true) && Get(r.members, k, true) == Held(from, copy, to, cs, k)
  {
    var fs, ts := Sort(from.members, cs), Sort(to.members, cs);
    SortMembers(from.members, cs);
    SortedGet(from.members, cs, k);
    SortedGet(to.members, cs, k);
    var p := MergeJoin(from, fs, ts, cs);
    JoinFold(from, fs, ts, cs, k, Get(copy.members, k, true));
    MergeFold(copy.members, p, k);
  }

  lemma ObjectDecided(from: Json, copy: Json, to: Json, cs: bool)
    requires from.Object? && copy.Object? && to.Object? && Reordered(from, copy)
    requires DistinctKeys(from, true) && DistinctKeys(to, true) && Distinct(copy.members, true)
    requires forall i | 0 <= i < |to.members| ::
               Below(Get(from.members, to.members[i].key, true), Get(copy.members, to.members[i].key, true), to.members[i].value, cs)
    ensures Decided(from, copy, to, cs)
  {
    var r, ts := After(copy, Generate(from, to, cs)), to.members;
    HeldAfter(from, copy, to, cs, "");
    SameIffByName(r.members, ts);
    if Restorable(from, to, cs) {
      forall k ensures SameOption(Get(r.members, k, true), Get(ts, k, true)) {
        HeldAfter(from, copy, to, cs, k);
        var i := Find(ts, k, true);
        if i < |ts| { NameDecided(from, copy, to, cs, i); } else { OtherName(from, copy, to, cs, k); }
      }
    }
    if Same(r, to) {
      forall i | 0 <= i < |ts| ensures NameRestorable(from, to, i, cs) {
        HeldAfter(from, copy, to, cs, ts[i].key);
        NameDecided(from, copy, to, cs, i);
        assert SameOption(Get(r.members, ts[i].key, true), Get(ts, ts[i].key, true));
      }
    }
  }

  /** The round trip, decided: generating a merge patch and merging it into a copy of the source, in
      whatever order its members are, gives the target exactly when the trees are restorable. */
  lemma {:induction false} RestoredIff(from: Json, copy: Json, to: Json, cs: bool)
    requires DistinctKeys(from, true) && DistinctKeys(to, true) && Reordered(from, copy)
    ensures Same(After(copy, Generate(from, to, cs)), to) <==> Restorable(from, to, cs)
    decreases Depth(to)
  {
    if !to.Object? {
      SameSelf(to);
    } else if !from.Object? {
      assert MergePatch(Some(copy), to, true) == MergePatch(None, to, true);
      MergeNothing(to);
    } else {
      ReorderedDistinct(from, copy);
      forall i | 0 <= i < |to.members|
        ensures Below(Get(from.members, to.members[i].key, true), Get(copy.members, to.members[i].key, true), to.members[i].value, cs)
      {
        InnerDecided(from, copy, to, i, cs);
      }
      ObjectDecided(from, copy, to, cs);
    }
  }

  lemma {:induction false} InnerDecided(from: Json, copy: Json, to: Json, i: nat, cs: bool)
    requires from.Object? && copy.Object? && to.Object? && Reordered(from, copy) && i < |to.members|
    requires DistinctKeys(from, true) && DistinctKeys(to, true) && DistinctKeys(copy, true)
    ensures Below(Get(from.members, to.members[i].key, true), Get(copy.members, to.members[i].key, true), to.members[i].value, cs)
    decreases Depth(to), 0
  {
    var k, t := to.members[i].key, to.members[i].value;
    var f, v := Get(from.members, k, true), Get(copy.members, k, true);
    if f.Some? && v.Some? {
      ReorderedGet(from.members, copy.members, k);
      GetDistinct(from.members, k);
      MemberDepth(to.members, i);
      LeftDepth(f.value, t, cs);
      LeftReordered(f.value, t, cs);
      var f', t' := Left(f.value, t, cs).0, Left(f.value, t, cs).1;
      ReorderedDistinct(f.value, f');
      ReorderedDistinct(t, t');
      ReorderedBack(f.value, f');
      ReorderedTwice(f', f.value, v.value);
      RestoredIff(f', v.value, t', false);
    }
  }
}
