/**
 The loop of generate_merge_patch, name by name. Below the top level the lists are sorted ignoring
 case and walked with strcmp, so a name that both trees have need not be met in both lists at the
 same time: it can be removed and added, in either order.
 */
module JsonMergeJoin {
  import opened Json
  import opened JsonSort
  import opened JsonMerge

  /** What the walk does with a name. */
  datatype Fate = Absent | Removed | Added | Met | RemovedFirst | AddedFirst

  function FateOf(fs: seq<Member>, ts: seq<Member>, k: string): Fate
    decreases |fs| + |ts|
  {
    if fs == [] && ts == [] then Absent
    else
      var diff := if fs == [] then 1 else if ts == [] then -1 else Compare(fs[0].key, ts[0].key, true);
      if diff < 0 then
        if fs[0].key == k then (if k in KeySet(ts) then RemovedFirst else Removed) else FateOf(fs[1..], ts, k)
      else if diff > 0 then
        if ts[0].key == k then (if k in KeySet(fs) then AddedFirst else Added) else FateOf(fs, ts[1..], k)
      else if fs[0].key == k then Met
      else FateOf(fs[1..], ts[1..], k)
  }

  lemma TailKeySet(ms: seq<Member>)
    requires ms != []
    ensures KeySet(ms) == {ms[0].key} + KeySet(ms[1..])
  {
    assert ms[0].key in KeySet(ms);
    forall i | 0 <= i < |ms[1..]| ensures ms[1..][i].key in KeySet(ms) { assert ms[1..][i] == ms[i + 1]; }
    forall i | 0 < i < |ms| ensures ms[i].key in KeySet(ms[1..]) { assert ms[1..][i - 1] == ms[i]; }
  }

  lemma KeyGet(ms: seq<Member>, k: string)
    ensures k in KeySet(ms) <==> Get(ms, k, true).Some?
  {
    if k in KeySet(ms) { var i :| 0 <= i < |ms| && ms[i].key == k; }
    var i := Find(ms, k, true);
    if i < |ms| { assert ms[i].key in KeySet(ms); }
  }

  /** A name that is in one list only is removed or added. */
  lemma {:induction false} OneSided(fs: seq<Member>, ts: seq<Member>, k: string)
    ensures k !in KeySet(fs) ==> FateOf(fs, ts, k) == if k in KeySet(ts) then Added else Absent
    ensures k !in KeySet(ts) ==> FateOf(fs, ts, k) == if k in KeySet(fs) then Removed else Absent
    decreases |fs| + |ts|
  {
    if fs != [] || ts != [] {
      var diff := if fs == [] then 1 else if ts == [] then -1 else Compare(fs[0].key, ts[0].key, true);
      if fs != [] { TailKeySet(fs); }
      if ts != [] { TailKeySet(ts); }
      if diff < 0 {
        OneSided(fs[1..], ts, k);
      } else if diff > 0 {
        OneSided(fs, ts[1..], k);
      } else {
        CompareEqual(fs[0].key, ts[0].key);
        OneSided(fs[1..], ts[1..], k);
      }
    }
  }

  /** A name of both lists is met or treated twice. */
  lemma {:induction false} TwoSided(fs: seq<Member>, ts: seq<Member>, k: string)
    requires k in KeySet(fs) && k in KeySet(ts)
    ensures FateOf(fs, ts, k) in {Met, RemovedFirst, AddedFirst}
    decreases |fs| + |ts|
  {
    var diff := if fs == [] then 1 else if ts == [] then -1 else Compare(fs[0].key, ts[0].key, true);
    TailKeySet(fs);
    TailKeySet(ts);
    if diff < 0 {
      if fs[0].key != k { TwoSided(fs[1..], ts, k); }
    } else if diff > 0 {
      if ts[0].key != k { TwoSided(fs, ts[1..], k); }
    } else {
      CompareEqual(fs[0].key, ts[0].key);
      if fs[0].key != k { TwoSided(fs[1..], ts[1..], k); }
    }
  }

  /** The first name of an ascending list is not in a list that starts above it. */
  lemma FirstOnly(a: seq<Member>, b: seq<Member>)
    requires a != [] && StrictlySorted(a, true) && StrictlySorted(b, true)
    requires b == [] || Compare(a[0].key, b[0].key, true) < 0
    ensures StrictlySorted(a[1..], true) && a[0].key !in KeySet(b)
  {
    BelowAll(a[0].key, b);
  }

  /** In lists that ascend for strcmp every common name is met. */
  lemma {:induction false} AscendingMeet(fs: seq<Member>, ts: seq<Member>, k: string)
    requires StrictlySorted(fs, true) && StrictlySorted(ts, true) && k in KeySet(fs) && k in KeySet(ts)
    ensures FateOf(fs, ts, k) == Met
    decreases |fs| + |ts|
  {
    var diff := if fs == [] then 1 else if ts == [] then -1 else Compare(fs[0].key, ts[0].key, true);
    TailKeySet(fs);
    TailKeySet(ts);
    if diff < 0 {
      FirstOnly(fs, ts);
      AscendingMeet(fs[1..], ts, k);
    } else if diff > 0 {
      CompareSymmetric(fs[0].key, ts[0].key, true);
      FirstOnly(ts, fs);
      AscendingMeet(fs, ts[1..], k);
    } else {
      CompareEqual(fs[0].key, ts[0].key);
      FirstOnly(fs, []);
      FirstOnly(ts, []);
      if fs[0].key != k { AscendingMeet(fs[1..], ts[1..], k); }
    }
  }

  /** What a name that held `v` holds once the generated members are merged, from its fate and from
      what both lists hold for it. */
  function Outcome(fate: Fate, v: Option<Json>, f: Option<Json>, t: Option<Json>, cs: bool): Option<Json>
  {
    match fate
    case Absent => v
    case Removed | AddedFirst => None
    case Added => Merged(v, t)
    case RemovedFirst => Merged(None, t)
    case Met => if f.Some? && t.Some? then Merged(v, Nested(f.value, t.value, cs)) else v
  }

  lemma FoldCons(v: Option<Json>, m: Member, ms: seq<Member>, k: string)
    ensures FoldName(v, [m] + ms, k) == FoldName(if m.key == k then Merged(v, Some(m.value)) else v, ms, k)
  {
    assert ([m] + ms)[1..] == ms;
  }

  /** Merging the generated members, name by name, for lists in any order. */
  lemma {:induction false} JoinFold(top: Json, fs: seq<Member>, ts: seq<Member>, cs: bool, k: string, v: Option<Json>)
    requires top.Object? && forall m | m in fs :: m in top.members
    requires Distinct(fs, true) && Distinct(ts, true)
    ensures FoldName(v, MergeJoin(top, fs, ts, cs), k)
         == Outcome(FateOf(fs, ts, k), v, Get(fs, k, true), Get(ts, k, true), cs)
    decreases |fs| + |ts|
  {
    if fs == [] && ts == [] { return; }
    var diff := if fs == [] then 1 else if ts == [] then -1 else Compare(fs[0].key, ts[0].key, true);
    if diff < 0 {
      JoinRemoves(top, fs, ts, cs, k, v);
    } else if diff > 0 {
      JoinAdds(top, fs, ts, cs, k, v);
    } else {
      JoinMeets(top, fs, ts, cs, k, v);
    }
  }

  lemma {:induction false} JoinRemoves(top: Json, fs: seq<Member>, ts: seq<Member>, cs: bool, k: string, v: Option<Json>)
    requires top.Object? && forall m | m in fs :: m in top.members
    requires Distinct(fs, true) && Distinct(ts, true)
    requires fs != [] && (ts == [] || Compare(fs[0].key, ts[0].key, true) < 0)
    ensures FoldName(v, MergeJoin(top, fs, ts, cs), k)
         == Outcome(FateOf(fs, ts, k), v, Get(fs, k, true), Get(ts, k, true), cs)
    decreases |fs| + |ts|, 0
  {
    TailGet(fs, k);
    KeyGet(fs[1..], k);
    KeyGet(ts, k);
    OneSided(fs[1..], ts, k);
    FoldCons(v, Member(fs[0].key, Null), MergeJoin(top, fs[1..], ts, cs), k);
    JoinFold(top, fs[1..], ts, cs, k, if fs[0].key == k then None else v);
  }

  lemma {:induction false} JoinAdds(top: Json, fs: seq<Member>, ts: seq<Member>, cs: bool, k: string, v: Option<Json>)
    requires top.Object? && forall m | m in fs :: m in top.members
    requires Distinct(fs, true) && Distinct(ts, true)
    requires ts != [] && (fs == [] || Compare(fs[0].key, ts[0].key, true) > 0)
    ensures FoldName(v, MergeJoin(top, fs, ts, cs), k)
         == Outcome(FateOf(fs, ts, k), v, Get(fs, k, true), Get(ts, k, true), cs)
    decreases |fs| + |ts|, 0
  {
    TailGet(ts, k);
    KeyGet(ts[1..], k);
    KeyGet(fs, k);
    OneSided(fs, ts[1..], k);
    FoldCons(v, ts[0], MergeJoin(top, fs, ts[1..], cs), k);
    JoinFold(top, fs, ts[1..], cs, k, if ts[0].key == k then Merged(v, Some(ts[0].value)) else v);
  }

  lemma {:induction false} JoinMeets(top: Json, fs: seq<Member>, ts: seq<Member>, cs: bool, k: string, v: Option<Json>)
    requires top.Object? && forall m | m in fs :: m in top.members
    requires Distinct(fs, true) && Distinct(ts, true)
    requires fs != [] && ts != [] && Compare(fs[0].key, ts[0].key, true) == 0
    ensures FoldName(v, MergeJoin(top, fs, ts, cs), k)
         == Outcome(FateOf(fs, ts, k), v, Get(fs, k, true), Get(ts, k, true), cs)
    decreases |fs| + |ts|, 0
  {
    CompareEqual(fs[0].key, ts[0].key);
    TailGet(fs, k);
    TailGet(ts, k);
    KeyGet(fs[1..], k);
    KeyGet(ts[1..], k);
    OneSided(fs[1..], ts[1..], k);
    var rest := MergeJoin(top, fs[1..], ts[1..], cs);
    var p := Nested(fs[0].value, ts[0].value, cs);
    if p.Some? {
      FoldCons(v, Member(ts[0].key, p.value), rest, k);
    } else {
      assert MergeJoin(top, fs, ts, cs) == rest;
    }
    JoinFold(top, fs[1..], ts[1..], cs, k, if ts[0].key == k then Merged(v, p) else v);
  }

  /** The names agree place by place and no pair of values asks for anything. */
  predicate NothingAsked(fs: seq<Member>, ts: seq<Member>, cs: bool)
  {
    |fs| == |ts| && forall i | 0 <= i < |fs| :: fs[i].key == ts[i].key && Nested(fs[i].value, ts[i].value, cs).None?
  }

  lemma NothingCons(fs: seq<Member>, ts: seq<Member>, cs: bool)
    requires fs != [] && ts != [] && fs[0].key == ts[0].key
    ensures NothingAsked(fs, ts, cs) <==> Nested(fs[0].value, ts[0].value, cs).None? && NothingAsked(fs[1..], ts[1..], cs)
  {
    if Nested(fs[0].value, ts[0].value, cs).None? && NothingAsked(fs[1..], ts[1..], cs) {
      forall i | 0 <= i < |fs| ensures fs[i].key == ts[i].key && Nested(fs[i].value, ts[i].value, cs).None? {
        if i > 0 { assert fs[i] == fs[1..][i - 1] && ts[i] == ts[1..][i - 1]; }
      }
    }
    if NothingAsked(fs, ts, cs) {
      forall i | 0 <= i < |fs[1..]| ensures fs[1..][i].key == ts[1..][i].key && Nested(fs[1..][i].value, ts[1..][i].value, cs).None? {
        assert fs[1..][i] == fs[i + 1] && ts[1..][i] == ts[i + 1];
      }
    }
  }

  /** Nothing is generated exactly then. */
  lemma {:induction false} NothingJoined(top: Json, fs: seq<Member>, ts: seq<Member>, cs: bool)
    requires top.Object? && forall m | m in fs :: m in top.members
    ensures MergeJoin(top, fs, ts, cs) == [] <==> NothingAsked(fs, ts, cs)
    decreases |fs| + |ts|
  {
    if fs != [] && ts != [] {
      if Compare(fs[0].key, ts[0].key, true) == 0 {
        CompareEqual(fs[0].key, ts[0].key);
        NothingJoined(top, fs[1..], ts[1..], cs);
        NothingCons(fs, ts, cs);
      } else {
        CompareSelf(fs[0].key, true);
        assert fs[0].key != ts[0].key;
      }
    }
  }
}
