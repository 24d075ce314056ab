/**
 merge_patch and generate_merge_patch as the library runs them.
 */
module JsonMergeEngine {
  import opened Json
  import opened JsonSort
  import opened JsonOrder
  import opened JsonMerge
  import opened JsonPatchEngine

  /** merge_patch: the target is taken over, changed member by member and given back */
  method MergeInto(target: Option<Json>, patch: Json, cs: bool) returns (r: Json)
    ensures r == MergePatch(target, patch, cs)
    decreases patch
  {
    if !patch.Object? { return patch; }
    var ts := if target.Some? && target.value.Object? then target.value.members else [];
    var ps := patch.members;
    ghost var goal := MergeMembers(ts, ps, cs);
    var i := 0;
    assert ps[0..] == ps;
    while i < |ps|
      invariant 0 <= i <= |ps| && MergeMembers(ts, ps[i..], cs) == goal
    {
      assert ps[i..][1..] == ps[i + 1..];
      var k := FindMember(ts, ps[i].key, cs);
      var replaced := if k < |ts| then Some(ts[k].value) else None;
      if k < |ts| { ts := RemoveAt(ts, k); }
      if !ps[i].value.Null? {
        var merged := MergeInto(replaced, ps[i].value, cs);
        ts := ts + [Member(ps[i].key, merged)];
      }
      i := i + 1;
    }
    assert ps[i..] == [];
    r := Object(ts);
  }

  lemma Joined(a: seq<Member>, b: seq<Member>, c: seq<Member>)
    ensures (a + b) + c == a + (b + c)
  {
  }

  /** generate_merge_patch */
  method GenerateMerge(from: Option<Json>, to: Option<Json>, cs: bool) returns (r: Option<Json>)
    ensures r == GenerateMergePatch(from, to, cs)
  {
    if to.None? { return Some(Null); }
    if from.None? { return to; }
    r := GenerateFrom(from.value, to.value, cs);
  }

  method GenerateFrom(from: Json, to: Json, cs: bool) returns (r: Option<Json>)
    ensures r == JsonMerge.Generate(from, to, cs)
    decreases Depth(from)
  {
    if !to.Object? || !from.Object? { return Some(to); }
    SortMembers(from.members, cs);
    var x, y, patch := Sort(from.members, cs), Sort(to.members, cs), [];
    ghost var goal := MergeJoin(from, x, y, cs);
    assert [] + goal == goal;
    while x != [] || y != []
      invariant forall m | m in x :: m in from.members
      invariant patch + MergeJoin(from, x, y, cs) == goal
      decreases |x| + |y|
    {
      var diff := if x != [] then (if y != [] then Compare(x[0].key, y[0].key, true) else -1) else 1;
      if diff < 0 {
        Joined(patch, [Member(x[0].key, Null)], MergeJoin(from, x[1..], y, cs));
        patch, x := patch + [Member(x[0].key, Null)], x[1..];
      } else if diff > 0 {
        Joined(patch, [y[0]], MergeJoin(from, x, y[1..], cs));
        patch, y := patch + [y[0]], y[1..];
      } else {
        assert x[0] in from.members;
        var added: seq<Member> := [];
        var same, f, t := CompareTrees(x[0].value, y[0].value, cs);
        InnerDepth(from, x[0]);
        LeftDepth(x[0].value, y[0].value, cs);
        if !same {
          var p := GenerateFrom(f, t, false);
          if p.Some? { added := [Member(y[0].key, p.value)]; }
        }
        Joined(patch, added, MergeJoin(from, x[1..], y[1..], cs));
        patch, x, y := patch + added, x[1..], y[1..];
      }
    }
    assert patch + [] == patch;
    r := if patch == [] then None else Some(Object(patch));
  }
}
