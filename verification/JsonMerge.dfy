/**
 JSON Merge Patch: merge_patch and generate_merge_patch, against the MergePatch function of
 section 2 of RFC 7396 on objects as maps.
 */
module JsonMerge {
  import opened Json
  import opened JsonSort
  import opened JsonOrder

  // ----- the library

  /** The list after the first member with this name is detached, if there is one. */
  function Taken(ms: seq<Member>, key: string, cs: bool): seq<Member>
  {
    var i := Find(ms, key, cs);
    if i < |ms| then RemoveAt(ms, i) else ms
  }

  /** The value of the first member with this name. */
  function Get(ms: seq<Member>, key: string, cs: bool): Option<Json>
  {
    var i := Find(ms, key, cs);
    if i < |ms| then Some(ms[i].value) else None
  }

  function MembersOf(j: Option<Json>): seq<Member>
  {
    if j.Some? && j.value.Object? then j.value.members else []
  }

  /** merge_patch; None is a NULL target */
  function MergePatch(target: Option<Json>, patch: Json, cs: bool): Json
    decreases patch
  {
    if !patch.Object? then patch else Object(MergeMembers(MembersOf(target), patch.members, cs))
  }

  function MergeMembers(ts: seq<Member>, ps: seq<Member>, cs: bool): seq<Member>
    decreases ps
  {
    if ps == [] then ts
    else MergeMembers(MergeMember(ts, ps[0], cs), ps[1..], cs)
  }

  function MergeMember(ts: seq<Member>, p: Member, cs: bool): seq<Member>
    decreases p
  {
    if p.value.Null? then Taken(ts, p.key, cs)
    else Taken(ts, p.key, cs) + [Member(p.key, MergePatch(Get(ts, p.key, cs), p.value, cs))]
  }

  /** generate_merge_patch for two items; None is the NULL it returns when there is nothing to do */
  function Generate(from: Json, to: Json, cs: bool): Option<Json>
    decreases Depth(from), 1
  {
    if !to.Object? || !from.Object? then Some(to)
    else
      SortMembers(from.members, cs);
      var p := MergeJoin(from, Sort(from.members, cs), Sort(to.members, cs), cs);
      if p == [] then None else Some(Object(p))
  }

  /** What the patch holds for a name both have: nothing if compare_json finds the values equal, and
      otherwise what is generated, ignoring case, for the values as the comparison leaves them. */
  function Nested(f: Json, t: Json, cs: bool): Option<Json>
    decreases Depth(f), 2
  {
    if CompareJson(f, t, cs) then None
    else (LeftDepth(f, t, cs); var (f', t') := Left(f, t, cs); Generate(f', t', false))
  }

  /** The loop over both sorted member lists, compared with strcmp. */
  function MergeJoin(ghost top: Json, fs: seq<Member>, ts: seq<Member>, cs: bool): seq<Member>
    requires top.Object? && forall m | m in fs :: m in top.members
    decreases Depth(top), 0, |fs| + |ts|
  {
    if fs == [] && ts == [] then []
    else
      var diff := if fs == [] then 1 else if ts == [] then -1 else Compare(fs[0].key, ts[0].key, true);
      if diff < 0 then [Member(fs[0].key, Null)] + MergeJoin(top, fs[1..], ts, cs)
      else if diff > 0 then [ts[0]] + MergeJoin(top, fs, ts[1..], cs)
      else
        assert fs[0] in fs && fs[0] in top.members;
        InnerDepth(top, fs[0]);
        var p := Nested(fs[0].value, ts[0].value, cs);
        (if p.Some? then [Member(ts[0].key, p.value)] else []) + MergeJoin(top, fs[1..], ts[1..], cs)
  }

  lemma InnerDepth(top: Json, m: Member)
    requires top.Object? && m in top.members
    ensures Depth(m.value) < Depth(top)
  {
    var i :| 0 <= i < |top.members| && top.members[i] == m;
    MemberDepth(top.members, i);
  }

  /** generate_merge_patch; a NULL `to` asks for a patch that deletes everything */
  function GenerateMergePatch(from: Option<Json>, to: Option<Json>, cs: bool): Option<Json>
  {
    if to.None? then Some(Null)
    else if from.None? then to
    else Generate(from.value, to.value, cs)
  }

  // ----- section 2 of RFC 7396

  /** A JSON value with objects as maps; everything else is a leaf. */
  datatype Tree = Leaf(json: Json) | Node(members: map<string, Tree>)

  function AsTree(j: Json): Tree
    requires DistinctKeys(j, true)
  {
    match j
    case Object(ms) => Node(map k | k in KeySet(ms) :: AsTree(ms[Find(ms, k, true)].value))
    case _ => Leaf(j)
  }

  function Entries(t: Option<Tree>): map<string, Tree>
  {
    if t.Some? && t.value.Node? then t.value.members else map[]
  }

  function At(m: map<string, Tree>, k: string): Option<Tree> { if k in m then Some(m[k]) else None }

  /** MergePatch(Target, Patch): names whose patch is null go, other patched names are merged, the
      rest of the target stays. */
  function RfcMerge(target: Option<Tree>, patch: Tree): Tree
    decreases patch
  {
    match patch
    case Leaf(_) => patch
    case Node(ps) =>
      var ts := Entries(target);
      Node(map k | k in ts.Keys + ps.Keys && (k in ps ==> ps[k] != Leaf(Null)) ::
             if k in ps then RfcMerge(At(ts, k), ps[k]) else ts[k])
  }

  // ----- merge_patch computes it

  lemma AtTree(ms: seq<Member>, k: string)
    requires DistinctKeys(Object(ms), true)
    ensures At(AsTree(Object(ms)).members, k) ==
            if Get(ms, k, true).Some? then Some(AsTree(Get(ms, k, true).value)) else None
  {
    var i := Find(ms, k, true);
    if k in KeySet(ms) {
      var j :| 0 <= j < |ms| && ms[j].key == k;
    }
    if i < |ms| { assert ms[i].key in KeySet(ms); }
  }

  lemma GetMap(ms: seq<Member>, k: string)
    requires Distinct(ms, true)
    ensures Get(ms, k, true) == if k in AsMap(ms) then Some(AsMap(ms)[k]) else None
  {
    AsMapFind(ms, k);
  }

  lemma TakenGet(ms: seq<Member>, key: string, k: string)
    requires Distinct(ms, true)
    ensures Distinct(Taken(ms, key, true), true)
    ensures Get(Taken(ms, key, true), k, true) == if k == key then None else Get(ms, k, true)
  {
    var i := Find(ms, key, true);
    if i < |ms| { RemoveGet(ms, i, k); }
  }

  lemma RemoveGet(ms: seq<Member>, i: nat, k: string)
    requires i < |ms| && Distinct(ms, true)
    ensures Distinct(RemoveAt(ms, i), true)
    ensures Get(RemoveAt(ms, i), k, true) == if k == ms[i].key then None else Get(ms, k, true)
  {
    AsMapRemove(ms, i);
    GetMap(ms, k);
    GetMap(RemoveAt(ms, i), k);
  }

  lemma AppendGet(ms: seq<Member>, m: Member, k: string)
    requires Distinct(ms, true) && Get(ms, m.key, true).None?
    ensures Distinct(ms + [m], true)
    ensures Get(ms + [m], k, true) == if k == m.key then Some(m.value) else Get(ms, k, true)
  {
    GetMap(ms, m.key);
    GetMap(ms, k);
    AsMapAppend(ms, m);
    GetMap(ms + [m], k);
  }

  /** What one name of the merged object holds. */
  function Merged(t: Option<Json>, p: Option<Json>): Option<Json>
  {
    if p.None? then t else if p.value.Null? then None else Some(MergePatch(t, p.value, true))
  }

  lemma MergeMemberGet(ts: seq<Member>, p: Member, k: string)
    requires Distinct(ts, true)
    ensures Distinct(MergeMember(ts, p, true), true)
    ensures Get(MergeMember(ts, p, true), k, true) == Merged(Get(ts, k, true), if k == p.key then Some(p.value) else None)
  {
    TakenGet(ts, p.key, k);
    TakenGet(ts, p.key, p.key);
    if !p.value.Null? {
      AppendGet(Taken(ts, p.key, true), Member(p.key, MergePatch(Get(ts, p.key, true), p.value, true)), k);
    }
  }

  lemma TailGet(ps: seq<Member>, k: string)
    requires ps != [] && Distinct(ps, true)
    ensures Distinct(ps[1..], true)
    ensures Get(ps, k, true) == if k == ps[0].key then Some(ps[0].value) else Get(ps[1..], k, true)
    ensures k == ps[0].key ==> Get(ps[1..], k, true).None?
  {
    if k == ps[0].key {
      forall j | 0 <= j < |ps[1..]| ensures ps[1..][j].key != k { assert ps[1..][j] == ps[j + 1]; }
    }
  }

  /** The members of the merged object, name by name, whatever the order of the patch. */
  lemma {:induction false} MergeGet(ts: seq<Member>, ps: seq<Member>, k: string)
    requires Distinct(ts, true) && Distinct(ps, true)
    ensures Distinct(MergeMembers(ts, ps, true), true)
    ensures Get(MergeMembers(ts, ps, true), k, true) == Merged(Get(ts, k, true), Get(ps, k, true))
    decreases |ps|
  {
    if ps != [] {
      TailGet(ps, k);
      MergeMemberGet(ts, ps[0], k);
      MergeGet(MergeMember(ts, ps[0], true), ps[1..], k);
    }
  }

  /** What a name holds after the members of a patch have been merged in turn; a patch may name it
      more than once. */
  function FoldName(v: Option<Json>, ps: seq<Member>, k: string): Option<Json>
    decreases |ps|
  {
    if ps == [] then v
    else FoldName(if ps[0].key == k then Merged(v, Some(ps[0].value)) else v, ps[1..], k)
  }

  lemma {:induction false} MergeFold(ts: seq<Member>, ps: seq<Member>, k: string)
    requires Distinct(ts, true)
    ensures Distinct(MergeMembers(ts, ps, true), true)
    ensures Get(MergeMembers(ts, ps, true), k, true) == FoldName(Get(ts, k, true), ps, k)
    decreases |ps|
  {
    if ps != [] {
      MergeMemberGet(ts, ps[0], k);
      MergeFold(MergeMember(ts, ps[0], true), ps[1..], k);
    }
  }

  function OptionTree(j: Option<Json>): Option<Tree>
    requires j.Some? ==> DistinctKeys(j.value, true)
  {
    if j.Some? then Some(AsTree(j.value)) else None
  }

  lemma GetDistinct(ms: seq<Member>, k: string)
    requires DistinctKeys(Object(ms), true)
    ensures Get(ms, k, true).Some? ==> DistinctKeys(Get(ms, k, true).value, true)
  {
  }

  lemma GetAt(ms: seq<Member>, i: nat)
    requires i < |ms| && Distinct(ms, true)
    ensures Get(ms, ms[i].key, true) == Some(ms[i].value)
  {
    GetMap(ms, ms[i].key);
  }

  /** merge_patch and the standard's function agree here. */
  predicate Agrees(target: Option<Json>, patch: Json)
  {
    && (target.Some? ==> DistinctKeys(target.value, true)) && DistinctKeys(patch, true)
    && DistinctKeys(MergePatch(target, patch, true), true)
    && AsTree(MergePatch(target, patch, true)) == RfcMerge(OptionTree(target), AsTree(patch))
  }

  /** A name of the result holds what the standard says, given that for the patches below it. */
  lemma MergedIsRfc(ts: seq<Member>, ps: seq<Member>, k: string)
    requires DistinctKeys(Object(ts), true) && DistinctKeys(Object(ps), true)
    requires Get(ps, k, true).Some? ==> Agrees(Get(ts, k, true), Get(ps, k, true).value)
    ensures Merged(Get(ts, k, true), Get(ps, k, true)).Some? ==> DistinctKeys(Merged(Get(ts, k, true), Get(ps, k, true)).value, true)
    ensures OptionTree(Merged(Get(ts, k, true), Get(ps, k, true)))
         == At(RfcMerge(Some(AsTree(Object(ts))), AsTree(Object(ps))).members, k)
  {
    GetDistinct(ts, k);
    GetDistinct(ps, k);
    AtTree(ts, k);
    AtTree(ps, k);
  }

  /** Case-sensitive merge_patch is MergePatch of section 2 of RFC 7396. */
  lemma {:induction false} MergeIsRfc(target: Option<Json>, patch: Json)
    requires target.Some? ==> DistinctKeys(target.value, true)
    requires DistinctKeys(patch, true)
    ensures DistinctKeys(MergePatch(target, patch, true), true)
    ensures AsTree(MergePatch(target, patch, true)) == RfcMerge(OptionTree(target), AsTree(patch))
    decreases patch
  {
    if patch.Object? {
      var ts, ps := MembersOf(target), patch.members;
      var r := MergeMembers(ts, ps, true);
      var rfc := RfcMerge(Some(AsTree(Object(ts))), AsTree(patch));
      assert Entries(OptionTree(target)) == Entries(Some(AsTree(Object(ts))));
      forall k ensures Get(r, k, true).Some? ==> DistinctKeys(Get(r, k, true).value, true)
               ensures OptionTree(Get(r, k, true)) == At(rfc.members, k)
      {
        var i := Find(ps, k, true);
        if i < |ps| {
          GetDistinct(ts, k);
          MergeIsRfc(Get(ts, k, true), ps[i].value);
        }
        MergedIsRfc(ts, ps, k);
        MergeGet(ts, ps, k);
      }
      MergeGet(ts, ps, "");
      forall i | 0 <= i < |r| ensures DistinctKeys(r[i].value, true) { GetAt(r, i); }
      SameEntries(r, rfc);
    }
  }

  lemma SameEntries(r: seq<Member>, rfc: Tree)
    requires DistinctKeys(Object(r), true) && rfc.Node?
    requires forall k :: (Get(r, k, true).Some? ==> DistinctKeys(Get(r, k, true).value, true)) && OptionTree(Get(r, k, true)) == At(rfc.members, k)
    ensures AsTree(Object(r)) == rfc
  {
    forall k ensures At(AsTree(Object(r)).members, k) == At(rfc.members, k) {
      AtTree(r, k);
      assert OptionTree(Get(r, k, true)) == At(rfc.members, k);
    }
    SameMap(AsTree(Object(r)).members, rfc.members);
  }

  lemma SameMap(a: map<string, Tree>, b: map<string, Tree>)
    requires forall k :: At(a, k) == At(b, k)
    ensures a == b
  {
    forall k ensures k in a <==> k in b { assert At(a, k) == At(b, k); }
    forall k | k in a ensures a[k] == b[k] { assert At(a, k) == At(b, k); }
  }
}
