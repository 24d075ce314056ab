/**
 Generating patches and applying them are inverse: for trees whose names can be addressed,
 applying the patches generated from `from` to `to` to a copy of `from` succeeds and gives `to`
 up to the order of members.
 */
module JsonPatchTheorems {
  import opened Json
  import opened JsonPointer
  import opened JsonSort
  import opened JsonPatch
  import opened JsonPatchLocality

  // ===== operations on a direct child

  lemma AtRoot(root: Json, token: string, v: Json)
    requires '/' !in token
    ensures Detach(root, "/" + token, true) == DetachFrom(root, token)
    ensures AddAt(root, "/" + token, v, true) == AddTo(root, token, v, true)
  {
    NoSlash(token);
    LastSlashAppend("/", token);
    var path := "/" + token;
    assert LastSlash(path) == 0 by { assert "/"[|"/"| - 1] == '/'; }
    assert path[..0] == "" && path[1..] == token;
  }

  lemma IndexToken(i: nat)
    ensures '/' !in Decimal(i) && DecodeInplace(Decimal(i)) == Decimal(i)
    ensures DecodeIndex(Decimal(i)) == Some(i) && Decimal(i) != "-"
  {
    DecimalDigits(i);
    assert '~' !in Decimal(i);
    DecodePlain(Decimal(i), 0);
    IndexRoundTrip(i, "");
    assert Decimal(i) + "" == Decimal(i);
  }

  lemma RemovesItem(items: seq<Json>, i: nat)
    requires i < |items|
    ensures ApplyOp(Array(items), Patch(Remove, "/" + Decimal(i), None), true) == (0, Array(RemoveAt(items, i)))
  {
    IndexToken(i);
    AtRoot(Array(items), Decimal(i), Null);
  }

  lemma ReplacesItem(items: seq<Json>, i: nat, v: Json)
    requires i < |items|
    ensures ApplyOp(Array(items), Patch(Replace, "/" + Decimal(i), Some(v)), true) == (0, Array(items[i := v]))
  {
    IndexToken(i);
    AtRoot(Array(items), Decimal(i), v);
    var rest := RemoveAt(items, i);
    AtRoot(Array(rest), Decimal(i), v);
    assert rest[..i] + [v] + rest[i..] == items[i := v];
  }

  lemma AppendsItem(items: seq<Json>, v: Json)
    ensures ApplyOp(Array(items), Patch(Add, "/-", Some(v)), true) == (0, Array(items + [v]))
  {
    DecodePlain("-", 0);
    AtRoot(Array(items), "-", v);
    assert "/" + "-" == "/-";
  }

  /** The member `detach_path` finds for this name, which it looks up ignoring case, is the one
      that has exactly this name. */
  predicate Reachable(ms: seq<Member>, key: string)
  {
    var i := Find(ms, key, false);
    i < |ms| && ms[i].key == key
  }

  lemma RemovesMember(ms: seq<Member>, key: string)
    requires Survives(key) && Reachable(ms, key)
    ensures ApplyOp(Object(ms), Patch(Remove, "/" + Encode(key), None), true)
         == (0, Object(RemoveAt(ms, Find(ms, key, false))))
  {
    EncodedHasNoSlash(key);
    AtRoot(Object(ms), Encode(key), Null);
  }

  lemma AddsMember(ms: seq<Member>, key: string, v: Json)
    requires Survives(key) && key !in KeySet(ms)
    ensures ApplyOp(Object(ms), Patch(Add, "/" + Encode(key), Some(v)), true) == (0, Object(ms + [Member(key, v)]))
  {
    EncodedHasNoSlash(key);
    AtRoot(Object(ms), Encode(key), v);
    NotFound(ms, key);
  }

  lemma NotFound(ms: seq<Member>, key: string)
    requires key !in KeySet(ms)
    ensures Find(ms, key, true) == |ms|
  {
    forall j | 0 <= j < |ms| ensures ms[j].key != key { assert ms[j].key in KeySet(ms); }
  }

  lemma ReplacesMember(ms: seq<Member>, key: string, v: Json)
    requires Survives(key) && Reachable(ms, key) && Distinct(ms, true)
    ensures ApplyOp(Object(ms), Patch(Replace, "/" + Encode(key), Some(v)), true)
         == (0, Object(RemoveAt(ms, Find(ms, key, false)) + [Member(key, v)]))
  {
    EncodedHasNoSlash(key);
    var i := Find(ms, key, false);
    AtRoot(Object(ms), Encode(key), v);
    var rest := RemoveAt(ms, i);
    AtRoot(Object(rest), Encode(key), v);
    RemovedKey(ms, i);
    NotFound(rest, key);
  }

  lemma RemovedKey(ms: seq<Member>, i: nat)
    requires i < |ms| && Distinct(ms, true)
    ensures Distinct(RemoveAt(ms, i), true)
    ensures KeySet(RemoveAt(ms, i)) == KeySet(ms) - {ms[i].key}
  {
    AsMapRemove(ms, i);
  }

  // ===== arrays

  lemma ApplyFirst(root: Json, p: Patch, ps: seq<Patch>)
    requires Simple(p) && AllSimple(ps)
    ensures AllSimple([p] + ps)
    ensures
      var (status, r) := ApplyOp(root, p, true);
      Apply(root, [p] + ps) == if status != 0 then (status, r) else Apply(r, ps)
  {
    assert ([p] + ps)[1..] == ps;
  }

  lemma {:induction false} RemovalsRun(items: seq<Json>, i: nat)
    requires i <= |items|
    ensures AllSimple(Removals(i, |items| - i))
    ensures Apply(Array(items), Removals(i, |items| - i)) == (0, Array(items[..i]))
    decreases |items|
  {
    if i == |items| {
      assert items[..i] == items;
    } else {
      RemovesItem(items, i);
      var rest := RemoveAt(items, i);
      RemovalsRun(rest, i);
      assert rest[..i] == items[..i];
      ApplyFirst(Array(items), Patch(Remove, "/" + Decimal(i), None), Removals(i, |rest| - i));
    }
  }

  lemma {:induction false} AdditionsRun(items: seq<Json>, vs: seq<Json>)
    ensures AllSimple(Additions(vs))
    ensures Apply(Array(items), Additions(vs)) == (0, Array(items + vs))
    decreases |vs|
  {
    if vs == [] {
      assert items + vs == items;
    } else {
      AppendsItem(items, vs[0]);
      AdditionsRun(items + [vs[0]], vs[1..]);
      assert items + [vs[0]] + vs[1..] == items + vs;
      ApplyFirst(Array(items), Patch(Add, "/-", Some(vs[0])), Additions(vs[1..]));
    }
  }

  // ===== shape of the generated patches

  /** The whole value is replaced. */
  predicate Replaced(f: Json, t: Json)
  {
    !SameType(f, t) || (f.Number? && !CloseNumber(f.d, t.d)) || (f.String? && f.s != t.s)
  }

  /** Either the whole value is replaced, or every path goes below it. */
  predicate Shaped(f: Json, t: Json)
  {
    if Replaced(f, t) then Diff(f, t) == [Patch(Replace, "", Some(t))] else AllBelow(Diff(f, t))
  }

  lemma {:induction false} DiffShaped(f: Json, t: Json)
    ensures Shaped(f, t) && AllSimple(Diff(f, t))
    decreases f, 1
  {
    if SameType(f, t) {
      match f
      case Array(items) => ItemsShaped(items, t.items, 0);
      case Object(ms) =>
        SortMembers(ms, true);
        MembersShaped(f, Sort(ms, true), Sort(t.members, true));
      case _ =>
    }
  }

  lemma PrefixedBelow(prefix: string, ps: seq<Patch>)
    requires prefix != "" && prefix[0] == '/' && AllSimple(ps)
    ensures AllBelow(Prefixed(prefix, ps))
  {
  }

  lemma {:induction false} RemovalsBelow(i: nat, n: nat)
    ensures AllBelow(Removals(i, n))
  {
    if n > 0 { RemovalsBelow(i, n - 1); }
  }

  lemma {:induction false} AdditionsBelow(vs: seq<Json>)
    ensures AllBelow(Additions(vs))
  {
    if vs != [] { AdditionsBelow(vs[1..]); }
  }

  lemma {:induction false} ItemsShaped(fs: seq<Json>, ts: seq<Json>, i: nat)
    requires i <= |fs| && i <= |ts|
    ensures AllBelow(DiffItems(fs, ts, i))
    decreases Array(fs), 0, |fs| - i
  {
    if i < |fs| && i < |ts| {
      DiffShaped(fs[i], ts[i]);
      PrefixedBelow("/" + Decimal(i), Diff(fs[i], ts[i]));
      ItemsShaped(fs, ts, i + 1);
    } else {
      RemovalsBelow(i, |fs| - i);
      AdditionsBelow(ts[i..]);
    }
  }

  lemma {:induction false} MembersShaped(top: Json, fs: seq<Member>, ts: seq<Member>)
    requires top.Object? && forall m | m in fs :: m in top.members
    ensures AllBelow(DiffMembers(top, fs, ts))
    decreases top, 0, |fs| + |ts|
  {
    if fs != [] || ts != [] {
      var diff := if fs == [] then 1 else if ts == [] then -1 else Compare(fs[0].key, ts[0].key, true);
      if diff == 0 {
        assert fs[0] in top.members;
        DiffShaped(fs[0].value, ts[0].value);
        PrefixedBelow("/" + Encode(fs[0].key), Diff(fs[0].value, ts[0].value));
        MembersShaped(top, fs[1..], ts[1..]);
      } else if diff < 0 {
        MembersShaped(top, fs[1..], ts);
      } else {
        MembersShaped(top, fs, ts[1..]);
      }
    }
  }

  // ===== objects: the state between two steps of the merge join

  /** A member that is already as the target wants it. */
  predicate Done(m: Member, ts: seq<Member>, tm: map<string, Json>)
  {
    m.key in tm && Same(m.value, tm[m.key]) && m.key !in KeySet(ts)
  }

  /** A member that a patch of its own takes out of the object: the target lacks it or replaces
      its value. Its name is then decoded and looked up ignoring case. */
  predicate Touched(m: Member, tm: map<string, Json>) { m.key in tm ==> Replaced(m.value, tm[m.key]) }

  /** Between two steps of the join: `ms` is the object being patched, `fs` and `ts` what is left
      of the sorted lists, and `tm` the target object. */
  predicate Midway(ms: seq<Member>, fs: seq<Member>, ts: seq<Member>, tm: map<string, Json>)
  {
    && Distinct(ms, true)
    && (forall i | 0 <= i < |fs| :: fs[i] in ms && (Touched(fs[i], tm) ==> Reachable(ms, fs[i].key)))
    && (forall i | 0 <= i < |fs| :: fs[i].key in tm ==> fs[i].key in KeySet(ts))
    && (forall j | 0 <= j < |ms| :: ms[j] in fs || Done(ms[j], ts, tm))
    && (forall i | 0 <= i < |ts| :: ts[i].key in tm && tm[ts[i].key] == ts[i].value)
    && (forall k | k in tm :: k in KeySet(ts) || k in KeySet(ms))
  }

  lemma ReachableIs(ms: seq<Member>, key: string, i: nat)
    requires i < |ms| && ms[i].key == key && forall j | 0 <= j < i :: !SameName(key, ms[j].key, false)
    ensures Find(ms, key, false) == i && Reachable(ms, key)
  {
  }

  lemma ReachableRemove(ms: seq<Member>, k: nat, key: string)
    requires k < |ms| && Reachable(ms, key) && ms[k].key != key
    ensures Reachable(RemoveAt(ms, k), key)
  {
    var i := Find(ms, key, false);
    ReachableIs(RemoveAt(ms, k), key, if i < k then i else i - 1);
  }

  lemma ReachableAppend(ms: seq<Member>, m: Member, key: string)
    requires Reachable(ms, key)
    ensures Reachable(ms + [m], key)
  {
    ReachableIs(ms + [m], key, Find(ms, key, false));
  }

  /** `r` is `ms` with another value for member `k`. */
  predicate Updates(ms: seq<Member>, r: seq<Member>, k: nat)
  {
    && k < |ms| == |r| && r[k].key == ms[k].key
    && forall j | 0 <= j < |ms| && j != k :: r[j] == ms[j]
  }

  lemma ReachableUpdate(ms: seq<Member>, r: seq<Member>, k: nat, key: string)
    requires Updates(ms, r, k) && Reachable(ms, key)
    ensures Reachable(r, key)
  {
    ReachableIs(r, key, Find(ms, key, false));
  }

  lemma KeyOf(ms: seq<Member>, m: Member)
    requires m in ms
    ensures m.key in KeySet(ms)
  {
  }

  /** In a list with distinct names a member is where its name is. */
  lemma SamePlace(ms: seq<Member>, i: nat, j: nat)
    requires i < |ms| && j < |ms| && Distinct(ms, true)
    ensures ms[i].key == ms[j].key <==> i == j
  {
    if i < j { assert !SameName(ms[i].key, ms[j].key, true); }
    if j < i { assert !SameName(ms[j].key, ms[i].key, true); }
  }

  lemma StrictTail(fs: seq<Member>)
    requires fs != [] && StrictlySorted(fs, true)
    ensures StrictlySorted(fs[1..], true) && fs[0].key !in KeySet(fs[1..])
    ensures KeySet(fs) == KeySet(fs[1..]) + {fs[0].key}
  {
    forall k | k in KeySet(fs[1..]) ensures k != fs[0].key && k in KeySet(fs) {
      var i :| 0 <= i < |fs[1..]| && fs[1..][i].key == k;
      assert Compare(fs[0].key, fs[i + 1].key, true) < 0;
      CompareEqual(fs[0].key, k);
      assert fs[i + 1].key in KeySet(fs);
    }
    forall k | k in KeySet(fs) && k != fs[0].key ensures k in KeySet(fs[1..]) {
      var i :| 0 <= i < |fs| && fs[i].key == k;
      assert fs[1..][i - 1].key in KeySet(fs[1..]);
    }
  }

  /** What is left to do is untouched by taking out the member the join stands at. */
  lemma RemovedRest(ms: seq<Member>, fs: seq<Member>, k: nat, i: nat)
    requires k < |ms| && fs != [] && StrictlySorted(fs, true) && ms[k].key == fs[0].key
    requires 0 < i < |fs| && fs[i] in ms
    ensures fs[i] in RemoveAt(ms, k) && (Reachable(ms, fs[i].key) ==> Reachable(RemoveAt(ms, k), fs[i].key))
  {
    assert Compare(fs[0].key, fs[i].key, true) < 0;
    CompareEqual(fs[0].key, fs[i].key);
    var j :| 0 <= j < |ms| && ms[j] == fs[i];
    assert RemoveAt(ms, k)[if j < k then j else j - 1] == fs[i];
    if Reachable(ms, fs[i].key) { ReachableRemove(ms, k, fs[i].key); }
  }

  lemma RemovedMember(ms: seq<Member>, fs: seq<Member>, k: nat, was: nat)
    requires Distinct(ms, true) && fs != [] && k < |ms| && ms[k].key == fs[0].key
    requires was < |ms| && was != k && ms[was] in fs
    ensures ms[was] in fs[1..]
  {
    SamePlace(ms, was, k);
    var i :| 0 <= i < |fs| && fs[i] == ms[was];
    assert fs[1..][i - 1] == ms[was];
  }

  lemma RemovedLeft(ms: seq<Member>, fs: seq<Member>, ts: seq<Member>, tm: map<string, Json>, k: nat)
    requires Midway(ms, fs, ts, tm) && fs != [] && StrictlySorted(fs, true)
    requires k < |ms| && ms[k].key == fs[0].key
    ensures forall i | 0 <= i < |fs[1..]| ::
              fs[1..][i] in RemoveAt(ms, k) && (Touched(fs[1..][i], tm) ==> Reachable(RemoveAt(ms, k), fs[1..][i].key))
  {
    forall i | 0 <= i < |fs[1..]|
      ensures fs[1..][i] in RemoveAt(ms, k) && (Touched(fs[1..][i], tm) ==> Reachable(RemoveAt(ms, k), fs[1..][i].key))
    {
      assert fs[1..][i] == fs[i + 1];
      RemovedRest(ms, fs, k, i + 1);
    }
  }

  lemma RemovedStays(ms: seq<Member>, fs: seq<Member>, ts: seq<Member>, tm: map<string, Json>, k: nat, j: nat)
    requires Distinct(ms, true) && fs != [] && k < |ms| && ms[k].key == fs[0].key && j < |ms| - 1
    requires forall i | 0 <= i < |ms| :: ms[i] in fs || Done(ms[i], ts, tm)
    ensures RemoveAt(ms, k)[j] in fs[1..] || Done(RemoveAt(ms, k)[j], ts, tm)
  {
    var was := if j < k then j else j + 1;
    assert RemoveAt(ms, k)[j] == ms[was];
    if ms[was] in fs { RemovedMember(ms, fs, k, was); }
  }

  lemma RemovedDone(ms: seq<Member>, fs: seq<Member>, ts: seq<Member>, tm: map<string, Json>, k: nat)
    requires Midway(ms, fs, ts, tm) && fs != [] && k < |ms| && ms[k].key == fs[0].key
    ensures forall j | 0 <= j < |RemoveAt(ms, k)| :: RemoveAt(ms, k)[j] in fs[1..] || Done(RemoveAt(ms, k)[j], ts, tm)
  {
    var r := RemoveAt(ms, k);
    forall j | 0 <= j < |r| ensures r[j] in fs[1..] || Done(r[j], ts, tm) {
      RemovedStays(ms, fs, ts, tm, k, j);
    }
  }

  /** Taking out the member the join stands at. */
  lemma StepRemove(ms: seq<Member>, fs: seq<Member>, ts: seq<Member>, tm: map<string, Json>, k: nat)
    requires Midway(ms, fs, ts, tm) && fs != [] && StrictlySorted(fs, true)
    requires k < |ms| && ms[k].key == fs[0].key
    ensures Midway(RemoveAt(ms, k), fs[1..], ts, tm)
  {
    RemovedKey(ms, k);
    RemovedLeft(ms, fs, ts, tm, k);
    RemovedDone(ms, fs, ts, tm, k);
    assert forall i | 0 <= i < |fs[1..]| :: fs[1..][i] == fs[i + 1];
  }

  /** Appending the member the target has and the object lacks. */
  lemma StepAdd(ms: seq<Member>, fs: seq<Member>, ts: seq<Member>, tm: map<string, Json>)
    requires Midway(ms, fs, ts, tm) && ts != [] && StrictlySorted(ts, true)
    requires ts[0].key !in KeySet(fs) && DistinctKeys(ts[0].value, true)
    ensures ts[0].key !in KeySet(ms) && Midway(ms + [ts[0]], fs, ts[1..], tm)
  {
    var r, key := ms + [ts[0]], ts[0].key;
    StrictTail(ts);
    NewName(ms, fs, ts, tm);
    DistinctAppend(ms, ts[0]);
    AppendKeys(ms, ts[0]);
    forall i | 0 <= i < |fs|
      ensures fs[i] in r && (Touched(fs[i], tm) ==> Reachable(r, fs[i].key))
      ensures fs[i].key in tm ==> fs[i].key in KeySet(ts[1..])
    {
      KeyOf(fs, fs[i]);
      if Touched(fs[i], tm) { ReachableAppend(ms, ts[0], fs[i].key); }
    }
    SameSelf(ts[0].value);
    forall j | 0 <= j < |r| ensures r[j] in fs || Done(r[j], ts[1..], tm) {
      if j < |ms| { assert r[j] == ms[j]; } else { assert r[j] == ts[0]; }
    }
    forall i | 0 <= i < |ts[1..]| ensures ts[1..][i].key in tm && tm[ts[1..][i].key] == ts[1..][i].value {
      assert ts[1..][i] == ts[i + 1];
    }
  }

  lemma NewName(ms: seq<Member>, fs: seq<Member>, ts: seq<Member>, tm: map<string, Json>)
    requires Midway(ms, fs, ts, tm) && ts != [] && ts[0].key !in KeySet(fs)
    ensures ts[0].key !in KeySet(ms)
  {
    KeyOf(ts, ts[0]);
    forall j | 0 <= j < |ms| ensures ms[j].key != ts[0].key {
      if ms[j] in fs { KeyOf(fs, ms[j]); }
    }
  }

  lemma UpdatedRest(ms: seq<Member>, r: seq<Member>, fs: seq<Member>, k: nat, i: nat)
    requires Updates(ms, r, k) && fs != [] && StrictlySorted(fs, true) && ms[k].key == fs[0].key
    requires 0 < i < |fs| && fs[i] in ms
    ensures fs[i] in r && (Reachable(ms, fs[i].key) ==> Reachable(r, fs[i].key)) && fs[i].key != fs[0].key
  {
    assert Compare(fs[0].key, fs[i].key, true) < 0;
    CompareEqual(fs[0].key, fs[i].key);
    var j :| 0 <= j < |ms| && ms[j] == fs[i];
    assert r[j] == fs[i];
    if Reachable(ms, fs[i].key) { ReachableUpdate(ms, r, k, fs[i].key); }
  }

  lemma UpdatedKeys(ms: seq<Member>, r: seq<Member>, k: nat)
    requires Updates(ms, r, k)
    ensures KeySet(r) == KeySet(ms)
    ensures Distinct(ms, true) ==> Distinct(r, true)
  {
    forall i | 0 <= i < |ms| ensures r[i].key == ms[i].key && ms[i].key in KeySet(r) && r[i].key in KeySet(ms) {
      assert r[i].key in KeySet(r) && ms[i].key in KeySet(ms);
    }
    if Distinct(ms, true) {
      forall i, j | 0 <= i < j < |r| ensures !SameName(r[i].key, r[j].key, true) {
        assert !SameName(ms[i].key, ms[j].key, true);
      }
    }
  }

  /** Patching the member both have, in place. */
  lemma StepUpdate(ms: seq<Member>, r: seq<Member>, fs: seq<Member>, ts: seq<Member>, tm: map<string, Json>, k: nat)
    requires Midway(ms, fs, ts, tm) && fs != [] && ts != [] && StrictlySorted(fs, true) && StrictlySorted(ts, true)
    requires Updates(ms, r, k) && fs[0].key == ts[0].key == ms[k].key && Same(r[k].value, ts[0].value)
    ensures Midway(r, fs[1..], ts[1..], tm)
  {
    StrictTail(ts);
    UpdatedKeys(ms, r, k);
    KeyOf(ms, ms[k]);
    assert forall i | 0 <= i < |fs[1..]| :: fs[1..][i] == fs[i + 1];
    forall i | 0 <= i < |fs[1..]|
      ensures fs[1..][i] in r && (Touched(fs[1..][i], tm) ==> Reachable(r, fs[1..][i].key))
      ensures fs[1..][i].key != ts[0].key
    {
      UpdatedRest(ms, r, fs, k, i + 1);
    }
    forall j | 0 <= j < |r| ensures r[j] in fs[1..] || Done(r[j], ts[1..], tm) {
      if j != k && ms[j] in fs { RemovedMember(ms, fs, k, j); }
    }
    assert forall i | 0 <= i < |ts[1..]| :: ts[1..][i] == ts[i + 1];
  }

  /** The join is over: the object is the target. */
  lemma MidwayEnds(ms: seq<Member>, tm: map<string, Json>)
    requires Midway(ms, [], [], tm)
    ensures KeySet(ms) == tm.Keys
    ensures forall j | 0 <= j < |ms| :: ms[j].key in tm && Same(ms[j].value, tm[ms[j].key])
  {
    assert KeySet([]) == {};
    forall j | 0 <= j < |ms| ensures ms[j].key in tm && Same(ms[j].value, tm[ms[j].key]) {
      assert Done(ms[j], [], tm);
    }
  }

  // ===== the round trip

  /**
   What is asked of the two trees, object by object as far as both have them: names are distinct;
   a name of `f` that is removed or replaced survives being encoded and decoded, and is the first
   that detach_path finds when it looks it up ignoring case; a name that is added survives.
   */
  predicate Editable(f: Json, t: Json)
  {
    SameType(f, t) ==>
      match f
      case Array(items) => forall i | 0 <= i < |items| && i < |t.items| :: Editable(items[i], t.items[i])
      case Object(ms) =>
        && Distinct(ms, true) && Distinct(t.members, true)
        && (forall i | 0 <= i < |ms| && Touched(ms[i], AsMap(t.members)) :: Survives(ms[i].key) && Reachable(ms, ms[i].key))
        && (forall i | 0 <= i < |ms| && ms[i].key in AsMap(t.members) ::
              Editable(ms[i].value, AsMap(t.members)[ms[i].key]))
        && (forall i | 0 <= i < |t.members| && t.members[i].key !in AsMap(ms) :: Survives(t.members[i].key))
      case _ => true
  }

  /** The same for one member that is left of an object. */
  predicate EditableMember(m: Member, tm: map<string, Json>)
  {
    && (Touched(m, tm) ==> Survives(m.key))
    && (m.key in tm ==> Editable(m.value, tm[m.key]))
  }

  /** The names still to be added survive. */
  predicate NewNamesSurvive(fs: seq<Member>, ts: seq<Member>)
  {
    forall i | 0 <= i < |ts| && ts[i].key !in KeySet(fs) :: Survives(ts[i].key)
  }

  /** These patches succeed and give `to` up to member order. */
  predicate Reaches(root: Json, ps: seq<Patch>, to: Json)
  {
    AllSimple(ps) && Apply(root, ps).0 == 0 && Same(Apply(root, ps).1, to)
  }

  /** The generated patches turn `f` into `t`. */
  predicate Turns(f: Json, t: Json) { Reaches(f, Diff(f, t), t) }

  /** One step of the array walk: item `i` is turned into `t`. */
  lemma ItemStep(items: seq<Json>, i: nat, t: Json) returns (v: Json)
    requires i < |items| && Turns(items[i], t) && DistinctKeys(t, true)
    ensures
      var ps := Prefixed("/" + Decimal(i), Diff(items[i], t));
      AllSimple(ps) && Apply(Array(items), ps) == (0, Array(items[i := v])) && Same(v, t)
  {
    DiffShaped(items[i], t);
    if !Replaced(items[i], t) {
      ApplyBelow(Array(items), i, Diff(items[i], t));
      v := Apply(items[i], Diff(items[i], t)).1;
    } else {
      v := t;
      SameSelf(t);
      ReplaceItemStep(items, i, t);
    }
  }

  lemma ReplaceItemStep(items: seq<Json>, i: nat, t: Json)
    requires i < |items|
    ensures
      var ps := Prefixed("/" + Decimal(i), [Patch(Replace, "", Some(t))]);
      AllSimple(ps) && Apply(Array(items), ps) == (0, Array(items[i := t]))
  {
    var ps := Prefixed("/" + Decimal(i), [Patch(Replace, "", Some(t))]);
    ReplacesItem(items, i, t);
    assert "/" + Decimal(i) + "" == "/" + Decimal(i);
    assert ps[0] == Patch(Replace, "/" + Decimal(i), Some(t)) && ps[1..] == [];
  }

  /** One step of the join where both have the name: the member is turned into the target's. */
  lemma MatchStep(ms: seq<Member>, fs: seq<Member>, ts: seq<Member>, tm: map<string, Json>) returns (r: seq<Member>)
    requires Midway(ms, fs, ts, tm) && fs != [] && ts != [] && StrictlySorted(fs, true) && StrictlySorted(ts, true)
    requires fs[0].key == ts[0].key && (Replaced(fs[0].value, ts[0].value) ==> Survives(fs[0].key))
    requires Turns(fs[0].value, ts[0].value) && DistinctKeys(ts[0].value, true)
    ensures Midway(r, fs[1..], ts[1..], tm)
    ensures
      var ps := Prefixed("/" + Encode(fs[0].key), Diff(fs[0].value, ts[0].value));
      AllSimple(ps) && Apply(Object(ms), ps) == (0, Object(r))
  {
    var key, v := fs[0].key, ts[0].value;
    DiffShaped(fs[0].value, v);
    if !Replaced(fs[0].value, v) {
      var k :| 0 <= k < |ms| && ms[k] == fs[0];
      ApplyBelow(Object(ms), k, Diff(fs[0].value, v));
      var w := Apply(fs[0].value, Diff(fs[0].value, v)).1;
      r := ms[k := Member(key, w)];
      StepUpdate(ms, r, fs, ts, tm, k);
    } else {
      assert tm[key] == v && Touched(fs[0], tm);
      var k := Find(ms, key, false);
      WhereItIs(ms, fs, ts, tm);
      ReplaceStep(ms, key, v);
      r := RemoveAt(ms, k) + [ts[0]];
      assert ts[0] == Member(key, v);
      StepReplace(ms, fs, ts, tm, k);
    }
  }

  lemma StepReplace(ms: seq<Member>, fs: seq<Member>, ts: seq<Member>, tm: map<string, Json>, k: nat)
    requires Midway(ms, fs, ts, tm) && fs != [] && ts != [] && StrictlySorted(fs, true) && StrictlySorted(ts, true)
    requires fs[0].key == ts[0].key && DistinctKeys(ts[0].value, true) && k < |ms| && ms[k] == fs[0]
    ensures Midway(RemoveAt(ms, k) + [ts[0]], fs[1..], ts[1..], tm)
  {
    StrictTail(fs);
    StepRemove(ms, fs, ts, tm, k);
    StepAdd(RemoveAt(ms, k), fs[1..], ts, tm);
  }

  /** The member the join stands at is the one its name leads to. */
  lemma WhereItIs(ms: seq<Member>, fs: seq<Member>, ts: seq<Member>, tm: map<string, Json>)
    requires Midway(ms, fs, ts, tm) && fs != [] && Touched(fs[0], tm)
    ensures Reachable(ms, fs[0].key) && ms[Find(ms, fs[0].key, false)] == fs[0]
  {
    assert fs[0] in ms && Reachable(ms, fs[0].key);
    var j :| 0 <= j < |ms| && ms[j] == fs[0];
    SamePlace(ms, j, Find(ms, fs[0].key, false));
  }

  lemma ReplaceStep(ms: seq<Member>, key: string, v: Json)
    requires Survives(key) && Reachable(ms, key) && Distinct(ms, true)
    ensures
      var ps := Prefixed("/" + Encode(key), [Patch(Replace, "", Some(v))]);
      AllSimple(ps) && Apply(Object(ms), ps) == (0, Object(RemoveAt(ms, Find(ms, key, false)) + [Member(key, v)]))
  {
    var ps := Prefixed("/" + Encode(key), [Patch(Replace, "", Some(v))]);
    ReplacesMember(ms, key, v);
    assert "/" + Encode(key) + "" == "/" + Encode(key);
    assert ps[0] == Patch(Replace, "/" + Encode(key), Some(v)) && ps[1..] == [];
  }

  lemma {:induction false} ItemsApply(items: seq<Json>, fs: seq<Json>, ts: seq<Json>, i: nat)
    requires i <= |fs| == |items| && i <= |ts|
    requires forall j | i <= j < |fs| :: items[j] == fs[j]
    requires forall j | 0 <= j < i :: Same(items[j], ts[j])
    requires DistinctKeys(Array(ts), true) && forall j | 0 <= j < |fs| && j < |ts| :: Editable(fs[j], ts[j])
    ensures Reaches(Array(items), DiffItems(fs, ts, i), Array(ts))
    decreases Array(fs), 0, |fs| - i
  {
    if i < |fs| && i < |ts| {
      DiffApplies(fs[i], ts[i]);
      var v := ItemStep(items, i, ts[i]);
      ItemsApply(items[i := v], fs, ts, i + 1);
      Continued(Array(items), Array(items[i := v]), Prefixed("/" + Decimal(i), Diff(fs[i], ts[i])),
                DiffItems(fs, ts, i + 1), Array(ts));
    } else {
      LastItems(items, ts, i);
    }
  }

  lemma LastItems(items: seq<Json>, ts: seq<Json>, i: nat)
    requires i <= |items| && i <= |ts| && (i == |items| || i == |ts|)
    requires forall j | 0 <= j < i :: Same(items[j], ts[j])
    requires DistinctKeys(Array(ts), true)
    ensures Reaches(Array(items), Removals(i, |items| - i) + Additions(ts[i..]), Array(ts))
  {
    RemovalsRun(items, i);
    AdditionsRun(items[..i], ts[i..]);
    ApplyAppend(Array(items), Removals(i, |items| - i), Additions(ts[i..]));
    SameFront(items[..i], ts, i);
  }

  lemma SameFront(front: seq<Json>, ts: seq<Json>, i: nat)
    requires i == |front| <= |ts| && (forall j | 0 <= j < i :: Same(front[j], ts[j])) && DistinctKeys(Array(ts), true)
    ensures Same(Array(front + ts[i..]), Array(ts))
  {
    var out := front + ts[i..];
    forall j | 0 <= j < |ts| ensures Same(out[j], ts[j]) {
      if j >= i { SameSelf(ts[j]); }
    }
  }

  lemma Continued(root: Json, mid: Json, first: seq<Patch>, rest: seq<Patch>, to: Json)
    requires AllSimple(first) && Apply(root, first) == (0, mid) && Reaches(mid, rest, to)
    ensures Reaches(root, first + rest, to)
  {
    ApplyAppend(root, first, rest);
  }

  /** What the join knows of the members that are left, apart from the object itself. */
  predicate Ready(top: Json, fs: seq<Member>, ts: seq<Member>, to: seq<Member>)
  {
    && top.Object? && Distinct(to, true) && StrictlySorted(fs, true) && StrictlySorted(ts, true)
    && (forall i | 0 <= i < |fs| :: fs[i] in top.members && EditableMember(fs[i], AsMap(to)))
    && (forall i | 0 <= i < |ts| :: DistinctKeys(ts[i].value, true))
    && NewNamesSurvive(fs, ts)
  }

  lemma {:induction false} MembersApply(top: Json, ms: seq<Member>, fs: seq<Member>, ts: seq<Member>, to: seq<Member>)
    requires Ready(top, fs, ts, to) && Midway(ms, fs, ts, AsMap(to))
    ensures Reaches(Object(ms), DiffMembers(top, fs, ts), Object(to))
    decreases top, 0, |fs| + |ts|, 1
  {
    if fs == [] && ts == [] {
      MidwayEnds(ms, AsMap(to));
    } else {
      var diff := if fs == [] then 1 else if ts == [] then -1 else Compare(fs[0].key, ts[0].key, true);
      if diff == 0 {
        MatchApplies(top, ms, fs, ts, to);
      } else if diff < 0 {
        RemoveApplies(top, ms, fs, ts, to);
      } else {
        AddApplies(top, ms, fs, ts, to);
      }
    }
  }

  lemma {:induction false} RemoveApplies(top: Json, ms: seq<Member>, fs: seq<Member>, ts: seq<Member>, to: seq<Member>)
    requires Ready(top, fs, ts, to) && Midway(ms, fs, ts, AsMap(to))
    requires fs != [] && (ts != [] ==> Compare(fs[0].key, ts[0].key, true) < 0)
    ensures Reaches(Object(ms), DiffMembers(top, fs, ts), Object(to))
    decreases top, 0, |fs| + |ts|, 0
  {
    NotInTarget(ms, fs, ts, AsMap(to));
    var r := RemoveOnly(ms, fs, ts, AsMap(to));
    NewNamesAfter(fs, ts);
    MembersApply(top, r, fs[1..], ts, to);
    Continued(Object(ms), Object(r), [Patch(Remove, "/" + Encode(fs[0].key), None)],
              DiffMembers(top, fs[1..], ts), Object(to));
  }

  lemma {:induction false} AddApplies(top: Json, ms: seq<Member>, fs: seq<Member>, ts: seq<Member>, to: seq<Member>)
    requires Ready(top, fs, ts, to) && Midway(ms, fs, ts, AsMap(to))
    requires ts != [] && (fs != [] ==> Compare(fs[0].key, ts[0].key, true) > 0)
    ensures Reaches(Object(ms), DiffMembers(top, fs, ts), Object(to))
    decreases top, 0, |fs| + |ts|, 0
  {
    if fs != [] { CompareSymmetric(fs[0].key, ts[0].key, true); }
    BelowAll(ts[0].key, fs);
    var r := AddOnly(ms, fs, ts, AsMap(to));
    ReadyWithout(top, fs, ts, to);
    MembersApply(top, r, fs, ts[1..], to);
    Continued(Object(ms), Object(r), [Patch(Add, "/" + Encode(ts[0].key), Some(ts[0].value))],
              DiffMembers(top, fs, ts[1..]), Object(to));
  }

  lemma {:induction false} MatchApplies(top: Json, ms: seq<Member>, fs: seq<Member>, ts: seq<Member>, to: seq<Member>)
    requires Ready(top, fs, ts, to) && Midway(ms, fs, ts, AsMap(to))
    requires fs != [] && ts != [] && Compare(fs[0].key, ts[0].key, true) == 0
    ensures Reaches(Object(ms), DiffMembers(top, fs, ts), Object(to))
    decreases top, 0, |fs| + |ts|, 0
  {
    assert fs[0] in top.members;
    CompareEqual(fs[0].key, ts[0].key);
    DiffApplies(fs[0].value, ts[0].value);
    var r := MatchStep(ms, fs, ts, AsMap(to));
    NewNamesRest(fs, ts);
    MembersApply(top, r, fs[1..], ts[1..], to);
    Continued(Object(ms), Object(r), Prefixed("/" + Encode(fs[0].key), Diff(fs[0].value, ts[0].value)),
              DiffMembers(top, fs[1..], ts[1..]), Object(to));
  }

  lemma ReadyWithout(top: Json, fs: seq<Member>, ts: seq<Member>, to: seq<Member>)
    requires Ready(top, fs, ts, to) && ts != []
    ensures Ready(top, fs, ts[1..], to)
  {
    StrictTail(ts);
    forall i | 0 <= i < |ts[1..]|
      ensures DistinctKeys(ts[1..][i].value, true) && (ts[1..][i].key !in KeySet(fs) ==> Survives(ts[1..][i].key))
    {
      assert ts[1..][i] == ts[i + 1];
    }
  }

  lemma NewNamesRest(fs: seq<Member>, ts: seq<Member>)
    requires fs != [] && ts != [] && fs[0].key == ts[0].key && StrictlySorted(fs, true) && StrictlySorted(ts, true)
    requires NewNamesSurvive(fs, ts)
    ensures StrictlySorted(fs[1..], true) && StrictlySorted(ts[1..], true) && NewNamesSurvive(fs[1..], ts[1..])
  {
    StrictTail(fs);
    StrictTail(ts);
    forall i | 0 <= i < |ts[1..]| && ts[1..][i].key !in KeySet(fs[1..]) ensures Survives(ts[1..][i].key) {
      KeyOf(ts[1..], ts[1..][i]);
      assert ts[i + 1].key !in KeySet(fs);
    }
  }

  lemma NewNamesAfter(fs: seq<Member>, ts: seq<Member>)
    requires fs != [] && StrictlySorted(fs, true) && StrictlySorted(ts, true) && NewNamesSurvive(fs, ts)
    requires ts != [] ==> Compare(fs[0].key, ts[0].key, true) < 0
    ensures StrictlySorted(fs[1..], true) && NewNamesSurvive(fs[1..], ts)
  {
    StrictTail(fs);
    BelowAll(fs[0].key, ts);
    forall i | 0 <= i < |ts| && ts[i].key !in KeySet(fs[1..]) ensures Survives(ts[i].key) {
      KeyOf(ts, ts[i]);
      assert ts[i].key !in KeySet(fs);
    }
  }

  /** A name that comes before all that is left of the target is not in the target. */
  lemma NotInTarget(ms: seq<Member>, fs: seq<Member>, ts: seq<Member>, tm: map<string, Json>)
    requires Midway(ms, fs, ts, tm) && fs != [] && StrictlySorted(ts, true)
    requires ts != [] ==> Compare(fs[0].key, ts[0].key, true) < 0
    ensures fs[0].key !in tm
  {
    BelowAll(fs[0].key, ts);
  }

  lemma RemoveOnly(ms: seq<Member>, fs: seq<Member>, ts: seq<Member>, tm: map<string, Json>) returns (r: seq<Member>)
    requires Midway(ms, fs, ts, tm) && fs != [] && StrictlySorted(fs, true)
    requires fs[0].key !in tm && Survives(fs[0].key)
    ensures Midway(r, fs[1..], ts, tm)
    ensures
      var ps := [Patch(Remove, "/" + Encode(fs[0].key), None)];
      AllSimple(ps) && Apply(Object(ms), ps) == (0, Object(r))
  {
    var k := Find(ms, fs[0].key, false);
    WhereItIs(ms, fs, ts, tm);
    RemovesMember(ms, fs[0].key);
    StepRemove(ms, fs, ts, tm, k);
    r := RemoveAt(ms, k);
    assert [Patch(Remove, "/" + Encode(fs[0].key), None)][1..] == [];
  }

  lemma AddOnly(ms: seq<Member>, fs: seq<Member>, ts: seq<Member>, tm: map<string, Json>) returns (r: seq<Member>)
    requires Midway(ms, fs, ts, tm) && ts != [] && StrictlySorted(ts, true) && ts[0].key !in KeySet(fs)
    requires Survives(ts[0].key) && DistinctKeys(ts[0].value, true)
    ensures Midway(r, fs, ts[1..], tm)
    ensures
      var ps := [Patch(Add, "/" + Encode(ts[0].key), Some(ts[0].value))];
      AllSimple(ps) && Apply(Object(ms), ps) == (0, Object(r))
  {
    StepAdd(ms, fs, ts, tm);
    AddsMember(ms, ts[0].key, ts[0].value);
    r := ms + [ts[0]];
    assert ts[0] == Member(ts[0].key, ts[0].value);
    assert [Patch(Add, "/" + Encode(ts[0].key), Some(ts[0].value))][1..] == [];
  }

  /** Where the join starts. */
  lemma MidwayStarts(ms: seq<Member>, to: seq<Member>)
    requires Distinct(ms, true) && Distinct(to, true)
    requires forall i | 0 <= i < |ms| && Touched(ms[i], AsMap(to)) :: Reachable(ms, ms[i].key)
    ensures Midway(ms, Sort(ms, true), Sort(to, true), AsMap(to))
  {
    var fs, ts := Sort(ms, true), Sort(to, true);
    SortMembers(ms, true);
    SortAsMap(to);
    SortKeeps(ms, true);
    forall j | 0 <= j < |ms| ensures ms[j] in fs { assert ms[j] in multiset(fs); }
    assert AsMap(ts).Keys == KeySet(ts);
  }

  /** Applying the generated patches to `f` succeeds and gives `t` up to member order. */
  lemma {:induction false} DiffApplies(f: Json, t: Json)
    requires Editable(f, t) && DistinctKeys(t, true)
    ensures Turns(f, t)
    decreases f, 1
  {
    DiffShaped(f, t);
    SameSelf(t);
    if SameType(f, t) {
      match f
      case Array(items) => ItemsApply(items, items, t.items, 0);
      case Object(ms) => ObjectApplies(f, t);
      case Number(d) => if !CloseNumber(d, t.d) { assert [Patch(Replace, "", Some(t))][1..] == []; }
      case String(s) => if s != t.s { assert [Patch(Replace, "", Some(t))][1..] == []; }
      case _ =>
    } else {
      assert [Patch(Replace, "", Some(t))][1..] == [];
    }
  }

  lemma {:induction false} ObjectApplies(f: Json, t: Json)
    requires f.Object? && t.Object? && Editable(f, t) && DistinctKeys(t, true)
    ensures Turns(f, t)
    decreases f, 0, |f.members| + |t.members| + 1
  {
    SortMembers(f.members, true);
    MidwayStarts(f.members, t.members);
    SortLength(f.members);
    SortLength(t.members);
    ReadyStarts(f, t);
    MembersApply(f, f.members, Sort(f.members, true), Sort(t.members, true), t.members);
  }

  lemma ReadyStarts(f: Json, t: Json)
    requires f.Object? && t.Object? && Editable(f, t) && DistinctKeys(t, true)
    ensures Ready(f, Sort(f.members, true), Sort(t.members, true), t.members)
  {
    var fs, ts := Sort(f.members, true), Sort(t.members, true);
    SortMembers(f.members, true);
    SortMembers(t.members, true);
    SortAsMap(f.members);
    SortStrict(f.members, true);
    SortStrict(t.members, true);
    forall i | 0 <= i < |fs| ensures fs[i] in f.members && EditableMember(fs[i], AsMap(t.members)) {
      var j :| 0 <= j < |f.members| && f.members[j] == fs[i];
    }
    forall i | 0 <= i < |ts| ensures DistinctKeys(ts[i].value, true) && (ts[i].key !in KeySet(fs) ==> Survives(ts[i].key)) {
      var j :| 0 <= j < |t.members| && t.members[j] == ts[i];
    }
  }

  lemma SortLength(ms: seq<Member>)
    ensures |Sort(ms, true)| == |ms|
  {
    SortKeeps(ms, true);
    assert |multiset(ms)| == |ms| && |multiset(Sort(ms, true))| == |Sort(ms, true)|;
  }

  // ===== the generated document

  lemma DecodeComposed(p: Patch)
    requires Simple(p)
    ensures Item(ToJson(p), "path", true) == Some(String(p.path))
    ensures DecodeOp(ToJson(p), true) == p.op
    ensures Item(ToJson(p), "value", true) == p.value
  {
    var ms := ToJson(p).members;
    assert ms[0].key == "op" && ms[1].key == "path" && (p.value.Some? ==> ms[2].key == "value");
    assert "op" != "path" && "op" != "value" && "path" != "value";
    assert "add" != "remove" && "add" != "replace" && "remove" != "replace";
    assert Find(ms, "path", true) == 1 && Find(ms, "op", true) == 0;
    assert Find(ms, "value", true) == 2;
  }

  /** Applying a composed patch is applying what it says. */
  lemma ApplyComposed(root: Json, p: Patch)
    requires Simple(p)
    ensures ApplyPatch(root, ToJson(p), true) == ApplyOp(root, p, true)
  {
    DecodeComposed(p);
  }

  lemma {:induction false} ApplyDocument(root: Json, ps: seq<Patch>, js: seq<Json>)
    requires AllSimple(ps) && |js| == |ps| && forall i | 0 <= i < |ps| :: js[i] == ToJson(ps[i])
    ensures ApplyEach(root, js, true) == Apply(root, ps)
    decreases |ps|
  {
    if ps != [] {
      ApplyComposed(root, ps[0]);
      ApplyDocument(ApplyOp(root, ps[0], true).1, ps[1..], js[1..]);
    }
  }

  /** The round trip: generating patches from `from` to `to` and applying them to a copy of
      `from` reports success, and compare_json finds the outcome equal to `to`. */
  lemma PatchRoundTrip(from: Json, to: Json)
    requires Editable(from, to) && DistinctKeys(to, true)
    ensures
      var (status, r) := ApplyPatches(from, GeneratePatches(from, to), true);
      status == 0 && Same(r, to) && CompareJson(r, to, true)
  {
    DiffApplies(from, to);
    ApplyDocument(from, Diff(from, to), GeneratePatches(from, to).items);
    SameImpliesCompare(ApplyPatches(from, GeneratePatches(from, to), true).1, to);
  }
}
