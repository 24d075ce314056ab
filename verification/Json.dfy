/**
 JSON trees as cJSON holds them: an object is a list of named children in order, names may repeat.
 Numbers are real; `CloseNumber` is the comparison the library itself uses for them.
 */
module Json {

  datatype Option<+T> = None | Some(value: T)

  datatype Member = Member(key: string, value: Json)

  datatype Json =
    | Invalid
    | Null
    | False
    | True
    | Number(d: real)
    | String(s: string)
    | Array(items: seq<Json>)
    | Object(members: seq<Member>)

  // ----- numbers

  const INT_MAX: int := 0x7FFF_FFFF
  const INT_MIN: int := -0x8000_0000
  const DBL_EPSILON: real := 1.0 / 4503599627370496.0

  function Abs(x: real): real { if x < 0.0 then -x else x }

  /** compare_double */
  predicate CompareDouble(a: real, b: real)
  {
    Abs(a - b) <= (if Abs(a) > Abs(b) then Abs(a) else Abs(b)) * DBL_EPSILON
  }

  /** The valueint that goes with a valuedouble: truncated toward zero and saturated. */
  function ValueInt(d: real): int
  {
    if d >= INT_MAX as real then INT_MAX
    else if d <= INT_MIN as real then INT_MIN
    else if d >= 0.0 then d.Floor
    else -((-d).Floor)
  }

  predicate CloseNumber(a: real, b: real) { ValueInt(a) == ValueInt(b) && CompareDouble(a, b) }

  // ----- member names

  function ToLower(c: char): char { if 'A' <= c <= 'Z' then c + 32 as char else c }

  function Fold(c: char, cs: bool): char { if cs then c else ToLower(c) }

  /** compare_strings: strcmp, or strcmp after tolower; only the sign is used */
  function Compare(a: string, b: string, cs: bool): int
  {
    if a == "" then (if b == "" then 0 else -1)
    else if b == "" then 1
    else if Fold(a[0], cs) == Fold(b[0], cs) then Compare(a[1..], b[1..], cs)
    else Fold(a[0], cs) as int - Fold(b[0], cs) as int
  }

  lemma {:induction false} CompareSymmetric(a: string, b: string, cs: bool)
    ensures Compare(a, b, cs) == 0 <==> Compare(b, a, cs) == 0
    ensures Compare(a, b, cs) < 0 <==> Compare(b, a, cs) > 0
  {
    if a != "" && b != "" { CompareSymmetric(a[1..], b[1..], cs); }
  }

  lemma {:induction false} CompareTransitive(a: string, b: string, c: string, cs: bool)
    requires Compare(a, b, cs) <= 0 && Compare(b, c, cs) <= 0
    ensures Compare(a, c, cs) <= 0
    ensures Compare(a, b, cs) < 0 || Compare(b, c, cs) < 0 ==> Compare(a, c, cs) < 0
  {
    if a != "" && b != "" && c != "" && Fold(a[0], cs) == Fold(b[0], cs) == Fold(c[0], cs) {
      CompareTransitive(a[1..], b[1..], c[1..], cs);
    }
  }

  lemma {:induction false} CompareEqual(a: string, b: string)
    ensures Compare(a, b, true) == 0 <==> a == b
  {
    if a != "" && b != "" {
      CompareEqual(a[1..], b[1..]);
      assert a == [a[0]] + a[1..] && b == [b[0]] + b[1..];
    }
  }

  /** Equal names are equal in either comparison. */
  lemma {:induction false} CompareSelf(a: string, cs: bool)
    ensures Compare(a, a, cs) == 0
  {
    if a != "" { CompareSelf(a[1..], cs); }
  }

  predicate NoUpper(s: string) { forall i | 0 <= i < |s| :: !('A' <= s[i] <= 'Z') }

  /** Without upper-case letters both comparisons agree. */
  lemma {:induction false} CompareNoUpper(a: string, b: string)
    requires NoUpper(a) && NoUpper(b)
    ensures Compare(a, b, false) == Compare(a, b, true)
  {
    if a != "" && b != "" { CompareNoUpper(a[1..], b[1..]); }
  }

  // ----- member lists

  function Folded(s: string): (r: string)
    ensures |r| == |s|
  {
    seq(|s|, i requires 0 <= i < |s| => ToLower(s[i]))
  }

  /** Two names are the same one: strcmp, or case_insensitive_strcmp, gives 0. */
  predicate SameName(a: string, b: string, cs: bool)
  {
    if cs then a == b else Folded(a) == Folded(b)
  }

  lemma {:induction false} NameCompare(a: string, b: string, cs: bool)
    ensures SameName(a, b, cs) <==> Compare(a, b, cs) == 0
  {
    if cs { CompareEqual(a, b); } else { FoldedCompare(a, b); }
  }

  lemma {:induction false} FoldedCompare(a: string, b: string)
    ensures Folded(a) == Folded(b) <==> Compare(a, b, false) == 0
  {
    if a != "" && b != "" {
      FoldedCompare(a[1..], b[1..]);
      FoldedCons(a);
      FoldedCons(b);
      assert Folded(a)[1..] == Folded(a[1..]) && Folded(b)[1..] == Folded(b[1..]);
    }
  }

  lemma FoldedCons(a: string)
    requires a != ""
    ensures Folded(a) == [ToLower(a[0])] + Folded(a[1..])
  {
  }

  /** Index of the first member with this name, or the length of the list. */
  function Find(ms: seq<Member>, key: string, cs: bool): (i: nat)
    ensures i <= |ms|
    ensures i < |ms| ==> SameName(key, ms[i].key, cs)
    ensures forall j | 0 <= j < i :: !SameName(key, ms[j].key, cs)
  {
    if ms == [] then 0
    else if SameName(key, ms[0].key, cs) then 0
    else 1 + Find(ms[1..], key, cs)
  }

  /** No two members have the same name. */
  predicate Distinct(ms: seq<Member>, cs: bool)
  {
    forall i, j | 0 <= i < j < |ms| :: !SameName(ms[i].key, ms[j].key, cs)
  }

  /** Names distinct ignoring case are distinct. */
  lemma DistinctFolded(ms: seq<Member>)
    requires Distinct(ms, false)
    ensures Distinct(ms, true)
  {
    forall i, j | 0 <= i < j < |ms| ensures ms[i].key != ms[j].key {
      assert !SameName(ms[i].key, ms[j].key, false);
    }
  }

  function KeySet(ms: seq<Member>): set<string> { set i | 0 <= i < |ms| :: ms[i].key }

  /** The object a list of members with distinct names stands for. */
  function AsMap(ms: seq<Member>): (m: map<string, Json>)
    requires Distinct(ms, true)
    ensures forall i | 0 <= i < |ms| :: ms[i].key in m && m[ms[i].key] == ms[i].value
    ensures m.Keys == KeySet(ms)
  {
    assert forall i | 0 <= i < |ms| :: ms[i].key in KeySet(ms) && Find(ms, ms[i].key, true) == i;
    map k | k in KeySet(ms) :: ms[Find(ms, k, true)].value
  }

  lemma AsMapFind(ms: seq<Member>, key: string)
    requires Distinct(ms, true)
    ensures key in AsMap(ms) <==> Find(ms, key, true) < |ms|
    ensures key in AsMap(ms) ==> AsMap(ms)[key] == ms[Find(ms, key, true)].value
  {
  }

  function RemoveAt<T>(ms: seq<T>, i: nat): (r: seq<T>)
    requires i < |ms|
    ensures |r| == |ms| - 1
    ensures forall j | 0 <= j < |r| :: r[j] == if j < i then ms[j] else ms[j + 1]
  {
    ms[..i] + ms[i + 1..]
  }

  lemma DistinctRemove(ms: seq<Member>, i: nat)
    requires i < |ms| && Distinct(ms, true)
    ensures Distinct(RemoveAt(ms, i), true)
    ensures forall j | 0 <= j < |ms| && j != i :: ms[j].key != ms[i].key
  {
    forall j | 0 <= j < |ms| && j != i ensures ms[j].key != ms[i].key {
      assert !SameName(ms[if j < i then j else i].key, ms[if j < i then i else j].key, true);
    }
  }

  lemma AsMapRemove(ms: seq<Member>, i: nat)
    requires i < |ms| && Distinct(ms, true)
    ensures Distinct(RemoveAt(ms, i), true)
    ensures AsMap(RemoveAt(ms, i)) == AsMap(ms) - {ms[i].key}
  {
    DistinctRemove(ms, i);
    RemoveKeeps(ms, i);
    RemoveOnlyKeeps(ms, i);
  }

  /** If b has every member of a with this name, its object holds the same under the name. */
  lemma SameUnder(a: seq<Member>, b: seq<Member>, k: string)
    requires Distinct(a, true) && Distinct(b, true) && forall m | m in a && m.key == k :: m in b
    ensures k in AsMap(a) ==> k in AsMap(b) && AsMap(b)[k] == AsMap(a)[k]
  {
    AsMapFind(a, k);
    var i := Find(a, k, true);
    if i < |a| {
      assert a[i] in a;
      var j :| 0 <= j < |b| && b[j] == a[i];
    }
  }

  lemma StaysIn(ms: seq<Member>, i: nat, m: Member)
    requires i < |ms| && m in ms && m != ms[i]
    ensures m in RemoveAt(ms, i)
  {
    var j :| 0 <= j < |ms| && ms[j] == m;
    assert RemoveAt(ms, i)[if j < i then j else j - 1] == m;
  }

  lemma RemoveKeeps(ms: seq<Member>, i: nat)
    requires i < |ms| && Distinct(ms, true) && Distinct(RemoveAt(ms, i), true)
    ensures forall k | k in AsMap(ms) && k != ms[i].key ::
              k in AsMap(RemoveAt(ms, i)) && AsMap(RemoveAt(ms, i))[k] == AsMap(ms)[k]
  {
    forall k | k in AsMap(ms) && k != ms[i].key
      ensures k in AsMap(RemoveAt(ms, i)) && AsMap(RemoveAt(ms, i))[k] == AsMap(ms)[k]
    {
      forall m | m in ms && m.key == k ensures m in RemoveAt(ms, i) { StaysIn(ms, i, m); }
      SameUnder(ms, RemoveAt(ms, i), k);
    }
  }

  lemma RemoveOnlyKeeps(ms: seq<Member>, i: nat)
    requires i < |ms| && Distinct(ms, true) && Distinct(RemoveAt(ms, i), true)
    ensures forall k | k in AsMap(RemoveAt(ms, i)) :: k in AsMap(ms) && k != ms[i].key
  {
    DistinctRemove(ms, i);
    forall k | k in KeySet(RemoveAt(ms, i)) ensures k in KeySet(ms) && k != ms[i].key { RemovedName(ms, i, k); }
  }

  lemma RemovedName(ms: seq<Member>, i: nat, k: string)
    requires i < |ms| && k in KeySet(RemoveAt(ms, i)) && forall j | 0 <= j < |ms| && j != i :: ms[j].key != ms[i].key
    ensures k in KeySet(ms) && k != ms[i].key
  {
    var r := RemoveAt(ms, i);
    var j :| 0 <= j < |r| && r[j].key == k;
    assert r[j] == ms[if j < i then j else j + 1];
  }

  lemma AsMapAppend(ms: seq<Member>, m: Member)
    requires Distinct(ms, true) && m.key !in AsMap(ms)
    ensures Distinct(ms + [m], true)
    ensures AsMap(ms + [m]) == AsMap(ms)[m.key := m.value]
  {
    DistinctAppend(ms, m);
    AppendKeeps(ms, m);
    AppendKeys(ms, m);
    assert (ms + [m])[|ms|] == m;
  }

  lemma AppendKeys(ms: seq<Member>, m: Member)
    ensures KeySet(ms + [m]) == KeySet(ms) + {m.key}
  {
    var r := ms + [m];
    assert r[|ms|].key in KeySet(r);
    forall i | 0 <= i < |ms| ensures ms[i].key in KeySet(r) { assert r[i].key in KeySet(r); }
  }

  lemma AppendKeeps(ms: seq<Member>, m: Member)
    requires Distinct(ms, true) && Distinct(ms + [m], true)
    ensures forall k | k in AsMap(ms) :: k in AsMap(ms + [m]) && AsMap(ms + [m])[k] == AsMap(ms)[k]
  {
    var r := ms + [m];
    forall k | k in AsMap(ms) ensures k in AsMap(r) && AsMap(r)[k] == AsMap(ms)[k] {
      var j :| 0 <= j < |ms| && ms[j].key == k;
      assert r[j] == ms[j];
    }
  }

  lemma DistinctAppend(ms: seq<Member>, m: Member)
    requires Distinct(ms, true) && m.key !in KeySet(ms)
    ensures Distinct(ms + [m], true)
  {
    forall i | 0 <= i < |ms| ensures ms[i].key != m.key { assert ms[i].key in KeySet(ms); }
  }

  lemma DistinctUpdate(ms: seq<Member>, i: nat, v: Json)
    requires i < |ms| && Distinct(ms, true)
    ensures Distinct(ms[i := Member(ms[i].key, v)], true)
  {
    var r := ms[i := Member(ms[i].key, v)];
    assert forall j | 0 <= j < |ms| :: r[j].key == ms[j].key;
    forall j, k | 0 <= j < k < |r| ensures !SameName(r[j].key, r[k].key, true) {
      assert !SameName(ms[j].key, ms[k].key, true);
    }
  }

  /** Two lists with the same members and distinct names stand for the same object. */
  lemma AsMapPermutation(a: seq<Member>, b: seq<Member>)
    requires Distinct(a, true) && Distinct(b, true) && multiset(a) == multiset(b)
    ensures AsMap(a) == AsMap(b)
  {
    AsMapIncluded(a, b);
    AsMapIncluded(b, a);
  }

  lemma AsMapIncluded(a: seq<Member>, b: seq<Member>)
    requires Distinct(a, true) && Distinct(b, true) && multiset(a) == multiset(b)
    ensures forall k | k in AsMap(a) :: k in AsMap(b) && AsMap(b)[k] == AsMap(a)[k]
  {
    forall k | k in AsMap(a) ensures k in AsMap(b) && AsMap(b)[k] == AsMap(a)[k] {
      var i :| 0 <= i < |a| && a[i].key == k;
      assert a[i] in multiset(b);
      var j :| 0 <= j < |b| && b[j] == a[i];
    }
  }

  // ----- trees

  /** In every object of the tree the names are distinct. */
  predicate DistinctKeys(j: Json, cs: bool)
  {
    match j
    case Array(items) => forall i | 0 <= i < |items| :: DistinctKeys(items[i], cs)
    case Object(ms) => Distinct(ms, cs) && forall i | 0 <= i < |ms| :: DistinctKeys(ms[i].value, cs)
    case _ => true
  }

  /** Equality up to the order of members, with numbers compared as the library compares them; it
      also says that the names are distinct in every object. */
  predicate Same(a: Json, b: Json)
  {
    match a
    case Number(d) => b.Number? && CloseNumber(d, b.d)
    case Array(items) => b.Array? && |items| == |b.items| && forall i | 0 <= i < |items| :: Same(items[i], b.items[i])
    case Object(ms) =>
      && b.Object? && Distinct(ms, true) && Distinct(b.members, true)
      && AsMap(ms).Keys == AsMap(b.members).Keys
      && forall i | 0 <= i < |ms| :: ms[i].key in AsMap(b.members) && Same(ms[i].value, AsMap(b.members)[ms[i].key])
    case _ => a == b
  }

  lemma {:induction false} SameSelf(a: Json)
    requires DistinctKeys(a, true)
    ensures Same(a, a)
  {
    match a
    case Array(items) => forall i | 0 <= i < |items| ensures Same(items[i], items[i]) { SameSelf(items[i]); }
    case Object(ms) => forall i | 0 <= i < |ms| ensures Same(ms[i].value, ms[i].value) { SameSelf(ms[i].value); }
    case _ =>
  }

  // ----- nesting

  function Max(a: nat, b: nat): nat { if a < b then b else a }

  function Depth(v: Json): nat
  {
    match v
    case Array(items) => 1 + ItemsDepth(items)
    case Object(ms) => 1 + MembersDepth(ms)
    case _ => 0
  }

  function ItemsDepth(items: seq<Json>): nat
  {
    if items == [] then 0 else Max(Depth(items[0]), ItemsDepth(items[1..]))
  }

  function MembersDepth(ms: seq<Member>): nat
  {
    if ms == [] then 0 else Max(Depth(ms[0].value), MembersDepth(ms[1..]))
  }

  lemma {:induction false} MemberDepth(ms: seq<Member>, i: nat)
    requires i < |ms|
    ensures Depth(ms[i].value) <= MembersDepth(ms)
  {
    if i > 0 { MemberDepth(ms[1..], i - 1); }
  }

  lemma {:induction false} MembersNoDeeper(ms: seq<Member>, n: nat)
    requires forall i | 0 <= i < |ms| :: Depth(ms[i].value) <= n
    ensures MembersDepth(ms) <= n
  {
    if ms != [] { MembersNoDeeper(ms[1..], n); }
  }
}
