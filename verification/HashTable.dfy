/**
 The hash table of uthash: an index of bucket chains over a list of elements in application order.
 HASH_ADD_KEYPTR, HASH_DELETE and HASH_FIND as functions of the table, and that after every run the
 index agrees with the list, whatever the hash function and however often the buckets doubled.
 */
module HashTable {

  datatype Option<+T> = None | Some(value: T)

  /** An element with its hash handle; `id` is its address. */
  datatype Element = Element(id: nat, key: string, hashv: nat)

  datatype Bucket = Bucket(chain: seq<Element>, count: nat, expandMult: nat)

  /** The list in application order and, if it is not empty, the table. */
  datatype Table = Table(items: seq<Element>, buckets: seq<Bucket>, log2: nat, ideal: nat, nonideal: nat,
                         ineff: nat, noexpand: bool)

  const INITIAL_LOG2: nat := 5
  const THRESHOLD: nat := 10

  const EMPTY_BUCKET: Bucket := Bucket([], 0, 0)

  // ----- bucket numbers

  function Pow2(k: nat): (n: nat)
    ensures n >= 1
  {
    if k == 0 then 1 else 2 * Pow2(k - 1)
  }

  /** Bitwise and of two unsigned numbers. */
  function BitAnd(a: nat, b: nat): nat
  {
    if a == 0 || b == 0 then 0 else 2 * BitAnd(a / 2, b / 2) + (a % 2) * (b % 2)
  }

  /** HASH_TO_BKT */
  function ToBucket(hashv: nat, num: nat): nat
    requires num > 0
  {
    BitAnd(hashv, num - 1)
  }

  lemma MulAtLeast(n: int, d: int)
    requires n >= 0 && d >= 1
    ensures n * d >= n
  {
    assert n * d == n * (d - 1) + n;
  }

  lemma Distribute(n: int, a: int, b: int)
    ensures n * a - n * b == n * (a - b)
  {
  }

  /** Quotient and remainder are unique. */
  lemma RemainderOf(a: int, n: int, q: int, r: int)
    requires n > 0 && a == n * q + r && 0 <= r < n
    ensures a % n == r && a / n == q
  {
    var q2, r2 := a / n, a % n;
    assert a == n * q2 + r2;
    Distribute(n, q, q2);
    Distribute(n, q2, q);
    if q < q2 { MulAtLeast(n, q2 - q); }
    if q2 < q { MulAtLeast(n, q - q2); }
  }

  lemma HalvedRemainder(a: nat, half: nat)
    requires half > 0
    ensures a % (2 * half) == 2 * ((a / 2) % half) + a % 2
    ensures a / (2 * half) == a / 2 / half
  {
    var q, r := a / 2 / half, (a / 2) % half;
    assert a / 2 == half * q + r;
    assert a == 2 * (a / 2) + a % 2;
    assert (2 * half) * q == 2 * (half * q);
    RemainderOf(a, 2 * half, q, 2 * r + a % 2);
  }

  /** Masking with a power of two less one is the remainder. */
  lemma {:induction false} MaskIsRemainder(a: nat, k: nat)
    ensures BitAnd(a, Pow2(k) - 1) == a % Pow2(k)
    decreases k
  {
    if k > 0 {
      var half := Pow2(k - 1);
      MaskIsRemainder(a / 2, k - 1);
      HalvedRemainder(a, half);
      OddMask(a, half);
    }
  }

  lemma OddMask(a: nat, half: nat)
    requires half > 0
    ensures BitAnd(a, 2 * half - 1) == 2 * BitAnd(a / 2, half - 1) + a % 2
  {
    assert (2 * half - 1) / 2 == half - 1 && (2 * half - 1) % 2 == 1;
  }

  /** Shift right. */
  function Shift(a: nat, k: nat): nat
  {
    if k == 0 then a else Shift(a / 2, k - 1)
  }

  lemma {:induction false} ShiftIsQuotient(a: nat, k: nat)
    ensures Shift(a, k) == a / Pow2(k)
    decreases k
  {
    if k > 0 {
      ShiftIsQuotient(a / 2, k - 1);
      HalvedRemainder(a, Pow2(k - 1));
    }
  }

  lemma BucketInRange(hashv: nat, k: nat)
    ensures ToBucket(hashv, Pow2(k)) < Pow2(k)
  {
    MaskIsRemainder(hashv, k);
  }

  // ----- the operations

  const NEW_TABLE: Table := Table([], [], 0, 0, 0, 0, false)

  /** HASH_MAKE_TABLE */
  function MakeTable(): Table
  {
    NEW_TABLE.(buckets := seq(Pow2(INITIAL_LOG2), i => EMPTY_BUCKET), log2 := INITIAL_LOG2)
  }

  /** The elements of all chains, bucket by bucket. */
  function Flatten(bs: seq<Bucket>): seq<Element>
  {
    if bs == [] then [] else bs[0].chain + Flatten(bs[1..])
  }

  predicate InRange(n: nat, e: Element) { n > 0 && ToBucket(e.hashv, n) < n }

  /** One step of HASH_EXPAND_BUCKETS: an element goes to the front of its new bucket. */
  function Place(bs: seq<Bucket>, e: Element, ideal: nat, nonideal: nat): (r: (seq<Bucket>, nat))
    requires InRange(|bs|, e)
    ensures |r.0| == |bs|
  {
    var i := ToBucket(e.hashv, |bs|);
    var count := bs[i].count + 1;
    var over := count > ideal;
    var mult := if over && count > bs[i].expandMult * ideal then bs[i].expandMult + 1 else bs[i].expandMult;
    (bs[i := Bucket([e] + bs[i].chain, count, mult)], if over then nonideal + 1 else nonideal)
  }

  function PlaceAll(bs: seq<Bucket>, es: seq<Element>, ideal: nat, nonideal: nat): (r: (seq<Bucket>, nat))
    requires forall e | e in es :: InRange(|bs|, e)
    ensures |r.0| == |bs|
    decreases es
  {
    if es == [] then (bs, nonideal)
    else
      var (placed, n) := Place(bs, es[0], ideal, nonideal);
      PlaceAll(placed, es[1..], ideal, n)
  }

  /** ideal_chain_maxlen for twice the buckets */
  function IdealLength(items: nat, log2: nat): nat
  {
    Shift(items, log2 + 1) + if BitAnd(items, 2 * Pow2(log2) - 1) != 0 then 1 else 0
  }

  /** HASH_EXPAND_BUCKETS */
  function Expand(t: Table): Table
    requires |t.buckets| == Pow2(t.log2)
  {
    var ideal := IdealLength(|t.items|, t.log2);
    var empty := seq(2 * |t.buckets|, i => EMPTY_BUCKET);
    assert forall e | e in Flatten(t.buckets) :: InRange(|empty|, e) by {
      forall e | e in Flatten(t.buckets) ensures InRange(|empty|, e) { BucketInRange(e.hashv, t.log2 + 1); }
    }
    var (buckets, nonideal) := PlaceAll(empty, Flatten(t.buckets), ideal, 0);
    var ineff := if nonideal > |t.items| / 2 then t.ineff + 1 else 0;
    Table(t.items, buckets, t.log2 + 1, ideal, nonideal, ineff, t.noexpand || ineff > 1)
  }

  /** The element is appended to the list and put at the front of its bucket. */
  function Insert(t: Table, e: Element): (r: Table)
    requires |t.buckets| == Pow2(t.log2)
    ensures |r.buckets| == Pow2(r.log2)
  {
    BucketInRange(e.hashv, t.log2);
    var i := ToBucket(e.hashv, |t.buckets|);
    var b := t.buckets[i];
    t.(items := t.items + [e], buckets := t.buckets[i := Bucket([e] + b.chain, b.count + 1, b.expandMult)])
  }

  /** Whether the bucket of a new element has become too long. */
  predicate Overfull(t: Table, e: Element)
    requires |t.buckets| == Pow2(t.log2)
  {
    BucketInRange(e.hashv, t.log2);
    var b := t.buckets[ToBucket(e.hashv, |t.buckets|)];
    b.count >= (b.expandMult + 1) * THRESHOLD && !t.noexpand
  }

  /** HASH_ADD_KEYPTR_BYHASHVALUE */
  function Add(t: Table, e: Element): Table
    requires t.items != [] ==> |t.buckets| == Pow2(t.log2)
  {
    var added := Insert(if t.items == [] then MakeTable() else t, e);
    if Overfull(added, e) then Expand(added) else added
  }

  function Without(es: seq<Element>, e: Element): seq<Element>
  {
    if es == [] then [] else if es[0] == e then es[1..] else [es[0]] + Without(es[1..], e)
  }

  /** HASH_DELETE_HH */
  function Delete(t: Table, e: Element): Table
    requires t.items != [] ==> |t.buckets| == Pow2(t.log2)
  {
    if |t.items| <= 1 then NEW_TABLE
    else
      BucketInRange(e.hashv, t.log2);
      var i := ToBucket(e.hashv, |t.buckets|);
      var b := t.buckets[i];
      t.(items := Without(t.items, e),
         buckets := t.buckets[i := Bucket(Without(b.chain, e), if b.count > 0 then b.count - 1 else 0, b.expandMult)])
  }

  function FindIn(chain: seq<Element>, key: string, hashv: nat): Option<Element>
  {
    if chain == [] then None
    else if chain[0].hashv == hashv && chain[0].key == key then Some(chain[0])
    else FindIn(chain[1..], key, hashv)
  }

  /** HASH_FIND */
  function Find(t: Table, key: string, hash: string -> nat): Option<Element>
    requires t.items != [] ==> |t.buckets| == Pow2(t.log2)
  {
    if t.items == [] then None
    else
      BucketInRange(hash(key), t.log2);
      FindIn(t.buckets[ToBucket(hash(key), |t.buckets|)].chain, key, hash(key))
  }

  // ----- the invariant: every element in its own bucket, exact counters, no element twice

  /** Every chain has its count, and its elements belong to it. */
  predicate Placed(bs: seq<Bucket>)
  {
    forall i | 0 <= i < |bs| :: bs[i].count == |bs[i].chain| && forall e | e in bs[i].chain :: ToBucket(e.hashv, |bs|) == i
  }

  /** The index part of the invariant: every element of the list is in one chain. */
  predicate Indexed(t: Table)
  {
    |t.buckets| == Pow2(t.log2) && Placed(t.buckets) && multiset(Flatten(t.buckets)) == multiset(t.items)
  }

  /** The list part: elements carry the hash of their key, and none is there twice. */
  predicate Listed(items: seq<Element>, hash: string -> nat)
  {
    && (forall e | e in items :: e.hashv == hash(e.key))
    && (forall i, j | 0 <= i < j < |items| :: items[i] != items[j])
  }

  predicate Valid(t: Table, hash: string -> nat)
  {
    Listed(t.items, hash) && if t.items == [] then t == NEW_TABLE else Indexed(t)
  }

  // ----- chains

  lemma AddBoth(a: multiset<Element>, r: multiset<Element>, s: multiset<Element>, b: multiset<Element>, c: multiset<Element>)
    requires r + c == s + b
    ensures (a + r) + c == (a + s) + b
  {
    assert (a + r) + c == a + (r + c) && (a + s) + b == a + (s + b);
  }

  lemma {:induction false} FlattenUpdate(bs: seq<Bucket>, i: nat, b: Bucket)
    requires i < |bs|
    ensures multiset(Flatten(bs[i := b])) + multiset(bs[i].chain) == multiset(Flatten(bs)) + multiset(b.chain)
  {
    var r := bs[i := b];
    var rest, tail := Flatten(r[1..]), Flatten(bs[1..]);
    if i == 0 {
      assert r[1..] == bs[1..];
      assert multiset(b.chain + rest) == multiset(b.chain) + multiset(rest);
    } else {
      FlattenUpdate(bs[1..], i - 1, b);
      assert r[1..] == bs[1..][i - 1 := b];
      AddBoth(multiset(bs[0].chain), multiset(rest), multiset(tail), multiset(b.chain), multiset(bs[i].chain));
      assert multiset(bs[0].chain + rest) == multiset(bs[0].chain) + multiset(rest);
      assert multiset(bs[0].chain + tail) == multiset(bs[0].chain) + multiset(tail);
    }
  }

  lemma {:induction false} InFlatten(bs: seq<Bucket>, e: Element) returns (i: nat)
    requires e in Flatten(bs)
    ensures i < |bs| && e in bs[i].chain
  {
    if e in bs[0].chain {
      i := 0;
    } else {
      var j := InFlatten(bs[1..], e);
      i := j + 1;
    }
  }

  lemma {:induction false} ChainInFlatten(bs: seq<Bucket>, i: nat, e: Element)
    requires i < |bs| && e in bs[i].chain
    ensures e in Flatten(bs)
  {
    if i > 0 { ChainInFlatten(bs[1..], i - 1, e); }
  }

  /** An element is in the chain of its own bucket if it is in the list, and in no other chain. */
  lemma InOwnBucket(t: Table, hash: string -> nat, e: Element)
    requires Valid(t, hash) && t.items != []
    ensures ToBucket(e.hashv, |t.buckets|) < |t.buckets|
    ensures e in t.items <==> e in t.buckets[ToBucket(e.hashv, |t.buckets|)].chain
  {
    BucketInRange(e.hashv, t.log2);
    assert e in t.items <==> e in multiset(Flatten(t.buckets));
    if e in t.items {
      var i := InFlatten(t.buckets, e);
    }
    if e in t.buckets[ToBucket(e.hashv, |t.buckets|)].chain {
      ChainInFlatten(t.buckets, ToBucket(e.hashv, |t.buckets|), e);
    }
  }

  lemma {:induction false} FindInChain(chain: seq<Element>, key: string, hashv: nat)
    ensures
      match FindIn(chain, key, hashv)
      case Some(e) => e in chain && e.key == key && e.hashv == hashv
      case None => forall e | e in chain :: !(e.key == key && e.hashv == hashv)
  {
    if chain != [] { FindInChain(chain[1..], key, hashv); }
  }

  /** HASH_FIND finds an element exactly when the list holds the key. */
  lemma FindAgrees(t: Table, hash: string -> nat, key: string)
    requires Valid(t, hash)
    ensures
      match Find(t, key, hash)
      case Some(e) => e in t.items && e.key == key
      case None => forall e | e in t.items :: e.key != key
  {
    if t.items != [] {
      BucketInRange(hash(key), t.log2);
      var chain := t.buckets[ToBucket(hash(key), |t.buckets|)].chain;
      FindInChain(chain, key, hash(key));
      forall e | e in t.items ensures e.key == key ==> e in chain { InOwnBucket(t, hash, e); }
      forall e | e in chain ensures e in t.items {
        ChainInFlatten(t.buckets, ToBucket(hash(key), |t.buckets|), e);
        assert e in multiset(t.items);
      }
    }
  }

  // ----- expansion

  function Over(b: Bucket, ideal: nat): nat { if b.count > ideal then b.count - ideal else 0 }

  /** How many elements are beyond the ideal length of their chain. */
  function Excess(bs: seq<Bucket>, ideal: nat): nat
  {
    if bs == [] then 0 else Over(bs[0], ideal) + Excess(bs[1..], ideal)
  }

  lemma {:induction false} ExcessUpdate(bs: seq<Bucket>, i: nat, b: Bucket, ideal: nat)
    requires i < |bs|
    ensures Excess(bs[i := b], ideal) + Over(bs[i], ideal) == Excess(bs, ideal) + Over(b, ideal)
  {
    var r := bs[i := b];
    if i == 0 {
      assert r[1..] == bs[1..];
    } else {
      ExcessUpdate(bs[1..], i - 1, b, ideal);
      assert r[0] == bs[0] && r[1..] == bs[1..][i - 1 := b];
    }
  }

  lemma {:induction false} EmptyBuckets(n: nat, ideal: nat)
    ensures var bs := seq(n, i => EMPTY_BUCKET); Flatten(bs) == [] && Placed(bs) && Excess(bs, ideal) == 0
  {
    var bs := seq(n, i => EMPTY_BUCKET);
    if n > 0 {
      EmptyBuckets(n - 1, ideal);
      assert bs[1..] == seq(n - 1, i => EMPTY_BUCKET);
    }
  }

  /** Replacing a bucket by one whose elements belong there. */
  lemma PlacedUpdate(bs: seq<Bucket>, i: nat, b: Bucket)
    requires i < |bs| && Placed(bs) && b.count == |b.chain|
    requires forall e | e in b.chain :: ToBucket(e.hashv, |bs|) == i
    ensures Placed(bs[i := b])
  {
  }

  /** Putting an element at the front of its bucket. */
  lemma FrontKeeps(bs: seq<Bucket>, e: Element, i: nat, b: Bucket)
    requires InRange(|bs|, e) && Placed(bs) && i == ToBucket(e.hashv, |bs|)
    requires b.chain == [e] + bs[i].chain && b.count == bs[i].count + 1
    ensures Placed(bs[i := b]) && multiset(Flatten(bs[i := b])) == multiset(Flatten(bs)) + multiset{e}
  {
    PlacedUpdate(bs, i, b);
    FlattenUpdate(bs, i, b);
    CancelFront(multiset(Flatten(bs[i := b])), multiset(Flatten(bs)), multiset(bs[i].chain), multiset(b.chain), e);
  }

  lemma CancelFront(r: multiset<Element>, s: multiset<Element>, old_: multiset<Element>, front: multiset<Element>, e: Element)
    requires r + old_ == s + front && front == old_ + multiset{e}
    ensures r == s + multiset{e}
  {
    assert r + old_ == (s + multiset{e}) + old_;
    assert forall x :: (r + old_)[x] == r[x] + old_[x];
  }

  lemma PlaceKeeps(bs: seq<Bucket>, e: Element, ideal: nat, nonideal: nat)
    requires InRange(|bs|, e) && Placed(bs) && nonideal == Excess(bs, ideal)
    ensures
      var (r, n) := Place(bs, e, ideal, nonideal);
      && Placed(r) && multiset(Flatten(r)) == multiset(Flatten(bs)) + multiset{e} && n == Excess(r, ideal)
  {
    var i := ToBucket(e.hashv, |bs|);
    var b := Place(bs, e, ideal, nonideal).0[i];
    FrontKeeps(bs, e, i, b);
    ExcessUpdate(bs, i, b, ideal);
  }

  lemma {:induction false} PlaceAllKeeps(bs: seq<Bucket>, es: seq<Element>, ideal: nat, nonideal: nat)
    requires (forall e | e in es :: InRange(|bs|, e)) && Placed(bs) && nonideal == Excess(bs, ideal)
    ensures
      var (r, n) := PlaceAll(bs, es, ideal, nonideal);
      && Placed(r) && multiset(Flatten(r)) == multiset(Flatten(bs)) + multiset(es) && n == Excess(r, ideal)
    decreases |es|
  {
    if es != [] {
      var (placed, n) := Place(bs, es[0], ideal, nonideal);
      PlaceKeeps(bs, es[0], ideal, nonideal);
      PlaceAllKeeps(placed, es[1..], ideal, n);
      assert es == [es[0]] + es[1..];
    }
  }

  function CeilDiv(n: nat, d: nat): nat
    requires d > 0
  {
    (n + d - 1) / d
  }

  lemma CeilByRemainder(n: nat, d: nat)
    requires d > 0
    ensures CeilDiv(n, d) == n / d + if n % d != 0 then 1 else 0
  {
    var q, r := n / d, n % d;
    assert n == d * q + r;
    if r == 0 {
      RemainderOf(n + d - 1, d, q, d - 1);
    } else {
      assert d * (q + 1) == d * q + d;
      RemainderOf(n + d - 1, d, q + 1, r - 1);
    }
  }

  lemma IdealIsCeiling(items: nat, log2: nat)
    ensures IdealLength(items, log2) == CeilDiv(items, Pow2(log2 + 1))
  {
    ShiftIsQuotient(items, log2 + 1);
    MaskIsRemainder(items, log2 + 1);
    CeilByRemainder(items, Pow2(log2 + 1));
  }

  /** An expansion doubles the buckets, keeps the elements, and sets the ideal chain length to the
      ceiling of elements over buckets and the nonideal count to the sum of the excesses over it. */
  lemma ExpandKeeps(t: Table)
    requires |t.buckets| == Pow2(t.log2) && Placed(t.buckets) && multiset(Flatten(t.buckets)) == multiset(t.items)
    ensures
      var u := Expand(t);
      && u.items == t.items && |u.buckets| == 2 * |t.buckets| == Pow2(u.log2) && Placed(u.buckets)
      && multiset(Flatten(u.buckets)) == multiset(u.items)
      && u.ideal == CeilDiv(|u.items|, |u.buckets|)
      && u.nonideal == Excess(u.buckets, u.ideal)
  {
    var es := Flatten(t.buckets);
    var empty := seq(2 * |t.buckets|, i => EMPTY_BUCKET);
    forall e | e in es ensures InRange(|empty|, e) { BucketInRange(e.hashv, t.log2 + 1); }
    EmptyBuckets(2 * |t.buckets|, IdealLength(|t.items|, t.log2));
    PlaceAllKeeps(empty, es, IdealLength(|t.items|, t.log2), 0);
    IdealIsCeiling(|t.items|, t.log2);
  }

  // ----- every operation keeps the invariant

  lemma InsertKeeps(t: Table, e: Element)
    requires Indexed(t)
    ensures Indexed(Insert(t, e)) && Insert(t, e).items == t.items + [e]
  {
    BucketInRange(e.hashv, t.log2);
    var i := ToBucket(e.hashv, |t.buckets|);
    FrontKeeps(t.buckets, e, i, Insert(t, e).buckets[i]);
  }

  lemma AppendListed(items: seq<Element>, hash: string -> nat, e: Element)
    requires Listed(items, hash) && e !in items && e.hashv == hash(e.key)
    ensures Listed(items + [e], hash)
  {
  }

  lemma AddIndexed(t: Table, e: Element)
    requires if t.items == [] then t == NEW_TABLE else Indexed(t)
    ensures Indexed(Add(t, e)) && Add(t, e).items == t.items + [e]
  {
    var u := if t.items == [] then MakeTable() else t;
    EmptyBuckets(Pow2(INITIAL_LOG2), 0);
    assert Indexed(u) && u.items == t.items;
    InsertKeeps(u, e);
    ExpandKeeps(Insert(u, e));
  }

  lemma AddKeeps(t: Table, hash: string -> nat, e: Element)
    requires Valid(t, hash) && e !in t.items && e.hashv == hash(e.key)
    ensures Valid(Add(t, e), hash) && Add(t, e).items == t.items + [e]
  {
    AddIndexed(t, e);
    AppendListed(t.items, hash, e);
  }

  lemma {:induction false} WithoutOne(es: seq<Element>, e: Element)
    ensures multiset(Without(es, e)) == multiset(es) - multiset{e}
  {
    if es != [] {
      assert multiset(es) == multiset{es[0]} + multiset(es[1..]) by { assert es == [es[0]] + es[1..]; }
      if es[0] != e { WithoutOne(es[1..], e); }
    }
  }

  lemma WithoutSub(es: seq<Element>, e: Element)
    ensures |Without(es, e)| == if e in es then |es| - 1 else |es|
    ensures forall x | x in Without(es, e) :: x in es
  {
    WithoutOne(es, e);
    assert |multiset(Without(es, e))| == |multiset(es) - multiset{e}|;
    forall x | x in Without(es, e) ensures x in es { assert x in multiset(Without(es, e)); }
  }

  lemma {:induction false} WithoutDistinct(es: seq<Element>, e: Element)
    requires forall i, j | 0 <= i < j < |es| :: es[i] != es[j]
    ensures var r := Without(es, e); forall i, j | 0 <= i < j < |r| :: r[i] != r[j]
  {
    if es != [] && es[0] != e {
      var tail := Without(es[1..], e);
      WithoutDistinct(es[1..], e);
      WithoutSub(es[1..], e);
      forall j | 0 <= j < |tail| ensures tail[j] != es[0] { assert tail[j] in es[1..]; }
    }
  }

  lemma RemovedKeeps(bs: seq<Bucket>, e: Element, i: nat, b: Bucket)
    requires InRange(|bs|, e) && Placed(bs) && i == ToBucket(e.hashv, |bs|) && e in bs[i].chain
    requires b.chain == Without(bs[i].chain, e) && b.count == bs[i].count - 1
    ensures Placed(bs[i := b]) && multiset(Flatten(bs[i := b])) == multiset(Flatten(bs)) - multiset{e}
  {
    WithoutSub(bs[i].chain, e);
    WithoutOne(bs[i].chain, e);
    PlacedUpdate(bs, i, b);
    FlattenUpdate(bs, i, b);
    CancelFront(multiset(Flatten(bs)), multiset(Flatten(bs[i := b])), multiset(b.chain), multiset(bs[i].chain), e);
  }

  lemma DeleteKeeps(t: Table, hash: string -> nat, e: Element)
    requires Valid(t, hash) && e in t.items
    ensures Valid(Delete(t, e), hash) && Delete(t, e).items == Without(t.items, e)
  {
    WithoutSub(t.items, e);
    if |t.items| > 1 {
      InOwnBucket(t, hash, e);
      WithoutOne(t.items, e);
      WithoutDistinct(t.items, e);
      var i := ToBucket(e.hashv, |t.buckets|);
      RemovedKeeps(t.buckets, e, i, Delete(t, e).buckets[i]);
    }
  }

  // ----- every run

  datatype Op = AddOp(e: Element) | DeleteOp(e: Element)

  /** What the operation does to the list alone. */
  function ListStep(items: seq<Element>, op: Op): seq<Element>
  {
    match op
    case AddOp(e) => items + [e]
    case DeleteOp(e) => Without(items, e)
  }

  /** An element may be added if it is not there, with the hash of its key, and deleted if it is. */
  predicate Allowed(items: seq<Element>, op: Op, hash: string -> nat)
  {
    match op
    case AddOp(e) => e !in items && e.hashv == hash(e.key)
    case DeleteOp(e) => e in items
  }

  function ListRun(items: seq<Element>, ops: seq<Op>): seq<Element>
    decreases ops
  {
    if ops == [] then items else ListRun(ListStep(items, ops[0]), ops[1..])
  }

  predicate AllowedRun(items: seq<Element>, ops: seq<Op>, hash: string -> nat)
    decreases ops
  {
    ops == [] || (Allowed(items, ops[0], hash) && AllowedRun(ListStep(items, ops[0]), ops[1..], hash))
  }

  function Step(t: Table, op: Op): Table
    requires t.items != [] ==> |t.buckets| == Pow2(t.log2)
  {
    match op
    case AddOp(e) => Add(t, e)
    case DeleteOp(e) => Delete(t, e)
  }

  lemma StepKeeps(t: Table, op: Op, hash: string -> nat)
    requires Valid(t, hash) && Allowed(t.items, op, hash)
    ensures Valid(Step(t, op), hash) && Step(t, op).items == ListStep(t.items, op)
  {
    match op
    case AddOp(e) => AddKeeps(t, hash, e);
    case DeleteOp(e) => DeleteKeeps(t, hash, e);
  }

  /** A run of operations; the table always indexes the list that the same operations give. */
  function Run(t: Table, ops: seq<Op>, hash: string -> nat): (r: Table)
    requires Valid(t, hash) && AllowedRun(t.items, ops, hash)
    ensures Valid(r, hash) && r.items == ListRun(t.items, ops)
    decreases ops
  {
    if ops == [] then t
    else
      StepKeeps(t, ops[0], hash);
      Run(Step(t, ops[0]), ops[1..], hash)
  }

  function CountSum(bs: seq<Bucket>): nat { if bs == [] then 0 else bs[0].count + CountSum(bs[1..]) }

  lemma {:induction false} CountsAreFlat(bs: seq<Bucket>)
    requires forall i | 0 <= i < |bs| :: bs[i].count == |bs[i].chain|
    ensures CountSum(bs) == |Flatten(bs)|
  {
    if bs != [] { CountsAreFlat(bs[1..]); }
  }

  /** After any run from the empty table, for any hash function and any number of doublings: a key is
      found exactly when the list holds an element with it, and the bucket counts add up. */
  lemma IndexAgreesWithList(ops: seq<Op>, hash: string -> nat, key: string)
    requires AllowedRun([], ops, hash)
    ensures
      var t := Run(NEW_TABLE, ops, hash);
      && (match Find(t, key, hash)
          case Some(e) => e in ListRun([], ops) && e.key == key
          case None => forall e | e in ListRun([], ops) :: e.key != key)
      && CountSum(t.buckets) == |ListRun([], ops)|
  {
    var t := Run(NEW_TABLE, ops, hash);
    FindAgrees(t, hash, key);
    CountsAreFlat(t.buckets);
    assert |multiset(Flatten(t.buckets))| == |multiset(t.items)|;
  }
}
