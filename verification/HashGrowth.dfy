/**
 When the hash table grows and when it stops growing, said of the list of elements: how many of them
 share a bucket, the multiplier that each expansion gives a bucket, and the two expansions in a row
 that left most elements beyond the ideal chain length.
 */
module HashGrowth {
  import opened HashTable

  // ----- how many elements share a bucket

  /** The number of elements whose hash value leaves this remainder. */
  function Sharing(es: seq<Element>, i: nat, n: nat): nat
    requires n > 0
  {
    if es == [] then 0 else (if es[0].hashv % n == i then 1 else 0) + Sharing(es[1..], i, n)
  }

  lemma {:induction false} SharingAppend(a: seq<Element>, b: seq<Element>, i: nat, n: nat)
    requires n > 0
    ensures Sharing(a + b, i, n) == Sharing(a, i, n) + Sharing(b, i, n)
  {
    if a == [] {
      assert a + b == b;
    } else {
      assert (a + b)[1..] == a[1..] + b;
      SharingAppend(a[1..], b, i, n);
    }
  }

  lemma {:induction false} SharingWithout(es: seq<Element>, e: Element, i: nat, n: nat)
    requires n > 0 && e in es
    ensures Sharing(es, i, n) == Sharing(Without(es, e), i, n) + if e.hashv % n == i then 1 else 0
  {
    if es[0] != e { SharingWithout(es[1..], e, i, n); }
  }

  lemma {:induction false} SharingPermuted(a: seq<Element>, b: seq<Element>, i: nat, n: nat)
    requires n > 0 && multiset(a) == multiset(b)
    ensures Sharing(a, i, n) == Sharing(b, i, n)
    decreases |a|
  {
    if a == [] {
      assert |multiset(b)| == 0;
    } else {
      assert a[0] in multiset(b);
      WithoutOne(a, a[0]);
      WithoutOne(b, a[0]);
      SharingPermuted(a[1..], Without(b, a[0]), i, n);
      SharingWithout(b, a[0], i, n);
    }
  }

  lemma {:induction false} SharingAll(chain: seq<Element>, i: nat, j: nat, n: nat)
    requires n > 0 && forall e | e in chain :: e.hashv % n == j
    ensures Sharing(chain, i, n) == if i == j then |chain| else 0
  {
    if chain != [] { SharingAll(chain[1..], i, j, n); }
  }

  /** The chains from bucket number `first` on. */
  lemma {:induction false} SharingFlat(bs: seq<Bucket>, first: nat, i: nat, n: nat)
    requires n > 0 && forall j | 0 <= j < |bs| :: forall e | e in bs[j].chain :: e.hashv % n == first + j
    ensures Sharing(Flatten(bs), i, n) == if first <= i < first + |bs| then |bs[i - first].chain| else 0
  {
    if bs != [] {
      SharingFlat(bs[1..], first + 1, i, n);
      SharingAll(bs[0].chain, i, first, n);
      SharingAppend(bs[0].chain, Flatten(bs[1..]), i, n);
    }
  }

  /** The count of a bucket is the number of elements of the list that belong there. */
  lemma CountIsSharing(t: Table, i: nat)
    requires Indexed(t) && i < |t.buckets|
    ensures t.buckets[i].count == Sharing(t.items, i, |t.buckets|)
  {
    var n := |t.buckets|;
    forall j | 0 <= j < n ensures forall e | e in t.buckets[j].chain :: e.hashv % n == 0 + j {
      forall e | e in t.buckets[j].chain ensures e.hashv % n == 0 + j { MaskIsRemainder(e.hashv, t.log2); }
    }
    SharingFlat(t.buckets, 0, i, n);
    SharingPermuted(Flatten(t.buckets), t.items, i, n);
  }

  // ----- when the buckets double

  /** The element makes its chain ten times one more than the multiplier of its bucket long, and
      expansion is on. */
  predicate Doubles(t: Table, e: Element)
    requires t.items != [] && |t.buckets| > 0
  {
    var n := |t.buckets|;
    var i := e.hashv % n;
    !t.noexpand && Sharing(t.items, i, n) + 1 >= 10 * (t.buckets[i].expandMult + 1)
  }

  lemma DoublesIffOverfull(t: Table, e: Element)
    requires Indexed(t) && t.items != []
    ensures Doubles(t, e) <==> Overfull(Insert(t, e), e)
  {
    MaskIsRemainder(e.hashv, t.log2);
    BucketInRange(e.hashv, t.log2);
    CountIsSharing(t, e.hashv % |t.buckets|);
  }

  /** The number of buckets after an addition: 32 for the first element, twice as many when the
      chain has become too long, and the same otherwise. */
  lemma BucketsAfterAdd(t: Table, hash: string -> nat, e: Element)
    requires Valid(t, hash) && e !in t.items
    ensures |Add(t, e).buckets| == if t.items == [] then 32 else if Doubles(t, e) then 2 * |t.buckets| else |t.buckets|
  {
    if t.items == [] {
      assert Pow2(5) == 32;
      EmptyBuckets(32, 0);
      BucketInRange(e.hashv, INITIAL_LOG2);
    } else {
      DoublesIffOverfull(t, e);
      InsertKeeps(t, e);
      if Doubles(t, e) { ExpandKeeps(Insert(t, e)); }
    }
  }

  // ----- the multiplier of a bucket

  /** What an expansion gives a bucket with this count: nothing up to the ideal length, and beyond it
      the number of ideal lengths the chain reaches into, or of elements beyond the first if these are
      fewer. */
  predicate Multiplier(mult: nat, count: nat, ideal: nat)
  {
    if count <= ideal then mult == 0
    else 1 <= mult <= count - ideal && (mult - 1) * ideal < count && (mult == count - ideal || count <= mult * ideal)
  }

  /** One more element in the bucket. */
  lemma MultiplierStep(mult: nat, count: nat, ideal: nat)
    requires Multiplier(mult, count, ideal)
    ensures Multiplier(if count + 1 > ideal && count + 1 > mult * ideal then mult + 1 else mult, count + 1, ideal)
  {
    if count >= ideal {
      assert (mult + 1) * ideal == mult * ideal + ideal;
      if mult > 0 { assert (mult - 1) * ideal == mult * ideal - ideal; }
    }
  }

  predicate Multiplied(bs: seq<Bucket>, ideal: nat)
  {
    forall i | 0 <= i < |bs| :: Multiplier(bs[i].expandMult, bs[i].count, ideal)
  }

  lemma {:induction false} PlaceMultiplies(bs: seq<Bucket>, es: seq<Element>, ideal: nat, nonideal: nat)
    requires (forall e | e in es :: InRange(|bs|, e)) && Multiplied(bs, ideal)
    ensures Multiplied(PlaceAll(bs, es, ideal, nonideal).0, ideal)
    decreases |es|
  {
    if es != [] {
      assert InRange(|bs|, es[0]);
      var i := ToBucket(es[0].hashv, |bs|);
      MultiplierStep(bs[i].expandMult, bs[i].count, ideal);
      var (placed, n) := Place(bs, es[0], ideal, nonideal);
      PlaceMultiplies(placed, es[1..], ideal, n);
    }
  }

  lemma ExpandMultiplies(t: Table)
    requires |t.buckets| == Pow2(t.log2)
    ensures Multiplied(Expand(t).buckets, Expand(t).ideal)
  {
    var es := Flatten(t.buckets);
    var empty := seq(2 * |t.buckets|, i => EMPTY_BUCKET);
    forall e | e in es ensures InRange(|empty|, e) { BucketInRange(e.hashv, t.log2 + 1); }
    PlaceMultiplies(empty, es, IdealLength(|t.items|, t.log2), 0);
  }

  /** Only an expansion changes multipliers. */
  lemma MultipliersAfterAdd(t: Table, hash: string -> nat, e: Element)
    requires Valid(t, hash) && e !in t.items && t.items != []
    ensures
      var u := Add(t, e);
      if Doubles(t, e) then Multiplied(u.buckets, CeilDiv(|u.items|, |u.buckets|))
      else |u.buckets| == |t.buckets| && forall i | 0 <= i < |t.buckets| :: u.buckets[i].expandMult == t.buckets[i].expandMult
  {
    DoublesIffOverfull(t, e);
    InsertKeeps(t, e);
    if Doubles(t, e) {
      ExpandKeeps(Insert(t, e));
      ExpandMultiplies(Insert(t, e));
    }
  }

  // ----- when expansion is switched off

  /** An expansion that leaves more than half of the elements beyond the ideal length. */
  predicate Ineffective(u: Table)
    requires |u.buckets| > 0
  {
    Excess(u.buckets, CeilDiv(|u.items|, |u.buckets|)) > |u.items| / 2
  }

  /** Expansion is switched off by the second ineffective expansion in a row, and stays off; an
      effective one starts the count again. */
  lemma SwitchedOffIff(t: Table, hash: string -> nat, e: Element)
    requires Valid(t, hash) && e !in t.items && t.items != []
    ensures
      var u := Add(t, e);
      && |u.buckets| > 0
      && (u.noexpand <==> t.noexpand || (Doubles(t, e) && Ineffective(u) && t.ineff >= 1))
      && u.ineff == if !Doubles(t, e) then t.ineff else if Ineffective(u) then t.ineff + 1 else 0
  {
    DoublesIffOverfull(t, e);
    InsertKeeps(t, e);
    if Doubles(t, e) { ExpandKeeps(Insert(t, e)); }
  }

  /** Deleting changes none of this, except that the table goes with the last element. */
  lemma DeleteKeepsGrowth(t: Table, hash: string -> nat, e: Element)
    requires Valid(t, hash) && e in t.items
    ensures
      var u := Delete(t, e);
      if |t.items| == 1 then u == NEW_TABLE
      else
        && u.noexpand == t.noexpand && u.ineff == t.ineff && |u.buckets| == |t.buckets|
        && forall i | 0 <= i < |t.buckets| :: u.buckets[i].expandMult == t.buckets[i].expandMult
  {
    if |t.items| > 1 { BucketInRange(e.hashv, t.log2); }
  }
}
