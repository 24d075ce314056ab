/**
 The hash table as the macros run it, on fields that they update.
 */
module HashEngine {
  import opened HashTable

  class HashIndex {
    var items: seq<Element>
    var buckets: seq<Bucket>
    var log2: nat
    var ideal: nat
    var nonideal: nat
    var ineff: nat
    var noexpand: bool

    ghost function State(): Table
      reads this
    {
      Table(items, buckets, log2, ideal, nonideal, ineff, noexpand)
    }

    /** The bucket array has its size. */
    ghost predicate Sized()
      reads this
    {
      |buckets| == Pow2(log2)
    }

    constructor ()
      ensures State() == NEW_TABLE
    {
      items, buckets, log2, ideal, nonideal, ineff, noexpand := [], [], 0, 0, 0, 0, false;
    }

    /** HASH_FIND: the chain of one bucket is searched */
    method FindElement(key: string, hash: string -> nat) returns (found: Option<Element>)
      requires items != [] ==> Sized()
      ensures found == Find(State(), key, hash)
    {
      if items == [] { return None; }
      BucketInRange(hash(key), log2);
      var chain := buckets[ToBucket(hash(key), |buckets|)].chain;
      var i := 0;
      assert chain[0..] == chain;
      while i < |chain|
        invariant 0 <= i <= |chain|
        invariant FindIn(chain, key, hash(key)) == FindIn(chain[i..], key, hash(key))
      {
        if chain[i].hashv == hash(key) && chain[i].key == key { return Some(chain[i]); }
        assert chain[i..][1..] == chain[i + 1..];
        i := i + 1;
      }
      found := None;
    }

    /** HASH_EXPAND_BUCKETS: every chain of the old buckets is walked into the new ones */
    method ExpandBuckets()
      requires Sized()
      modifies this
      ensures State() == Expand(old(State()))
    {
      forall e: Element ensures InRange(2 * |buckets|, e) { BucketInRange(e.hashv, log2 + 1); }
      var length := IdealLength(|items|, log2);
      var next, over := WalkBuckets(buckets, length);
      ideal, nonideal := length, over;
      buckets := next;
      log2 := log2 + 1;
      ineff := if nonideal > |items| / 2 then ineff + 1 else 0;
      if ineff > 1 { noexpand := true; }
    }

    /** HASH_ADD_KEYPTR_BYHASHVALUE */
    method AddElement(e: Element)
      requires items != [] ==> Sized()
      modifies this
      ensures State() == Add(old(State()), e)
    {
      if items == [] {
        ideal, nonideal, ineff, noexpand := 0, 0, 0, false;
        buckets, log2 := seq(Pow2(INITIAL_LOG2), i => EMPTY_BUCKET), INITIAL_LOG2;
      }
      assert State() == if old(items) == [] then MakeTable() else old(State());
      BucketInRange(e.hashv, log2);
      items := items + [e];
      var i := ToBucket(e.hashv, |buckets|);
      var b := buckets[i];
      buckets := buckets[i := Bucket([e] + b.chain, b.count + 1, b.expandMult)];
      if buckets[i].count >= (buckets[i].expandMult + 1) * THRESHOLD && !noexpand { ExpandBuckets(); }
    }

    /** Take an element out of a list. */
    method TakeOut(es: seq<Element>, e: Element) returns (r: seq<Element>)
      ensures r == Without(es, e)
    {
      var i := 0;
      r := [];
      assert es[0..] == es;
      while i < |es|
        invariant 0 <= i <= |es| && Without(es, e) == r + Without(es[i..], e)
      {
        assert es[i..][1..] == es[i + 1..];
        if es[i] == e { return r + es[i + 1..]; }
        assert r + ([es[i]] + Without(es[i + 1..], e)) == (r + [es[i]]) + Without(es[i + 1..], e);
        r := r + [es[i]];
        i := i + 1;
      }
      assert es[i..] == [];
    }

    /** HASH_DELETE_HH: with the last element the table goes too */
    method DeleteElement(e: Element)
      requires items != [] ==> Sized()
      modifies this
      ensures State() == Delete(old(State()), e)
    {
      if |items| <= 1 {
        items, buckets, log2, ideal, nonideal, ineff, noexpand := [], [], 0, 0, 0, 0, false;
        return;
      }
      BucketInRange(e.hashv, log2);
      var i := ToBucket(e.hashv, |buckets|);
      var b := buckets[i];
      var shorter := TakeOut(b.chain, e);
      buckets := buckets[i := Bucket(shorter, if b.count > 0 then b.count - 1 else 0, b.expandMult)];
      items := TakeOut(items, e);
    }
  }

  /** The walk over the old buckets. */
  method WalkBuckets(bs: seq<Bucket>, ideal: nat) returns (next: seq<Bucket>, nonideal: nat)
    requires bs != [] && forall e: Element :: InRange(2 * |bs|, e)
    ensures (next, nonideal) == PlaceAll(seq(2 * |bs|, i => EMPTY_BUCKET), Flatten(bs), ideal, 0)
  {
    next, nonideal := seq(2 * |bs|, i => EMPTY_BUCKET), 0;
    ghost var goal := PlaceAll(next, Flatten(bs), ideal, 0);
    var i := 0;
    assert bs[0..] == bs;
    while i < |bs|
      invariant 0 <= i <= |bs| && |next| == 2 * |bs|
      invariant goal == PlaceAll(next, Flatten(bs[i..]), ideal, nonideal)
    {
      assert bs[i..][1..] == bs[i + 1..];
      next, nonideal := WalkChain(next, bs[i].chain, ideal, nonideal, Flatten(bs[i + 1..]));
      i := i + 1;
    }
    assert bs[i..] == [];
  }

  /** The walk over one chain. */
  method WalkChain(bs: seq<Bucket>, chain: seq<Element>, ideal: nat, before: nat, ghost rest: seq<Element>)
    returns (next: seq<Bucket>, nonideal: nat)
    requires forall e: Element :: InRange(|bs|, e)
    ensures |next| == |bs| && PlaceAll(bs, chain + rest, ideal, before) == PlaceAll(next, rest, ideal, nonideal)
  {
    next, nonideal := bs, before;
    var j := 0;
    assert chain[0..] == chain;
    while j < |chain|
      invariant 0 <= j <= |chain| && |next| == |bs|
      invariant PlaceAll(bs, chain + rest, ideal, before) == PlaceAll(next, chain[j..] + rest, ideal, nonideal)
    {
      ghost var es := chain[j..] + rest;
      assert es[0] == chain[j] && es[1..] == chain[j + 1..] + rest;
      var (placed, n) := Place(next, chain[j], ideal, nonideal);
      next, nonideal := placed, n;
      j := j + 1;
    }
    assert chain[j..] + rest == rest;
  }
}
