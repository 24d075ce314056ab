/**
 DL_SORT2 of utlist: a bottom-up merge sort that relinks the nodes in passes over runs of doubling
 length. Here on sequences: it ends, keeps the nodes, sorts them, and is stable.
 */
module DlSort {
  import opened Json
  import opened LinkedList

  type Order = (Member, Member) -> int

  predicate Upto(cmp: Order, a: Node, b: Node) { cmp(a.member, b.member) <= 0 }

  /** The comparison is a total preorder. */
  ghost predicate Preorder(cmp: Order)
  {
    && (forall a, b :: cmp(a, b) <= 0 || cmp(b, a) <= 0)
    && (forall a, b, c :: cmp(a, b) <= 0 && cmp(b, c) <= 0 ==> cmp(a, c) <= 0)
  }

  function Min(a: nat, b: nat): nat { if a < b then a else b }

  /** Two runs merged; the first goes first on a tie. */
  function StableMerge(p: seq<Node>, q: seq<Node>, cmp: Order): seq<Node>
  {
    if p == [] then q
    else if q == [] then p
    else if Upto(cmp, p[0], q[0]) then [p[0]] + StableMerge(p[1..], q, cmp)
    else [q[0]] + StableMerge(p, q[1..], cmp)
  }

  /** The first run of length k, the second, and what is beyond both. */
  function FirstRun(s: seq<Node>, k: nat): seq<Node> { s[..Min(k, |s|)] }

  function AfterRun(s: seq<Node>, k: nat): seq<Node> { s[Min(k, |s|)..] }

  function SecondRun(s: seq<Node>, k: nat): seq<Node> { FirstRun(AfterRun(s, k), k) }

  function Beyond(s: seq<Node>, k: nat): seq<Node> { AfterRun(AfterRun(s, k), k) }

  lemma CutRun(s: seq<Node>, k: nat)
    ensures s == FirstRun(s, k) + AfterRun(s, k)
    ensures |FirstRun(s, k)| == Min(k, |s|) && |AfterRun(s, k)| == |s| - Min(k, |s|)
    ensures multiset(s) == multiset(FirstRun(s, k)) + multiset(AfterRun(s, k))
  {
    assert s == FirstRun(s, k) + AfterRun(s, k);
  }

  /** One pass over the list with runs of length k. */
  function Pass(s: seq<Node>, k: nat, cmp: Order): seq<Node>
    requires k > 0
    decreases |s|
  {
    if s == [] then [] else StableMerge(FirstRun(s, k), SecondRun(s, k), cmp) + Pass(Beyond(s, k), k, cmp)
  }

  lemma {:induction false} MergeKeeps(p: seq<Node>, q: seq<Node>, cmp: Order)
    ensures multiset(StableMerge(p, q, cmp)) == multiset(p) + multiset(q)
    ensures |StableMerge(p, q, cmp)| == |p| + |q|
  {
    if p != [] && q != [] {
      if Upto(cmp, p[0], q[0]) {
        MergeKeeps(p[1..], q, cmp);
        assert p == [p[0]] + p[1..];
      } else {
        MergeKeeps(p, q[1..], cmp);
        assert q == [q[0]] + q[1..];
      }
    }
  }

  lemma {:induction false} PassKeeps(s: seq<Node>, k: nat, cmp: Order)
    requires k > 0
    ensures multiset(Pass(s, k, cmp)) == multiset(s) && |Pass(s, k, cmp)| == |s|
    decreases |s|
  {
    if s != [] {
      CutRun(s, k);
      CutRun(AfterRun(s, k), k);
      MergeKeeps(FirstRun(s, k), SecondRun(s, k), cmp);
      PassKeeps(Beyond(s, k), k, cmp);
    }
  }

  /** The passes, with runs of length k, 2k and so on until one merge covers the list. */
  function SortLoop(s: seq<Node>, k: nat, cmp: Order): seq<Node>
    requires k > 0
    decreases |s| - k
  {
    PassKeeps(s, k, cmp);
    if |s| <= 2 * k then Pass(s, k, cmp) else SortLoop(Pass(s, k, cmp), 2 * k, cmp)
  }

  // ----- sorted

  predicate Sorted(s: seq<Node>, cmp: Order) { forall i, j | 0 <= i < j < |s| :: Upto(cmp, s[i], s[j]) }

  /** Every run of length k is sorted. */
  predicate RunsSorted(s: seq<Node>, k: nat, cmp: Order)
    requires k > 0
    decreases |s|
  {
    s == [] || (Sorted(FirstRun(s, k), cmp) && RunsSorted(AfterRun(s, k), k, cmp))
  }

  predicate NotBelow(x: Node, s: seq<Node>, cmp: Order) { forall i | 0 <= i < |s| :: Upto(cmp, x, s[i]) }

  lemma NotBelowMerge(x: Node, p: seq<Node>, q: seq<Node>, cmp: Order)
    requires NotBelow(x, p, cmp) && NotBelow(x, q, cmp)
    ensures NotBelow(x, StableMerge(p, q, cmp), cmp)
  {
    MergeKeeps(p, q, cmp);
    var r := StableMerge(p, q, cmp);
    forall i | 0 <= i < |r| ensures Upto(cmp, x, r[i]) {
      assert r[i] in multiset(r);
      assert r[i] in p || r[i] in q;
    }
  }

  lemma HeadNotBelow(x: Node, s: seq<Node>, cmp: Order)
    requires Preorder(cmp) && s != [] && Sorted(s, cmp) && Upto(cmp, x, s[0])
    ensures NotBelow(x, s, cmp)
  {
    forall i | 0 <= i < |s| ensures Upto(cmp, x, s[i]) {
      if i > 0 { assert Upto(cmp, s[0], s[i]); }
    }
  }

  lemma {:induction false} MergeSorted(p: seq<Node>, q: seq<Node>, cmp: Order)
    requires Preorder(cmp) && Sorted(p, cmp) && Sorted(q, cmp)
    ensures Sorted(StableMerge(p, q, cmp), cmp)
  {
    if p != [] && q != [] {
      if Upto(cmp, p[0], q[0]) {
        MergeSorted(p[1..], q, cmp);
        HeadNotBelow(p[0], q, cmp);
        NotBelowMerge(p[0], p[1..], q, cmp);
      } else {
        MergeSorted(p, q[1..], cmp);
        HeadNotBelow(q[0], p, cmp);
        NotBelowMerge(q[0], p, q[1..], cmp);
      }
    }
  }

  /** A pass makes sorted runs twice as long. */
  lemma {:induction false} PassSorts(s: seq<Node>, k: nat, cmp: Order)
    requires k > 0 && Preorder(cmp) && RunsSorted(s, k, cmp)
    ensures RunsSorted(Pass(s, k, cmp), 2 * k, cmp)
    decreases |s|
  {
    if s != [] {
      var (p, q, rest) := (FirstRun(s, k), SecondRun(s, k), Beyond(s, k));
      CutRun(s, k);
      CutRun(AfterRun(s, k), k);
      MergeSorted(p, q, cmp);
      MergeKeeps(p, q, cmp);
      PassSorts(rest, k, cmp);
      PassKeeps(rest, k, cmp);
      RunInFront(StableMerge(p, q, cmp), Pass(rest, k, cmp), 2 * k, cmp);
    }
  }

  lemma RunInFront(a: seq<Node>, b: seq<Node>, k: nat, cmp: Order)
    requires k > 0 && Sorted(a, cmp) && |a| <= k && (b != [] ==> |a| == k) && RunsSorted(b, k, cmp)
    ensures RunsSorted(a + b, k, cmp)
  {
    var r := a + b;
    if r != [] {
      assert FirstRun(r, k) == a && AfterRun(r, k) == b;
    }
  }

  lemma {:induction false} SingleRuns(s: seq<Node>, cmp: Order)
    ensures RunsSorted(s, 1, cmp)
  {
    if s != [] {
      SingleRuns(s[1..], cmp);
      assert AfterRun(s, 1) == s[1..];
    }
  }

  // ----- stable

  /** The nodes that compare equal to x, in order. */
  function Equals(s: seq<Node>, x: Node, cmp: Order): seq<Node>
  {
    if s == [] then []
    else (if Upto(cmp, x, s[0]) && Upto(cmp, s[0], x) then [s[0]] else []) + Equals(s[1..], x, cmp)
  }

  lemma {:induction false} EqualsJoin(a: seq<Node>, b: seq<Node>, x: Node, cmp: Order)
    ensures Equals(a + b, x, cmp) == Equals(a, x, cmp) + Equals(b, x, cmp)
  {
    if a == [] {
      assert a + b == b;
    } else {
      assert (a + b)[1..] == a[1..] + b;
      EqualsJoin(a[1..], b, x, cmp);
    }
  }

  /** If a node of the second run goes first, no node left in the first run is equal to it. */
  lemma {:induction false} NoneEqual(p: seq<Node>, y: Node, x: Node, cmp: Order)
    requires Preorder(cmp) && (p != [] ==> !Upto(cmp, p[0], y)) && Sorted(p, cmp)
    requires Upto(cmp, x, y) && Upto(cmp, y, x)
    ensures Equals(p, x, cmp) == []
  {
    if p != [] {
      if p[1..] != [] { assert Upto(cmp, p[0], p[1]); }
      NoneEqual(p[1..], y, x, cmp);
    }
  }

  lemma {:induction false} MergeStable(p: seq<Node>, q: seq<Node>, x: Node, cmp: Order)
    requires Preorder(cmp) && Sorted(p, cmp) && Sorted(q, cmp)
    ensures Equals(StableMerge(p, q, cmp), x, cmp) == Equals(p, x, cmp) + Equals(q, x, cmp)
  {
    if p != [] && q != [] {
      if Upto(cmp, p[0], q[0]) {
        MergeStable(p[1..], q, x, cmp);
        assert ([p[0]] + StableMerge(p[1..], q, cmp))[1..] == StableMerge(p[1..], q, cmp);
      } else {
        MergeStable(p, q[1..], x, cmp);
        assert ([q[0]] + StableMerge(p, q[1..], cmp))[1..] == StableMerge(p, q[1..], cmp);
        if Upto(cmp, x, q[0]) && Upto(cmp, q[0], x) { NoneEqual(p, q[0], x, cmp); }
      }
    }
  }

  lemma {:induction false} PassStable(s: seq<Node>, k: nat, x: Node, cmp: Order)
    requires k > 0 && Preorder(cmp) && RunsSorted(s, k, cmp)
    ensures Equals(Pass(s, k, cmp), x, cmp) == Equals(s, x, cmp)
    decreases |s|
  {
    if s != [] {
      var (p, q, rest) := (FirstRun(s, k), SecondRun(s, k), Beyond(s, k));
      CutRun(s, k);
      CutRun(AfterRun(s, k), k);
      MergeStable(p, q, x, cmp);
      PassStable(rest, k, x, cmp);
      EqualsJoin(StableMerge(p, q, cmp), Pass(rest, k, cmp), x, cmp);
      EqualsJoin(q, rest, x, cmp);
      EqualsJoin(p, AfterRun(s, k), x, cmp);
      Grouped(Equals(p, x, cmp), Equals(q, x, cmp), Equals(rest, x, cmp));
    }
  }

  lemma Grouped(a: seq<Node>, b: seq<Node>, c: seq<Node>)
    ensures (a + b) + c == a + (b + c)
  {
  }

  lemma {:induction false} LoopSorts(s: seq<Node>, k: nat, x: Node, cmp: Order)
    requires k > 0 && Preorder(cmp) && RunsSorted(s, k, cmp)
    ensures
      var r := SortLoop(s, k, cmp);
      Sorted(r, cmp) && multiset(r) == multiset(s) && Equals(r, x, cmp) == Equals(s, x, cmp)
    decreases |s| - k
  {
    var t := Pass(s, k, cmp);
    PassKeeps(s, k, cmp);
    PassSorts(s, k, cmp);
    PassStable(s, k, x, cmp);
    if |s| <= 2 * k {
      assert FirstRun(t, 2 * k) == t;
    } else {
      LoopSorts(t, 2 * k, x, cmp);
    }
  }

  /** DL_SORT2 leaves a sorted, stable permutation, for every list and every total preorder. */
  lemma SortIsStable(s: seq<Node>, x: Node, cmp: Order)
    requires Preorder(cmp)
    ensures
      var r := SortLoop(s, 1, cmp);
      Sorted(r, cmp) && multiset(r) == multiset(s) && Equals(r, x, cmp) == Equals(s, x, cmp)
  {
    SingleRuns(s, cmp);
    LoopSorts(s, 1, x, cmp);
  }
}
