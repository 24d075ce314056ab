/**
 Where sort_list puts the first and the last node of a list: they stay exactly when the first has
 the smallest name and the last the largest, each without an equal. Equal names swap places, because
 the merge takes the second list's node on a tie.
 */
module ListEnds {
  import opened Json
  import opened JsonSort
  import opened LinkedList
  import opened ListSort

  /** The first name comes before every other. */
  predicate SmallestFirst(ms: seq<Member>, cs: bool)
  {
    forall j | 0 < j < |ms| :: Less(ms[0], ms[j], cs)
  }

  /** Every other name comes before the last. */
  predicate LargestLast(ms: seq<Member>, cs: bool)
  {
    forall j | 0 <= j < |ms| - 1 :: Less(ms[j], ms[|ms| - 1], cs)
  }

  lemma {:induction false} AscendingLess(ms: seq<Member>, cs: bool, i: nat, j: nat)
    requires Ascending(ms, cs) && i < j < |ms|
    ensures Less(ms[i], ms[j], cs)
    decreases j - i
  {
    if i + 1 < j {
      AscendingLess(ms, cs, i, j - 1);
      assert Less(ms[j - 1], ms[j - 1 + 1], cs);
      CompareTransitive(ms[i].key, ms[j - 1].key, ms[j].key, cs);
    }
  }

  lemma AscendingEnds(ms: seq<Member>, cs: bool)
    requires Ascending(ms, cs)
    ensures SmallestFirst(ms, cs) && LargestLast(ms, cs)
  {
    forall j | 0 < j < |ms| ensures Less(ms[0], ms[j], cs) { AscendingLess(ms, cs, 0, j); }
    forall j | 0 <= j < |ms| - 1 ensures Less(ms[j], ms[|ms| - 1], cs) { AscendingLess(ms, cs, j, |ms| - 1); }
  }

  /** The sort on nodes keeps the nodes and gives the sort on members. */
  lemma {:induction false} SortNodesKeep(s: seq<Node>, cs: bool)
    ensures multiset(SortNodes(s, cs)) == multiset(s) && Members(SortNodes(s, cs)) == Sort(Members(s), cs)
    decreases |s|
  {
    if |s| > 1 && !Ascending(Members(s), cs) {
      var half := (|s| + 1) / 2;
      var f, g := SortNodes(s[..half], cs), SortNodes(s[half..], cs);
      SortNodesKeep(s[..half], cs);
      SortNodesKeep(s[half..], cs);
      var (out, x, y) := Fronts([], f, g, cs);
      MergeEnds(out, x, y, f, g, cs);
      SortedHalves(s, half, f, g, MergeNodes(f, g, cs), cs);
    }
  }

  lemma SameNodes(s: seq<Node>, r: seq<Node>)
    requires multiset(r) == multiset(s)
    ensures |r| == |s| && (forall i | 0 <= i < |r| :: r[i] in s) && (forall i | 0 <= i < |s| :: s[i] in r)
  {
    assert |multiset(r)| == |r| && |multiset(s)| == |s|;
    forall i | 0 <= i < |r| ensures r[i] in s { assert r[i] in multiset(r); }
    forall i | 0 <= i < |s| ensures s[i] in r { assert s[i] in multiset(s); }
  }

  /** A sorted half: the same nodes, with the first below and the last above none of them. */
  ghost predicate SortedHalf(a: seq<Node>, f: seq<Node>, cs: bool)
  {
    && a != [] && |f| == |a| && (forall i | 0 <= i < |f| :: f[i] in a)
    && (forall i | 0 <= i < |a| :: Compare(f[0].member.key, a[i].member.key, cs) <= 0)
    && (forall i | 0 <= i < |a| :: Compare(a[i].member.key, f[|f| - 1].member.key, cs) <= 0)
    && Sorted(Members(f), cs)
  }

  lemma HalfSorted(a: seq<Node>, cs: bool)
    requires a != []
    ensures SortedHalf(a, SortNodes(a, cs), cs)
  {
    var f := SortNodes(a, cs);
    SortNodesKeep(a, cs);
    SortSorted(Members(a), cs);
    SameNodes(a, f);
    forall i | 0 <= i < |a|
      ensures Compare(f[0].member.key, a[i].member.key, cs) <= 0 && Compare(a[i].member.key, f[|f| - 1].member.key, cs) <= 0
    {
      var j :| 0 <= j < |f| && f[j] == a[i];
      BetweenEnds(f, j, cs);
    }
  }

  lemma BetweenEnds(f: seq<Node>, j: nat, cs: bool)
    requires j < |f| && Sorted(Members(f), cs)
    ensures Compare(f[0].member.key, f[j].member.key, cs) <= 0 && Compare(f[j].member.key, f[|f| - 1].member.key, cs) <= 0
  {
    CompareSelf(f[j].member.key, cs);
    var ms := Members(f);
    assert ms[0] == f[0].member && ms[j] == f[j].member && ms[|f| - 1] == f[|f| - 1].member;
  }

  ghost function Last(s: seq<Node>): Node
    requires s != []
  {
    s[|s| - 1]
  }

  /** The larger of two last nodes, the first list's on a tie. */
  ghost function Larger(x: Node, y: Node, cs: bool): Node
  {
    if Less(x.member, y.member, cs) then y else x
  }

  lemma TailSorted(x: seq<Node>, cs: bool)
    requires x != [] && Sorted(Members(x), cs)
    ensures Sorted(Members(x[1..]), cs) && (|x| > 1 ==> Last(x[1..]) == Last(x))
  {
    assert Members(x[1..]) == Members(x)[1..];
  }

  /** The merged list ends with the larger of the two last nodes. */
  lemma {:induction false} FrontsLast(out: seq<Node>, x: seq<Node>, y: seq<Node>, cs: bool)
    requires x != [] && y != [] && Sorted(Members(x), cs) && Sorted(Members(y), cs)
    ensures
      var (o, a, b) := Fronts(out, x, y, cs);
      Rest(o, a, b) != [] && Last(Rest(o, a, b)) == Larger(Last(x), Last(y), cs)
    decreases |x| + |y|
  {
    if Less(x[0].member, y[0].member, cs) {
      TailSorted(x, cs);
      if |x| > 1 {
        FrontsLast(out + [x[0]], x[1..], y, cs);
      } else {
        assert Members(y)[0] == y[0].member && Members(y)[|y| - 1] == Last(y).member;
        LastAbove(x[0].member, Members(y), cs);
        assert Fronts(out + [x[0]], x[1..], y, cs) == (out + [x[0]], x[1..], y);
      }
    } else {
      TailSorted(y, cs);
      if |y| > 1 {
        FrontsLast(out + [y[0]], x, y[1..], cs);
      } else {
        assert Members(x)[0] == x[0].member && Members(x)[|x| - 1] == Last(x).member;
        CompareSymmetric(x[0].member.key, y[0].member.key, cs);
        NotBelowLast(Members(x), y[0].member, cs);
        assert Fronts(out + [y[0]], x, y[1..], cs) == (out + [y[0]], x, y[1..]);
      }
    }
  }

  lemma MergeLast(f: seq<Node>, g: seq<Node>, cs: bool)
    requires f != [] && g != [] && Sorted(Members(f), cs) && Sorted(Members(g), cs)
    ensures MergeNodes(f, g, cs) != [] && Last(MergeNodes(f, g, cs)) == Larger(Last(f), Last(g), cs)
  {
    FrontsLast([], f, g, cs);
  }

  lemma LastAbove(m: Member, ms: seq<Member>, cs: bool)
    requires ms != [] && Sorted(ms, cs) && Less(m, ms[0], cs)
    ensures Less(m, ms[|ms| - 1], cs)
  {
    CompareSelf(ms[0].key, cs);
    CompareTransitive(m.key, ms[0].key, ms[|ms| - 1].key, cs);
  }

  lemma NotBelowLast(ms: seq<Member>, m: Member, cs: bool)
    requires ms != [] && Sorted(ms, cs) && Compare(m.key, ms[0].key, cs) <= 0
    ensures !Less(ms[|ms| - 1], m, cs)
  {
    CompareSelf(ms[0].key, cs);
    CompareTransitive(m.key, ms[0].key, ms[|ms| - 1].key, cs);
    CompareSymmetric(m.key, ms[|ms| - 1].key, cs);
  }

  lemma CutPlaces(s: seq<Node>, half: nat)
    requires 0 < half < |s| && AllDifferent(s)
    ensures AllDifferent(s[..half]) && AllDifferent(s[half..])
    ensures (forall x | x in s[..half] :: x !in s[half..])
  {
  }

  /** Which node comes first. */
  lemma {:induction false} FirstStaysIff(s: seq<Node>, cs: bool)
    requires s != [] && AllDifferent(s)
    ensures SortNodes(s, cs) != []
    ensures SortNodes(s, cs)[0] == s[0] <==> SmallestFirst(Members(s), cs)
    decreases |s|
  {
    if |s| > 1 && !Ascending(Members(s), cs) {
      var half := (|s| + 1) / 2;
      var a, b := s[..half], s[half..];
      CutPlaces(s, half);
      FirstStaysIff(a, cs);
      HalfSorted(a, cs);
      HalfSorted(b, cs);
      FirstOfHalves(s, half, SortNodes(a, cs), SortNodes(b, cs), cs);
    } else if |s| > 1 {
      AscendingEnds(Members(s), cs);
    }
  }

  lemma FirstOfHalves(s: seq<Node>, half: nat, f: seq<Node>, g: seq<Node>, cs: bool)
    requires 0 < half < |s| && SortedHalf(s[..half], f, cs) && SortedHalf(s[half..], g, cs)
    requires forall x | x in s[..half] :: x !in s[half..]
    requires f[0] == s[0] <==> SmallestFirst(Members(s[..half]), cs)
    ensures MergeNodes(f, g, cs) != []
    ensures MergeNodes(f, g, cs)[0] == s[0] <==> SmallestFirst(Members(s), cs)
  {
    var a, b, r := s[..half], s[half..], MergeNodes(f, g, cs);
    MergeFirst(f, g, cs);
    assert s[0] == a[0] && s[0] in a && g[0] in b;
    assert forall i | 0 <= i < half :: Members(a)[i] == Members(s)[i];
    if r[0] == s[0] {
      forall j | 0 < j < |s| ensures Less(Members(s)[0], Members(s)[j], cs) {
        if j < half {
          assert Less(Members(a)[0], Members(a)[j], cs);
        } else {
          assert b[j - half] == s[j];
          CompareTransitive(f[0].member.key, g[0].member.key, s[j].member.key, cs);
        }
      }
    }
    if SmallestFirst(Members(s), cs) {
      forall j | 0 < j < |a| ensures Less(Members(a)[0], Members(a)[j], cs) { assert Less(Members(s)[0], Members(s)[j], cs); }
      var j :| 0 <= j < |b| && b[j] == g[0];
      assert Less(Members(s)[0], Members(s)[half + j], cs);
    }
  }

  /** Which node comes last. */
  lemma {:induction false} LastStaysIff(s: seq<Node>, cs: bool)
    requires s != [] && AllDifferent(s)
    ensures SortNodes(s, cs) != []
    ensures Last(SortNodes(s, cs)) == Last(s) <==> LargestLast(Members(s), cs)
    decreases |s|
  {
    if |s| > 1 && !Ascending(Members(s), cs) {
      var half := (|s| + 1) / 2;
      var a, b := s[..half], s[half..];
      assert Last(b) == Last(s);
      CutPlaces(s, half);
      LastStaysIff(b, cs);
      HalfSorted(a, cs);
      HalfSorted(b, cs);
      var f, g := SortNodes(a, cs), SortNodes(b, cs);
      LastOfHalves(s, half, f, g, cs);
      assert SortNodes(s, cs) == MergeNodes(f, g, cs);
    } else if |s| > 1 {
      AscendingEnds(Members(s), cs);
    }
  }

  lemma LastOfHalves(s: seq<Node>, half: nat, f: seq<Node>, g: seq<Node>, cs: bool)
    requires 0 < half < |s| && SortedHalf(s[..half], f, cs) && SortedHalf(s[half..], g, cs)
    requires forall x | x in s[..half] :: x !in s[half..]
    requires Last(g) == Last(s) <==> LargestLast(Members(s[half..]), cs)
    ensures MergeNodes(f, g, cs) != []
    ensures Last(MergeNodes(f, g, cs)) == Last(s) <==> LargestLast(Members(s), cs)
  {
    MergeLast(f, g, cs);
    assert Last(s) == s[half..][|s| - half - 1] && Last(s) in s[half..] && Last(f) in s[..half];
    if Larger(Last(f), Last(g), cs) == Last(s) { LargestOfHalves(s, half, f, g, cs); }
    if LargestLast(Members(s), cs) { LargestInHalf(s, half, f, cs); }
  }

  lemma LargestOfHalves(s: seq<Node>, half: nat, f: seq<Node>, g: seq<Node>, cs: bool)
    requires 0 < half < |s| && SortedHalf(s[..half], f, cs) && g != [] && Last(g) == Last(s)
    requires Less(Last(f).member, Last(g).member, cs) && LargestLast(Members(s[half..]), cs)
    ensures LargestLast(Members(s), cs)
  {
    var a, b := s[..half], s[half..];
    forall j | 0 <= j < |s| - 1 ensures Less(Members(s)[j], Members(s)[|s| - 1], cs) {
      if j >= half {
        assert Less(Members(b)[j - half], Members(b)[|b| - 1], cs);
      } else {
        assert a[j] == s[j];
        CompareTransitive(s[j].member.key, Last(f).member.key, Last(g).member.key, cs);
      }
    }
  }

  lemma LargestInHalf(s: seq<Node>, half: nat, f: seq<Node>, cs: bool)
    requires 0 < half < |s| && SortedHalf(s[..half], f, cs) && LargestLast(Members(s), cs)
    ensures LargestLast(Members(s[half..]), cs) && Less(Last(f).member, Last(s).member, cs)
  {
    var a, b := s[..half], s[half..];
    forall j | 0 <= j < |b| - 1 ensures Less(Members(b)[j], Members(b)[|b| - 1], cs) {
      assert Less(Members(s)[half + j], Members(s)[|s| - 1], cs);
    }
    assert Last(f) in a;
    var j :| 0 <= j < |a| && a[j] == Last(f);
    assert Less(Members(s)[j], Members(s)[|s| - 1], cs);
  }
}
