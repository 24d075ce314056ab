/**
 sort_list on the nodes themselves: the list is cut in the middle, the halves are sorted, and the
 nodes are relinked in order. The next pointers end up running through the nodes as the sort on
 sequences says. The head's prev, which caches the tail, is not set: a head that stays the head
 keeps it, any other head has NULL there. ListAppend.dfy shows what that does to a later append.
 */
module ListSort {
  import opened Json
  import opened JsonSort
  import opened LinkedList

  ghost function Before(s: seq<Node>, i: nat): Node
    requires 0 < i < |s|
  {
    s[i - 1]
  }

  /** Prev pointers undo next pointers inside s. */
  ghost predicate Undone(s: seq<Node>)
    reads s
  {
    forall i: nat {:trigger Before(s, i)} | 0 < i < |s| :: s[i].prev == Before(s, i)
  }

  /** Next pointers run through s and end in NULL; prev pointers undo them inside. */
  ghost predicate Chained(head: Node?, s: seq<Node>)
    reads s
  {
    && head == Head(s) && AllDifferent(s) && Undone(s)
    && forall i: nat {:trigger Succ(s, i)} | i < |s| :: s[i].next == Succ(s, i)
  }

  /** As Chained, but the last next pointer may be anything. */
  ghost predicate Open(head: Node?, s: seq<Node>)
    reads s
  {
    && head == Head(s) && AllDifferent(s) && Undone(s)
    && forall i: nat {:trigger Succ(s, i)} | i + 1 < |s| :: s[i].next == Succ(s, i)
  }

  ghost function Members(s: seq<Node>): (r: seq<Member>)
    ensures |r| == |s| && forall i | 0 <= i < |s| :: r[i] == s[i].member
  {
    seq(|s|, i requires 0 <= i < |s| => s[i].member)
  }

  ghost predicate Apart(a: seq<Node>, b: seq<Node>) { forall x | x in a :: x !in b }

  lemma TailChained(s: seq<Node>)
    requires s != [] && Chained(s[0], s)
    ensures Chained(s[0].next, s[1..]) && s[0] !in s[1..] && Members(s)[1..] == Members(s[1..])
  {
    var t := s[1..];
    var first := Succ(s, 0);
    forall i: nat | i < |t| ensures t[i].next == Succ(t, i) && (i > 0 ==> t[i].prev == t[i - 1]) {
      var next, prev := Succ(s, i + 1), Before(s, i + 1);
    }
  }

  /** One more node behind an open chain. */
  lemma OpenExtended(head: Node?, s: seq<Node>, x: Node)
    requires head == Head(s + [x]) && AllDifferent(s) && x !in s && Undone(s)
    requires forall i: nat {:trigger Succ(s, i)} | i + 1 < |s| :: s[i].next == Succ(s, i)
    requires s != [] ==> s[|s| - 1].next == x && x.prev == s[|s| - 1]
    ensures Open(head, s + [x])
  {
    var r := s + [x];
    forall i: nat | i + 1 < |r| ensures r[i].next == Succ(r, i) {
      var next := Succ(s, i);
    }
    forall i: nat | 0 < i < |r| ensures r[i].prev == r[i - 1] {
      if i < |s| { var prev := Before(s, i); }
    }
  }

  /** A chain behind an open one. */
  lemma Joined(head: Node?, s: seq<Node>, t: seq<Node>)
    requires s != [] && t != [] && Open(head, s) && Chained(t[0], t) && Apart(s, t)
    requires s[|s| - 1].next == t[0] && t[0].prev == s[|s| - 1]
    ensures Chained(head, s + t)
  {
    var r := s + t;
    forall a, b | 0 <= a < b < |r| ensures r[a] != r[b] {
      if a < |s| <= b { assert s[a] in s && t[b - |s|] in t; }
    }
    forall i: nat | i < |r| ensures r[i].next == Succ(r, i) {
      if i < |s| { var next := Succ(s, i); } else { var next := Succ(t, i - |s|); }
    }
    forall i: nat | 0 < i < |r| ensures r[i].prev == r[i - 1] {
      if i < |s| { var prev := Before(s, i); } else if i > |s| { var prev := Before(t, i - |s|); }
    }
  }

  lemma MembersJoin(a: seq<Node>, b: seq<Node>)
    ensures Members(a + b) == Members(a) + Members(b)
  {
  }

  /** The state of the merge: what is linked, and what is left of both lists. */
  ghost predicate Merging(result: Node?, tail: Node?, out: seq<Node>, first: Node?, f: seq<Node>, second: Node?, g: seq<Node>)
    reads out, f, g
  {
    && Open(result, out) && tail == (if out == [] then null else out[|out| - 1])
    && Chained(first, f) && Chained(second, g) && Apart(out, f) && Apart(out, g) && Apart(f, g)
  }

  lemma Swapped(result: Node?, tail: Node?, out: seq<Node>, first: Node?, f: seq<Node>, second: Node?, g: seq<Node>)
    requires Merging(result, tail, out, first, f, second, g)
    ensures Merging(result, tail, out, second, g, first, f)
  {
  }

  /** Link the first node of a chain behind what is merged so far. */
  method Take(result: Node?, tail: Node?, smaller: Node, second: Node?, ghost out: seq<Node>, ghost f: seq<Node>, ghost g: seq<Node>)
    returns (head: Node, rest: Node?)
    requires f != [] && Merging(result, tail, out, smaller, f, second, g)
    modifies out, smaller
    ensures Merging(head, smaller, out + [smaller], rest, f[1..], second, g)
    ensures head.prev == old(head.prev)
  {
    TailChained(f);
    ghost var left := f[1..];
    assert smaller in f && smaller !in g && smaller !in out;
    forall i | 0 <= i < |left| ensures left[i] != smaller && left[i] !in out { assert left[i] in f; }
    forall i | 0 <= i < |g| ensures g[i] != smaller && g[i] !in out { assert g[i] in g; }
    if tail == null {
      head := smaller;
    } else {
      tail.next := smaller;
      smaller.prev := tail;
      head := result;
    }
    rest := smaller.next;
    assert Chained(rest, left) && Chained(second, g);
    OpenExtended(head, out, smaller);
  }

  /** The step of the merge on sequences. */
  lemma MergeStep(out: seq<Node>, f: seq<Node>, g: seq<Node>, cs: bool)
    requires f != [] && g != []
    ensures
      var m := Members(out) + Merge(Members(f), Members(g), cs);
      && (Less(f[0].member, g[0].member, cs) ==> m == Members(out + [f[0]]) + Merge(Members(f[1..]), Members(g), cs))
      && (!Less(f[0].member, g[0].member, cs) ==> m == Members(out + [g[0]]) + Merge(Members(f), Members(g[1..]), cs))
  {
    assert Members(f)[1..] == Members(f[1..]) && Members(g)[1..] == Members(g[1..]);
    MembersJoin(out, [f[0]]);
    MembersJoin(out, [g[0]]);
    assert Members([f[0]]) == [f[0].member] && Members([g[0]]) == [g[0].member];
    if Less(f[0].member, g[0].member, cs) {
      assert Members(out) + ([f[0].member] + Merge(Members(f[1..]), Members(g), cs))
          == (Members(out) + [f[0].member]) + Merge(Members(f[1..]), Members(g), cs);
    } else {
      assert Members(out) + ([g[0].member] + Merge(Members(f), Members(g[1..]), cs))
          == (Members(out) + [g[0].member]) + Merge(Members(f), Members(g[1..]), cs);
    }
  }

  lemma TakenNodes(out: seq<Node>, f: seq<Node>, g: seq<Node>)
    requires f != []
    ensures multiset(out + [f[0]] + f[1..] + g) == multiset(out + f + g)
    ensures multiset(out + [f[0]] + g + f[1..]) == multiset(out + g + f)
  {
    assert f == [f[0]] + f[1..];
  }

  ghost predicate Within(s: seq<Node>, all: set<Node>) { forall i | 0 <= i < |s| :: s[i] in all }

  /** One turn of the merge loop: the smaller front node is taken, the second list's on a tie. */
  method TakeSmaller(result: Node?, tail: Node?, a: Node, b: Node, ghost out: seq<Node>, ghost x: seq<Node>, ghost y: seq<Node>, cs: bool)
    returns (head: Node, last: Node, a': Node?, b': Node?, ghost x': seq<Node>, ghost y': seq<Node>)
    requires Merging(result, tail, out, a, x, b, y) && x != [] && y != []
    modifies out, a, b
    ensures Merging(head, last, out + [last], a', x', b', y')
    ensures if Less(x[0].member, y[0].member, cs) then last == x[0] && x' == x[1..] && y' == y
            else last == y[0] && x' == x && y' == y[1..]
    ensures head == (if out == [] then last else out[0]) && head.prev == old(head.prev)
  {
    assert a in x && b in y;
    if Compare(a.member.key, b.member.key, cs) < 0 {
      head, a' := Take(result, tail, a, b, out, x, y);
      last, b', x', y' := a, b, x[1..], y;
    } else {
      Swapped(result, tail, out, a, x, b, y);
      head, b' := Take(result, tail, b, a, out, y, x);
      last, a', x', y' := b, a, x, y[1..];
      Swapped(head, last, out + [b], b', y', a', x');
    }
  }

  /** The merge so far: no node is lost, and what is linked goes before what is left. */
  ghost predicate Progress(out: seq<Node>, x: seq<Node>, y: seq<Node>, f: seq<Node>, g: seq<Node>, cs: bool)
  {
    && multiset(out + x + y) == multiset(f + g)
    && Members(out) + Merge(Members(x), Members(y), cs) == Merge(Members(f), Members(g), cs)
    && (out != [] ==> x != [] || y != [])
  }

  lemma ProgressStart(f: seq<Node>, g: seq<Node>, cs: bool)
    ensures Progress([], f, g, f, g, cs)
  {
    var goal := Merge(Members(f), Members(g), cs);
    assert Members([]) + goal == goal;
    assert [] + f + g == f + g;
  }

  lemma ProgressStep(out: seq<Node>, x: seq<Node>, y: seq<Node>, f: seq<Node>, g: seq<Node>, cs: bool)
    requires x != [] && y != [] && Progress(out, x, y, f, g, cs)
    ensures Less(x[0].member, y[0].member, cs) ==> Progress(out + [x[0]], x[1..], y, f, g, cs)
    ensures !Less(x[0].member, y[0].member, cs) ==> Progress(out + [y[0]], x, y[1..], f, g, cs)
  {
    MergeStep(out, x, y, cs);
    TakenNodes(out, x, y);
    TakenNodes(out, y, x);
    assert multiset(out + y + x) == multiset(out + x + y);
    assert multiset(out + [y[0]] + y[1..] + x) == multiset(out + [y[0]] + x + y[1..]);
  }

  /** Taking fronts until one side is used up: what is linked, and what is left of each side. */
  ghost function Fronts(out: seq<Node>, x: seq<Node>, y: seq<Node>, cs: bool): (seq<Node>, seq<Node>, seq<Node>)
    decreases |x| + |y|
  {
    if x == [] || y == [] then (out, x, y)
    else if Less(x[0].member, y[0].member, cs) then Fronts(out + [x[0]], x[1..], y, cs)
    else Fronts(out + [y[0]], x, y[1..], cs)
  }

  lemma {:induction false} FrontsProgress(out: seq<Node>, x: seq<Node>, y: seq<Node>, f: seq<Node>, g: seq<Node>, cs: bool)
    requires Progress(out, x, y, f, g, cs)
    ensures var (o, a, b) := Fronts(out, x, y, cs); Progress(o, a, b, f, g, cs) && (a == [] || b == [])
    decreases |x| + |y|
  {
    if x != [] && y != [] {
      ProgressStep(out, x, y, f, g, cs);
      if Less(x[0].member, y[0].member, cs) {
        FrontsProgress(out + [x[0]], x[1..], y, f, g, cs);
      } else {
        FrontsProgress(out + [y[0]], x, y[1..], f, g, cs);
      }
    }
  }

  /** What the merge makes of what is linked and of what is left. */
  ghost function Rest(out: seq<Node>, x: seq<Node>, y: seq<Node>): seq<Node>
  {
    if x != [] then out + x else out + y
  }

  /** The merge of two lists of nodes; on a tie the second list's node comes first. */
  ghost function MergeNodes(f: seq<Node>, g: seq<Node>, cs: bool): seq<Node>
  {
    var (out, x, y) := Fronts([], f, g, cs);
    Rest(out, x, y)
  }

  /** sort_list on sequences of nodes. */
  ghost function SortNodes(s: seq<Node>, cs: bool): seq<Node>
    decreases |s|
  {
    if |s| <= 1 || Ascending(Members(s), cs) then s
    else
      var half := (|s| + 1) / 2;
      MergeNodes(SortNodes(s[..half], cs), SortNodes(s[half..], cs), cs)
  }

  lemma {:induction false} FrontsKeep(out: seq<Node>, x: seq<Node>, y: seq<Node>, cs: bool)
    requires out != []
    ensures var (o, a, b) := Fronts(out, x, y, cs); o != [] && o[0] == out[0]
    decreases |x| + |y|
  {
    if x != [] && y != [] {
      if Less(x[0].member, y[0].member, cs) {
        FrontsKeep(out + [x[0]], x[1..], y, cs);
      } else {
        FrontsKeep(out + [y[0]], x, y[1..], cs);
      }
    }
  }

  /** The merged list starts with the smaller of the two first nodes. */
  lemma MergeFirst(f: seq<Node>, g: seq<Node>, cs: bool)
    requires f != [] && g != []
    ensures
      var r := MergeNodes(f, g, cs);
      r != [] && r[0] == if Less(f[0].member, g[0].member, cs) then f[0] else g[0]
  {
    if Less(f[0].member, g[0].member, cs) {
      FrontsKeep([] + [f[0]], f[1..], g, cs);
    } else {
      FrontsKeep([] + [g[0]], f, g[1..], cs);
    }
  }

  /** The merge loop: nodes are taken from the fronts of both lists until one is used up. */
  method MergeFronts(first: Node?, second: Node?, ghost f: seq<Node>, ghost g: seq<Node>, cs: bool, ghost all: set<Node>)
    returns (result: Node?, tail: Node?, a: Node?, b: Node?, ghost out: seq<Node>, ghost x: seq<Node>, ghost y: seq<Node>)
    requires Chained(first, f) && Chained(second, g) && Apart(f, g) && Within(f, all) && Within(g, all)
    modifies all
    ensures Within(out, all) && Within(x, all) && Within(y, all)
    ensures Merging(result, tail, out, a, x, b, y) && (out, x, y) == Fronts([], f, g, cs)
    ensures if out == [] then forall n | n in all :: n.prev == old(n.prev) else out[0].prev == old(out[0].prev)
  {
    a, b, tail, result := first, second, null, null;
    out, x, y := [], f, g;
    while a != null && b != null
      invariant Within(out, all) && Within(x, all) && Within(y, all)
      invariant Merging(result, tail, out, a, x, b, y) && Fronts(out, x, y, cs) == Fronts([], f, g, cs)
      invariant if out == [] then forall n | n in all :: n.prev == old(n.prev) else out[0].prev == old(out[0].prev)
      decreases |x| + |y|
    {
      assert a in x && b in y && x[0] in all && y[0] in all;
      result, tail, a, b, x, y := TakeSmaller(result, tail, a, b, out, x, y, cs);
      out := out + [tail];
    }
  }

  /** The rest of a list is linked behind the merged nodes. */
  method AppendRest(result: Node?, tail: Node?, rest: Node, ghost out: seq<Node>, ghost x: seq<Node>) returns (head: Node)
    requires Open(result, out) && tail == (if out == [] then null else out[|out| - 1])
    requires Chained(rest, x) && x != [] && Apart(out, x)
    modifies out, rest
    ensures Chained(head, out + x) && head.prev == old(head.prev)
  {
    if result == null {
      assert out + x == x;
      return rest;
    }
    forall i | 0 <= i < |x| ensures x[i] !in out { assert x[i] in x; }
    tail.next := rest;
    rest.prev := tail;
    Joined(result, out, x);
    head := result;
  }

  lemma ProgressEnds(out: seq<Node>, x: seq<Node>, y: seq<Node>, f: seq<Node>, g: seq<Node>, cs: bool)
    requires Progress(out, x, y, f, g, cs) && (x == [] || y == [])
    ensures
      var r := Rest(out, x, y);
      multiset(r) == multiset(f + g) && Members(r) == Merge(Members(f), Members(g), cs)
  {
    MembersJoin(out, x);
    MembersJoin(out, y);
    if x == [] { assert out + x + y == out + y; } else { assert out + x + y == out + x; }
  }

  /** What the merge makes of two lists: the same nodes, in the order of the merged members. */
  ghost predicate MergeOf(r: seq<Node>, f: seq<Node>, g: seq<Node>, cs: bool)
  {
    multiset(r) == multiset(f + g) && Members(r) == Merge(Members(f), Members(g), cs)
  }

  lemma MergeEnds(out: seq<Node>, x: seq<Node>, y: seq<Node>, f: seq<Node>, g: seq<Node>, cs: bool)
    requires (out, x, y) == Fronts([], f, g, cs)
    ensures (x == [] || y == []) && (out != [] ==> x != [] || y != [])
    ensures Rest(out, x, y) == MergeNodes(f, g, cs) && MergeOf(Rest(out, x, y), f, g, cs)
  {
    ProgressStart(f, g, cs);
    FrontsProgress([], f, g, f, g, cs);
    ProgressEnds(out, x, y, f, g, cs);
  }

  /** Whichever list is left is linked behind the merged nodes. */
  method AppendEither(head: Node?, tail: Node?, a: Node?, b: Node?, ghost out: seq<Node>, ghost x: seq<Node>, ghost y: seq<Node>,
                      ghost all: set<Node>) returns (result: Node?)
    requires Merging(head, tail, out, a, x, b, y) && Within(out, all) && Within(x, all) && Within(y, all)
    requires (x == [] || y == []) && (out != [] ==> x != [] || y != [])
    modifies all
    ensures Chained(result, Rest(out, x, y))
    ensures result != null ==> result.prev == old(result.prev)
  {
    result := head;
    if a != null {
      result := AppendRest(head, tail, a, out, x);
    } else if b != null {
      result := AppendRest(head, tail, b, out, y);
    } else {
      assert out + y == [];
    }
  }

  /** The merge of two sorted sub-lists. The prev pointer of the first node is left alone. */
  method MergeLists(first: Node?, second: Node?, ghost f: seq<Node>, ghost g: seq<Node>, cs: bool, ghost all: set<Node>)
    returns (result: Node?, ghost r: seq<Node>)
    requires Chained(first, f) && Chained(second, g) && Apart(f, g) && Within(f, all) && Within(g, all)
    modifies all
    ensures Chained(result, r) && Within(r, all) && r == MergeNodes(f, g, cs) && MergeOf(r, f, g, cs)
    ensures r != [] ==> r[0].prev == old(r[0].prev)
  {
    var head, tail, a, b;
    ghost var out, x, y;
    head, tail, a, b, out, x, y := MergeFronts(first, second, f, g, cs, all);
    r := Rest(out, x, y);
    assert Within(r, all) && (r != [] ==> r[0].prev == old(r[0].prev));
    MergeEnds(out, x, y, f, g, cs);
    result := AppendEither(head, tail, a, b, out, x, y, all);
  }

  // ----- sort_list

  lemma KeepsApart(a: seq<Node>, f: seq<Node>, b: seq<Node>)
    requires multiset(f) == multiset(a)
    ensures Apart(a, b) ==> Apart(f, b) && Apart(b, f)
    ensures forall x | x in f :: x in a
  {
    forall x | x in f ensures x in a { assert x in multiset(f); }
  }

  /** The test for a list that is in order already. */
  method InOrder(list: Node, ghost s: seq<Node>, cs: bool) returns (r: bool)
    requires s != [] && Chained(list, s)
    ensures r == Ascending(Members(s), cs)
  {
    var current := list;
    ghost var i := 0;
    ghost var next := Succ(s, 0);
    while current.next != null && Compare(current.member.key, current.next.member.key, cs) < 0
      invariant i < |s| && current == s[i] && next == Succ(s, i)
      invariant forall j | 0 <= j < i :: Less(Members(s)[j], Members(s)[j + 1], cs)
      decreases |s| - i
    {
      current := current.next;
      i := i + 1;
      next := Succ(s, i);
    }
    r := current.next == null;
    if !r { assert !Less(Members(s)[i], Members(s)[i + 1], cs); }
  }

  /** Two walks, one twice as fast, find the node behind the middle. */
  method Middle(list: Node, ghost s: seq<Node>) returns (second: Node?)
    requires |s| > 1 && Chained(list, s)
    ensures second == s[(|s| + 1) / 2]
  {
    var current: Node?, slow: Node? := list, list;
    ghost var k := 0;
    while current != null
      invariant 0 <= k && 2 * k <= |s| + 1
      invariant slow == if k < |s| then s[k] else null
      invariant current == if 2 * k < |s| then s[2 * k] else null
      decreases |s| + 1 - 2 * k
    {
      ghost var a, b, c := Succ(s, k), Succ(s, 2 * k), Succ(s, 2 * k + 1);
      slow := slow.next;
      current := current.next;
      if current != null { current := current.next; }
      k := k + 1;
    }
    second := slow;
  }

  /** A chain cut in two. */
  lemma CutChain(s: seq<Node>, half: nat)
    requires 0 < half < |s| && AllDifferent(s) && s[half - 1].next == null
    requires forall i: nat {:trigger Succ(s, i)} | i < |s| && i + 1 != half :: s[i].next == Succ(s, i)
    requires forall i: nat {:trigger Before(s, i)} | 0 < i < |s| && i != half :: s[i].prev == Before(s, i)
    ensures Chained(s[0], s[..half]) && Chained(s[half], s[half..]) && Apart(s[..half], s[half..])
  {
    var a, b := s[..half], s[half..];
    forall i: nat | i < |a| ensures a[i].next == Succ(a, i) && (i > 0 ==> a[i].prev == a[i - 1]) {
      var next := Succ(s, i);
      if i > 0 { var prev := Before(s, i); }
    }
    forall i: nat | i < |b| ensures b[i].next == Succ(b, i) && (i > 0 ==> b[i].prev == b[i - 1]) {
      var next := Succ(s, half + i);
      if i > 0 { var prev := Before(s, half + i); }
    }
  }

  /** Cut the list in front of a node. */
  method Cut(second: Node, ghost s: seq<Node>, ghost half: nat)
    requires 0 < half < |s| && Chained(s[0], s) && s[half] == second
    modifies s
    ensures Chained(s[0], s[..half]) && Chained(second, s[half..]) && Apart(s[..half], s[half..])
    ensures s[0].prev == old(s[0].prev) && second.prev == null
  {
    ghost var prev := Before(s, half);
    second.prev.next := null;
    second.prev := null;
    CutChain(s, half);
  }

  /** sort_list: the nodes of the list, relinked in the order that SortNodes gives. */
  method SortList(list: Node?, ghost s: seq<Node>, cs: bool) returns (result: Node?, ghost r: seq<Node>)
    requires Chained(list, s)
    modifies s
    ensures Chained(result, r) && multiset(r) == multiset(s) && Members(r) == Sort(Members(s), cs)
    ensures r == SortNodes(s, cs)
    ensures r != [] ==> s != [] && r[0].prev == if r[0] == s[0] then old(s[0].prev) else null
    decreases |s|, 2
  {
    if list == null { return null, s; }
    ghost var next := Succ(s, 0);
    if list.next == null { return list, s; }
    var sorted := InOrder(list, s, cs);
    if sorted { return list, s; }
    var second := Middle(list, s);
    ghost var half := (|s| + 1) / 2;
    result, r := SortHalves(list, second, s, half, cs);
  }

  lemma SortUnfolds(ms: seq<Member>, half: nat, cs: bool)
    requires |ms| > 1 && half == (|ms| + 1) / 2 && !Ascending(ms, cs)
    ensures Sort(ms, cs) == Merge(Sort(ms[..half], cs), Sort(ms[half..], cs), cs)
  {
  }

  lemma NodesMerged(s: seq<Node>, half: nat, f: seq<Node>, g: seq<Node>)
    requires half <= |s| && multiset(f) == multiset(s[..half]) && multiset(g) == multiset(s[half..])
    ensures multiset(f + g) == multiset(s)
  {
    assert s == s[..half] + s[half..];
    assert multiset(s) == multiset(s[..half]) + multiset(s[half..]);
  }

  lemma MembersCut(s: seq<Node>, half: nat)
    requires half <= |s|
    ensures Members(s)[..half] == Members(s[..half]) && Members(s)[half..] == Members(s[half..])
  {
  }

  /** Both halves are sorted in place, each leaving the other alone. */
  method SortBoth(list: Node, second: Node, ghost a: seq<Node>, ghost b: seq<Node>, cs: bool)
    returns (first: Node?, rest: Node?, ghost f: seq<Node>, ghost g: seq<Node>)
    requires Chained(list, a) && Chained(second, b) && Apart(a, b) && a != [] && b != []
    modifies a, b
    ensures Chained(first, f) && Chained(rest, g) && Apart(f, g)
    ensures multiset(f) == multiset(a) && Members(f) == Sort(Members(a), cs)
    ensures multiset(g) == multiset(b) && Members(g) == Sort(Members(b), cs)
    ensures (forall x | x in f :: x in a) && (forall x | x in g :: x in b)
    ensures f != [] && g != [] && f == SortNodes(a, cs) && g == SortNodes(b, cs)
    ensures f[0].prev == (if f[0] == a[0] then old(a[0].prev) else null) && g[0].prev == (if g[0] == b[0] then old(b[0].prev) else null)
    decreases |a| + |b|, 0
  {
    forall i | 0 <= i < |b| ensures b[i] !in a { assert b[i] in b; }
    first, f := SortList(list, a, cs);
    KeepsApart(a, f, b);
    forall i | 0 <= i < |f| ensures f[i] !in b { assert f[i] in f; }
    rest, g := SortList(second, b, cs);
    KeepsApart(b, g, f);
  }

  /** Both halves together: what the merge gives is the sorted list. */
  lemma SortedHalves(s: seq<Node>, half: nat, f: seq<Node>, g: seq<Node>, r: seq<Node>, cs: bool)
    requires |s| > 1 && half == (|s| + 1) / 2 && !Ascending(Members(s), cs)
    requires multiset(f) == multiset(s[..half]) && Members(f) == Sort(Members(s[..half]), cs)
    requires multiset(g) == multiset(s[half..]) && Members(g) == Sort(Members(s[half..]), cs)
    requires MergeOf(r, f, g, cs)
    ensures multiset(r) == multiset(s) && Members(r) == Sort(Members(s), cs) && r != []
  {
    NodesMerged(s, half, f, g);
    MembersCut(s, half);
    SortUnfolds(Members(s), half, cs);
    assert s[0] in multiset(r);
  }

  method SortHalves(list: Node, second: Node, ghost s: seq<Node>, ghost half: nat, cs: bool) returns (result: Node?, ghost r: seq<Node>)
    requires |s| > 1 && half == (|s| + 1) / 2 && Chained(list, s) && s[half] == second && !Ascending(Members(s), cs)
    modifies s
    ensures Chained(result, r) && multiset(r) == multiset(s) && Members(r) == Sort(Members(s), cs)
    ensures r == SortNodes(s, cs)
    ensures r != [] && r[0].prev == if r[0] == s[0] then old(s[0].prev) else null
    decreases |s|, 1
  {
    ghost var all := set x | x in s;
    ghost var a, b := s[..half], s[half..];
    Cut(second, s, half);
    var first, rest;
    ghost var f, g;
    first, rest, f, g := SortBoth(list, second, a, b, cs);
    forall i | 0 <= i < |f| ensures f[i] in all { assert f[i] in a; }
    forall i | 0 <= i < |g| ensures g[i] in all { assert g[i] in b; }
    assert g[0] != s[0] by { assert g[0] in b && s[0] in a; }
    result, r := MergeLists(first, rest, f, g, cs, all);
    SortedHalves(s, half, f, g, r, cs);
    MergeFirst(f, g, cs);
    assert r[0] == f[0] || r[0] == g[0];
  }
}
