/**
 DL_SORT2 on the nodes themselves: passes that take nodes from the fronts of two runs and relink
 them. Every list comes out linked both ways, with the tail in the head's prev, in the order of the
 sort on sequences.
 */
module DlSortEngine {
  import opened LinkedList
  import opened ListSort
  import opened DlSort

  /** Next pointers run through s and end in NULL. */
  ghost predicate Nexts(head: Node?, s: seq<Node>)
    reads s
  {
    && head == Head(s) && AllDifferent(s)
    && forall i: nat {:trigger Succ(s, i)} | i < |s| :: s[i].next == Succ(s, i)
  }

  /** Next pointers run through s; the last may go anywhere. */
  ghost predicate NextsInside(s: seq<Node>)
    reads s
  {
    AllDifferent(s) && forall i: nat {:trigger Succ(s, i)} | i + 1 < |s| :: s[i].next == Succ(s, i)
  }

  /** A merge in progress: what is linked, what is left of the first run, and the rest of the list. */
  ghost predicate Merging(list: Node?, tail: Node?, out: seq<Node>, p: Node?, run: seq<Node>, q: Node?, rest: seq<Node>)
    reads out, run, rest
  {
    && Open(list, out) && tail == (if out == [] then null else out[|out| - 1])
    && NextsInside(run) && (run != [] ==> p == run[0]) && Nexts(q, rest)
    && Apart(out, run) && Apart(out, rest) && Apart(run, rest)
  }

  lemma NextsTail(s: seq<Node>)
    requires s != [] && Nexts(s[0], s)
    ensures Nexts(s[0].next, s[1..]) && s[0] !in s[1..]
  {
    var t := s[1..];
    var first := Succ(s, 0);
    forall i: nat | i < |t| ensures t[i].next == Succ(t, i) { var next := Succ(s, i + 1); }
  }

  lemma InsideTail(s: seq<Node>)
    requires s != [] && NextsInside(s)
    ensures NextsInside(s[1..]) && s[0] !in s[1..] && (|s| > 1 ==> s[0].next == s[1])
  {
    var t := s[1..];
    var first := Succ(s, 0);
    forall i: nat | i + 1 < |t| ensures t[i].next == Succ(t, i) { var next := Succ(s, i + 1); }
  }

  /** The two lists that are not touched keep their links. */
  ghost predicate Clear(e: Node, out: seq<Node>, s: seq<Node>)
  {
    forall i | 0 <= i < |s| :: s[i] != e && s[i] !in out
  }

  lemma ApartClear(e: Node, out: seq<Node>, s: seq<Node>)
    requires Apart(out, s) && e !in s
    ensures Clear(e, out, s)
  {
    forall i | 0 <= i < |s| ensures s[i] != e && s[i] !in out { assert s[i] in s; }
  }

  /** Link a node behind the output. */
  method Link(list: Node?, tail: Node?, e: Node, q: Node?, ghost out: seq<Node>, ghost run: seq<Node>, ghost rest: seq<Node>)
    returns (head: Node)
    requires Open(list, out) && tail == (if out == [] then null else out[|out| - 1]) && e !in out
    requires NextsInside(run) && Nexts(q, rest) && Clear(e, out, run) && Clear(e, out, rest)
    modifies out, e
    ensures Open(head, out + [e]) && NextsInside(run) && Nexts(q, rest) && e.next == old(e.next)
  {
    if tail != null {
      tail.next := e;
      head := list;
    } else {
      head := e;
    }
    e.prev := tail;
    OpenExtended(head, out, e);
  }

  method TakeFirst(list: Node?, tail: Node?, p: Node, q: Node?, ghost out: seq<Node>, ghost run: seq<Node>, ghost rest: seq<Node>)
    returns (head: Node, last: Node, p': Node?)
    requires run != [] && Merging(list, tail, out, p, run, q, rest)
    modifies out, p
    ensures last == p && Merging(head, last, out + [p], p', run[1..], q, rest)
  {
    InsideTail(run);
    assert p in run;
    p' := p.next;
    ApartClear(p, out, run[1..]);
    ApartClear(p, out, rest);
    head := Link(list, tail, p, q, out, run[1..], rest);
    last := p;
  }

  method TakeSecond(list: Node?, tail: Node?, p: Node?, q: Node, ghost out: seq<Node>, ghost run: seq<Node>, ghost rest: seq<Node>)
    returns (head: Node, last: Node, q': Node?)
    requires rest != [] && Merging(list, tail, out, p, run, q, rest)
    modifies out, q
    ensures last == q && Merging(head, last, out + [q], p, run, q', rest[1..])
  {
    NextsTail(rest);
    assert q in rest;
    q' := q.next;
    assert q !in run;
    ApartClear(q, out, run);
    ApartClear(q, out, rest[1..]);
    head := Link(list, tail, q, q', out, run, rest[1..]);
    last := q;
  }

  // ----- one merge

  /** The inner loop on sequences: the output so far, the first run, the rest and how much of it
      belongs to the second run. */
  ghost function Walk(out: seq<Node>, run: seq<Node>, rest: seq<Node>, size: nat, cmp: Order): (seq<Node>, seq<Node>)
    decreases |run| + |rest|
  {
    if run == [] && (size == 0 || rest == []) then (out, rest)
    else if run == [] || (size > 0 && rest != [] && !Upto(cmp, run[0], rest[0])) then
      Walk(out + [rest[0]], run, rest[1..], size - 1, cmp)
    else Walk(out + [run[0]], run[1..], rest, size, cmp)
  }

  lemma {:induction false} WalkIsMerge(out: seq<Node>, run: seq<Node>, rest: seq<Node>, size: nat, cmp: Order)
    ensures
      var m := Min(size, |rest|);
      Walk(out, run, rest, size, cmp) == (out + StableMerge(run, rest[..m], cmp), rest[m..])
    decreases |run| + |rest|
  {
    var m := Min(size, |rest|);
    var q := rest[..m];
    if run == [] && (size == 0 || rest == []) {
      assert out + [] == out;
    } else if run == [] || (size > 0 && rest != [] && !Upto(cmp, run[0], rest[0])) {
      WalkIsMerge(out + [rest[0]], run, rest[1..], size - 1, cmp);
      SecondTaken(out, run, rest, m, cmp);
    } else {
      WalkIsMerge(out + [run[0]], run[1..], rest, size, cmp);
      FirstTaken(out, run, q, cmp);
    }
  }

  lemma SecondTaken(out: seq<Node>, run: seq<Node>, rest: seq<Node>, m: nat, cmp: Order)
    requires 0 < m <= |rest| && (run == [] || !Upto(cmp, run[0], rest[0]))
    ensures rest[1..][m - 1..] == rest[m..]
    ensures (out + [rest[0]]) + StableMerge(run, rest[1..][..m - 1], cmp) == out + StableMerge(run, rest[..m], cmp)
  {
    var q := rest[..m];
    assert q[1..] == rest[1..][..m - 1] && q[0] == rest[0];
    if run == [] {
      assert q == [q[0]] + q[1..];
    } else {
      assert StableMerge(run, q, cmp) == [q[0]] + StableMerge(run, q[1..], cmp);
    }
  }

  lemma FirstTaken(out: seq<Node>, run: seq<Node>, q: seq<Node>, cmp: Order)
    requires run != [] && (q == [] || Upto(cmp, run[0], q[0]))
    ensures (out + [run[0]]) + StableMerge(run[1..], q, cmp) == out + StableMerge(run, q, cmp)
  {
    if q == [] {
      assert run == [run[0]] + run[1..];
      assert StableMerge(run[1..], q, cmp) == run[1..];
    } else {
      assert StableMerge(run, q, cmp) == [run[0]] + StableMerge(run[1..], q, cmp);
    }
  }

  /** The inner loop: two runs are merged behind the output. */
  method MergeRuns(list: Node?, tail: Node?, p: Node, q: Node?, psize: nat, insize: nat, cmp: Order,
                   ghost out: seq<Node>, ghost run: seq<Node>, ghost rest: seq<Node>, ghost all: set<Node>)
    returns (head: Node?, last: Node?, next: Node?, ghost out': seq<Node>, ghost rest': seq<Node>)
    requires run != [] && |run| == psize && Merging(list, tail, out, p, run, q, rest)
    requires Within(out, all) && Within(run, all) && Within(rest, all)
    modifies all
    ensures Merging(head, last, out', null, [], next, rest') && Within(out', all) && Within(rest', all)
    ensures (out', rest') == Walk(out, run, rest, insize, cmp)
  {
    var a: Node?, left, size := p, psize, insize;
    head, last, next := list, tail, q;
    out', rest' := out, rest;
    ghost var r := run;
    while left > 0 || (size > 0 && next != null)
      invariant left == |r| && size >= 0 && Merging(head, last, out', a, r, next, rest')
      invariant Within(out', all) && Within(r, all) && Within(rest', all)
      invariant Walk(out', r, rest', size, cmp) == Walk(out, run, rest, insize, cmp)
      decreases |r| + |rest'|
    {
      if left == 0 || (size > 0 && next != null && cmp(a.member, next.member) > 0) {
        ghost var e := next;
        head, last, next := TakeSecond(head, last, a, next, out', r, rest');
        out', rest' := out' + [e], rest'[1..];
        size := size - 1;
      } else {
        ghost var e := a;
        head, last, a := TakeFirst(head, last, a, next, out', r, rest');
        out', r := out' + [e], r[1..];
        left := left - 1;
      }
    }
  }

  // ----- one pass

  /** The start of the second run, insize nodes on or at the end. */
  method SecondRunStart(p: Node, insize: nat, ghost s: seq<Node>) returns (q: Node?, psize: nat)
    requires s != [] && insize > 0 && Nexts(p, s)
    ensures psize == Min(insize, |s|) && q == if psize < |s| then s[psize] else null
  {
    q, psize := p, 0;
    var i := 0;
    while i < insize
      invariant 0 <= i <= insize && psize == i && i <= |s| && (i == |s| ==> i == insize)
      invariant q == if i < |s| then s[i] else null
    {
      ghost var next := Succ(s, i);
      psize := psize + 1;
      q := q.next;
      if q == null { break; }
      i := i + 1;
    }
  }

  lemma CutNexts(s: seq<Node>, n: nat)
    requires n <= |s| && Nexts(Head(s), s)
    ensures NextsInside(s[..n]) && Nexts(Head(s[n..]), s[n..]) && Apart(s[..n], s[n..])
  {
    var a, b := s[..n], s[n..];
    forall i: nat | i + 1 < |a| ensures a[i].next == Succ(a, i) { var next := Succ(s, i); }
    forall i: nat | i < |b| ensures b[i].next == Succ(b, i) { var next := Succ(s, n + i); }
  }

  /** The middle loop on sequences. */
  ghost function PassWalk(out: seq<Node>, s: seq<Node>, k: nat, cmp: Order): seq<Node>
    requires k > 0
    decreases |s|
  {
    if s == [] then out
    else
      WalkIsMerge(out, FirstRun(s, k), AfterRun(s, k), k, cmp);
      var (out', rest) := Walk(out, FirstRun(s, k), AfterRun(s, k), k, cmp);
      PassWalk(out', rest, k, cmp)
  }

  /** One turn of PassWalk. */
  lemma WalkTurn(out: seq<Node>, s: seq<Node>, k: nat, cmp: Order)
    requires s != [] && k > 0
    ensures PassWalk(out, s, k, cmp) == PassWalk(out + StableMerge(FirstRun(s, k), SecondRun(s, k), cmp), Beyond(s, k), k, cmp)
  {
    WalkIsMerge(out, FirstRun(s, k), AfterRun(s, k), k, cmp);
  }

  lemma Regroup(whole: seq<Node>, out: seq<Node>, merged: seq<Node>, rest: seq<Node>, pass: seq<Node>)
    requires whole == (out + merged) + rest && pass == merged + rest
    ensures whole == out + pass
  {
  }

  lemma {:induction false} PassWalkIsPass(out: seq<Node>, s: seq<Node>, k: nat, cmp: Order)
    requires k > 0
    ensures PassWalk(out, s, k, cmp) == out + Pass(s, k, cmp)
    decreases |s|
  {
    if s == [] {
      assert out + [] == out;
    } else {
      var merged, rest := StableMerge(FirstRun(s, k), SecondRun(s, k), cmp), Beyond(s, k);
      WalkTurn(out, s, k, cmp);
      PassWalkIsPass(out + merged, rest, k, cmp);
      Regroup(PassWalk(out, s, k, cmp), out, merged, Pass(rest, k, cmp), Pass(s, k, cmp));
    }
  }

  /** One turn of the middle loop: the next two runs are merged. */
  method MergeNext(list: Node?, tail: Node?, p: Node, insize: nat, cmp: Order, ghost out: seq<Node>, ghost s: seq<Node>, ghost all: set<Node>)
    returns (head: Node?, last: Node?, next: Node?, ghost out': seq<Node>, ghost rest: seq<Node>)
    requires s != [] && insize > 0 && Merging(list, tail, out, null, [], p, s) && Within(out, all) && Within(s, all)
    modifies all
    ensures Merging(head, last, out', null, [], next, rest) && Within(out', all) && Within(rest, all)
    ensures PassWalk(out, s, insize, cmp) == PassWalk(out', rest, insize, cmp) && |rest| == |s| - Min(2 * insize, |s|)
    ensures out' != []
  {
    var q, psize := SecondRunStart(p, insize, s);
    CutNexts(s, psize);
    CutRun(s, insize);
    WalkIsMerge(out, FirstRun(s, insize), AfterRun(s, insize), insize, cmp);
    MergeKeeps(FirstRun(s, insize), SecondRun(s, insize), cmp);
    ApartParts(out, s, psize);
    head, last, next, out', rest := MergeRuns(list, tail, p, q, psize, insize, cmp, out, FirstRun(s, insize), AfterRun(s, insize), all);
  }

  lemma ApartParts(out: seq<Node>, s: seq<Node>, n: nat)
    requires n <= |s| && Apart(out, s)
    ensures Apart(out, s[..n]) && Apart(out, s[n..])
  {
  }

  /** A finished output with its ends tied is a list. */
  lemma Closed(list: Node, s: seq<Node>)
    requires s != [] && list == s[0] && AllDifferent(s) && Undone(s) && s[0].prev == s[|s| - 1] && s[|s| - 1].next == null
    requires forall i: nat {:trigger Succ(s, i)} | i + 1 < |s| :: s[i].next == Succ(s, i)
    ensures Linked(list, s)
  {
    forall i: nat | i < |s| ensures s[i].prev == Pred(s, i) {
      if i > 0 { var prev := Before(s, i); }
    }
  }

  /** The middle loop: merges along the list, counted, and the ends tied. */
  method SortPass(list: Node, insize: nat, cmp: Order, ghost s: seq<Node>, ghost all: set<Node>)
    returns (head: Node, nmerges: nat, ghost r: seq<Node>)
    requires s != [] && insize > 0 && Nexts(list, s) && Within(s, all)
    modifies all
    ensures Linked(head, r) && r == Pass(s, insize, cmp) && Within(r, all)
    ensures nmerges <= 1 <==> |s| <= 2 * insize
  {
    var p: Node?, first: Node?, tail: Node? := list, null, null;
    ghost var left := s;
    nmerges, r := 0, [];
    while p != null
      invariant Merging(first, tail, r, null, [], p, left) && Within(r, all) && Within(left, all)
      invariant PassWalk(r, left, insize, cmp) == PassWalk([], s, insize, cmp)
      invariant nmerges == 0 ==> left == s
      invariant nmerges == 1 ==> |left| == |s| - Min(2 * insize, |s|)
      invariant nmerges >= 2 ==> |s| > 2 * insize
      invariant nmerges > 0 ==> r != []
      decreases |left|
    {
      nmerges := nmerges + 1;
      first, tail, p, r, left := MergeNext(first, tail, p, insize, cmp, r, left, all);
    }
    PassWalkIsPass([], s, insize, cmp);
    assert [] + Pass(s, insize, cmp) == Pass(s, insize, cmp);
    head := TieEnds(first, tail, r);
  }

  /** The head's prev is set to the tail, and the tail's next to NULL. */
  method TieEnds(first: Node?, tail: Node?, ghost r: seq<Node>) returns (head: Node)
    requires r != [] && Open(first, r) && tail == r[|r| - 1]
    modifies r
    ensures Linked(head, r)
  {
    head := first;
    head.prev := tail;
    tail.next := null;
    Closed(head, r);
  }

  /** DL_SORT2: the nodes of the list, relinked in the order that SortLoop gives. */
  method Sort(list: Node?, cmp: Order, ghost s: seq<Node>) returns (head: Node?, ghost r: seq<Node>)
    requires Linked(list, s)
    modifies s
    ensures Linked(head, r) && r == SortLoop(s, 1, cmp)
  {
    head, r := list, s;
    if list == null { return; }
    ghost var all := set x | x in s;
    var insize, looping := 1, true;
    while looping
      invariant insize > 0 && Linked(head, r) && r != [] && Within(r, all)
      invariant looping ==> SortLoop(r, insize, cmp) == SortLoop(s, 1, cmp)
      invariant !looping ==> r == SortLoop(s, 1, cmp)
      decreases looping, |r| - insize
    {
      PassKeeps(r, insize, cmp);
      var nmerges;
      head, nmerges, r := SortPass(head, insize, cmp, r, all);
      if nmerges <= 1 { looping := false; }
      insize := 2 * insize;
    }
  }
}
