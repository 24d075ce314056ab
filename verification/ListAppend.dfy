/**
 Appending to a list whose head's prev may not be the tail, as sort_list leaves it, and the copy
 that makes a list whole again. add_item_to_array trusts the head's prev: NULL there means that the
 item is not linked at all, an inner node means that the nodes behind it are cut off.
 */
module ListAppend {
  import opened Json
  import opened JsonSort
  import opened JsonPatch
  import opened JsonPointer
  import opened LinkedList
  import opened ListSort
  import opened ListEnds

  /** What is in the list after an append, from what the head's prev was; `at` is its place. */
  ghost function Appended(s: seq<Node>, tail: Node?, at: nat, item: Node): seq<Node>
    requires s != [] && tail != null ==> at < |s|
  {
    if s == [] then [item] else if tail == null then s else s[..at + 1] + [item]
  }

  /** add_item_to_array, for any list: the items are linked by next and prev inside. */
  method AddItem(child: Node?, item: Node, ghost s: seq<Node>, ghost at: nat) returns (head: Node)
    requires Chained(child, s) && item !in s && item.next == null
    requires s != [] && s[0].prev != null ==> at < |s| && s[0].prev == s[at]
    modifies s, item
    ensures Chained(head, Appended(s, if s == [] then null else old(s[0].prev), at, item))
  {
    if child == null {
      item.prev := item;
      item.next := null;
      return item;
    }
    head := child;
    var tail := child.prev;
    if tail != null {
      ghost var front := s[..at + 1];
      FrontOpen(s, at);
      tail.next := item;
      item.prev := tail;
      child.prev := item;
      EndChained(front, item);
      assert front + [item] == s[..at + 1] + [item];
    }
  }

  lemma FrontOpen(s: seq<Node>, at: nat)
    requires s != [] && Chained(s[0], s) && at < |s|
    ensures Open(s[0], s[..at + 1])
  {
    var front := s[..at + 1];
    forall i: nat | i + 1 < |front| ensures front[i].next == Succ(front, i) { var next := Succ(s, i); }
    forall i: nat | 0 < i < |front| ensures front[i].prev == front[i - 1] { var prev := Before(s, i); }
  }

  lemma EndChained(front: seq<Node>, item: Node)
    requires front != [] && Open(front[0], front) && item !in front
    requires front[|front| - 1].next == item && item.prev == front[|front| - 1] && item.next == null
    ensures Chained(front[0], front + [item])
  {
    OpenExtended(front[0], front, item);
    var r := front + [item];
    forall i: nat | i < |r| ensures r[i].next == Succ(r, i) {
      if i + 1 < |r| { var next := Succ(r, i); }
    }
  }

  /** What a caller can see of a list before it is sorted: the first name is the smallest and the
      last the largest, each without an equal. */
  ghost predicate EndsInPlace(s: seq<Node>, cs: bool)
  {
    SmallestFirst(Members(s), cs) && LargestLast(Members(s), cs)
  }

  lemma LinkedIsChained(head: Node?, s: seq<Node>)
    requires Linked(head, s)
    ensures Chained(head, s) && (s != [] ==> s[0].prev == s[|s| - 1])
  {
    forall i: nat | 0 < i < |s| ensures s[i].prev == Before(s, i) { var prev := Pred(s, i); }
    if s != [] { var prev := Pred(s, 0); }
  }

  lemma LinkedIff(head: Node?, r: seq<Node>)
    requires Chained(head, r)
    ensures Linked(head, r) <==> (r != [] ==> r[0].prev == r[|r| - 1])
  {
    if r != [] && r[0].prev == r[|r| - 1] {
      forall i: nat | i < |r| ensures r[i].prev == Pred(r, i) {
        if i > 0 { var prev := Before(r, i); }
      }
    }
    if r != [] && Linked(head, r) { var prev := Pred(r, 0); }
  }

  /** sort_object: the nodes come out in order, and the list is whole exactly when the first node had
      the smallest name and the last the largest. */
  method SortObject(child: Node?, ghost s: seq<Node>, cs: bool) returns (head: Node?, ghost r: seq<Node>)
    requires Linked(child, s)
    modifies s
    ensures Chained(head, r) && multiset(r) == multiset(s) && Members(r) == Sort(Members(s), cs) && |r| == |s|
    ensures forall i | 0 <= i < |r| :: r[i] in s
    ensures s != [] ==> r[0].prev == (if SmallestFirst(Members(s), cs) then Last(s) else null) && Last(s) in r
    ensures s != [] ==> (Last(r) == Last(s) <==> LargestLast(Members(s), cs))
    ensures Linked(head, r) <==> EndsInPlace(s, cs)
  {
    LinkedIsChained(child, s);
    if s != [] {
      FirstStaysIff(s, cs);
      LastStaysIff(s, cs);
    }
    head, r := SortList(child, s, cs);
    SameNodes(s, r);
    LinkedIff(head, r);
  }

  /** An append after sort_object: the item ends up behind the sorted nodes exactly when the first node
      had the smallest name and the last the largest. If the first had not, the item is not in the
      list; if only the last had not, the nodes behind it are gone. */
  method SortThenAdd(child: Node?, item: Node, ghost s: seq<Node>, cs: bool)
    returns (head: Node, ghost sorted: seq<Node>, ghost r: seq<Node>)
    requires Linked(child, s) && item !in s && item.next == null
    modifies s, item
    ensures multiset(sorted) == multiset(s) && Members(sorted) == Sort(Members(s), cs) && |sorted| == |s|
    ensures Chained(head, r)
    ensures r == sorted + [item] <==> EndsInPlace(s, cs)
    ensures !SmallestFirst(Members(s), cs) ==> r == sorted
    ensures s != [] && SmallestFirst(Members(s), cs) ==>
              exists at | 0 <= at < |sorted| :: sorted[at] == Last(s) && r == sorted[..at + 1] + [item]
  {
    var start;
    start, sorted := SortObject(child, s, cs);
    ghost var tail := if sorted == [] then null else sorted[0].prev;
    ghost var at := TailPlace(sorted, tail);
    assert forall x | x in sorted :: x in s;
    r := Appended(sorted, tail, at, item);
    if s != [] { AppendedIff(sorted, tail, at, item); }
    head := AddItem(start, item, sorted, at);
  }

  lemma TailPlace(sorted: seq<Node>, tail: Node?) returns (at: nat)
    requires tail != null ==> tail in sorted
    ensures tail != null ==> at < |sorted| && sorted[at] == tail
  {
    at := 0;
    if tail != null { at :| 0 <= at < |sorted| && sorted[at] == tail; }
  }

  lemma AppendedIff(sorted: seq<Node>, tail: Node?, at: nat, item: Node)
    requires sorted != [] && AllDifferent(sorted) && (tail != null ==> at < |sorted| && sorted[at] == tail)
    ensures Appended(sorted, tail, at, item) == sorted + [item] <==> tail == Last(sorted)
  {
    var r := Appended(sorted, tail, at, item);
    if tail == null {
      assert |r| != |sorted + [item]|;
    } else if at + 1 == |sorted| {
      assert sorted[..at + 1] == sorted;
    } else {
      assert |r| == at + 2 && sorted[at] != sorted[|sorted| - 1];
    }
  }

  /** The members of a list, read along the next pointers. */
  method Collect(child: Node?, ghost s: seq<Node>) returns (ms: seq<Member>)
    requires Chained(child, s)
    ensures ms == Members(s)
  {
    ms := [];
    var current := child;
    ghost var i := 0;
    while current != null
      invariant 0 <= i <= |s| && current == (if i < |s| then s[i] else null)
      invariant ms == Members(s)[..i]
      decreases |s| - i
    {
      ghost var next := Succ(s, i);
      ms := ms + [current.member];
      current := current.next;
      i := i + 1;
    }
  }

  /** The loop of cJSON_Duplicate over the children: new nodes, linked at both ends whatever the
      head's prev of the original is. */
  method Duplicate(child: Node?, ghost s: seq<Node>) returns (copy: List)
    requires Chained(child, s)
    ensures fresh(copy) && fresh(copy.nodes) && copy.Valid() && Members(copy.nodes) == Members(s)
  {
    copy := new List();
    var current := child;
    ghost var i := 0;
    while current != null
      invariant 0 <= i <= |s| && current == (if i < |s| then s[i] else null)
      invariant fresh(copy) && fresh(copy.nodes) && copy.Valid() && Members(copy.nodes) == Members(s)[..i]
      invariant Chained(child, s)
      decreases |s| - i
    {
      ghost var next := Succ(s, i);
      var node := new Node(current.member);
      MembersJoin(copy.nodes, [node]);
      copy.Append(node);
      current := current.next;
      i := i + 1;
    }
  }

  const B_THEN_A := [Member("b", Number(1.0)), Member("a", Number(2.0))]
  const C := Member("c", Number(3.0))
  const A_THEN_B := [Member("a", Number(2.0)), Member("b", Number(1.0))]

  lemma BeforeA()
    ensures Sort(B_THEN_A, true) == A_THEN_B && !Less(B_THEN_A[0], B_THEN_A[1], true)
  {
    var b, a := B_THEN_A[0], B_THEN_A[1];
    assert B_THEN_A[..1] == [b] && B_THEN_A[1..] == [a];
    assert Compare("b", "a", true) > 0;
    assert !Less(b, a, true);
    assert Merge([b], [a], true) == [a] + Merge([b], [], true);
  }

  lemma ThreeSorted()
    ensures Sort(B_THEN_A + [C], true) == A_THEN_B + [C]
  {
    var ms, a, b := B_THEN_A + [C], A_THEN_B[0], A_THEN_B[1];
    BeforeA();
    assert ms[..2] == B_THEN_A && ms[2..] == [C];
    assert Compare("b", "a", true) > 0 && Compare("a", "c", true) < 0 && Compare("b", "c", true) < 0;
    assert !Less(ms[0], ms[1], true);
    assert A_THEN_B[1..] == [b] && [b][1..] == [];
    assert Merge([], [C], true) == [C];
    assert Merge([b], [C], true) == [b] + [C];
    assert Merge(A_THEN_B, [C], true) == [a] + Merge([b], [C], true);
  }

  /** A number that both objects have at the front asks for no patch. */
  lemma CommonFront(top: Json, m: Member, fs: seq<Member>, ts: seq<Member>)
    requires top.Object? && m in top.members && m.value.Number? && forall x | x in fs :: x in top.members
    ensures forall x | x in [m] + fs :: x in top.members
    ensures DiffMembers(top, [m] + fs, [m] + ts) == DiffMembers(top, fs, ts)
  {
    CompareSelf(m.key, true);
    assert ([m] + fs)[1..] == fs && ([m] + ts)[1..] == ts;
    assert Diff(m.value, m.value) == [];
    assert DiffMembers(top, [m] + fs, [m] + ts) == Prefixed("/" + Encode(m.key), []) + DiffMembers(top, fs, ts);
  }

  lemma OneAddition()
    ensures Diff(Object(B_THEN_A), Object(B_THEN_A + [C])) == [Patch(Add, "/" + Encode("c"), Some(C.value))]
  {
    var top := Object(B_THEN_A);
    var a, b := A_THEN_B[0], A_THEN_B[1];
    BeforeA();
    ThreeSorted();
    SortMembers(B_THEN_A, true);
    assert b in top.members && a in top.members by { assert top.members[0] == b && top.members[1] == a; }
    CommonFront(top, b, [], [C]);
    CommonFront(top, a, [b] + [], [b] + [C]);
    assert A_THEN_B == [a] + ([b] + []) && A_THEN_B + [C] == [a] + ([b] + [C]);
    assert [C][1..] == [];
    assert DiffMembers(top, [], [C]) == [Patch(Add, "/" + Encode("c"), Some(C.value))] + DiffMembers(top, [], []);
  }

  method TwoNodes() returns (list: List)
    ensures fresh(list) && fresh(list.nodes) && list.Valid() && Members(list.nodes) == B_THEN_A
  {
    list := new List();
    var b := new Node(B_THEN_A[0]);
    var a := new Node(B_THEN_A[1]);
    list.Append(b);
    list.Append(a);
    assert list.nodes == [b, a];
  }

  /** Patches for {"b", "a"} to {"b", "a", "c"} are generated, which sorts the first tree; the one
      patch, an addition, is then applied to that tree itself. The addition finds NULL in the prev of
      its new head and links nothing. */
  method AdditionIsLost() returns (left: seq<Member>)
    ensures Diff(Object(B_THEN_A), Object(B_THEN_A + [C])) == [Patch(Add, "/" + Encode("c"), Some(C.value))]
    ensures left == A_THEN_B
  {
    var list := TwoNodes();
    var c := new Node(C);
    ghost var s := list.nodes;
    BeforeA();
    var head;
    ghost var sorted, r;
    assert !Less(Members(s)[0], Members(s)[1], true);
    head, sorted, r := SortThenAdd(list.child, c, s, true);
    left := Collect(head, r);
    OneAddition();
  }
}
