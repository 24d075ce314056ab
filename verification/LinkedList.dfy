/**
 The doubly linked lists of cJSON children and of utlist: next pointers that end in NULL, prev
 pointers that undo them, and the tail cached in the head's prev. Each operation relinks a few nodes
 and performs the matching operation on the sequence of nodes.
 */
module LinkedList {
  import opened Json

  class Node {
    const member: Member
    var next: Node?
    var prev: Node?

    constructor (member: Member)
      ensures this.member == member && next == null && prev == null
    {
      this.member, next, prev := member, null, null;
    }
  }

  ghost predicate AllDifferent(s: seq<Node>) { forall i, j | 0 <= i < j < |s| :: s[i] != s[j] }

  /** The node after place i, or NULL. */
  ghost function Succ(s: seq<Node>, i: nat): Node?
  {
    if i + 1 < |s| then s[i + 1] else null
  }

  /** The node before place i; the tail before the head. */
  ghost function Pred(s: seq<Node>, i: nat): Node
    requires i < |s|
  {
    if i > 0 then s[i - 1] else s[|s| - 1]
  }

  ghost function Head(s: seq<Node>): Node? { if s == [] then null else s[0] }

  /** A list: the nodes are different, next pointers run through them and end in NULL, prev pointers
      undo them, and the head's prev is the tail. */
  ghost predicate Linked(head: Node?, s: seq<Node>)
    reads s
  {
    && head == Head(s) && AllDifferent(s)
    && (forall i: nat {:trigger Succ(s, i)} | i < |s| :: s[i].next == Succ(s, i))
    && (forall i: nat {:trigger Pred(s, i)} | i < |s| :: s[i].prev == Pred(s, i))
  }

  lemma AppendedPlaces(s: seq<Node>, x: Node, j: nat)
    requires j <= |s|
    ensures
      var r := s + [x];
      && Succ(r, j) == (if j + 1 == |s| then x else if j < |s| then Succ(s, j) else null)
      && Pred(r, j) == (if j == 0 then x else if j < |s| then Pred(s, j) else s[|s| - 1])
  {
  }

  lemma InsertedPlaces(s: seq<Node>, i: nat, x: Node, j: nat)
    requires i < |s| && j <= |s|
    ensures
      var r := s[..i] + [x] + s[i..];
      && (j == i ==> r[j] == x && Succ(r, j) == s[i] && Pred(r, j) == Pred(s, i))
      && (j < i ==> r[j] == s[j] && Succ(r, j) == (if j + 1 == i then x else Succ(s, j)) && Pred(r, j) == Pred(s, j))
      && (j > i ==> r[j] == s[j - 1] && Succ(r, j) == Succ(s, j - 1) && Pred(r, j) == (if j == i + 1 then x else Pred(s, j - 1)))
  {
  }

  lemma ReplacedPlaces(s: seq<Node>, i: nat, x: Node, j: nat)
    requires i < |s| && j < |s|
    ensures
      var r := s[i := x];
      && Succ(r, j) == (if j + 1 == i then x else Succ(s, j))
      && Pred(r, j) == (if j == i + 1 || (j == 0 && i == |s| - 1) then x else Pred(s, j))
  {
  }

  lemma RemovedPlaces(s: seq<Node>, i: nat, j: nat)
    requires i < |s| && j < |s| - 1
    ensures
      var r, k := RemoveAt(s, i), if j < i then j else j + 1;
      && r[j] == s[k]
      && Succ(r, j) == (if k + 1 == i then Succ(s, i) else Succ(s, k))
      && Pred(r, j) == (if k == i + 1 || (i == 0 && j == 0) || (j == 0 && i == |s| - 1) then Pred(s, i) else Pred(s, k))
  {
  }

  lemma RemovedDistinct(s: seq<Node>, i: nat)
    requires i < |s| && AllDifferent(s)
    ensures AllDifferent(RemoveAt(s, i))
  {
    var r := RemoveAt(s, i);
    forall a, b | 0 <= a < b < |r| ensures r[a] != r[b] {
      assert r[a] == s[if a < i then a else a + 1] && r[b] == s[if b < i then b else b + 1];
    }
  }

  class List {
    var child: Node?
    ghost var nodes: seq<Node>

    ghost predicate Valid()
      reads this, nodes
    {
      Linked(child, nodes)
    }

    constructor ()
      ensures Valid() && nodes == []
    {
      child, nodes := null, [];
    }

    /** With the new node linked behind the tail, the longer sequence is a list. */
    lemma Extended(s: seq<Node>, item: Node)
      requires AllDifferent(s) && item !in s && nodes == s + [item] && child == Head(nodes)
      requires item.next == null && item.prev == (if s == [] then item else s[|s| - 1])
      requires forall k: nat {:trigger Succ(s, k)} | k < |s| :: s[k].next == if k + 1 == |s| then item else Succ(s, k)
      requires forall k: nat {:trigger Pred(s, k)} | k < |s| :: s[k].prev == if k == 0 then item else Pred(s, k)
      ensures Valid()
    {
      forall j: nat | j < |nodes| ensures nodes[j].next == Succ(nodes, j) && nodes[j].prev == Pred(nodes, j) {
        AppendedPlaces(s, item, j);
        if j < |s| {
          var next, prev := Succ(s, j), Pred(s, j);
          assert nodes[j] == s[j];
          assert s[j].next == if j + 1 == |s| then item else Succ(s, j);
          assert s[j].prev == if j == 0 then item else Pred(s, j);
        }
      }
    }

    /** add_item_to_array: the item's own next pointer is left alone when the list is not empty */
    method Append(item: Node)
      requires Valid() && item !in nodes && item.next == null
      modifies this, nodes, item
      ensures Valid() && nodes == old(nodes) + [item]
    {
      ghost var s := nodes;
      if child == null {
        child := item;
        item.prev := item;
        item.next := null;
      } else {
        Neighbours(0);
        var tail := child.prev;
        tail.next := item;
        item.prev := tail;
        child.prev := item;
      }
      nodes := s + [item];
      Extended(s, item);
    }

    /** DL_APPEND2 */
    method AppendAny(item: Node)
      requires Valid() && item !in nodes
      modifies this, nodes, item
      ensures Valid() && nodes == old(nodes) + [item]
    {
      ghost var s := nodes;
      if child != null {
        Neighbours(0);
        item.prev := child.prev;
        child.prev.next := item;
        child.prev := item;
        item.next := null;
      } else {
        child := item;
        child.prev := child;
        child.next := null;
      }
      nodes := s + [item];
      Extended(s, item);
    }

    /** get_array_item, as a walk along the list */
    method ItemAt(which: nat) returns (item: Node?)
      requires Valid()
      ensures item == if which < |nodes| then nodes[which] else null
    {
      item := child;
      var i := 0;
      while item != null && i < which
        invariant 0 <= i <= which && i <= |nodes|
        invariant item == if i < |nodes| then nodes[i] else null
      {
        Neighbours(i);
        item := item.next;
        i := i + 1;
      }
    }

    /** The neighbours of the node at a place. */
    lemma Neighbours(i: nat)
      requires Valid() && i < |nodes|
      ensures nodes[i].next == Succ(nodes, i) && nodes[i].prev == Pred(nodes, i)
      ensures nodes[i] == child <==> i == 0
    {
    }

    /** Where the pointers around place i skip it, the rest is a list. */
    lemma Rejoined(s: seq<Node>, i: nat)
      requires i < |s| && AllDifferent(s) && nodes == RemoveAt(s, i) && child == Head(nodes)
      requires forall k: nat {:trigger Succ(s, k)} | k < |s| && k != i :: s[k].next == if k + 1 == i then Succ(s, i) else Succ(s, k)
      requires forall k: nat {:trigger Pred(s, k)} | k < |s| && k != i ::
                 s[k].prev == if k == i + 1 || (k == 0 && i == |s| - 1) then Pred(s, i) else Pred(s, k)
      ensures Valid()
    {
      RemovedDistinct(s, i);
      forall j: nat | j < |nodes| ensures nodes[j].next == Succ(nodes, j) && nodes[j].prev == Pred(nodes, j) {
        RemovedPlaces(s, i, j);
        var k := if j < i then j else j + 1;
        var next, prev := Succ(s, k), Pred(s, k);
        assert s[k].next == if k + 1 == i then Succ(s, i) else next;
      }
    }

    /** cJSON_DetachItemViaPointer, and the end of detach_item_from_array */
    method Detach(item: Node, ghost i: nat)
      requires Valid() && i < |nodes| && nodes[i] == item
      modifies this, nodes
      ensures Valid() && nodes == RemoveAt(old(nodes), i) && item.next == null && item.prev == null
    {
      Neighbours(i);
      ghost var s := nodes;
      if item != child {
        item.prev.next := item.next;
      }
      if item.next != null {
        item.next.prev := item.prev;
      }
      if item == child {
        child := item.next;
      } else if item.next == null {
        child.prev := item.prev;
      }
      item.prev, item.next := null, null;
      nodes := RemoveAt(s, i);
      Rejoined(s, i);
    }

    /** DL_DELETE2; the deleted node keeps its own pointers */
    method Delete(item: Node, ghost i: nat)
      requires Valid() && i < |nodes| && nodes[i] == item
      modifies this, nodes
      ensures Valid() && nodes == RemoveAt(old(nodes), i)
    {
      Neighbours(i);
      ghost var s := nodes;
      if item.prev == item {
        child := null;
      } else if item == child {
        item.next.prev := item.prev;
        child := item.next;
      } else {
        item.prev.next := item.next;
        if item.next != null {
          item.next.prev := item.prev;
        } else {
          child.prev := item.prev;
        }
      }
      nodes := RemoveAt(s, i);
      Rejoined(s, i);
    }

    /** detach_item_from_array: null if there is no such item */
    method DetachAt(which: nat) returns (item: Node?)
      requires Valid()
      modifies this, nodes
      ensures Valid()
      ensures if which < |old(nodes)| then item == old(nodes)[which] && nodes == RemoveAt(old(nodes), which)
              else item == null && nodes == old(nodes)
    {
      item := ItemAt(which);
      if item != null { Detach(item, which); }
    }

    /** With the new node linked in at place i, the longer sequence is a list. */
    lemma Inserted(s: seq<Node>, i: nat, item: Node)
      requires i < |s| && AllDifferent(s) && item !in s && nodes == s[..i] + [item] + s[i..] && child == Head(nodes)
      requires item.next == s[i] && item.prev == Pred(s, i)
      requires forall k: nat {:trigger Succ(s, k)} | k < |s| :: s[k].next == if k + 1 == i then item else Succ(s, k)
      requires forall k: nat {:trigger Pred(s, k)} | k < |s| :: s[k].prev == if k == i then item else Pred(s, k)
      ensures Valid()
    {
      forall j: nat | j < |nodes| ensures nodes[j].next == Succ(nodes, j) && nodes[j].prev == Pred(nodes, j) {
        InsertedPlaces(s, i, item, j);
        if j != i {
          var k := if j < i then j else j - 1;
          var next, prev := Succ(s, k), Pred(s, k);
          assert s[k].next == if k + 1 == i then item else Succ(s, k);
          assert s[k].prev == if k == i then item else Pred(s, k);
        }
      }
      forall a, b | 0 <= a < b < |nodes| ensures nodes[a] != nodes[b] {
        InsertedPlaces(s, i, item, a);
        InsertedPlaces(s, i, item, b);
      }
    }

    /** Link a new node in front of another. */
    method LinkBefore(newitem: Node, after: Node, ghost i: nat)
      requires Valid() && newitem !in nodes && i < |nodes| && nodes[i] == after
      modifies this, nodes, newitem
      ensures Valid() && nodes == old(nodes)[..i] + [newitem] + old(nodes)[i..]
    {
      Neighbours(i);
      ghost var s := nodes;
      newitem.next := after;
      newitem.prev := after.prev;
      after.prev := newitem;
      if after == child {
        child := newitem;
      } else {
        newitem.prev.next := newitem;
      }
      nodes := s[..i] + [newitem] + s[i..];
      Inserted(s, i, newitem);
    }

    /** insert_item_in_array: refused beyond the end, an append at the end */
    method InsertAt(which: nat, newitem: Node) returns (ok: bool)
      requires Valid() && newitem !in nodes && newitem.next == null
      modifies this, nodes, newitem
      ensures Valid() && ok == (which <= |old(nodes)|)
      ensures nodes == if ok then old(nodes)[..which] + [newitem] + old(nodes)[which..] else old(nodes)
    {
      var item, left: nat := child, which;
      ghost var i := 0;
      while item != null && left > 0
        modifies {}
        invariant 0 <= i <= |nodes| && left + i == which
        invariant item == if i < |nodes| then nodes[i] else null
      {
        Neighbours(i);
        item := item.next;
        left := left - 1;
        i := i + 1;
      }
      if left > 0 { return false; }
      if item == null {
        assert nodes[..which] == nodes && nodes[which..] == [];
        Append(newitem);
      } else {
        LinkBefore(newitem, item, which);
      }
      ok := true;
    }

    /** With the replacement linked in at place i, the new sequence is a list. */
    lemma Replaced(s: seq<Node>, i: nat, item: Node)
      requires i < |s| && AllDifferent(s) && item !in s && nodes == s[i := item] && child == Head(nodes)
      requires item.next == Succ(s, i) && item.prev == (if |s| == 1 then item else Pred(s, i))
      requires forall k: nat {:trigger Succ(s, k)} | k < |s| && k != i :: s[k].next == if k + 1 == i then item else Succ(s, k)
      requires forall k: nat {:trigger Pred(s, k)} | k < |s| && k != i ::
                 s[k].prev == if k == i + 1 || (k == 0 && i == |s| - 1) then item else Pred(s, k)
      ensures Valid()
    {
      forall j: nat | j < |nodes| ensures nodes[j].next == Succ(nodes, j) && nodes[j].prev == Pred(nodes, j) {
        ReplacedPlaces(s, i, item, j);
        if j != i {
          var next, prev := Succ(s, j), Pred(s, j);
          assert s[j].next == if j + 1 == i then item else Succ(s, j);
          assert s[j].prev == if j == i + 1 || (j == 0 && i == |s| - 1) then item else Pred(s, j);
        }
      }
    }

    /** cJSON_ReplaceItemViaPointer */
    method Replace(item: Node, replacement: Node, ghost i: nat)
      requires Valid() && i < |nodes| && nodes[i] == item && (replacement == item || replacement !in nodes)
      modifies this, nodes, replacement
      ensures Valid() && nodes == old(nodes)[i := replacement]
      ensures replacement != item ==> item.next == null && item.prev == null
    {
      if replacement == item { return; }
      Neighbours(i);
      ghost var s := nodes;
      replacement.next := item.next;
      replacement.prev := item.prev;
      if replacement.next != null {
        replacement.next.prev := replacement;
      }
      if child == item {
        if child.prev == child {
          replacement.prev := replacement;
        }
        child := replacement;
      } else {
        replacement.prev.next := replacement;
        if replacement.next == null {
          child.prev := replacement;
        }
      }
      item.next, item.prev := null, null;
      nodes := s[i := replacement];
      Replaced(s, i, replacement);
    }
  }
}
