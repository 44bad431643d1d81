/**
 An intrusive circular doubly-linked list with a sentinel, as in the Linux
 kernel's list.h. A list head is a node like any member; an empty list is a
 head whose next and prev point at the head itself.

 The link-level state is the `next`/`prev` fields of `Node` objects. The
 abstract value of a list is the ghost sequence `elts` of its member nodes in
 `next` order (the head excluded), tied to the fields by `Valid(head, elts)`.
 */
module KernelList {

  /** `list_head_t`: two links and no payload. */
  class Node {
    var next: Node?
    var prev: Node?

    /** A node whose storage has just been obtained: its links are garbage,
        so the constructor promises nothing about them. */
    constructor ()
    {
    }
  }

  /** The values written into an unlinked node. This build defines both as
      NULL; the distinct non-NULL addresses are disabled. */
  const Poison1: Node? := null
  const Poison2: Node? := null

  /** Position `j` of the cycle `head, elts[0], ..., elts[|elts|-1], head`:
      slots 0 and |elts|+1 are the head, slot k in between is elts[k-1]. */
  function Slot(head: Node, elts: seq<Node>, j: int): (n: Node)
    requires 0 <= j <= |elts| + 1
  {
    if 1 <= j <= |elts| then elts[j - 1] else head
  }

  /** The nodes of `elts` are pairwise distinct. */
  predicate Distinct(elts: seq<Node>)
  {
    forall i, j :: 0 <= i < j < |elts| ==> elts[i] != elts[j]
  }

  /** `head` anchors a well-formed cycle whose members are `elts` in `next`
      order, with every `prev` link mirroring a `next` link. */
  ghost predicate Valid(head: Node, elts: seq<Node>)
    reads head, elts
  {
    && head !in elts
    && Distinct(elts)
    && head.next == Slot(head, elts, 1)
    && head.prev == Slot(head, elts, |elts|)
    && (forall i {:trigger elts[i].next} {:trigger elts[i].prev} :: 0 <= i < |elts| ==>
          elts[i].next == Slot(head, elts, i + 2) && elts[i].prev == Slot(head, elts, i))
  }

  /** `INIT_LIST_HEAD`: make `list` a self-loop, i.e. an empty list, or an
      unlinked member node. Legal on any node. */
  method InitListHead(list: Node)
    modifies list
    ensures list.next == list && list.prev == list
    ensures Valid(list, []) && ListEmpty(list) == 1
  {
    list.next := list;
    list.prev := list;
  }

  /** `__list_add`: link `newNode` between the adjacent nodes `prevNode`
      (cycle slot `i`) and `nextNode` (slot `i + 1`). The list gains
      `newNode` at index `i`; only the three nodes named are written. */
  method ListAddBetween(newNode: Node, prevNode: Node, nextNode: Node,
                        ghost head: Node, ghost elts: seq<Node>, ghost i: nat)
    requires Valid(head, elts) && i <= |elts|
    requires prevNode == Slot(head, elts, i) && nextNode == Slot(head, elts, i + 1)
    requires newNode != head && newNode !in elts
    modifies newNode, prevNode, nextNode
    ensures prevNode.next == newNode && newNode.prev == prevNode
    ensures newNode.next == nextNode && nextNode.prev == newNode
    ensures Valid(head, elts[..i] + [newNode] + elts[i..])
  {
    nextNode.prev := newNode;
    newNode.next := nextNode;
    newNode.prev := prevNode;
    prevNode.next := newNode;
    InsertedValid(head, elts, i, newNode);
  }

  /** The link facts `ListAddBetween` establishes, plus the untouched
      fields of every other node, make the extended sequence valid. */
  lemma InsertedValid(head: Node, elts: seq<Node>, i: nat, x: Node)
    requires i <= |elts| && x != head && x !in elts && Distinct(elts) && head !in elts
    requires Slot(head, elts, i).next == x && x.prev == Slot(head, elts, i)
    requires x.next == Slot(head, elts, i + 1) && Slot(head, elts, i + 1).prev == x
    requires head == Slot(head, elts, i) || head.next == Slot(head, elts, 1)
    requires head == Slot(head, elts, i + 1) || head.prev == Slot(head, elts, |elts|)
    requires forall k {:trigger elts[k].next} :: 0 <= k < |elts| && k != i - 1 ==> elts[k].next == Slot(head, elts, k + 2)
    requires forall k {:trigger elts[k].prev} :: 0 <= k < |elts| && k != i ==> elts[k].prev == Slot(head, elts, k)
    ensures Valid(head, elts[..i] + [x] + elts[i..])
  {
    var s := elts[..i] + [x] + elts[i..];
    InsertedSlots(head, elts, i, x);
    InsertedLinks(head, elts, i, x);
    if i == 0 {
      assert head.next == Slot(head, s, 1);
    }
    if i == |elts| {
      assert head.prev == Slot(head, s, |s|);
    }
  }

  /** Every member of the extended sequence is linked to its neighbours. */
  lemma InsertedLinks(head: Node, elts: seq<Node>, i: nat, x: Node)
    requires i <= |elts| && x != head && x !in elts && Distinct(elts) && head !in elts
    requires Slot(head, elts, i).next == x && x.prev == Slot(head, elts, i)
    requires x.next == Slot(head, elts, i + 1) && Slot(head, elts, i + 1).prev == x
    requires forall k {:trigger elts[k].next} :: 0 <= k < |elts| && k != i - 1 ==> elts[k].next == Slot(head, elts, k + 2)
    requires forall k {:trigger elts[k].prev} :: 0 <= k < |elts| && k != i ==> elts[k].prev == Slot(head, elts, k)
    ensures forall k {:trigger (elts[..i] + [x] + elts[i..])[k].next} :: 0 <= k < |elts| + 1 ==>
              (elts[..i] + [x] + elts[i..])[k].next == Slot(head, elts[..i] + [x] + elts[i..], k + 2)
    ensures forall k {:trigger (elts[..i] + [x] + elts[i..])[k].prev} :: 0 <= k < |elts| + 1 ==>
              (elts[..i] + [x] + elts[i..])[k].prev == Slot(head, elts[..i] + [x] + elts[i..], k)
  {
    var s := elts[..i] + [x] + elts[i..];
    InsertedSlots(head, elts, i, x);
    forall k | 0 <= k < |s|
      ensures s[k].next == Slot(head, s, k + 2) && s[k].prev == Slot(head, s, k)
    {
      if k < i {
        assert s[k] == elts[k];
        assert Slot(head, s, k) == Slot(head, elts, k);
        if k + 1 < i {
          assert Slot(head, s, k + 2) == Slot(head, elts, k + 2);
        }
      } else if k == i {
        assert s[k] == x;
      } else {
        assert s[k] == elts[k - 1];
        assert Slot(head, s, k + 2) == Slot(head, elts, k + 1);
        if k > i + 1 {
          assert Slot(head, s, k) == Slot(head, elts, k - 1);
        }
      }
    }
  }

  /** Where the cycle's slots sit after inserting `x` at index `i`. */
  lemma InsertedSlots(head: Node, elts: seq<Node>, i: nat, x: Node)
    requires i <= |elts| && x != head && x !in elts && Distinct(elts) && head !in elts
    ensures |elts[..i] + [x] + elts[i..]| == |elts| + 1
    ensures Distinct(elts[..i] + [x] + elts[i..]) && head !in elts[..i] + [x] + elts[i..]
    ensures forall j :: 0 <= j <= |elts| + 2 ==>
              Slot(head, elts[..i] + [x] + elts[i..], j) ==
                if j <= i then Slot(head, elts, j) else if j == i + 1 then x else Slot(head, elts, j - 1)
  {
    var s := elts[..i] + [x] + elts[i..];
    assert forall k :: 0 <= k < |s| ==> s[k] == if k < i then elts[k] else if k == i then x else elts[k - 1];
    assert elts == elts[..i] + elts[i..];
  }

  /** `list_add`: insert `newNode` right after the head, at the front. */
  method ListAdd(newNode: Node, headNode: Node, ghost elts: seq<Node>)
    requires Valid(headNode, elts)
    requires newNode != headNode && newNode !in elts
    modifies newNode, headNode, Slot(headNode, elts, 1)
    ensures Valid(headNode, [newNode] + elts)
  {
    ListAddBetween(newNode, headNode, headNode.next, headNode, elts, 0);
    assert elts[..0] + [newNode] + elts[0..] == [newNode] + elts;
  }

  /** `list_add_tail`: insert `newNode` right before the head, at the back. */
  method ListAddTail(newNode: Node, headNode: Node, ghost elts: seq<Node>)
    requires Valid(headNode, elts)
    requires newNode != headNode && newNode !in elts
    modifies newNode, headNode, Slot(headNode, elts, |elts|)
    ensures Valid(headNode, elts + [newNode])
  {
    ListAddBetween(newNode, headNode.prev, headNode, headNode, elts, |elts|);
    assert elts[..|elts|] + [newNode] + elts[|elts|..] == elts + [newNode];
  }

  /** `__list_del`: make the neighbours of `elts[i]` point at each other.
      The list loses `elts[i]`, whose own fields are not touched. */
  method ListDelBetween(prevNode: Node, nextNode: Node,
                        ghost head: Node, ghost elts: seq<Node>, ghost i: nat)
    requires Valid(head, elts) && i < |elts|
    requires prevNode == Slot(head, elts, i) && nextNode == Slot(head, elts, i + 2)
    modifies prevNode, nextNode
    ensures nextNode.prev == prevNode && prevNode.next == nextNode
    ensures Valid(head, elts[..i] + elts[i + 1..])
  {
    nextNode.prev := prevNode;
    prevNode.next := nextNode;
    RemovedValid(head, elts, i);
  }

  /** Bypassing `elts[i]` leaves a valid list without it. */
  lemma RemovedValid(head: Node, elts: seq<Node>, i: nat)
    requires i < |elts| && Distinct(elts) && head !in elts
    requires Slot(head, elts, i).next == Slot(head, elts, i + 2)
    requires Slot(head, elts, i + 2).prev == Slot(head, elts, i)
    requires head == Slot(head, elts, i) || head.next == Slot(head, elts, 1)
    requires head == Slot(head, elts, i + 2) || head.prev == Slot(head, elts, |elts|)
    requires forall k {:trigger elts[k].next} :: 0 <= k < |elts| && k != i - 1 ==> elts[k].next == Slot(head, elts, k + 2)
    requires forall k {:trigger elts[k].prev} :: 0 <= k < |elts| && k != i + 1 ==> elts[k].prev == Slot(head, elts, k)
    ensures Valid(head, elts[..i] + elts[i + 1..])
  {
    var s := elts[..i] + elts[i + 1..];
    RemovedSlots(head, elts, i);
    forall k | 0 <= k < |s|
      ensures s[k].next == Slot(head, s, k + 2) && s[k].prev == Slot(head, s, k)
    {
      if k < i {
        assert s[k] == elts[k];
      } else {
        assert s[k] == elts[k + 1];
      }
    }
  }

  /** Where the cycle's slots sit after removing index `i`. */
  lemma RemovedSlots(head: Node, elts: seq<Node>, i: nat)
    requires i < |elts| && Distinct(elts) && head !in elts
    ensures |elts[..i] + elts[i + 1..]| == |elts| - 1
    ensures Distinct(elts[..i] + elts[i + 1..])
    ensures head !in elts[..i] + elts[i + 1..] && elts[i] !in elts[..i] + elts[i + 1..]
    ensures forall k :: 0 <= k < |elts| - 1 ==>
              (elts[..i] + elts[i + 1..])[k] == if k < i then elts[k] else elts[k + 1]
    ensures forall j :: 0 <= j <= |elts| ==>
              Slot(head, elts[..i] + elts[i + 1..], j) ==
                if j <= i then Slot(head, elts, j) else Slot(head, elts, j + 1)
  {
    var s := elts[..i] + elts[i + 1..];
    assert forall k :: 0 <= k < |s| ==> s[k] == if k < i then elts[k] else elts[k + 1];
    assert elts == elts[..i] + [elts[i]] + elts[i + 1..];
    forall j | 0 <= j <= |elts|
      ensures Slot(head, s, j) == if j <= i then Slot(head, elts, j) else Slot(head, elts, j + 1)
    {
      if 1 <= j <= |s| {
        assert Slot(head, s, j) == s[j - 1];
      }
    }
  }

  /** `list_del`: unlink `entryNode` (which is `elts[i]`) and poison its
      links. The former neighbours now point at each other. */
  method ListDel(entryNode: Node, ghost head: Node, ghost elts: seq<Node>, ghost i: nat)
    requires Valid(head, elts) && i < |elts| && elts[i] == entryNode
    modifies entryNode, Slot(head, elts, i), Slot(head, elts, i + 2)
    ensures Valid(head, elts[..i] + elts[i + 1..])
    ensures entryNode !in elts[..i] + elts[i + 1..]
    ensures Slot(head, elts, i).next == Slot(head, elts, i + 2)
    ensures Slot(head, elts, i + 2).prev == Slot(head, elts, i)
    ensures Poisoned(entryNode)
  {
    ListDelBetween(entryNode.prev, entryNode.next, head, elts, i);
    entryNode.next := Poison1;
    entryNode.prev := Poison2;
  }

  /** `x` holds the poison values `list_del` writes. */
  ghost predicate Poisoned(x: Node)
    reads x
  {
    x.next == Poison1 && x.prev == Poison2
  }

  /** Every node of `nodes` is poisoned. */
  ghost predicate AllPoisoned(nodes: seq<Node>)
    reads nodes
  {
    forall i :: 0 <= i < |nodes| ==> Poisoned(nodes[i])
  }

  /** Appending a poisoned node keeps a sequence all poisoned. */
  lemma PoisonedSnoc(nodes: seq<Node>, x: Node)
    requires AllPoisoned(nodes) && Poisoned(x)
    ensures AllPoisoned(nodes + [x])
  {
    assert forall i :: 0 <= i < |nodes| ==> (nodes + [x])[i] == nodes[i];
  }

  /** `list_empty`: the C `int` 1 when the head points at itself, 0
      otherwise. It reads only the head. */
  function ListEmpty(headNode: Node): (empty: int)
    reads headNode
    ensures empty == 0 || empty == 1
    ensures empty == 1 <==> headNode.next == headNode
  {
    if headNode.next == headNode then 1 else 0
  }

  /** On a valid list, `ListEmpty` answers exactly "has no members". */
  lemma ListEmptyIffNoMembers(head: Node, elts: seq<Node>)
    requires Valid(head, elts)
    ensures ListEmpty(head) == 1 <==> elts == []
  {
  }

  /** `list_replace`: `newNode` takes the place of `oldNode` (which is
      `elts[i]`) in the list; `oldNode`'s own links are not touched and
      still point at its former neighbours. */
  method ListReplace(oldNode: Node, newNode: Node,
                     ghost head: Node, ghost elts: seq<Node>, ghost i: nat)
    requires Valid(head, elts) && i < |elts| && elts[i] == oldNode
    requires newNode != head && (newNode == oldNode || newNode !in elts)
    modifies newNode, Slot(head, elts, i), Slot(head, elts, i + 2)
    ensures Valid(head, elts[i := newNode])
    ensures oldNode.next == Slot(head, elts, i + 2) && oldNode.prev == Slot(head, elts, i)
  {
    newNode.next := oldNode.next;
    newNode.next.prev := newNode;
    newNode.prev := oldNode.prev;
    newNode.prev.next := newNode;
    if newNode == oldNode {
      // Every store wrote back the value already there.
      assert elts[i := newNode] == elts;
      assert Slot(head, elts, i).next == oldNode && Slot(head, elts, i + 2).prev == oldNode;
    } else {
      ReplacedValid(head, elts, i, newNode);
    }
  }

  /** Linking `x` into slot `i + 1` in place of `elts[i]` leaves a valid list. */
  lemma ReplacedValid(head: Node, elts: seq<Node>, i: nat, x: Node)
    requires i < |elts| && x != head && x !in elts && Distinct(elts) && head !in elts
    requires Slot(head, elts, i).next == x && x.prev == Slot(head, elts, i)
    requires x.next == Slot(head, elts, i + 2) && Slot(head, elts, i + 2).prev == x
    requires head == Slot(head, elts, i) || head.next == Slot(head, elts, 1)
    requires head == Slot(head, elts, i + 2) || head.prev == Slot(head, elts, |elts|)
    requires forall k {:trigger elts[k].next} :: 0 <= k < |elts| && k != i - 1 && k != i ==> elts[k].next == Slot(head, elts, k + 2)
    requires forall k {:trigger elts[k].prev} :: 0 <= k < |elts| && k != i + 1 && k != i ==> elts[k].prev == Slot(head, elts, k)
    ensures Valid(head, elts[i := x])
  {
    var s := elts[i := x];
    forall k | 0 <= k < |s|
      ensures s[k].next == Slot(head, s, k + 2) && s[k].prev == Slot(head, s, k)
    {
      if k != i {
        assert s[k] == elts[k];
      }
    }
  }

  /** `list_replace_init`: `list_replace`, then re-initialise `oldNode` as a
      self-loop, so that it reads as an empty list. */
  method ListReplaceInit(oldNode: Node, newNode: Node,
                         ghost head: Node, ghost elts: seq<Node>, ghost i: nat)
    requires Valid(head, elts) && i < |elts| && elts[i] == oldNode
    requires newNode != head && newNode !in elts
    modifies oldNode, newNode, Slot(head, elts, i), Slot(head, elts, i + 2)
    ensures Valid(head, elts[i := newNode])
    ensures Valid(oldNode, []) && ListEmpty(oldNode) == 1
  {
    ListReplace(oldNode, newNode, head, elts, i);
    InitListHead(oldNode);
  }
}
