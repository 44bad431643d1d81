/**
 Facts about a valid list that no single operation states: the member
 sequence is determined by the links alone, every link on a list is mirrored
 by the opposite link, and a node `list_del` has poisoned is on no list.
 */
module ListProperties {
  import opened KernelList

  /** Two member sequences of the same head agree on every prefix both have,
      and so on the slot that follows it. */
  lemma {:induction false} SameSuccessors(head: Node, s1: seq<Node>, s2: seq<Node>, j: nat)
    requires Valid(head, s1) && Valid(head, s2) && j <= |s1| && j <= |s2|
    ensures s1[..j] == s2[..j] && Slot(head, s1, j + 1) == Slot(head, s2, j + 1)
  {
    if j > 0 {
      SameSuccessors(head, s1, s2, j - 1);
      assert s1[..j] == s1[..j - 1] + [s1[j - 1]];
      assert s2[..j] == s2[..j - 1] + [s2[j - 1]];
      assert s1[j - 1] == Slot(head, s1, j) && s2[j - 1] == Slot(head, s2, j);
      assert s1[j - 1].next == Slot(head, s1, j + 1);
      assert s2[j - 1].next == Slot(head, s2, j + 1);
    }
  }

  /** The abstraction is a function of the links: a head anchors at most
      one member sequence. */
  lemma ValidUnique(head: Node, s1: seq<Node>, s2: seq<Node>)
    requires Valid(head, s1) && Valid(head, s2)
    ensures s1 == s2
  {
    var m := if |s1| <= |s2| then |s1| else |s2|;
    SameSuccessors(head, s1, s2, m);
    // The slot after the common prefix is the head in the shorter
    // sequence, so it is the head in the other one too.
    assert Slot(head, s1, m + 1) == head <==> m == |s1|;
    assert Slot(head, s2, m + 1) == head <==> m == |s2|;
    assert s1 == s1[..m] && s2 == s2[..m];
  }

  /** Following `next` then `prev` (or `prev` then `next`) from the head or
      a member returns to it, and both links stay on the cycle. */
  lemma LinksMirror(head: Node, elts: seq<Node>, x: Node)
    requires Valid(head, elts) && (x == head || x in elts)
    ensures x.next != null && x.prev != null
    ensures x.next == head || x.next in elts
    ensures x.prev == head || x.prev in elts
    ensures x.next.prev == x && x.prev.next == x
  {
    if x == head {
      if elts != [] {
        assert head.next == elts[0] && elts[0].prev == Slot(head, elts, 0);
        assert head.prev == elts[|elts| - 1] && elts[|elts| - 1].next == Slot(head, elts, |elts| + 1);
      }
    } else {
      var i :| 0 <= i < |elts| && elts[i] == x;
      assert x.next == Slot(head, elts, i + 2) && x.prev == Slot(head, elts, i);
      if i + 1 < |elts| {
        assert elts[i + 1].prev == Slot(head, elts, i + 1);
      }
      if i > 0 {
        assert elts[i - 1].next == Slot(head, elts, i + 1);
      }
    }
  }

  /** A poisoned node is neither the head nor a member of any valid list:
      every node on a cycle has non-null links. */
  lemma PoisonedOffList(head: Node, elts: seq<Node>, x: Node)
    requires Valid(head, elts) && Poisoned(x)
    ensures x != head && x !in elts
  {
    forall i | 0 <= i < |elts|
      ensures elts[i] != x
    {
      assert elts[i].next == Slot(head, elts, i + 2);
    }
  }

  /** `list_del` undoes `list_add`: the list is back to its old members and
      the added node is poisoned. */
  method AddThenDel(x: Node, head: Node, ghost elts: seq<Node>)
    requires Valid(head, elts) && x != head && x !in elts
    modifies x, head, Slot(head, elts, 1)
    ensures Valid(head, elts) && Poisoned(x)
  {
    ListAdd(x, head, elts);
    ListDel(x, head, [x] + elts, 0);
    assert ([x] + elts)[..0] + ([x] + elts)[1..] == elts;
  }

  /** `list_replace` is undone by replacing back: the list has its old
      members again. */
  method ReplaceThenRestore(oldNode: Node, newNode: Node, head: Node, ghost elts: seq<Node>, ghost i: nat)
    requires Valid(head, elts) && i < |elts| && elts[i] == oldNode
    requires newNode != head && newNode !in elts
    modifies oldNode, newNode, Slot(head, elts, i), Slot(head, elts, i + 2)
    ensures Valid(head, elts)
  {
    ghost var replaced := elts[i := newNode];
    ListReplace(oldNode, newNode, head, elts, i);
    forall j | 0 <= j < |replaced|
      ensures replaced[j] != oldNode
    {
      if j != i {
        assert elts[j] != elts[i];
      }
    }
    ListReplace(newNode, oldNode, head, replaced, i);
    assert replaced[i := oldNode] == elts;
  }
}
