/**
 The traversal loops of list.h: `list_for_each`, `list_for_each_entry` and
 `list_for_each_entry_safe`. Each is a `for` loop that steps a cursor along
 `next` from `head.next` until it is back at `head`.

 The host records ("entries") that embed the link nodes are a type parameter
 `E`; `container` maps each member link to the entry it is embedded in, which
 is what `container_of` computes by address arithmetic.
 */
module ListTraversal {
  import opened KernelList

  /** `list_for_each`: visit the member nodes in `next` order, stopping
      when the cursor is back at the head. */
  method ListForEach(head: Node, ghost elts: seq<Node>) returns (visited: seq<Node>)
    requires Valid(head, elts)
    ensures visited == elts
  {
    visited := [];
    ghost var k := 0;
    var pos := head.next;
    while pos != head
      invariant 0 <= k <= |elts| && visited == elts[..k]
      invariant pos == Slot(head, elts, k + 1)
      decreases |elts| - k
    {
      visited := visited + [pos];
      pos := pos.next;
      k := k + 1;
    }
  }

  /** Every member link has an entry around it. */
  ghost predicate Embedded<E>(container: map<Node, E>, elts: seq<Node>)
  {
    forall x :: x in elts ==> x in container
  }

  /** The entries around `nodes`, in order. */
  function Entries<E>(container: map<Node, E>, nodes: seq<Node>): (r: seq<E>)
    requires Embedded(container, nodes)
  {
    if nodes == [] then [] else Entries(container, nodes[..|nodes| - 1]) + [container[nodes[|nodes| - 1]]]
  }

  /** `Entries` takes each node to its own entry, position by position. */
  lemma {:induction false} EntriesAt<E>(container: map<Node, E>, nodes: seq<Node>)
    requires Embedded(container, nodes)
    ensures |Entries(container, nodes)| == |nodes|
    ensures forall i :: 0 <= i < |nodes| ==> Entries(container, nodes)[i] == container[nodes[i]]
  {
    if nodes != [] {
      EntriesAt(container, nodes[..|nodes| - 1]);
    }
  }

  /** `Entries` of a prefix one longer adds the next node's entry. */
  lemma EntriesSnoc<E>(container: map<Node, E>, nodes: seq<Node>, k: nat)
    requires Embedded(container, nodes) && k < |nodes|
    ensures Entries(container, nodes[..k + 1]) == Entries(container, nodes[..k]) + [container[nodes[k]]]
  {
    assert nodes[..k + 1][..k] == nodes[..k];
  }

  /** `list_for_each_entry`: visit the entries around the member links, in
      list order. The cursor is the link `&pos->member`; the entry is looked
      up only once the link is known not to be the head. */
  method ListForEachEntry<E>(head: Node, container: map<Node, E>, ghost elts: seq<Node>)
    returns (visited: seq<E>)
    requires Valid(head, elts) && Embedded(container, elts)
    ensures visited == Entries(container, elts)
  {
    visited := [];
    ghost var k := 0;
    var link := head.next;
    while link != head
      invariant 0 <= k <= |elts| && visited == Entries(container, elts[..k])
      invariant link == Slot(head, elts, k + 1)
      decreases |elts| - k
    {
      EntriesSnoc(container, elts, k);
      var pos := container[link];
      visited := visited + [pos];
      link := link.next;
      k := k + 1;
    }
    assert elts[..k] == elts;
  }

  /** The members of `nodes`, in order, whose entry `drop` answers with
      `dropped`: `Sift(.., false)` are the nodes a deleting loop keeps and
      `Sift(.., true)` the nodes it removes. */
  function Sift<E>(nodes: seq<Node>, container: map<Node, E>, drop: E -> bool, dropped: bool): (r: seq<Node>)
    requires Embedded(container, nodes)
  {
    if nodes == [] then []
    else
      var last := nodes[|nodes| - 1];
      Sift(nodes[..|nodes| - 1], container, drop, dropped) + (if drop(container[last]) == dropped then [last] else [])
  }

  /** A node is sifted out exactly when it is a member with that verdict. */
  lemma {:induction false} SiftMember<E>(nodes: seq<Node>, container: map<Node, E>, drop: E -> bool,
                                         dropped: bool, x: Node)
    requires Embedded(container, nodes)
    ensures x in Sift(nodes, container, drop, dropped) <==> x in nodes && drop(container[x]) == dropped
  {
    if nodes != [] {
      var init := nodes[..|nodes| - 1];
      SiftMember(init, container, drop, dropped, x);
      assert nodes == init + [nodes[|nodes| - 1]];
    }
  }

  /** Sifting distinct nodes gives distinct nodes. */
  lemma {:induction false} SiftDistinct<E>(nodes: seq<Node>, container: map<Node, E>, drop: E -> bool, dropped: bool)
    requires Embedded(container, nodes) && Distinct(nodes)
    ensures Distinct(Sift(nodes, container, drop, dropped))
  {
    if nodes != [] {
      var init := nodes[..|nodes| - 1];
      var last := nodes[|nodes| - 1];
      SiftDistinct(init, container, drop, dropped);
      SiftMember(init, container, drop, dropped, last);
      assert last !in init;
    }
  }

  /** Dropping nothing keeps the whole list; dropping everything keeps none. */
  lemma {:induction false} SiftExtremes<E>(nodes: seq<Node>, container: map<Node, E>)
    requires Embedded(container, nodes)
    ensures Sift(nodes, container, _ => false, false) == nodes
    ensures Sift(nodes, container, _ => true, false) == []
  {
    if nodes != [] {
      SiftExtremes(nodes[..|nodes| - 1], container);
      assert nodes == nodes[..|nodes| - 1] + [nodes[|nodes| - 1]];
    }
  }

  /** Slot `|p| + t` of a list `p + elts[k..]` is slot `k + t` of `elts`. */
  lemma SuffixSlot(head: Node, p: seq<Node>, elts: seq<Node>, k: nat, t: nat)
    requires k <= |elts| && 1 <= t <= |elts| - k + 1
    ensures Slot(head, p + elts[k..], |p| + t) == Slot(head, elts, k + t)
  {
    if t <= |elts| - k {
      assert (p + elts[k..])[|p| + t - 1] == elts[k + t - 1];
    }
  }

  /** Sifting a prefix one longer adds the next node when it has the
      verdict sought. */
  lemma SiftSnoc<E>(nodes: seq<Node>, container: map<Node, E>, drop: E -> bool, dropped: bool, k: nat)
    requires Embedded(container, nodes) && k < |nodes|
    ensures Sift(nodes[..k + 1], container, drop, dropped) ==
              Sift(nodes[..k], container, drop, dropped) + (if drop(container[nodes[k]]) == dropped then [nodes[k]] else [])
  {
    assert nodes[..k + 1][..k] == nodes[..k];
  }

  /** In the list `p + elts[k..]`, index `|p|` holds `elts[k]`, and taking
      it out leaves `p + elts[k + 1..]`. */
  lemma SpliceOut(p: seq<Node>, elts: seq<Node>, k: nat)
    requires k < |elts|
    ensures (p + elts[k..])[|p|] == elts[k]
    ensures (p + elts[k..])[..|p|] + (p + elts[k..])[|p| + 1..] == p + elts[k + 1..]
    ensures p + elts[k..] == (p + [elts[k]]) + elts[k + 1..]
  {
    assert (p + elts[k..])[..|p|] == p;
    assert (p + elts[k..])[|p| + 1..] == elts[k + 1..];
  }

  /** A node on the list `Sift(elts[..k], .., false) + elts[k..]` is a
      member of `elts` and is not among the nodes removed so far. */
  lemma OnListNotGone<E>(elts: seq<Node>, container: map<Node, E>, drop: E -> bool, k: nat, y: Node)
    requires Embedded(container, elts) && Distinct(elts) && k <= |elts|
    requires y in Sift(elts[..k], container, drop, false) + elts[k..]
    ensures y in elts && y !in Sift(elts[..k], container, drop, true)
  {
    SiftMember(elts[..k], container, drop, false, y);
    SiftMember(elts[..k], container, drop, true, y);
    assert elts == elts[..k] + elts[k..];
    if y in elts[k..] {
      var j :| 0 <= j < |elts[k..]| && elts[k..][j] == y;
      forall i | 0 <= i < k
        ensures elts[..k][i] != y
      {
        assert elts[i] != elts[k + j];
      }
    }
  }

  /** A node outside `elts` was never removed. */
  lemma OutsideNotGone<E>(elts: seq<Node>, container: map<Node, E>, drop: E -> bool, k: nat, y: Node)
    requires Embedded(container, elts) && k <= |elts| && y !in elts
    ensures y !in Sift(elts[..k], container, drop, true)
  {
    SiftMember(elts[..k], container, drop, true, y);
    assert elts == elts[..k] + elts[k..];
  }

  /** Three nodes outside `nodes` differ from each of its elements. */
  lemma Avoids(nodes: seq<Node>, a: Node, b: Node, c: Node)
    requires a !in nodes && b !in nodes && c !in nodes
    ensures forall i :: 0 <= i < |nodes| ==> nodes[i] != a && nodes[i] != b && nodes[i] != c
  {
  }

  /** `list_del` of `cur[i]` leaves every node of `gone` poisoned when
      none of them is among the three nodes written. */
  method DelAmongPoisoned(pos: Node, ghost head: Node, ghost cur: seq<Node>, ghost i: nat, ghost gone: seq<Node>)
    requires Valid(head, cur) && i < |cur| && cur[i] == pos && AllPoisoned(gone)
    requires forall j :: 0 <= j < |gone| ==>
               gone[j] != pos && gone[j] != Slot(head, cur, i) && gone[j] != Slot(head, cur, i + 2)
    modifies pos, Slot(head, cur, i), Slot(head, cur, i + 2)
    ensures Valid(head, cur[..i] + cur[i + 1..])
    ensures AllPoisoned(gone + [pos])
  {
    ListDel(pos, head, cur, i);
    PoisonedSnoc(gone, pos);
  }

  /** One deleting step of the removal-safe loop: `list_del` the link at
      index `k` of `elts`, whose entry `drop` selects. The list keeps the
      links sifted so far and the unvisited ones minus this one, and the
      removed link joins the poisoned ones. */
  method DropLink<E>(head: Node, pos: Node, container: map<Node, E>, drop: E -> bool,
                     ghost elts: seq<Node>, ghost k: nat)
    requires Embedded(container, elts) && Distinct(elts) && head !in elts
    requires k < |elts| && pos == elts[k] && drop(container[pos])
    requires Valid(head, Sift(elts[..k], container, drop, false) + elts[k..])
    requires AllPoisoned(Sift(elts[..k], container, drop, true))
    modifies head, elts
    ensures Valid(head, Sift(elts[..k + 1], container, drop, false) + elts[k + 1..])
    ensures AllPoisoned(Sift(elts[..k + 1], container, drop, true))
  {
    ghost var p := Sift(elts[..k], container, drop, false);
    ghost var gone := Sift(elts[..k], container, drop, true);
    ghost var cur := p + elts[k..];
    SpliceOut(p, elts, k);
    SiftSnoc(elts, container, drop, false, k);
    SiftSnoc(elts, container, drop, true, k);
    ghost var before := Slot(head, cur, |p|);
    ghost var after := Slot(head, cur, |p| + 2);
    OnListNotGone(elts, container, drop, k, pos);
    if before != head { OnListNotGone(elts, container, drop, k, before); }
    if after != head { OnListNotGone(elts, container, drop, k, after); }
    OutsideNotGone(elts, container, drop, k, head);
    assert before !in gone && after !in gone;
    Avoids(gone, pos, before, after);
    DelAmongPoisoned(pos, head, cur, |p|, gone);
    assert Sift(elts[..k + 1], container, drop, false) == p;
  }

  /** A step of the removal-safe loop that keeps the link at index `k`:
      nothing is written, and the list value is the same sequence seen one
      index further on. */
  lemma KeepLink<E>(head: Node, container: map<Node, E>, drop: E -> bool, elts: seq<Node>, k: nat)
    requires Embedded(container, elts) && k < |elts| && !drop(container[elts[k]])
    requires Valid(head, Sift(elts[..k], container, drop, false) + elts[k..])
    ensures Valid(head, Sift(elts[..k + 1], container, drop, false) + elts[k + 1..])
    ensures Sift(elts[..k + 1], container, drop, true) == Sift(elts[..k], container, drop, true)
  {
    SpliceOut(Sift(elts[..k], container, drop, false), elts, k);
    SiftSnoc(elts, container, drop, false, k);
    SiftSnoc(elts, container, drop, true, k);
  }

  /** After the step at index `k`, the link at index `k + 1` (the saved
      successor) still points at the link that followed it in `elts`. */
  lemma SuccessorLink<E>(head: Node, container: map<Node, E>, drop: E -> bool, elts: seq<Node>, k: nat)
    requires Embedded(container, elts) && k + 1 < |elts|
    requires Valid(head, Sift(elts[..k + 1], container, drop, false) + elts[k + 1..])
    ensures Slot(head, elts, k + 2).next == Slot(head, elts, k + 3)
  {
    var p := Sift(elts[..k + 1], container, drop, false);
    SuffixSlot(head, p, elts, k + 1, 1);
    SuffixSlot(head, p, elts, k + 1, 2);
    assert (p + elts[k + 1..])[|p|] == Slot(head, elts, k + 2);
  }

  /** `list_for_each_entry_safe`, with a loop body that `list_del`s the
      current entry's link whenever `drop` selects the entry. The successor
      is read before the body runs, so every member is still visited once,
      the list ends up holding exactly the links not dropped, and every
      dropped link is poisoned. */
  method ListForEachEntrySafe<E>(head: Node, container: map<Node, E>, drop: E -> bool,
                                 ghost elts: seq<Node>)
    returns (visited: seq<E>)
    requires Valid(head, elts) && Embedded(container, elts)
    modifies head, elts
    ensures visited == Entries(container, elts)
    ensures Valid(head, Sift(elts, container, drop, false))
    ensures AllPoisoned(Sift(elts, container, drop, true))
  {
    visited := [];
    ghost var k := 0;
    assert elts[..0] == [] && elts[0..] == elts;
    var pos := head.next;
    var n := pos.next;
    while pos != head
      invariant 0 <= k <= |elts| && visited == Entries(container, elts[..k])
      invariant Valid(head, Sift(elts[..k], container, drop, false) + elts[k..])
      invariant AllPoisoned(Sift(elts[..k], container, drop, true))
      invariant pos == Slot(head, elts, k + 1)
      invariant k < |elts| ==> n == Slot(head, elts, k + 2)
      decreases |elts| - k
    {
      EntriesSnoc(container, elts, k);
      var entry := container[pos];
      visited := visited + [entry];
      if drop(entry) {
        DropLink(head, pos, container, drop, elts, k);
      } else {
        KeepLink(head, container, drop, elts, k);
      }
      if k + 1 < |elts| {
        SuccessorLink(head, container, drop, elts, k);
      }
      pos := n;
      n := n.next;
      k := k + 1;
    }
    assert elts[..k] == elts && elts[k..] == [];
    assert Sift(elts[..k], container, drop, false) + elts[k..] == Sift(elts, container, drop, false);
  }
}
