# kernel_list in Dafny

A model of `kernel_list.h`, a copy of the Linux kernel's intrusive circular
doubly-linked list with a sentinel. A node (`list_head_t`) holds only a `next`
and a `prev` link. A list head is a node of the same type. The host records
embed a node and are recovered from it with `container_of`.

The model keeps the link-level state. `KernelList.Node` is a class whose
nullable `next` and `prev` fields the operations assign in place, store by
store, in the order of the C code. The contents of a list are a ghost sequence
`elts` of its member nodes in `next` order, head excluded. The ghost predicate
`Valid(head, elts)` ties the sequence to the fields:

- `head.next` is the first member, and `head.prev` is the last one (both are
  `head` when the list is empty);
- each member's `next` and `prev` point at its neighbours in the cycle;
- the members are pairwise distinct and differ from the head.

Each mutator except `InitListHead` takes the contents as a ghost parameter.
Where the C function does not receive the head, it is passed as a ghost
parameter too, along with an index where one is needed. It may modify only the nodes the C
function writes. Its postcondition gives the new contents: insertion at the
front or back, removal or replacement at an index.

The three traversal macros are loop methods that return what they visit.
`list_for_each_entry` and `list_for_each_entry_safe` reach the enclosing
records through a map from member nodes to records. That map stands in for
`container_of`.

Modules:

- `KernelList` (`kernel_list.dfy`): the node, the invariant, the mutators and
  `list_empty`.
- `ListTraversal` (`traversal.dfy`): the three `for`-loop macros, with the
  deleting body of the safe variant.
- `ListProperties` (`properties.dfy`): facts about valid lists that no single
  operation states.

## Model

| member | source | states |
|---|---|---|
| `KernelList.InitListHead` | kernel_list.h:76-80 | the node ends up pointing at itself both ways, so it is a valid empty list and `list_empty` returns 1 |
| `KernelList.ListAddBetween` | kernel_list.h:88-94 | given adjacent slots `i` and `i + 1`, the new node sits between them with all four links set; the contents gain the node at index `i`; only the three nodes are written |
| `KernelList.ListAdd` | kernel_list.h:101-104 | contents `s` become `[x] + s`; only `x`, the head and the old first node are written |
| `KernelList.ListAddTail` | kernel_list.h:111-114 | contents `s` become `s + [x]`; only `x`, the head and the old last node are written |
| `KernelList.ListDelBetween` | kernel_list.h:121-125 | the two neighbours of index `i` point at each other and the contents lose index `i`; the bypassed node itself is not written |
| `KernelList.ListDel` | kernel_list.h:131-136 | contents lose index `i`; the former neighbours point at each other; the removed node is off the list and holds the poison values `Poison1`/`Poison2`, both NULL in this build (kernel_list.h:35-36) |
| `KernelList.ListEmpty` | kernel_list.h:139-147 | returns the C `int` 1 when `head.next == head` and 0 otherwise, and nothing else; it reads only the head and writes nothing |
| `KernelList.ListEmptyIffNoMembers` | kernel_list.h:144-147 | on a valid list, `list_empty` returns 1 exactly when the contents are empty |
| `KernelList.ListReplace` | kernel_list.h:213-219 | contents `s` become `s[i := new]`; the old node's own links are untouched and still point at its former neighbours; replacing a node by itself leaves the list as it was |
| `KernelList.ListReplaceInit` | kernel_list.h:226-230 | same contents as `list_replace`; the old node is then a valid empty list of its own, for which `list_empty` returns 1 |
| `ListTraversal.ListForEach` | kernel_list.h:181-182 | starting at `head.next` and stopping back at `head`, the cursor visits exactly the members, in order |
| `ListTraversal.EntriesAt` | kernel_list.h:155-156 | the record sequence has one record per link, and each is the record its link is embedded in |
| `ListTraversal.ListForEachEntry` | kernel_list.h:190-193 | the records visited are those around the members, in list order |
| `ListTraversal.ListForEachEntrySafe` | kernel_list.h:202-206 | with a body that `list_del`s the current link when `drop` selects its record, every record is still visited once, in order; the list ends holding exactly the undropped links in their old order; every dropped link is poisoned |
| `ListTraversal.DropLink` | kernel_list.h:202-206 | one deleting iteration of the safe loop: the link at index `k` leaves the list, and every link removed so far stays poisoned |
| `ListTraversal.KeepLink` | kernel_list.h:202-206 | one iteration that keeps its link writes nothing and leaves the list as the kept prefix plus the unvisited links |
| `ListTraversal.SuccessorLink` | kernel_list.h:202-206 | the successor `n` saved before the body runs still links to the member after it, whatever the body deleted |
| `ListTraversal.SiftMember` | kernel_list.h:202-206 | a link remains after the safe loop exactly when it was a member whose record `drop` rejects, and is removed exactly when `drop` selects it |
| `ListTraversal.SiftDistinct` | kernel_list.h:202-206 | the links the safe loop keeps, and those it removes, are still pairwise distinct |
| `ListTraversal.SiftExtremes` | kernel_list.h:202-206 | a body that deletes nothing keeps the whole list; one that deletes everything leaves it empty |
| `ListProperties.ValidUnique` | kernel_list.h:60-64 | the links determine the contents: one head anchors at most one member sequence |
| `ListProperties.SameSuccessors` | kernel_list.h:60-64 | two member sequences of one head agree on every common prefix, and on the node after it |
| `ListProperties.LinksMirror` | kernel_list.h:121-136 | from the head or a member, `next` and `prev` are non-null, stay on the cycle and mirror each other; `__list_del` writes through these links |
| `ListProperties.PoisonedOffList` | kernel_list.h:131-136 | a node `list_del` has poisoned is neither the head nor a member of any valid list |
| `ListProperties.AddThenDel` | kernel_list.h:101-136 | `list_del` after `list_add` of the same node restores the old contents and leaves the node poisoned |
| `ListProperties.ReplaceThenRestore` | kernel_list.h:213-219 | replacing a node and then replacing back with it restores the original contents |

## Left out

- `offsetof`, `container_of`, `list_entry`, `list_first_entry` and `list_next_entry` (kernel_list.h:39-57, 155-174) find a record by subtracting the offset of its link field from the link's address, using GNU `typeof`. A map from member nodes to their records stands in for them. The traversals look a record up only after they know the link is not the head. The C code also forms the bogus "record" around the head before it stops. `list_for_each_entry` never dereferences it. `list_for_each_entry_safe` reads `->member.next` through it, which is the head's own `next`, and the model reads `head.next` at those points.
- The non-NULL poison addresses under `#if 0` (kernel_list.h:26-30) are left out. The model uses the active NULL definitions (kernel_list.h:35-36).
- The static initialisers `LIST_HEAD_INIT` and `LIST_HEAD` (kernel_list.h:66-73) are left out. They do what `InitListHead` does, at declaration time.
- The include guard and the `extern "C"` block are build plumbing and are left out.
- Undefined behaviour is excluded by preconditions and not modelled: inserting a node already on the same list, deleting a node twice, or deleting or replacing a node that is not on the list.
- Inserting a node that is linked into a different list is accepted, as in C. Its links are overwritten, and nothing more is promised about the other list, whose `Valid` no longer holds.
- The `ghost` head, contents and index parameters have no counterpart in C. They name the list an operation acts on.
- A newly allocated node's links are garbage in C. The constructor of `Node` promises nothing about them.
- ListTraversal.ListForEachEntrySafe: the loop body is fixed to "`list_del` the current link when `drop` selects its record". Other bodies the macro admits (ones that change other lists, or add nodes) are not modelled. A read-only body is the case where `drop` selects nothing.
- KernelList.ListReplaceInit: requires the new node to be off the list. That excludes `list_replace_init(x, x)`, which would self-loop a node its neighbours still point at. `ListReplace` admits replacing a node by itself.
