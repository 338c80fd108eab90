/** Trees of nodes: which blocks a tree owns, how it is linked, what it stands for. */
module Trees {
  import opened Bytes
  import opened Nodes

  /** The allocation hooks, with a ledger of the blocks handed out and not yet freed. */
  class Heap {
    ghost var live: set<object>
    /** Set once an allocation has returned NULL. */
    var refused: bool
    /** Whether there is a reallocate hook. */
    const reallocates: bool

    constructor (reallocates: bool)
      ensures live == {} && !refused && this.reallocates == reallocates
    {
      live, refused := {}, false;
      this.reallocates := reallocates;
    }

    /** cJSON_New_Item */
    method NewItem() returns (item: Node?)
      modifies this
      ensures item == null ==> refused && live == old(live)
      ensures item != null ==> refused == old(refused) && live == old(live) + {item} && fresh(item)
      ensures item != null ==> item.next == null && item.prev == null && item.child == null && item.kind == Invalid
      ensures item != null ==> item.valuedouble == 0.0
      ensures item != null ==> !item.isReference && !item.stringIsConst && item.valuestring == null && item.name == null
    {
      var granted: bool := *;
      if granted {
        item := new Node();
        live := live + {item};
      } else {
        item := null;
        refused := true;
      }
    }

    method Allocate(size: nat) returns (block: array?<byte>)
      modifies this
      ensures block == null ==> refused && live == old(live)
      ensures block != null ==>
              refused == old(refused) && live == old(live) + {block} && fresh(block) && block.Length == size
    {
      var granted: bool := *;
      if granted {
        block := new byte[size];
        live := live + {block};
      } else {
        block := null;
        refused := true;
      }
    }

    /** realloc: when it is refused, the old block stays live. */
    method Reallocate(block: array<byte>, size: nat) returns (r: array?<byte>)
      requires block in live
      modifies this
      ensures r == null ==> refused && live == old(live)
      ensures r != null ==> refused == old(refused) && live == old(live) - {block} + {r} && fresh(r)
      ensures r != null ==> r.Length == size && forall i | 0 <= i < size && i < block.Length :: r[i] == block[i]
    {
      r := Allocate(size);
      if r != null {
        forall i | 0 <= i < size && i < block.Length {
          r[i] := block[i];
        }
        Deallocate(block);
      }
    }

    /** Only a block that is live may be freed, so no block is freed twice. */
    method Deallocate(block: object)
      requires block in live
      modifies this`live
      ensures live == old(live) - {block}
    {
      live := live - {block};
    }
  }

  /** The nodes and strings a pointer leads to: `kids` hang below the node. */
  datatype Shape = Shape(node: Node, reference: bool, constKey: bool, text: array?<byte>, key: array?<byte>,
      kids: seq<Shape>)

  ghost function NodesOf(l: seq<Shape>): (r: seq<Node>)
    ensures |r| == |l| && forall i | 0 <= i < |l| :: r[i] == l[i].node
  {
    seq(|l|, i requires 0 <= i < |l| => l[i].node)
  }

  ghost function NodeSet(s: Shape): set<Node> {
    {s.node} + NodeSets(s.kids)
  }

  ghost function NodeSets(l: seq<Shape>): (r: set<Node>)
    ensures forall i | 0 <= i < |l| :: l[i].node in r
  {
    if l == [] then {}
    else
      var front := l[..|l| - 1];
      assert forall i | 0 <= i < |front| :: l[i] == front[i];
      NodeSets(front) + NodeSet(l[|l| - 1])
  }

  /** The nodes below the top level. */
  ghost function Inner(l: seq<Shape>): (r: set<Node>)
    ensures r <= NodeSets(l)
  {
    if l == [] then {} else Inner(l[..|l| - 1]) + NodeSets(l[|l| - 1].kids)
  }

  ghost function Strings(a: array?<byte>): set<array<byte>> {
    if a == null then {} else {a}
  }

  ghost function TextSet(s: Shape): set<array<byte>> {
    Strings(s.text) + Strings(s.key) + TextSets(s.kids)
  }

  ghost function TextSets(l: seq<Shape>): set<array<byte>> {
    if l == [] then {} else TextSets(l[..|l| - 1]) + TextSet(l[|l| - 1])
  }

  /** The blocks cJSON_Delete frees with the node: a reference does not own what it refers to,
      and a constant key is not owned. */
  ghost function Blocks(s: Shape): set<object> {
    {s.node}
    + (if s.reference then {} else Strings(s.text) + AllBlocks(s.kids))
    + (if s.constKey then {} else Strings(s.key))
  }

  ghost function AllBlocks(l: seq<Shape>): set<object> {
    if l == [] then {} else AllBlocks(l[..|l| - 1]) + Blocks(l[|l| - 1])
  }

  /** No owned block is shared. */
  ghost predicate Separate(s: Shape) {
    && s.node !in AllBlocks(s.kids)
    && Strings(s.text) !! Strings(s.key)
    && Strings(s.text) !! AllBlocks(s.kids)
    && Strings(s.key) !! AllBlocks(s.kids)
    && AllSeparate(s.kids)
  }

  ghost predicate AllSeparate(l: seq<Shape>) {
    l == [] ||
    (var (front, last) := (l[..|l| - 1], l[|l| - 1]);
     AllSeparate(front) && Separate(last) && Blocks(last) !! AllBlocks(front))
  }

  /** The fields of the nodes agree with the shape. */
  ghost predicate Shaped(s: Shape)
    reads NodeSet(s)`child, NodeSet(s)`valuestring, NodeSet(s)`name, NodeSet(s)`isReference, NodeSet(s)`stringIsConst
    reads NodeSets(s.kids)`next, NodeSets(s.kids)`prev
  {
    && s.node.isReference == s.reference && s.node.stringIsConst == s.constKey
    && s.node.valuestring == s.text && s.node.name == s.key
    && Linked(s.node.child, NodesOf(s.kids))
    && AllShaped(s.kids)
  }

  ghost predicate AllShaped(l: seq<Shape>)
    reads NodeSets(l)`child, NodeSets(l)`valuestring, NodeSets(l)`name, NodeSets(l)`isReference,
        NodeSets(l)`stringIsConst
    reads Inner(l)`next, Inner(l)`prev
  {
    l == [] || (AllShaped(l[..|l| - 1]) && Shaped(l[|l| - 1]))
  }

  /** No node of the tree is marked as a reference. */
  ghost predicate NoReference(s: Shape) {
    !s.reference && AllNoReference(s.kids)
  }

  ghost predicate AllNoReference(l: seq<Shape>) {
    l == [] || (AllNoReference(l[..|l| - 1]) && NoReference(l[|l| - 1]))
  }

  /** No node of the tree has a name that is constant. */
  ghost predicate OwnsNames(s: Shape) {
    !s.constKey && AllOwnNames(s.kids)
  }

  ghost predicate AllOwnNames(l: seq<Shape>) {
    l == [] || (AllOwnNames(l[..|l| - 1]) && OwnsNames(l[|l| - 1]))
  }

  // ---------- One element of a list ----------

  lemma {:induction false} ShapedAt(l: seq<Shape>, i: nat)
    requires AllShaped(l) && i < |l|
    ensures Shaped(l[i])
  {
    if i < |l| - 1 {
      ShapedAt(l[..|l| - 1], i);
    }
  }

  lemma {:induction false} SeparateAt(l: seq<Shape>, i: nat)
    requires AllSeparate(l) && i < |l|
    ensures Separate(l[i]) && Blocks(l[i]) !! AllBlocks(l[..i])
    ensures AllBlocks(l[..i]) + Blocks(l[i]) == AllBlocks(l[..i + 1]) <= AllBlocks(l)
  {
    assert l[..i + 1][..i] == l[..i];
    if i < |l| - 1 {
      SeparateAt(l[..|l| - 1], i);
      assert l[..|l| - 1][..i] == l[..i];
      assert l[..|l| - 1][..i + 1] == l[..i + 1];
    } else {
      assert l[..i + 1] == l;
    }
  }

  // Everything a shape mentions has been allocated; callers need this to see that what a
  // predicate reads is left alone by a call.

  lemma {:induction false} Allocated(s: Shape)
    ensures forall n | n in NodeSet(s) :: allocated(n)
    ensures forall a | a in TextSet(s) :: allocated(a)
    ensures forall b | b in Blocks(s) :: allocated(b)
  {
    AllAllocated(s.kids);
  }

  lemma {:induction false} AllAllocated(l: seq<Shape>)
    ensures forall n | n in NodeSets(l) :: allocated(n)
    ensures forall n | n in Inner(l) :: allocated(n)
    ensures forall n | n in NodesOf(l) :: allocated(n)
    ensures forall a | a in TextSets(l) :: allocated(a)
    ensures forall b | b in AllBlocks(l) :: allocated(b)
  {
    if l != [] {
      AllAllocated(l[..|l| - 1]);
      Allocated(l[|l| - 1]);
      AllAllocated(l[|l| - 1].kids);
    }
  }

  lemma HeadOfList(first: Node?, l: seq<Shape>)
    requires Linked(first, NodesOf(l))
    ensures first == if l == [] then null else l[0].node
  {
    assert l != [] ==> NodesOf(l)[0] == l[0].node;
  }

  lemma NextInList(first: Node?, l: seq<Shape>, i: nat)
    requires Linked(first, NodesOf(l)) && i < |l|
    ensures l[i].node.next == if i + 1 < |l| then l[i + 1].node else null
  {
    assert NodesOf(l)[i] == l[i].node;
  }

  // ---------- Deleting ----------

  lemma FreeMore(live: set<object>, freed: set<object>, more: set<object>, owned: set<object>)
    requires freed + more <= owned <= live && freed !! more
    ensures more <= live - freed && live - freed - more == live - (freed + more)
  {
  }

  /** cJSON_Delete: every block the list owns is freed, each of them once, and nothing else. */
  method Delete(heap: Heap, item: Node?, ghost l: seq<Shape>)
    requires Linked(item, NodesOf(l)) && AllShaped(l) && AllSeparate(l) && AllBlocks(l) <= heap.live
    modifies heap`live
    ensures heap.live == old(heap.live) - AllBlocks(l)
    decreases l, 1
  {
    var current := item;
    ghost var i := 0;
    AllAllocated(l);
    assert AllBlocks(l[..0]) == {};
    hide *;
    while current != null
      invariant 0 <= i <= |l| && AllShaped(l) && Linked(item, NodesOf(l))
      invariant current == if i < |l| then l[i].node else null
      invariant heap.live == old(heap.live) - AllBlocks(l[..i])
      decreases |l| - i
    {
      current := DeleteNext(heap, item, current, l, i, old(heap.live));
      i := i + 1;
    }
    assert l[..i] == l;
  }

  /** One turn of the loop, on the element at `i`; `live` was live before the first one. */
  method DeleteNext(heap: Heap, ghost first: Node?, current: Node, ghost l: seq<Shape>, ghost i: nat,
      ghost live: set<object>)
    returns (next: Node?)
    requires Linked(first, NodesOf(l)) && AllShaped(l) && AllSeparate(l) && AllBlocks(l) <= live
    requires i < |l| && current == l[i].node && heap.live == live - AllBlocks(l[..i])
    modifies heap`live
    ensures heap.live == live - AllBlocks(l[..i + 1])
    ensures next == if i + 1 < |l| then l[i + 1].node else null
    ensures AllShaped(l) && Linked(first, NodesOf(l))
    decreases l, 0
  {
    hide *;
    AllAllocated(l);
    ShapedAt(l, i);
    SeparateAt(l, i);
    FreeMore(live, AllBlocks(l[..i]), Blocks(l[i]), AllBlocks(l));
    NextInList(first, l, i);
    next := current.next;
    DeleteOne(heap, current, l[i]);
  }

  /** The body of the loop of cJSON_Delete. */
  method DeleteOne(heap: Heap, item: Node, ghost s: Shape)
    requires item == s.node && Shaped(s) && Separate(s) && Blocks(s) <= heap.live
    modifies heap`live
    ensures heap.live == old(heap.live) - Blocks(s)
    decreases s
  {
    if !item.isReference && item.child != null {
      Delete(heap, item.child, s.kids);
    }
    if !item.isReference && item.valuestring != null {
      heap.Deallocate(item.valuestring);
    }
    if !item.stringIsConst && item.name != null {
      heap.Deallocate(item.name);
    }
    heap.Deallocate(item);
  }

  /** A tree on its own is a list of one. */
  lemma ListOfOne(c: Shape)
    requires c.node.next == null && c.node.prev == null && Shaped(c) && Separate(c)
    ensures NodesOf([c]) == [c.node] && Linked(c.node, NodesOf([c]))
    ensures AllShaped([c]) && AllSeparate([c]) && AllBlocks([c]) == Blocks(c)
  {
    assert [c][..0] == [];
    assert AllShaped([]) && AllSeparate([]) && AllBlocks([]) == {};
  }

  // ---------- Appending to a list ----------

  lemma Extended(l: seq<Shape>, c: Shape)
    ensures NodesOf(l + [c]) == NodesOf(l) + [c.node]
    ensures NodeSets(l + [c]) == NodeSets(l) + NodeSet(c)
    ensures AllBlocks(l + [c]) == AllBlocks(l) + Blocks(c)
    ensures AllNoReference(l + [c]) <==> AllNoReference(l) && NoReference(c)
    ensures AllOwnNames(l + [c]) <==> AllOwnNames(l) && OwnsNames(c)
    ensures AllSeparate(l + [c]) <==> AllSeparate(l) && Separate(c) && Blocks(c) !! AllBlocks(l)
    ensures AllShaped(l + [c]) <==> AllShaped(l) && Shaped(c)
  {
    assert (l + [c])[..|l|] == l;
  }

  /** A tree without references owns all its nodes. */
  lemma {:induction false} NodesOwned(s: Shape)
    requires NoReference(s)
    ensures forall n | n in NodeSet(s) :: n in Blocks(s)
    ensures s.node in NodeSet(s)
  {
    AllNodesOwned(s.kids);
  }

  lemma {:induction false} AllNodesOwned(l: seq<Shape>)
    requires AllNoReference(l)
    ensures forall n | n in NodeSets(l) :: n in AllBlocks(l)
  {
    if l != [] {
      AllNodesOwned(l[..|l| - 1]);
      NodesOwned(l[|l| - 1]);
    }
  }

  /** A tree without references and constant names owns all its nodes and strings. */
  lemma {:induction false} AllOwned(s: Shape)
    requires NoReference(s) && OwnsNames(s)
    ensures Blocks(s) == NodeSet(s) + TextSet(s)
  {
    KidsOwned(s.kids);
  }

  lemma {:induction false} KidsOwned(l: seq<Shape>)
    requires AllNoReference(l) && AllOwnNames(l)
    ensures AllBlocks(l) == NodeSets(l) + TextSets(l)
  {
    if l != [] {
      KidsOwned(l[..|l| - 1]);
      AllOwned(l[|l| - 1]);
    }
  }

  /** A node at the top of a list is not below another one. */
  lemma {:induction false} TopNotInner(l: seq<Shape>, i: nat)
    requires AllSeparate(l) && AllNoReference(l) && i < |l|
    ensures l[i].node !in Inner(l)
  {
    var front, last := l[..|l| - 1], l[|l| - 1];
    AllNodesOwned(front);
    NodesOwned(last);
    AllNodesOwned(last.kids);
    if i < |front| {
      TopNotInner(front, i);
      assert front[i].node in NodeSets(front);
    }
  }

  /** What linking the last node of `l` to `c` changes is not part of either shape. */
  lemma LinkOutside(l: seq<Shape>, c: Shape)
    requires AllSeparate(l) && AllNoReference(l) && Separate(c) && NoReference(c) && Blocks(c) !! AllBlocks(l)
    ensures l != [] ==>
            l[|l| - 1].node !in Inner(l) && l[|l| - 1].node !in NodeSet(c) && l[|l| - 1].node !in NodeSets(c.kids)
    ensures c.node !in NodeSets(l) && c.node !in Inner(l) && c.node !in NodeSets(c.kids) && c.node !in NodesOf(l)
  {
    AllNodesOwned(l);
    NodesOwned(c);
    AllNodesOwned(c.kids);
    if l != [] {
      TopNotInner(l, |l| - 1);
      assert l[|l| - 1].node in NodeSets(l);
    }
  }

  /** Link a finished tree behind the last one of a list. */
  method AttachLast(first: Node?, last: Node?, item: Node, ghost l: seq<Shape>, ghost c: Shape) returns (head: Node)
    requires Linked(first, NodesOf(l)) && last == if l == [] then null else l[|l| - 1].node
    requires item == c.node && item.next == null && item.prev == null
    requires AllShaped(l) && AllSeparate(l) && AllNoReference(l)
    requires Shaped(c) && Separate(c) && NoReference(c) && Blocks(c) !! AllBlocks(l)
    modifies Only(last)`next, item`prev
    ensures Linked(head, NodesOf(l + [c])) && head == if l == [] then item else first
    ensures AllShaped(l + [c]) && AllSeparate(l + [c]) && AllNoReference(l + [c])
    ensures AllBlocks(l + [c]) == AllBlocks(l) + Blocks(c)
  {
    hide Linked, NodesOf, NodeSet, NodeSets, Inner, TextSet, TextSets, Blocks, AllBlocks;
    hide Separate, AllSeparate, Shaped, AllShaped, NoReference, AllNoReference;
    LinkOutside(l, c);
    AllAllocated(l);
    Allocated(c);
    AllAllocated(c.kids);
    head := LinkLast(first, last, item, NodesOf(l));
    Extended(l, c);
  }

  // ---------- Replacing ----------

  /** cJSON_ReplaceItemViaPointer: the replacement stands where the item stood, and what the item
      owned is freed. Replacing an item by itself changes nothing. */
  method ReplaceItemViaPointer(heap: Heap, parent: Node?, item: Node?, replacement: Node?, ghost nodes: seq<Node>,
      ghost i: nat, ghost s: Shape)
    returns (ok: bool)
    requires parent != null && item != null && replacement != null && replacement != item ==>
               && Linked(parent.child, nodes) && i < |nodes| && nodes[i] == item && replacement !in nodes
               && s.node == item && Shaped(s) && Separate(s) && Blocks(s) <= heap.live
               && parent !in NodeSet(s) && replacement !in NodeSets(s.kids)
                   && forall n | n in nodes :: n !in NodeSets(s.kids)
    modifies heap`live, Only(parent)`child, nodes`next, nodes`prev, Only(replacement)`next, Only(replacement)`prev
    ensures ok <==> parent != null && item != null && replacement != null
    ensures ok && replacement != item ==>
            Linked(parent.child, nodes[i := replacement]) && heap.live == old(heap.live) - Blocks(s)
    ensures !ok || replacement == item ==> unchanged(heap`live, Only(parent)`child, nodes`next, nodes`prev,
        Only(replacement)`next, Only(replacement)`prev)
  {
    hide Linked, NodesOf, NodeSet, NodeSets, TextSet, Blocks, AllBlocks, Separate, AllSeparate, Shaped, AllShaped;
    if parent == null || item == null || replacement == null {
      return false;
    }
    if replacement == item {
      return true;
    }
    Allocated(s);
    AllAllocated(s.kids);
    ReplaceItem(parent, item, replacement, nodes, i);
    ListOfOne(s);
    Delete(heap, item, [s]);
    ok := true;
  }
}
