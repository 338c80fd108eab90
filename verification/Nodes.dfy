/** The nodes of a cJSON tree and the editing of their sibling lists. */
module Nodes {
  import Bytes

  datatype Kind = Invalid | IsFalse | IsTrue | IsNull | IsNumber | IsString | IsArray | IsObject | IsRaw

  class Node {
    var next: Node?
    var prev: Node?
    var child: Node?
    var kind: Kind
    var isReference: bool
    var stringIsConst: bool
    var valuestring: array?<Bytes.byte>
    var valuedouble: real
    var name: array?<Bytes.byte>

    /** cJSON_New_Item after its memset. */
    constructor ()
      ensures next == null && prev == null && child == null && kind == Invalid
      ensures !isReference && !stringIsConst && valuestring == null && valuedouble == 0.0 && name == null
    {
      next, prev, child, kind := null, null, null, Invalid;
      isReference, stringIsConst := false, false;
      valuestring, valuedouble, name := null, 0.0, null;
    }
  }

  function Before(nodes: seq<Node>, i: nat): Node?
    requires i < |nodes|
  {
    if i == 0 then null else nodes[i - 1]
  }

  function After(nodes: seq<Node>, i: nat): Node?
    requires i < |nodes|
  {
    if i + 1 < |nodes| then nodes[i + 1] else null
  }

  /** `first` heads the doubly linked list of `nodes`: next leads forward to null, prev leads
      back to null, and no node comes twice. */
  ghost predicate Linked(first: Node?, nodes: seq<Node>)
    reads nodes`next, nodes`prev
  {
    && first == (if nodes == [] then null else nodes[0])
    && (forall i | 0 <= i < |nodes| :: nodes[i].next == After(nodes, i))
    && (forall i | 0 <= i < |nodes| :: nodes[i].prev == Before(nodes, i))
    && (forall i, j | 0 <= i < j < |nodes| :: nodes[i] != nodes[j])
  }

  /** The node, unless the pointer is null. */
  function Only(n: Node?): set<Node> {
    if n == null then {} else {n}
  }

  function Removed(nodes: seq<Node>, i: nat): seq<Node>
    requires i < |nodes|
  {
    nodes[..i] + nodes[i + 1..]
  }

  function Inserted(nodes: seq<Node>, i: nat, x: Node): seq<Node>
    requires i <= |nodes|
  {
    nodes[..i] + [x] + nodes[i..]
  }

  // What the links must be for an edited list to be a list again.

  lemma RemovedAt(nodes: seq<Node>, i: nat, k: nat)
    requires i < |nodes| && k < |nodes| - 1
    ensures Removed(nodes, i)[k] == nodes[if k < i then k else k + 1]
  {
  }

  lemma RemovedOnce(nodes: seq<Node>, i: nat)
    requires i < |nodes|
    requires forall j, k | 0 <= j < k < |nodes| :: nodes[j] != nodes[k]
    ensures var r := Removed(nodes, i); nodes[i] !in r && forall j, k | 0 <= j < k < |r| :: r[j] != r[k]
  {
    var r := Removed(nodes, i);
    forall j, k | 0 <= j < k < |r|
      ensures r[j] != r[k]
    {
      hide Removed;
      RemovedAt(nodes, i, j);
      RemovedAt(nodes, i, k);
    }
    forall k | 0 <= k < |r|
      ensures r[k] != nodes[i]
    {
      hide Removed;
      RemovedAt(nodes, i, k);
    }
  }

  lemma LinkedRemoved(first: Node?, nodes: seq<Node>, i: nat)
    requires i < |nodes|
    requires first == if i == 0 then After(nodes, 0) else nodes[0]
    requires forall k | 0 <= k < |nodes|
        && k != i :: nodes[k].next == if k + 1 == i then After(nodes, i) else After(nodes, k)
    requires forall k | 0 <= k < |nodes|
        && k != i :: nodes[k].prev == if k == i + 1 then Before(nodes, i) else Before(nodes, k)
    requires forall j, k | 0 <= j < k < |nodes| :: nodes[j] != nodes[k]
    ensures Linked(first, Removed(nodes, i))
    ensures nodes[i] !in Removed(nodes, i)
  {
    var r := Removed(nodes, i);
    assert |r| == |nodes| - 1;
    RemovedOnce(nodes, i);
    hide Removed;
    if r != [] {
      RemovedAt(nodes, i, 0);
    }
    forall k | 0 <= k < |r|
      ensures r[k].next == After(r, k) && r[k].prev == Before(r, k)
    {
      RemovedAt(nodes, i, k);
      if k > 0 {
        RemovedAt(nodes, i, k - 1);
      }
      if k + 1 < |r| {
        RemovedAt(nodes, i, k + 1);
      }
    }
  }

  lemma InsertedAt(nodes: seq<Node>, i: nat, x: Node, k: nat)
    requires i <= |nodes| && k <= |nodes|
    ensures Inserted(nodes, i, x)[k] == if k < i then nodes[k] else if k == i then x else nodes[k - 1]
  {
  }

  lemma InsertedOnce(nodes: seq<Node>, i: nat, x: Node)
    requires i <= |nodes| && x !in nodes
    requires forall j, k | 0 <= j < k < |nodes| :: nodes[j] != nodes[k]
    ensures var r := Inserted(nodes, i, x); forall j, k | 0 <= j < k < |r| :: r[j] != r[k]
  {
    var r := Inserted(nodes, i, x);
    forall j, k | 0 <= j < k < |r|
      ensures r[j] != r[k]
    {
      hide Inserted;
      InsertedAt(nodes, i, x, j);
      InsertedAt(nodes, i, x, k);
    }
  }

  lemma LinkedInserted(first: Node?, nodes: seq<Node>, i: nat, x: Node)
    requires i <= |nodes| && x !in nodes
    requires first == if i == 0 then x else nodes[0]
    requires x.next == (if i < |nodes| then nodes[i] else null) && x.prev == (if i == 0 then null else nodes[i - 1])
    requires forall k | 0 <= k < |nodes| :: nodes[k].next == if k + 1 == i then x else After(nodes, k)
    requires forall k | 0 <= k < |nodes| :: nodes[k].prev == if k == i then x else Before(nodes, k)
    requires forall j, k | 0 <= j < k < |nodes| :: nodes[j] != nodes[k]
    ensures Linked(first, Inserted(nodes, i, x))
  {
    var r := Inserted(nodes, i, x);
    assert |r| == |nodes| + 1;
    InsertedOnce(nodes, i, x);
    hide Inserted;
    InsertedAt(nodes, i, x, 0);
    forall k | 0 <= k < |r|
      ensures r[k].next == After(r, k) && r[k].prev == Before(r, k)
    {
      InsertedAt(nodes, i, x, k);
      if k > 0 {
        InsertedAt(nodes, i, x, k - 1);
      }
      if k + 1 < |r| {
        InsertedAt(nodes, i, x, k + 1);
      }
    }
  }

  /** get_array_item */
  method GetArrayItem(parent: Node?, index: nat, ghost nodes: seq<Node>) returns (item: Node?)
    requires parent != null ==> Linked(parent.child, nodes)
    ensures item == if parent != null && index < |nodes| then nodes[index] else null
  {
    if parent == null {
      return null;
    }
    item := parent.child;
    var left: nat := index;
    ghost var i := 0;
    while item != null && left > 0
      invariant i + left == index && 0 <= i <= |nodes|
      invariant item == if i < |nodes| then nodes[i] else null
      decreases left
    {
      left := left - 1;
      item := item.next;
      i := i + 1;
    }
  }

  /** cJSON_AddItemToArray: the item goes behind the last one. */
  method AddItemToArray(parent: Node?, item: Node?, ghost nodes: seq<Node>)
    requires parent != null ==> Linked(parent.child, nodes)
    requires item != null ==> item.next == null && item.prev == null && item !in nodes
    modifies Only(parent)`child, nodes`next, Only(item)`prev
    ensures parent != null && item != null ==> Linked(parent.child, nodes + [item])
    ensures parent == null || item == null ==> unchanged(Only(parent)`child, nodes`next, Only(item)`prev)
  {
    if item == null || parent == null {
      return;
    }
    var child := parent.child;
    if child == null {
      parent.child := item;
    } else {
      ghost var i := 0;
      while child.next != null
        invariant 0 <= i < |nodes| && child == nodes[i]
        decreases |nodes| - i
      {
        child := child.next;
        i := i + 1;
      }
      child.next := item;
      item.prev := child;
      LinkedExtended(parent.child, nodes, item);
    }
  }

  /** Link `item` behind `last`; the head of the list so far is `first`. */
  method LinkLast(first: Node?, last: Node?, item: Node, ghost nodes: seq<Node>) returns (head: Node)
    requires Linked(first, nodes) && last == if nodes == [] then null else nodes[|nodes| - 1]
    requires item.next == null && item.prev == null && item !in nodes
    modifies Only(last)`next, item`prev
    ensures Linked(head, nodes + [item]) && head == if nodes == [] then item else first
  {
    if last == null {
      head := item;
    } else {
      head := first;
      last.next := item;
      item.prev := last;
      LinkedExtended(first, nodes, item);
    }
  }

  /** The links that appending must set. */
  lemma LinkedExtended(first: Node?, nodes: seq<Node>, item: Node)
    requires nodes != [] && first == nodes[0] && item !in nodes && item.next == null && item.prev == nodes[|nodes| - 1]
    requires forall k | 0 <= k < |nodes| :: nodes[k].next == if k + 1 == |nodes| then item else After(nodes, k)
    requires forall k | 0 <= k < |nodes| :: nodes[k].prev == Before(nodes, k)
    requires forall i, j | 0 <= i < j < |nodes| :: nodes[i] != nodes[j]
    ensures Linked(first, nodes + [item])
  {
    var all := nodes + [item];
    forall k | 0 <= k < |all|
      ensures all[k].next == After(all, k) && all[k].prev == Before(all, k)
    {
      assert k < |nodes| ==> all[k] == nodes[k];
    }
  }

  /** cJSON_DetachItemViaPointer on the item at `i`. */
  method DetachItemViaPointer(parent: Node?, item: Node?, ghost nodes: seq<Node>, ghost i: nat)
    returns (detached: Node?)
    requires parent != null && item != null ==> Linked(parent.child, nodes) && i < |nodes| && nodes[i] == item
    modifies Only(parent)`child, nodes`next, nodes`prev
    ensures detached == if parent == null then null else item
    ensures parent != null && item != null ==>
              && Linked(parent.child, Removed(nodes, i))
              && item.next == null && item.prev == null && item !in Removed(nodes, i)
    ensures parent == null || item == null ==> unchanged(Only(parent)`child, nodes`next, nodes`prev)
  {
    if parent == null || item == null {
      return null;
    }
    if item.prev != null {
      item.prev.next := item.next;
    }
    if item.next != null {
      item.next.prev := item.prev;
    }
    if item == parent.child {
      parent.child := item.next;
    }
    item.prev := null;
    item.next := null;
    LinkedRemoved(parent.child, nodes, i);
    return item;
  }

  /** cJSON_DetachItemFromArray */
  method DetachItemFromArray(parent: Node?, which: int, ghost nodes: seq<Node>) returns (detached: Node?)
    requires parent != null ==> Linked(parent.child, nodes)
    modifies Only(parent)`child, nodes`next, nodes`prev
    ensures parent != null && 0 <= which < |nodes| ==>
              && detached == nodes[which]
              && Linked(parent.child, Removed(nodes, which))
              && detached.next == null && detached.prev == null && detached !in Removed(nodes, which)
    ensures parent == null || which < 0 || |nodes| <= which ==>
            detached == null && unchanged(Only(parent)`child, nodes`next, nodes`prev)
  {
    if which < 0 {
      return null;
    }
    var item := GetArrayItem(parent, which, nodes);
    detached := DetachItemViaPointer(parent, item, nodes, which);
  }

  /** cJSON_InsertItemInArray: in front of the item at `which`, or at the end. */
  method InsertItemInArray(parent: Node?, which: int, newItem: Node?, ghost nodes: seq<Node>)
    requires parent != null ==> Linked(parent.child, nodes)
    requires newItem != null ==> newItem.next == null && newItem.prev == null && newItem !in nodes
    requires newItem == null && parent != null && which >= 0 ==> which >= |nodes|
    modifies Only(parent)`child, nodes`next, nodes`prev, Only(newItem)`next, Only(newItem)`prev
    ensures parent != null && newItem != null && which >= 0 ==>
              var i := if which < |nodes| then which else |nodes|;
              Linked(parent.child, Inserted(nodes, i, newItem))
    ensures parent == null || newItem == null || which < 0 ==>
            unchanged(Only(parent)`child, nodes`next, nodes`prev, Only(newItem)`next, Only(newItem)`prev)
  {
    hide Linked;
    if which < 0 {
      return;
    }
    var afterInserted := GetArrayItem(parent, which, nodes);
    if afterInserted == null {
      AddItemToArray(parent, newItem, nodes);
      assert newItem != null ==> Inserted(nodes, |nodes|, newItem) == nodes + [newItem];
      return;
    }
    LinkInFront(parent, afterInserted, newItem, nodes, which);
  }

  /** The item is linked in front of the one at `i`. */
  method LinkInFront(parent: Node, afterInserted: Node, newItem: Node, ghost nodes: seq<Node>, ghost i: nat)
    requires Linked(parent.child, nodes) && i < |nodes| && nodes[i] == afterInserted && newItem !in nodes
    modifies parent`child, nodes`next, nodes`prev, newItem`next, newItem`prev
    ensures Linked(parent.child, Inserted(nodes, i, newItem))
  {
    newItem.next := afterInserted;
    newItem.prev := afterInserted.prev;
    afterInserted.prev := newItem;
    if afterInserted == parent.child {
      parent.child := newItem;
    } else {
      newItem.prev.next := newItem;
    }
    LinkedInserted(parent.child, nodes, i, newItem);
  }

  /** The neighbours of the item, and a parent that starts with it, now lead to the replacement. */
  method LinkReplacement(parent: Node, item: Node, replacement: Node, ghost nodes: seq<Node>, ghost i: nat)
    requires Linked(parent.child, nodes) && i < |nodes| && nodes[i] == item && replacement !in nodes
    modifies parent`child, nodes`next, nodes`prev, replacement`next, replacement`prev
    ensures parent.child == if i == 0 then replacement else nodes[0]
    ensures replacement.next == After(nodes, i) && replacement.prev == Before(nodes, i)
    ensures forall k | 0 <= k < |nodes| :: nodes[k].next == if k + 1 == i then replacement else After(nodes, k)
    ensures forall k | 0 <= k < |nodes| :: nodes[k].prev == if k == i + 1 then replacement else Before(nodes, k)
  {
    replacement.next := item.next;
    replacement.prev := item.prev;
    assert replacement.next == After(nodes, i) && replacement.prev == Before(nodes, i);
    if replacement.next != null {
      replacement.next.prev := replacement;
    }
    if replacement.prev != null {
      replacement.prev.next := replacement;
    }
    if parent.child == item {
      parent.child := replacement;
    }
  }

  lemma Distinct(first: Node?, nodes: seq<Node>)
    requires Linked(first, nodes)
    ensures forall j, k | 0 <= j < k < |nodes| :: nodes[j] != nodes[k]
  {
  }

  /** The links cJSON_ReplaceItemViaPointer sets; deleting the replaced item is a separate step. */
  method ReplaceItem(parent: Node, item: Node, replacement: Node, ghost nodes: seq<Node>, ghost i: nat)
    requires Linked(parent.child, nodes) && i < |nodes| && nodes[i] == item && replacement !in nodes
    modifies parent`child, nodes`next, nodes`prev, replacement`next, replacement`prev
    ensures Linked(parent.child, nodes[i := replacement])
    ensures item.next == null && item.prev == null
  {
    hide Linked, After, Before;
    Distinct(parent.child, nodes);
    LinkReplacement(parent, item, replacement, nodes, i);
    item.next := null;
    item.prev := null;
    LinkedReplaced(parent.child, nodes, i, replacement);
  }

  lemma LinkedReplaced(first: Node?, nodes: seq<Node>, i: nat, x: Node)
    requires i < |nodes| && x !in nodes
    requires first == if i == 0 then x else nodes[0]
    requires x.next == After(nodes, i) && x.prev == Before(nodes, i)
    requires forall k | 0 <= k < |nodes| && k != i :: nodes[k].next == if k + 1 == i then x else After(nodes, k)
    requires forall k | 0 <= k < |nodes| && k != i :: nodes[k].prev == if k == i + 1 then x else Before(nodes, k)
    requires forall j, k | 0 <= j < k < |nodes| :: nodes[j] != nodes[k]
    ensures Linked(first, nodes[i := x])
  {
    var r := nodes[i := x];
    forall k | 0 <= k < |r|
      ensures r[k].next == After(r, k) && r[k].prev == Before(r, k)
    {
      assert r[k] == if k == i then x else nodes[k];
    }
    forall j, k | 0 <= j < k < |r|
      ensures r[j] != r[k]
    {
      assert x != nodes[j] && x != nodes[k];
    }
  }

  lemma Reinserted(nodes: seq<Node>, i: nat)
    requires i < |nodes|
    ensures Inserted(Removed(nodes, i), i, nodes[i]) == nodes
    ensures forall n | n in Removed(nodes, i) :: n in nodes
  {
  }

  method InsertAgain(parent: Node, which: nat, item: Node, ghost nodes: seq<Node>)
    requires which < |nodes| && item == nodes[which] && item !in Removed(nodes, which)
    requires Linked(parent.child, Removed(nodes, which)) && item.next == null && item.prev == null
    modifies parent`child, nodes`next, nodes`prev
    ensures Linked(parent.child, nodes)
  {
    Reinserted(nodes, which);
    assert |Removed(nodes, which)| == |nodes| - 1;
    hide Linked, Removed, Inserted;
    InsertItemInArray(parent, which, item, Removed(nodes, which));
  }

  /** Detaching the item at `which` and inserting it there again restores every link. */
  method DetachAndInsert(parent: Node, which: nat, ghost nodes: seq<Node>)
    requires Linked(parent.child, nodes) && which < |nodes|
    modifies parent`child, nodes`next, nodes`prev
    ensures Linked(parent.child, nodes) && parent.child == old(parent.child)
    ensures forall k | 0 <= k < |nodes| :: nodes[k].next == old(nodes[k].next) && nodes[k].prev == old(nodes[k].prev)
  {
    Reinserted(nodes, which);
    assert |Removed(nodes, which)| == |nodes| - 1;
    var item := DetachItemFromArray(parent, which, nodes);
    InsertAgain(parent, which, item, nodes);
  }
}
