/** cJSON_Duplicate: a deep copy in fresh blocks, or nothing at all. */
module Duplication {
  import opened Bytes
  import opened Nodes
  import opened Trees

  /** All a tree says: the kind, the values and the names of its nodes, and their order. */
  datatype Image = Image(kind: Kind, number: real, text: Option<bytes>, key: Option<bytes>, kids: seq<Image>)

  ghost function TextOf(a: array?<byte>): Option<bytes>
    reads a
  {
    if a == null then None else Some(CString(a[..]))
  }

  ghost function ImageOf(s: Shape): Image
    reads NodeSet(s)`kind, NodeSet(s)`valuedouble, TextSet(s)
  {
    Image(s.node.kind, s.node.valuedouble, TextOf(s.text), TextOf(s.key), Images(s.kids))
  }

  ghost function Images(l: seq<Shape>): (r: seq<Image>)
    reads NodeSets(l)`kind, NodeSets(l)`valuedouble, TextSets(l)
    ensures |r| == |l|
  {
    if l == [] then [] else Images(l[..|l| - 1]) + [ImageOf(l[|l| - 1])]
  }

  ghost predicate HasEnd(a: array?<byte>)
    reads a
  {
    a != null ==> NUL in a[..]
  }

  /** The strings of the tree are C strings. */
  ghost predicate Readable(s: Shape)
    reads TextSet(s)
  {
    HasEnd(s.text) && HasEnd(s.key) && AllReadable(s.kids)
  }

  ghost predicate AllReadable(l: seq<Shape>)
    reads TextSets(l)
  {
    l == [] || (AllReadable(l[..|l| - 1]) && Readable(l[|l| - 1]))
  }

  // ---------- One element ----------

  lemma {:induction false} ReadableAt(l: seq<Shape>, i: nat)
    requires AllReadable(l) && i < |l|
    ensures Readable(l[i])
  {
    if i < |l| - 1 {
      ReadableAt(l[..|l| - 1], i);
    }
  }

  lemma {:induction false} ImagesAt(l: seq<Shape>, i: nat)
    requires i < |l|
    ensures Images(l)[i] == ImageOf(l[i])
  {
    if i < |l| - 1 {
      ImagesAt(l[..|l| - 1], i);
    }
  }

  // ---------- Strings ----------

  lemma {:induction false} CStringLength(s: bytes)
    requires NUL in s
    ensures |CString(s)| < |s| && s[|CString(s)|] == NUL
  {
    if s[0] != NUL {
      CStringLength(s[1..]);
    }
  }

  /** cJSON_strdup */
  method StrDup(heap: Heap, a: array?<byte>) returns (b: array?<byte>)
    requires HasEnd(a)
    modifies heap
    ensures a == null ==> b == null && heap.refused == old(heap.refused)
    ensures b == null ==> heap.live == old(heap.live) && (a != null ==> heap.refused)
    ensures b != null ==> fresh(b) && heap.live == old(heap.live) + {b} && heap.refused == old(heap.refused)
    ensures b != null ==> TextOf(b) == TextOf(a) && HasEnd(b)
  {
    if a == null {
      return null;
    }
    CStringLength(a[..]);
    var length := 0;
    while a[length] != NUL
      invariant length <= |CString(a[..])|
      decreases |CString(a[..])| - length
    {
      assert length != |CString(a[..])|;
      length := length + 1;
    }
    ghost var text := a[..][..length];
    PrefixIsCString(a[..], length);
    b := heap.Allocate(length + 1);
    if b == null {
      return;
    }
    forall i | 0 <= i <= length {
      b[i] := a[i];
    }
    assert b[..] == text + [NUL] + [];
    CStringPrefix(text, []);
    assert b[length] == NUL;
  }

  /** strlen finds the C string. */
  lemma {:induction false} PrefixIsCString(s: bytes, n: nat)
    requires n <= |CString(s)| && n < |s| && s[n] == NUL
    ensures s[..n] == CString(s)
  {
    if s[0] != NUL {
      PrefixIsCString(s[1..], n - 1);
      assert s[..n] == [s[0]] + s[1..][..n - 1];
    }
  }

  // ---------- One node ----------

  /** A tree that owns all it consists of, except for names that are constant. */
  ghost predicate Whole(c: Shape)
    reads NodeSet(c), NodeSets(c.kids), TextSet(c)
  {
    Shaped(c) && Separate(c) && NoReference(c) && Readable(c)
  }

  /** A list of such trees, with its head. */
  ghost predicate Built(head: Node?, l: seq<Shape>)
    reads NodesOf(l), NodeSets(l), Inner(l), TextSets(l)
  {
    Linked(head, NodesOf(l)) && AllShaped(l) && AllSeparate(l) && AllNoReference(l) && AllReadable(l)
  }

  /** The copy marks the same names as constant as the original, and shares the constant ones. */
  ghost predicate NamesLike(c: Shape, s: Shape) {
    && c.constKey == s.constKey && (c.constKey ==> c.key == s.key)
    && AllNamesLike(c.kids, s.kids)
  }

  ghost predicate AllNamesLike(l: seq<Shape>, kids: seq<Shape>) {
    |l| == |kids| &&
    (l == [] ||
     (AllNamesLike(l[..|l| - 1], kids[..|l| - 1]) && NamesLike(l[|l| - 1], kids[|l| - 1])))
  }

  lemma OneMoreName(l: seq<Shape>, kids: seq<Shape>, i: nat, c: Shape)
    requires i < |kids| && AllNamesLike(l, kids[..i]) && NamesLike(c, kids[i])
    ensures AllNamesLike(l + [c], kids[..i + 1])
  {
    assert (l + [c])[..i] == l && kids[..i + 1][..i] == kids[..i];
  }

  /** The names that are not owned. */
  ghost function ConstantNames(s: Shape): set<array<byte>> {
    (if s.constKey then Strings(s.key) else {}) + AllConstantNames(s.kids)
  }

  ghost function AllConstantNames(l: seq<Shape>): set<array<byte>> {
    if l == [] then {} else AllConstantNames(l[..|l| - 1]) + ConstantNames(l[|l| - 1])
  }

  /** A copy without references consists of its own blocks and of constant names of the original. */
  lemma {:induction false} SharesConstantNames(c: Shape, s: Shape)
    requires NoReference(c) && NamesLike(c, s)
    ensures NodeSet(c) + TextSet(c) == Blocks(c) + ConstantNames(s)
  {
    KidsShareConstantNames(c.kids, s.kids);
  }

  lemma {:induction false} KidsShareConstantNames(l: seq<Shape>, kids: seq<Shape>)
    requires AllNoReference(l) && AllNamesLike(l, kids)
    ensures NodeSets(l) + TextSets(l) == AllBlocks(l) + AllConstantNames(kids)
  {
    if l != [] {
      KidsShareConstantNames(l[..|l| - 1], kids[..|l| - 1]);
      SharesConstantNames(l[|l| - 1], kids[|l| - 1]);
    }
  }

  /** A copied node that has no children yet, made of blocks allocated since the ledger was `live`. */
  ghost predicate Bare(heap: Heap, live: set<object>, c: Shape)
    reads heap, c.node, Strings(c.text), Strings(c.key)
  {
    && c.kids == [] && !c.reference && c.node.child == null && c.node.next == null && c.node.prev == null
    && !c.node.isReference && c.node.stringIsConst == c.constKey
    && c.node.valuestring == c.text && c.node.name == c.key
    && HasEnd(c.text) && HasEnd(c.key)
    && Strings(c.text) !! Strings(c.key)
    && heap.live == live + Blocks(c)
  }

  lemma BareShaped(heap: Heap, live: set<object>, c: Shape)
    requires Bare(heap, live, c)
    ensures Shaped(c) && Separate(c) && Blocks(c) <= heap.live && c.node.next == null && c.node.prev == null
    ensures live !! Blocks(c) ==> heap.live - Blocks(c) == live
  {
  }

  /** The node with its plain fields and its value string. */
  method DuplicateValue(heap: Heap, item: Node) returns (copy: Node?, ghost c: Shape)
    requires HasEnd(item.valuestring)
    modifies heap
    ensures copy == null ==> heap.live == old(heap.live) && heap.refused
    ensures copy != null ==>
            Bare(heap, old(heap.live), c) && c == Shape(copy, false, item.stringIsConst, copy.valuestring, null, [])
    ensures copy != null ==>
            copy.kind == item.kind && copy.valuedouble == item.valuedouble && TextOf(c.text) == TextOf(item.valuestring)
    ensures copy != null ==> fresh(Blocks(c)) && heap.refused == old(heap.refused)
  {
    copy := heap.NewItem();
    c := Shape(item, false, false, null, null, []);
    if copy == null {
      return;
    }
    copy.kind := item.kind;
    copy.stringIsConst := item.stringIsConst;
    copy.valuedouble := item.valuedouble;
    copy.valuestring := StrDup(heap, item.valuestring);
    c := Shape(copy, false, item.stringIsConst, copy.valuestring, null, []);
    assert Blocks(c) == {copy} + Strings(copy.valuestring);
    if item.valuestring != null && copy.valuestring == null {
      Discard(heap, copy, c, old(heap.live));
      copy := null;
    }
  }

  /** The node and its strings; a refused allocation frees what there is already. */
  method DuplicateNode(heap: Heap, item: Node) returns (copy: Node?, ghost c: Shape)
    requires HasEnd(item.valuestring) && HasEnd(item.name)
    modifies heap
    ensures copy == null ==> heap.live == old(heap.live) && heap.refused
    ensures copy != null ==>
            Bare(heap, old(heap.live), c)
                && c == Shape(copy, false, item.stringIsConst, copy.valuestring, copy.name, [])
    ensures copy != null ==> copy.kind == item.kind && copy.valuedouble == item.valuedouble
    ensures copy != null && item.stringIsConst ==> copy.name == item.name
    ensures copy != null ==> TextOf(c.text) == TextOf(item.valuestring) && TextOf(c.key) == TextOf(item.name)
    ensures copy != null ==> fresh(Blocks(c)) && heap.refused == old(heap.refused)
  {
    copy, c := DuplicateValue(heap, item);
    if copy == null || item.name == null {
      return;
    }
    ghost var held := Blocks(c);
    if item.stringIsConst {
      copy.name := item.name;
      c := Shape(copy, false, item.stringIsConst, copy.valuestring, copy.name, []);
      assert Blocks(c) == held;
    } else {
      copy.name := StrDup(heap, item.name);
      if copy.name == null {
        Discard(heap, copy, c, old(heap.live));
        copy := null;
      } else {
        c := Shape(copy, false, item.stringIsConst, copy.valuestring, copy.name, []);
        assert Blocks(c) == held + {copy.name};
      }
    }
  }

  /** The exit of a failed copy. */
  method Discard(heap: Heap, item: Node, ghost c: Shape, ghost live: set<object>)
    requires item == c.node && Bare(heap, live, c) && live !! Blocks(c)
    modifies heap`live
    ensures heap.live == live
  {
    hide *;
    BareShaped(heap, live, c);
    ListOfOne(c);
    Delete(heap, item, [c]);
  }

  // ---------- The whole tree ----------

  /** The children of a node that is being copied. */
  ghost predicate Source(child: Node?, kids: seq<Shape>)
    reads NodesOf(kids), NodeSets(kids), Inner(kids), TextSets(kids)
  {
    Linked(child, NodesOf(kids)) && AllShaped(kids) && AllReadable(kids)
  }

  lemma ExtendedImages(l: seq<Shape>, c: Shape)
    ensures Images(l + [c]) == Images(l) + [ImageOf(c)]
    ensures AllReadable(l + [c]) <==> AllReadable(l) && Readable(c)
  {
    assert (l + [c])[..|l|] == l;
  }

  /** cJSON_Duplicate: the copy says what the original says (the node alone, when it is not
      recursive), consists of fresh blocks and of the constant names of the original, has no
      reference in it, and is in no list. When an
      allocation is refused, everything allocated for the copy has been freed again. */
  method Duplicate(heap: Heap, item: Node?, recurse: bool, ghost s: Shape) returns (copy: Node?, ghost c: Shape)
    requires item != null ==> s.node == item && Shaped(s) && Readable(s)
    modifies heap
    ensures copy == null ==> heap.live == old(heap.live) && (item == null || heap.refused)
    ensures copy != null ==> item != null && c.node == copy && copy.next == null && copy.prev == null
    ensures copy != null ==> Whole(c) && fresh(Blocks(c)) && heap.live == old(heap.live) + Blocks(c)
    ensures copy != null ==> heap.refused == old(heap.refused)
    ensures copy != null ==> ImageOf(c) == if recurse then ImageOf(s) else ImageOf(s).(kids := [])
    ensures copy != null ==> NamesLike(c, if recurse then s else s.(kids := []))
    decreases s, 1
  {
    hide *;
    copy, c := null, s;
    if item != null {
      copy, c := DuplicateItem(heap, item, recurse, s);
    }
  }

  /** The same for a pointer that is not null. */
  method DuplicateItem(heap: Heap, item: Node, recurse: bool, ghost s: Shape) returns (copy: Node?, ghost c: Shape)
    requires s.node == item && Shaped(s) && Readable(s)
    modifies heap
    ensures copy == null ==> heap.live == old(heap.live) && heap.refused
    ensures copy != null ==> c.node == copy && copy.next == null && copy.prev == null
    ensures copy != null ==> Whole(c) && fresh(Blocks(c)) && heap.live == old(heap.live) + Blocks(c)
    ensures copy != null ==> heap.refused == old(heap.refused)
    ensures copy != null ==> ImageOf(c) == if recurse then ImageOf(s) else ImageOf(s).(kids := [])
    ensures copy != null ==> NamesLike(c, if recurse then s else s.(kids := []))
    decreases s, 0
  {
    hide Linked, NodesOf, NodeSet, NodeSets, Inner, TextSet, TextSets, Blocks, AllBlocks, ImageOf, Images;
    hide Separate, AllSeparate, Shaped, AllShaped, NoReference, AllNoReference, Readable, AllReadable, Bare, Whole;
    hide Source, NamesLike, AllNamesLike;
    ShapeFields(s);
    Allocated(s);
    AllAllocated(s.kids);
    copy, c := DuplicateNode(heap, item);
    if copy == null {
      return;
    }
    BareWhole(heap, old(heap.live), c);
    assert old(heap.live) !! Blocks(c);
    NoNames();
    if recurse {
      copy, c := WithChildren(heap, copy, item.child, c, s.kids, old(heap.live));
    }
    if copy != null {
      NamesOfNode(c, if recurse then s else s.(kids := []));
    }
  }

  lemma NoNames()
    ensures AllNamesLike([], [])
  {
  }

  lemma NamesOfNode(c: Shape, s: Shape)
    requires c.constKey == s.constKey && (c.constKey ==> c.key == s.key) && AllNamesLike(c.kids, s.kids)
    ensures NamesLike(c, s)
  {
  }

  lemma ShapeFields(s: Shape)
    requires Shaped(s) && Readable(s)
    ensures s.node.stringIsConst == s.constKey
    ensures s.node.valuestring == s.text && s.node.name == s.key && HasEnd(s.text) && HasEnd(s.key)
    ensures Source(s.node.child, s.kids)
    ensures ImageOf(s) == Image(s.node.kind, s.node.valuedouble, TextOf(s.text), TextOf(s.key), Images(s.kids))
    ensures NodeSets(s.kids) <= NodeSet(s)
  {
  }

  lemma BareWhole(heap: Heap, live: set<object>, c: Shape)
    requires Bare(heap, live, c)
    ensures Whole(c) && c.node in Blocks(c) && c.kids == []
    ensures c.node.next == null && c.node.prev == null && heap.live == live + Blocks(c)
    ensures ImageOf(c) == Image(c.node.kind, c.node.valuedouble, TextOf(c.text), TextOf(c.key), [])
  {
  }

  /** A node without children takes over a list. */
  lemma Adopted(c: Shape)
    requires !c.reference && !c.node.isReference && c.node.stringIsConst == c.constKey
    requires c.node.valuestring == c.text && c.node.name == c.key
    requires HasEnd(c.text) && HasEnd(c.key) && Strings(c.text) !! Strings(c.key)
    requires Built(c.node.child, c.kids)
    requires c.node !in AllBlocks(c.kids) && Strings(c.text) !! AllBlocks(c.kids) && Strings(c.key) !! AllBlocks(c.kids)
    ensures Whole(c) && Blocks(c) == Blocks(c.(kids := [])) + AllBlocks(c.kids)
    ensures ImageOf(c) == Image(c.node.kind, c.node.valuedouble, TextOf(c.text), TextOf(c.key), Images(c.kids))
  {
  }

  /** The children of a copied node. */
  method WithChildren(heap: Heap, node: Node, child: Node?, ghost bare: Shape, ghost kids: seq<Shape>,
      ghost live: set<object>)
    returns (copy: Node?, ghost c: Shape)
    requires node == bare.node && Bare(heap, live, bare) && live !! Blocks(bare)
    requires Source(child, kids) && node !in NodeSets(kids)
    modifies heap, node`child
    ensures copy == null ==> heap.live == live && heap.refused
    ensures copy != null ==> copy == node && c.node == copy && Whole(c) && copy.next == null && copy.prev == null
    ensures copy != null ==>
            fresh(Blocks(c) - Blocks(bare)) && heap.live == live + Blocks(c) && heap.refused == old(heap.refused)
    ensures copy != null ==> ImageOf(c) == old(ImageOf(bare).(kids := Images(kids)))
    ensures copy != null ==> c == bare.(kids := c.kids) && AllNamesLike(c.kids, kids)
    decreases kids, 3
  {
    hide Linked, NodesOf, NodeSet, NodeSets, Inner, TextSet, TextSets, Blocks, AllBlocks, ImageOf, Images;
    hide Separate, AllSeparate, Shaped, AllShaped, NoReference, AllNoReference, Readable, AllReadable;
    hide NamesLike, AllNamesLike;
    BareWhole(heap, live, bare);
    AllAllocated(kids);
    ghost var l;
    var ok;
    ok, l := DuplicateChildren(heap, node, child, kids);
    copy := node;
    c := bare.(kids := l);
    Adopted(c);
    if !ok {
      ListOfOne(c);
      Delete(heap, node, [c]);
      copy := null;
    }
  }

  lemma SourceAt(child: Node?, kids: seq<Shape>, i: nat)
    requires Source(child, kids) && i < |kids|
    ensures Shaped(kids[i]) && Readable(kids[i]) && Images(kids)[i] == ImageOf(kids[i])
    ensures kids[i].node.next == if i + 1 < |kids| then kids[i + 1].node else null
  {
    ShapedAt(kids, i);
    ReadableAt(kids, i);
    ImagesAt(kids, i);
    NextInList(child, kids, i);
  }

  lemma BuiltOwned(head: Node?, l: seq<Shape>)
    requires Built(head, l)
    ensures forall n | n in NodeSets(l) :: n in AllBlocks(l)
    ensures l != [] ==> l[|l| - 1].node in AllBlocks(l)
  {
    AllNodesOwned(l);
    if l != [] {
      assert l[|l| - 1].node in NodeSets(l);
    }
  }

  lemma NothingBuilt()
    ensures Built(null, []) && AllBlocks([]) == {} && Images([]) == [] && NodesOf([]) == []
  {
  }

  /** The first `i` children are copied in `l`; `live` and `images` are from before the loop. */
  ghost predicate Underway(heap: Heap, copy: Node, child: Node?, kids: seq<Shape>, i: nat, l: seq<Shape>,
      live: set<object>, images: seq<Image>)
    reads heap, copy, NodesOf(kids), NodeSets(kids), Inner(kids), TextSets(kids), NodesOf(l), NodeSets(l), Inner(l),
        TextSets(l)
  {
    && i <= |kids| == |images| && |l| == i
    && Source(child, kids) && Images(kids) == images
    && Built(copy.child, l) && Images(l) == images[..i] && AllNamesLike(l, kids[..i])
    && heap.live == live + AllBlocks(l)
    && copy !in NodeSets(kids) && copy !in AllBlocks(l)
  }

  lemma NothingCopied(heap: Heap, copy: Node, child: Node?, kids: seq<Shape>)
    requires Source(child, kids) && copy.child == null && copy !in NodeSets(kids)
    ensures Underway(heap, copy, child, kids, 0, [], heap.live, Images(kids))
    ensures child == if kids == [] then null else kids[0].node
    ensures AllBlocks([]) == {}
  {
    NothingBuilt();
    HeadOfList(child, kids);
  }

  lemma LastOwned(heap: Heap, copy: Node, child: Node?, kids: seq<Shape>, i: nat, l: seq<Shape>, live: set<object>,
      images: seq<Image>, last: Node?)
    requires Underway(heap, copy, child, kids, i, l, live, images) && last == if l == [] then null else l[|l| - 1].node
    ensures forall n | n in Only(last) :: n in AllBlocks(l)
  {
    BuiltOwned(copy.child, l);
  }

  lemma AllCopied(heap: Heap, copy: Node, child: Node?, kids: seq<Shape>, l: seq<Shape>, live: set<object>,
      images: seq<Image>)
    requires Underway(heap, copy, child, kids, |kids|, l, live, images)
    ensures Images(l) == images && Built(copy.child, l) && heap.live == live + AllBlocks(l) && AllNamesLike(l, kids)
  {
    assert kids[..|kids|] == kids;
  }

  /** The loop over the children. When it fails, the ones copied so far are in `l`. */
  method DuplicateChildren(heap: Heap, copy: Node, child: Node?, ghost kids: seq<Shape>)
    returns (ok: bool, ghost l: seq<Shape>)
    requires Source(child, kids)
    requires copy.child == null && copy !in NodeSets(kids)
    modifies heap, copy`child
    ensures Built(copy.child, l) && fresh(AllBlocks(l)) && heap.live == old(heap.live) + AllBlocks(l)
    ensures ok ==> heap.refused == old(heap.refused) && Images(l) == old(Images(kids)) && AllNamesLike(l, kids)
    ensures !ok ==> heap.refused
    decreases kids, 2
  {
    hide *;
    l := [];
    ok := true;
    var last: Node? := null;
    var current := child;
    ghost var i := 0;
    AllAllocated(kids);
    NothingCopied(heap, copy, child, kids);
    while current != null
      invariant 0 <= i <= |kids| && |l| == i
      invariant current == if i < |kids| then kids[i].node else null
      invariant last == if l == [] then null else l[|l| - 1].node
      invariant fresh(AllBlocks(l)) && heap.refused == old(heap.refused)
      invariant Underway(heap, copy, child, kids, i, l, old(heap.live), old(Images(kids)))
      decreases |kids| - i
    {
      LastOwned(heap, copy, child, kids, i, l, old(heap.live), old(Images(kids)), last);
      ok, last, current, l := ChildTurn(heap, copy, child, current, last, kids, i, l, old(heap.live),
          old(Images(kids)));
      if !ok {
        return;
      }
      i := i + 1;
    }
    AllCopied(heap, copy, child, kids, l, old(heap.live), old(Images(kids)));
  }

  lemma UnderwayParts(heap: Heap, copy: Node, child: Node?, kids: seq<Shape>, i: nat, l: seq<Shape>,
      live: set<object>, images: seq<Image>)
    requires Underway(heap, copy, child, kids, i, l, live, images)
    ensures i <= |kids| == |images| && |l| == i && Source(child, kids) && Images(kids) == images
    ensures Built(copy.child, l) && Images(l) == images[..i] && AllNamesLike(l, kids[..i])
    ensures heap.live == live + AllBlocks(l) && copy !in NodeSets(kids) && copy !in AllBlocks(l)
    ensures copy !in NodeSets(l) && (l != [] ==> l[|l| - 1].node in AllBlocks(l))
  {
    BuiltOwned(copy.child, l);
  }

  lemma UnderwayMore(heap: Heap, copy: Node, child: Node?, kids: seq<Shape>, i: nat, l: seq<Shape>,
      live: set<object>, images: seq<Image>)
    requires i <= |kids| == |images| && |l| == i && Source(child, kids) && Images(kids) == images
    requires Built(copy.child, l) && Images(l) == images[..i] && AllNamesLike(l, kids[..i])
    requires heap.live == live + AllBlocks(l) && copy !in NodeSets(kids) && copy !in AllBlocks(l)
    ensures Underway(heap, copy, child, kids, i, l, live, images)
  {
  }

  /** One turn of that loop. */
  method ChildTurn(heap: Heap, copy: Node, ghost child: Node?, current: Node, last: Node?, ghost kids: seq<Shape>,
      ghost i: nat,
                   ghost l: seq<Shape>, ghost live: set<object>, ghost images: seq<Image>)
    returns (ok: bool, newLast: Node?, next: Node?, ghost l': seq<Shape>)
    requires Underway(heap, copy, child, kids, i, l, live, images) && i < |kids| && current == kids[i].node
    requires last == if l == [] then null else l[|l| - 1].node
    requires forall n | n in NodesOf(kids) || n in NodeSets(kids) || n in Inner(kids) :: n !in AllBlocks(l)
    modifies heap, copy`child, Only(last)`next
    ensures fresh(AllBlocks(l') - AllBlocks(l))
    ensures Built(copy.child, l') && heap.live == live + AllBlocks(l')
    ensures !ok ==> heap.refused
    ensures ok ==> heap.refused == old(heap.refused) && |l'| == i + 1 && newLast == l'[i].node
    ensures ok ==> next == if i + 1 < |kids| then kids[i + 1].node else null
    ensures ok ==> Underway(heap, copy, child, kids, i + 1, l', live, images)
    decreases kids, 1
  {
    hide Linked, NodesOf, NodeSet, NodeSets, Inner, TextSet, TextSets, Blocks, AllBlocks, ImageOf, Images;
    hide Separate, AllSeparate, Shaped, AllShaped, NoReference, AllNoReference, Readable, AllReadable, Source, Built;
    hide NamesLike, AllNamesLike, Underway;
    AllAllocated(kids);
    UnderwayParts(heap, copy, child, kids, i, l, live, images);
    SourceAt(child, kids, i);
    ghost var c;
    newLast, l', c := DuplicateNext(heap, copy, current, last, l, kids[i]);
    if newLast != null {
      OneMoreName(l, kids, i, c);
      assert images[..i] + [images[i]] == images[..i + 1];
      UnderwayMore(heap, copy, child, kids, i + 1, l', live, images);
    }
    ok := newLast != null;
    next := current.next;
  }

  /** One child: a copy of `k` becomes the last of the list under `copy`. */
  method DuplicateNext(heap: Heap, copy: Node, current: Node, last: Node?, ghost l: seq<Shape>, ghost k: Shape)
    returns (newLast: Node?, ghost l': seq<Shape>, ghost c: Shape)
    requires Built(copy.child, l) && last == if l == [] then null else l[|l| - 1].node
    requires current == k.node && Shaped(k) && Readable(k)
    requires copy !in NodeSets(l)
    modifies heap, copy`child, Only(last)`next
    ensures Built(copy.child, l')
    ensures newLast == null ==> l' == l && heap.refused && heap.live == old(heap.live)
    ensures newLast != null ==> l' == l + [c] && newLast == c.node && fresh(Blocks(c)) && NamesLike(c, k)
    ensures newLast != null ==> AllBlocks(l') == AllBlocks(l) + Blocks(c)
    ensures newLast != null ==> heap.live == old(heap.live) + Blocks(c) && heap.refused == old(heap.refused)
    ensures newLast != null ==> Images(l') == old(Images(l) + [ImageOf(k)])
    decreases k, 2
  {
    hide Linked, NodesOf, NodeSet, NodeSets, Inner, TextSet, TextSets, Blocks, AllBlocks, ImageOf, Images;
    hide Separate, AllSeparate, Shaped, AllShaped, NoReference, AllNoReference, Readable, AllReadable;
    hide NamesLike, AllNamesLike;
    l' := l;
    AllAllocated(l);
    Allocated(k);
    newLast, c := Duplicate(heap, current, true, k);
    if newLast == null {
      return;
    }
    Allocated(c);
    AllAllocated(c.kids);
    NodesOwned(c);
    var head := AttachLast(copy.child, last, newLast, l, c);
    Extended(l, c);
    ExtendedImages(l, c);
    l' := l + [c];
    AllAllocated(l');
    if last == null {
      copy.child := head;
    }
  }
}
