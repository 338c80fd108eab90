/** The value a tree of nodes stands for, and the walk along its lists. */
module NodeValues {
  import opened Bytes
  import opened JsonTree
  import opened Nodes
  import opened Trees
  import opened Duplication

  function TextIn(text: Option<bytes>): bytes {
    if text.Some? then text.value else []
  }

  /** The value of a node. The kinds cJSON_Invalid and cJSON_Raw stand for none; no node of an Exact
      tree has them. */
  function TreeOf(im: Image): Json {
    match im.kind
    case Invalid | IsRaw => Null
    case IsNull => Null
    case IsFalse => False
    case IsTrue => True
    case IsNumber => Number(im.number)
    case IsString => Str(TextIn(im.text))
    case IsArray => Array(ItemsOf(im.kids, NoItems))
    case IsObject => Object(MembersOf(im.kids, NoMembers))
  }

  /** The elements `ims` in front of `tail`. */
  function ItemsOf(ims: seq<Image>, tail: Items): Items {
    if ims == [] then tail
    else ItemsOf(ims[..|ims| - 1], Item(TreeOf(ims[|ims| - 1]), tail))
  }

  function MembersOf(ims: seq<Image>, tail: Members): Members {
    if ims == [] then tail
    else
      var last := ims[|ims| - 1];
      MembersOf(ims[..|ims| - 1], Member(TextIn(last.key), TreeOf(last), tail))
  }

  /** No node of the tree has the kind cJSON_Invalid or cJSON_Raw. */
  ghost predicate Known(im: Image) {
    im.kind != Invalid && im.kind != IsRaw && forall i | 0 <= i < |im.kids| :: Known(im.kids[i])
  }

  // ---------- The nodes of a value ----------

  /** What the nodes of a new tree for `v` say, down to the last field: a string and a name are
      there even when they are empty, and what a kind does not use is as it was cleared. */
  function ImageFor(v: Json, key: Option<bytes>): Image {
    match v
    case Null => Image(IsNull, 0.0, None, key, [])
    case False => Image(IsFalse, 0.0, None, key, [])
    case True => Image(IsTrue, 0.0, None, key, [])
    case Number(x) => Image(IsNumber, x, None, key, [])
    case Str(s) => Image(IsString, 0.0, Some(s), key, [])
    case Array(items) => Image(IsArray, 0.0, None, key, ItemImages(items))
    case Object(members) => Image(IsObject, 0.0, None, key, MemberImages(members))
  }

  /** Elements have no name. */
  function ItemImages(items: Items): seq<Image> {
    match items
    case NoItems => []
    case Item(head, tail) => [ImageFor(head, None)] + ItemImages(tail)
  }

  function MemberImages(members: Members): seq<Image> {
    match members
    case NoMembers => []
    case Member(key, value, rest) => [ImageFor(value, Some(key))] + MemberImages(rest)
  }

  /** The image is the one of its value. */
  ghost predicate Exact(im: Image) {
    im == ImageFor(TreeOf(im), im.key)
  }

  ghost predicate ItemsExact(ims: seq<Image>) {
    forall i | 0 <= i < |ims| :: Exact(ims[i]) && ims[i].key == None
  }

  ghost predicate MembersExact(ims: seq<Image>) {
    forall i | 0 <= i < |ims| :: Exact(ims[i]) && ims[i].key.Some?
  }

  lemma {:induction false} ItemImagesOf(ims: seq<Image>, tail: Items)
    requires ItemsExact(ims)
    ensures ItemImages(ItemsOf(ims, tail)) == ims + ItemImages(tail)
  {
    if ims != [] {
      var front, last := ims[..|ims| - 1], ims[|ims| - 1];
      ItemImagesOf(front, Item(TreeOf(last), tail));
      assert ims == front + [last];
    }
  }

  lemma {:induction false} MemberImagesOf(ims: seq<Image>, tail: Members)
    requires MembersExact(ims)
    ensures MemberImages(MembersOf(ims, tail)) == ims + MemberImages(tail)
  {
    if ims != [] {
      var front, last := ims[..|ims| - 1], ims[|ims| - 1];
      MemberImagesOf(front, Member(TextIn(last.key), TreeOf(last), tail));
      assert ims == front + [last];
    }
  }

  lemma ExactArray(im: Image)
    requires im == Image(IsArray, 0.0, None, im.key, im.kids) && ItemsExact(im.kids)
    ensures Exact(im)
  {
    ItemImagesOf(im.kids, NoItems);
    assert im.kids + [] == im.kids;
  }

  lemma ExactObject(im: Image)
    requires im == Image(IsObject, 0.0, None, im.key, im.kids) && MembersExact(im.kids)
    ensures Exact(im)
  {
    MemberImagesOf(im.kids, NoMembers);
    assert im.kids + [] == im.kids;
  }

  /** The nodes for a value stand for the value, and every kind is known. */
  lemma {:induction false} ImageForStands(v: Json, key: Option<bytes>)
    ensures var im := ImageFor(v, key); TreeOf(im) == v && Known(im) && im.key == key && Exact(im)
    decreases v
  {
    match v
    case Array(items) => ItemImagesStand(items);
    case Object(members) => MemberImagesStand(members);
    case Null =>
    case False =>
    case True =>
    case Number(_) =>
    case Str(_) =>
  }

  lemma {:induction false} ItemImagesStand(items: Items)
    ensures ItemsOf(ItemImages(items), NoItems) == items
    ensures forall i | 0 <= i < |ItemImages(items)| :: Known(ItemImages(items)[i])
    decreases items
  {
    if items.Item? {
      ImageForStands(items.head, None);
      ItemImagesStand(items.tail);
      ItemsFromFront(ItemImages(items), NoItems);
      assert ItemImages(items)[1..] == ItemImages(items.tail);
    }
  }

  lemma {:induction false} MemberImagesStand(members: Members)
    ensures MembersOf(MemberImages(members), NoMembers) == members
    ensures forall i | 0 <= i < |MemberImages(members)| :: Known(MemberImages(members)[i])
    decreases members
  {
    if members.Member? {
      ImageForStands(members.value, Some(members.key));
      MemberImagesStand(members.rest);
      MembersFromFront(MemberImages(members), NoMembers);
      assert MemberImages(members)[1..] == MemberImages(members.rest);
    }
  }

  // ---------- The lists from their front ----------

  lemma {:induction false} ItemsFromFront(ims: seq<Image>, tail: Items)
    requires ims != []
    ensures ItemsOf(ims, tail) == Item(TreeOf(ims[0]), ItemsOf(ims[1..], tail))
  {
    if |ims| > 1 {
      var front, more := ims[..|ims| - 1], Item(TreeOf(ims[|ims| - 1]), tail);
      ItemsFromFront(front, more);
      assert front[1..] == ims[1..][..|ims| - 2];
    }
  }

  lemma {:induction false} MembersFromFront(ims: seq<Image>, tail: Members)
    requires ims != []
    ensures MembersOf(ims, tail) == Member(TextIn(ims[0].key), TreeOf(ims[0]), MembersOf(ims[1..], tail))
  {
    if |ims| > 1 {
      var front, last := ims[..|ims| - 1], ims[|ims| - 1];
      MembersFromFront(front, Member(TextIn(last.key), TreeOf(last), tail));
      assert front[1..] == ims[1..][..|ims| - 2];
    }
  }

  // ---------- Nodes that say something ----------

  /** The node heads a well-formed tree of known kinds that stands for `v`. */
  ghost predicate Says(item: Node, s: Shape, v: Json)
    reads NodeSet(s), NodeSets(s.kids), TextSet(s)
  {
    s.node == item && Shaped(s) && Readable(s) && Known(ImageOf(s)) && TreeOf(ImageOf(s)) == v
  }

  /** `current` is the element at `i` of a well-formed list, or null behind its end. */
  ghost predicate Walking(head: Node?, l: seq<Shape>, i: nat, current: Node?)
    reads NodesOf(l), NodeSets(l), Inner(l), TextSets(l)
  {
    && Linked(head, NodesOf(l)) && AllShaped(l) && AllReadable(l) && (forall im | im in Images(l) :: Known(im))
    && i <= |l| && current == if i < |l| then l[i].node else null
  }

  ghost predicate ItemsSay(head: Node?, l: seq<Shape>, i: nat, current: Node?, items: Items)
    reads NodesOf(l), NodeSets(l), Inner(l), TextSets(l)
  {
    Walking(head, l, i, current) && ItemsOf(Images(l)[i..], NoItems) == items
  }

  ghost predicate MembersSay(head: Node?, l: seq<Shape>, i: nat, current: Node?, members: Members)
    reads NodesOf(l), NodeSets(l), Inner(l), TextSets(l)
  {
    Walking(head, l, i, current) && MembersOf(Images(l)[i..], NoMembers) == members
  }

  lemma {:induction false} TextsAt(l: seq<Shape>, i: nat)
    requires i < |l|
    ensures TextSet(l[i]) <= TextSets(l)
  {
    if i < |l| - 1 {
      TextsAt(l[..|l| - 1], i);
    }
  }

  lemma WalkStep(head: Node?, l: seq<Shape>, i: nat, current: Node?)
    requires Walking(head, l, i, current)
    ensures i <= |l| && (i == |l| <==> current == null)
    ensures i < |l| ==>
              && Says(current, l[i], TreeOf(Images(l)[i])) && Walking(head, l, i + 1, current.next)
                  && TextSet(l[i]) <= TextSets(l)
              && current.name == l[i].key && HasEnd(l[i].key) && Images(l)[i].key == TextOf(l[i].key)
                  && Strings(l[i].key) <= TextSets(l)
  {
    if i < |l| {
      ShapedAt(l, i);
      ReadableAt(l, i);
      ImagesAt(l, i);
      NextInList(head, l, i);
      TextsAt(l, i);
      assert Images(l)[i] in Images(l);
    }
  }

  lemma ItemsStep(head: Node?, l: seq<Shape>, i: nat, current: Node?, items: Items)
    requires ItemsSay(head, l, i, current, items)
    ensures current == null <==> items == NoItems
    ensures current != null ==>
              && i < |l| && items.Item? && Says(current, l[i], items.head) && TextSet(l[i]) <= TextSets(l)
              && ItemsSay(head, l, i + 1, current.next, items.tail)
              && (current.next == null <==> items.tail == NoItems)
  {
    hide Walking, Says;
    WalkStep(head, l, i, current);
    if i < |l| {
      var ims := Images(l)[i..];
      ItemsFromFront(ims, NoItems);
      assert ims[1..] == Images(l)[i + 1..];
      WalkStep(head, l, i + 1, current.next);
      if i + 1 < |l| {
        ItemsFromFront(ims[1..], NoItems);
      }
    }
  }

  lemma MembersStep(head: Node?, l: seq<Shape>, i: nat, current: Node?, members: Members)
    requires MembersSay(head, l, i, current, members)
    ensures current == null <==> members == NoMembers
    ensures current != null ==>
              && i < |l| && members.Member? && Says(current, l[i], members.value) && TextSet(l[i]) <= TextSets(l)
              && HasEnd(current.name) && members.key == TextIn(TextOf(current.name))
                  && Strings(current.name) <= TextSets(l)
              && MembersSay(head, l, i + 1, current.next, members.rest)
              && (current.next == null <==> members.rest == NoMembers)
  {
    hide Walking, Says;
    WalkStep(head, l, i, current);
    if i < |l| {
      var ims := Images(l)[i..];
      MembersFromFront(ims, NoMembers);
      assert ims[1..] == Images(l)[i + 1..];
      WalkStep(head, l, i + 1, current.next);
      if i + 1 < |l| {
        MembersFromFront(ims[1..], NoMembers);
      }
    }
  }

  /** What a node says, by its kind. */
  lemma Opened(item: Node, s: Shape, v: Json)
    requires Says(item, s, v)
    ensures item.kind != Invalid && item.kind != IsRaw
    ensures TextSets(s.kids) <= TextSet(s) && Strings(item.valuestring) <= TextSet(s)
    ensures item.kind == IsNull ==> v == Null
    ensures item.kind == IsFalse ==> v == False
    ensures item.kind == IsTrue ==> v == True
    ensures item.kind == IsNumber ==> v == Number(item.valuedouble)
    ensures item.kind == IsString ==> HasEnd(item.valuestring) && v == Str(TextIn(TextOf(item.valuestring)))
    ensures item.kind == IsArray ==> v.Array? && ItemsSay(item.child, s.kids, 0, item.child, v.items)
    ensures item.kind == IsObject ==> v.Object? && MembersSay(item.child, s.kids, 0, item.child, v.members)
  {
    HeadOfList(item.child, s.kids);
    assert Images(s.kids)[0..] == Images(s.kids);
    forall im | im in Images(s.kids)
      ensures Known(im)
    {
      var i :| 0 <= i < |Images(s.kids)| && Images(s.kids)[i] == im;
      assert Known(ImageOf(s).kids[i]);
    }
  }
}
