/** cJSON_Compare and get_object_item on nodes. Two trees may share nodes: then a node is equal to
    itself without a look at what it says. */
module NodeComparison {
  import opened Bytes
  import opened Nodes
  import opened Trees
  import opened Duplication
  import opened Comparison

  // ---------- What it decides when nodes are shared ----------

  /** The shape that goes with the image at `i`. */
  function Kid(s: Shape, i: nat): Shape {
    if i < |s.kids| then s.kids[i] else s
  }

  /** cJSON_Compare on two nodes that say `a` and `b`: what Same asks, unless the nodes are one. */
  ghost predicate SameNodes(s: Shape, a: Image, t: Shape, b: Image, caseSensitive: bool)
    decreases Weight(a) + Weight(b)
  {
    KidsWeigh(a);
    KidsWeigh(b);
    && a.kind == b.kind && a.kind != Invalid
    && (|| s.node == t.node
        || (match a.kind
            case IsNumber => a.number == b.number
            case IsString | IsRaw => a.text.Some? && b.text == a.text
            case IsArray =>
              && |a.kids| == |b.kids|
              && (forall i | 0 <= i < |a.kids| :: SameNodes(Kid(s, i), a.kids[i], Kid(t, i), b.kids[i], caseSensitive))
            case IsObject =>
              && (forall i | 0 <= i < |a.kids| ::
                    var j := Lookup(b.kids, a.kids[i].key, caseSensitive);
                    j < |b.kids| && SameNodes(Kid(s, i), a.kids[i], Kid(t, j), b.kids[j], caseSensitive))
              && (forall j | 0 <= j < |b.kids| ::
                    var i := Lookup(a.kids, b.kids[j].key, caseSensitive);
                    i < |a.kids| && SameNodes(Kid(t, j), b.kids[j], Kid(s, i), a.kids[i], caseSensitive))
            case _ => true))
  }

  /** Half of what is asked of two objects. */
  ghost predicate NodesCovered(s: Shape, a: Image, t: Shape, b: Image, caseSensitive: bool) {
    forall i | 0 <= i < |a.kids| ::
      var j := Lookup(b.kids, a.kids[i].key, caseSensitive);
      j < |b.kids| && SameNodes(Kid(s, i), a.kids[i], Kid(t, j), b.kids[j], caseSensitive)
  }

  /** Two nodes are one only if they say the same, and that is coherent. */
  ghost predicate Consistent(s: Shape, a: Image, t: Shape, b: Image, caseSensitive: bool)
    decreases Weight(a) + Weight(b)
  {
    KidsWeigh(a);
    KidsWeigh(b);
    && (s.node == t.node ==> Same(a, b, caseSensitive))
    && (a.kind == b.kind && (a.kind == IsArray || a.kind == IsObject) ==>
          forall i, j | 0 <= i < |a.kids| && 0 <= j < |b.kids| ::
          && Consistent(Kid(s, i), a.kids[i], Kid(t, j), b.kids[j], caseSensitive)
          && Consistent(Kid(t, j), b.kids[j], Kid(s, i), a.kids[i], caseSensitive))
  }

  /** Then the short cut for one node makes no difference. */
  lemma {:induction false} ConsistentIsSame(s: Shape, a: Image, t: Shape, b: Image, caseSensitive: bool)
    requires Consistent(s, a, t, b, caseSensitive)
    ensures SameNodes(s, a, t, b, caseSensitive) <==> Same(a, b, caseSensitive)
    decreases Weight(a) + Weight(b)
  {
    KidsWeigh(a);
    KidsWeigh(b);
    if a.kind == b.kind && (a.kind == IsArray || a.kind == IsObject) {
      forall i, j | 0 <= i < |a.kids| && 0 <= j < |b.kids|
        ensures SameNodes(Kid(s, i), a.kids[i], Kid(t, j), b.kids[j], caseSensitive)
             == Same(a.kids[i], b.kids[j], caseSensitive)
        ensures SameNodes(Kid(t, j), b.kids[j], Kid(s, i), a.kids[i], caseSensitive)
             == Same(b.kids[j], a.kids[i], caseSensitive)
      {
        ConsistentIsSame(Kid(s, i), a.kids[i], Kid(t, j), b.kids[j], caseSensitive);
        ConsistentIsSame(Kid(t, j), b.kids[j], Kid(s, i), a.kids[i], caseSensitive);
      }
    }
  }

  // ---------- Trees that share no node, and coherent trees ----------

  lemma {:induction false} NodesAt(l: seq<Shape>, i: nat)
    requires i < |l|
    ensures NodeSet(l[i]) <= NodeSets(l)
  {
    if i < |l| - 1 {
      NodesAt(l[..|l| - 1], i);
    }
  }

  lemma KidImage(s: Shape, i: nat)
    ensures |ImageOf(s).kids| == |s.kids|
    ensures i < |s.kids| ==>
            ImageOf(s).kids[i] == ImageOf(s.kids[i]) && NodeSet(s.kids[i]) <= NodeSet(s) && Kid(s, i) == s.kids[i]
  {
    if i < |s.kids| {
      ImagesAt(s.kids, i);
      NodesAt(s.kids, i);
    }
  }

  lemma {:induction false} DisjointIsConsistent(s: Shape, t: Shape, caseSensitive: bool)
    requires NodeSet(s) !! NodeSet(t)
    ensures Consistent(s, ImageOf(s), t, ImageOf(t), caseSensitive)
    decreases Weight(ImageOf(s)) + Weight(ImageOf(t))
  {
    var a, b := ImageOf(s), ImageOf(t);
    KidsWeigh(a);
    KidsWeigh(b);
    assert s.node in NodeSet(s);
    forall i, j | 0 <= i < |a.kids| && 0 <= j < |b.kids|
      ensures Consistent(Kid(s, i), a.kids[i], Kid(t, j), b.kids[j], caseSensitive)
      ensures Consistent(Kid(t, j), b.kids[j], Kid(s, i), a.kids[i], caseSensitive)
    {
      hide NodeSet, ImageOf, Consistent;
      KidImage(s, i);
      KidImage(t, j);
      DisjointIsConsistent(s.kids[i], t.kids[j], caseSensitive);
      DisjointIsConsistent(t.kids[j], s.kids[i], caseSensitive);
    }
  }

  lemma SameList(first: Node?, xs: seq<Node>, ys: seq<Node>)
    requires Linked(first, xs) && Linked(first, ys)
    ensures xs == ys
  {
    hide Linked;
    forall i | 0 <= i < |xs|
      ensures i < |ys| && xs[i] == ys[i]
    {
      SameNodeAt(first, xs, ys, i);
    }
    if |ys| > |xs| {
      SameNodeAt(first, ys, xs, |xs|);
    } else if |xs| > |ys| {
      SameNodeAt(first, xs, ys, |ys|);
    }
  }

  /** A node leads to one next node only. */
  lemma {:induction false} SameNodeAt(first: Node?, xs: seq<Node>, ys: seq<Node>, i: nat)
    requires Linked(first, xs) && Linked(first, ys) && i < |xs|
    ensures i < |ys| && xs[i] == ys[i]
  {
    if i > 0 {
      SameNodeAt(first, xs, ys, i - 1);
      assert xs[i - 1].next == After(xs, i - 1) && ys[i - 1].next == After(ys, i - 1);
    }
  }

  /** A node has one shape only. */
  lemma {:induction false} OneShape(s: Shape, t: Shape)
    requires Shaped(s) && Shaped(t) && s.node == t.node
    ensures s == t
    decreases s
  {
    SameList(s.node.child, NodesOf(s.kids), NodesOf(t.kids));
    assert |NodesOf(s.kids)| == |s.kids| && |NodesOf(t.kids)| == |t.kids|;
    forall i | 0 <= i < |s.kids|
      ensures s.kids[i] == t.kids[i]
    {
      ShapedAt(s.kids, i);
      ShapedAt(t.kids, i);
      assert NodesOf(s.kids)[i] == NodesOf(t.kids)[i];
      OneShape(s.kids[i], t.kids[i]);
    }
  }

  lemma CoherentKids(a: Image, b: Image, i: nat, j: nat, caseSensitive: bool)
    requires a.kind == b.kind && (a.kind == IsArray || a.kind == IsObject) && i < |a.kids| && j < |b.kids|
    requires Coherent(a, caseSensitive) || Coherent(b, caseSensitive)
    ensures Coherent(a.kids[i], caseSensitive) || Coherent(b.kids[j], caseSensitive)
  {
  }

  lemma CoherentRoot(s: Shape, t: Shape, caseSensitive: bool)
    requires Shaped(s) && Shaped(t) && s.node == t.node
    requires Coherent(ImageOf(s), caseSensitive) || Coherent(ImageOf(t), caseSensitive)
    ensures Same(ImageOf(s), ImageOf(t), caseSensitive)
  {
    hide *;
    OneShape(s, t);
    SameReflexive(ImageOf(s), caseSensitive);
  }

  lemma MakeConsistent(s: Shape, a: Image, t: Shape, b: Image, caseSensitive: bool)
    requires s.node == t.node ==> Same(a, b, caseSensitive)
    requires a.kind == b.kind && (a.kind == IsArray || a.kind == IsObject) ==>
        forall i, j | 0 <= i < |a.kids| && 0 <= j < |b.kids| ::
          && Consistent(Kid(s, i), a.kids[i], Kid(t, j), b.kids[j], caseSensitive)
          && Consistent(Kid(t, j), b.kids[j], Kid(s, i), a.kids[i], caseSensitive)
    ensures Consistent(s, a, t, b, caseSensitive)
  {
  }

  lemma ShapedKid(s: Shape, i: nat)
    requires Shaped(s) && i < |s.kids|
    ensures Shaped(s.kids[i])
  {
    ShapedAt(s.kids, i);
  }

  lemma {:induction false} CoherentIsConsistent(s: Shape, t: Shape, caseSensitive: bool)
    requires Shaped(s) && Shaped(t)
    requires Coherent(ImageOf(s), caseSensitive) || Coherent(ImageOf(t), caseSensitive)
    ensures Consistent(s, ImageOf(s), t, ImageOf(t), caseSensitive)
    decreases Weight(ImageOf(s)) + Weight(ImageOf(t))
  {
    hide *;
    var a, b := ImageOf(s), ImageOf(t);
    KidsWeigh(a);
    KidsWeigh(b);
    if s.node == t.node {
      CoherentRoot(s, t, caseSensitive);
    }
    if a.kind == b.kind && (a.kind == IsArray || a.kind == IsObject) {
      KidImage(s, 0);
      KidImage(t, 0);
      forall i, j | 0 <= i < |a.kids| && 0 <= j < |b.kids|
        ensures Consistent(Kid(s, i), a.kids[i], Kid(t, j), b.kids[j], caseSensitive)
        ensures Consistent(Kid(t, j), b.kids[j], Kid(s, i), a.kids[i], caseSensitive)
      {
        CoherentKids(a, b, i, j, caseSensitive);
        KidImage(s, i);
        KidImage(t, j);
        ShapedKid(s, i);
        ShapedKid(t, j);
        CoherentIsConsistent(s.kids[i], t.kids[j], caseSensitive);
        CoherentIsConsistent(t.kids[j], s.kids[i], caseSensitive);
      }
    }
    MakeConsistent(s, a, t, b, caseSensitive);
  }

  // ---------- The comparison of nodes ----------

  lemma FoldWhole(key: bytes)
    ensures Fold(key, true) == key
  {
  }

  ghost predicate SameUpTo(x: bytes, y: bytes, i: nat, caseSensitive: bool)
    requires i <= |x| && i <= |y|
  {
    forall k | 0 <= k < i :: if caseSensitive then x[k] == y[k] else Lower(x[k]) == Lower(y[k])
  }

  lemma InCString(s: bytes, i: nat)
    requires NUL in s && i <= |CString(s)|
    ensures i < |s| && (s[i] == NUL <==> i == |CString(s)|)
    ensures i < |CString(s)| ==> CString(s)[i] == s[i]
  {
    CStringLength(s);
  }

  /** The characters at `i`, terminators included, and what they say about the two C strings. */
  lemma AtIndex(s: bytes, t: bytes, i: nat, caseSensitive: bool)
    requires NUL in s && NUL in t && i <= |CString(s)| && i <= |CString(t)|
    requires SameUpTo(CString(s), CString(t), i, caseSensitive)
    ensures i < |s| && i < |t|
    ensures var same := if caseSensitive then s[i] == t[i] else Lower(s[i]) == Lower(t[i]);
            && (!same ==> Fold(CString(s), caseSensitive) != Fold(CString(t), caseSensitive))
            && (same && s[i] == NUL ==> Fold(CString(s), caseSensitive) == Fold(CString(t), caseSensitive))
            && (same && s[i] != NUL ==>
                  && i + 1 <= |CString(s)| && i + 1 <= |CString(t)|
                  && SameUpTo(CString(s), CString(t), i + 1, caseSensitive))
  {
    hide CString;
    InCString(s, i);
    InCString(t, i);
    var c, d := CString(s), CString(t);
    if |c| == |d| && i < |c| {
      assert Fold(c, caseSensitive)[i] == if caseSensitive then c[i] else Lower(c[i]);
      assert Fold(d, caseSensitive)[i] == if caseSensitive then d[i] else Lower(d[i]);
    }
  }

  lemma NoByteCompared(x: bytes, y: bytes, caseSensitive: bool)
    ensures SameUpTo(x, y, 0, caseSensitive)
  {
  }

  lemma FoldsCompared(x: array<byte>, y: array<byte>, caseSensitive: bool)
    requires HasEnd(x) && HasEnd(y)
    ensures NUL in x[..] && NUL in y[..]
    ensures TextOf(x) == Some(CString(x[..])) && TextOf(y) == Some(CString(y[..]))
    ensures FoldOf(TextOf(x), caseSensitive) == FoldOf(TextOf(y), caseSensitive) <==>
            Fold(CString(x[..]), caseSensitive) == Fold(CString(y[..]), caseSensitive)
  {
    hide Fold, CString;
  }

  /** strcmp, or the loop of case_insensitive_strcmp, on strings that are there. */
  method EqualStrings(x: array<byte>, y: array<byte>, caseSensitive: bool) returns (equal: bool)
    requires HasEnd(x) && HasEnd(y)
    ensures equal <==> FoldOf(TextOf(x), caseSensitive) == FoldOf(TextOf(y), caseSensitive)
    ensures TextOf(x).Some? && TextOf(y).Some?
    ensures equal <==> SameName(TextOf(x).value, TextOf(y).value, caseSensitive)
  {
    hide *;
    FoldsCompared(x, y, caseSensitive);
    ghost var c, d := CString(x[..]), CString(y[..]);
    FoldedNames(c, d, caseSensitive);
    if x == y {
      return true;
    }
    var i := 0;
    NoByteCompared(c, d, caseSensitive);
    AtIndex(x[..], y[..], 0, caseSensitive);
    while if caseSensitive then x[i] == y[i] else Lower(x[i]) == Lower(y[i])
      invariant i <= |c| && i <= |d| && i < x.Length && i < y.Length
      invariant SameUpTo(c, d, i, caseSensitive)
      decreases |c| - i
    {
      AtIndex(x[..], y[..], i, caseSensitive);
      if x[i] == NUL {
        return true;
      }
      i := i + 1;
      AtIndex(x[..], y[..], i, caseSensitive);
    }
    AtIndex(x[..], y[..], i, caseSensitive);
    equal := false;
  }

  /** The comparison of names: case_insensitive_strcmp calls null different from everything, and
      strcmp has no answer for it. */
  method EqualNames(x: array?<byte>, y: array?<byte>, caseSensitive: bool) returns (equal: bool)
    requires HasEnd(x) && HasEnd(y) && (caseSensitive ==> x != null && y != null)
    ensures equal <==> x != null && y != null && FoldOf(TextOf(x), caseSensitive) == FoldOf(TextOf(y), caseSensitive)
    ensures equal <==> Matches(TextOf(x), TextOf(y), caseSensitive)
  {
    hide SameName, CString, Fold;
    if x == null || y == null {
      return false;
    }
    equal := EqualStrings(x, y, caseSensitive);
  }

  /** A tree that can be compared: well formed, with C strings; strcmp has no answer for a member
      without a name. */
  ghost predicate Comparable(s: Shape, caseSensitive: bool)
    reads NodeSet(s), NodeSets(s.kids), TextSet(s)
  {
    Shaped(s) && Readable(s) && (caseSensitive ==> Named(ImageOf(s)))
  }

  ghost predicate Named(im: Image) {
    forall i | 0 <= i < |im.kids| :: Named(im.kids[i]) && (im.kind == IsObject ==> im.kids[i].key.Some?)
  }

  lemma KidAt(s: Shape, i: nat, caseSensitive: bool)
    requires Comparable(s, caseSensitive) && i < |s.kids|
    ensures Comparable(s.kids[i], caseSensitive) && NodeSet(s.kids[i]) <= NodeSet(s)
    ensures i < |ImageOf(s).kids| && ImageOf(s).kids[i] == ImageOf(s.kids[i]) && Kid(s, i) == s.kids[i]
    ensures s.kids[i].node.name == s.kids[i].key && HasEnd(s.kids[i].key)
        && ImageOf(s.kids[i]).key == TextOf(s.kids[i].key)
    ensures caseSensitive && s.node.kind == IsObject ==> s.kids[i].key != null
    ensures s.kids[i].node.next == if i + 1 < |s.kids| then s.kids[i + 1].node else null
    ensures Weight(ImageOf(s.kids[i])) < Weight(ImageOf(s))
  {
    ShapedAt(s.kids, i);
    ReadableAt(s.kids, i);
    ImagesAt(s.kids, i);
    NodesAt(s.kids, i);
    NextInList(s.node.child, s.kids, i);
    KidsWeigh(ImageOf(s));
    if caseSensitive {
      assert Named(ImageOf(s).kids[i]);
    }
  }

  lemma FirstKid(s: Shape, caseSensitive: bool)
    requires Comparable(s, caseSensitive)
    ensures s.node.child == if s.kids == [] then null else s.kids[0].node
    ensures |ImageOf(s).kids| == |s.kids|
    ensures ImageOf(s).kind == s.node.kind && ImageOf(s).number == s.node.valuedouble
        && ImageOf(s).text == TextOf(s.node.valuestring)
    ensures HasEnd(s.node.valuestring)
  {
    HeadOfList(s.node.child, s.kids);
  }

  lemma AllThere(s: Shape)
    ensures forall n | n in NodeSet(s) :: allocated(n)
    ensures forall n | n in NodeSets(s.kids) :: allocated(n)
    ensures forall a | a in TextSet(s) :: allocated(a)
  {
    Allocated(s);
    AllAllocated(s.kids);
  }

  ghost predicate NoMatchBefore(members: seq<Image>, name: Option<bytes>, n: nat, caseSensitive: bool) {
    n <= |members| && forall i | 0 <= i < n :: FoldOf(members[i].key, caseSensitive) != FoldOf(name, caseSensitive)
  }

  lemma LookupStep(members: seq<Image>, name: Option<bytes>, n: nat, caseSensitive: bool)
    requires NoMatchBefore(members, name, n, caseSensitive)
    ensures n == |members| || name.None? ==> Lookup(members, name, caseSensitive) == |members|
    ensures n < |members| && name.Some? ==>
              if FoldOf(members[n].key, caseSensitive) == FoldOf(name, caseSensitive) then Lookup(members, name,
                  caseSensitive) == n
              else NoMatchBefore(members, name, n + 1, caseSensitive)
  {
    hide Fold;
  }

  lemma NothingLookedAt(members: seq<Image>, name: Option<bytes>, caseSensitive: bool)
    ensures NoMatchBefore(members, name, 0, caseSensitive)
  {
  }

  /** get_object_item, on a node of any kind; strcmp needs the names of all its children. */
  method GetObjectItem(parent: Node?, name: array?<byte>, caseSensitive: bool, ghost s: Shape) returns (item: Node?)
    requires HasEnd(name)
    requires parent != null ==> s.node == parent && Comparable(s, caseSensitive) && (caseSensitive ==> AllNamed(s))
    ensures parent == null ==> item == null
    ensures parent != null ==>
              var i := Lookup(ImageOf(s).kids, TextOf(name), caseSensitive);
              i <= |s.kids| && item == if i < |s.kids| then s.kids[i].node else null
    ensures parent != null ==> FirstMatch(s, TextOf(name), caseSensitive, item)
  {
    hide *;
    NameThere(name);
    if parent == null {
      return null;
    }
    ghost var members, text := ImageOf(s).kids, TextOf(name);
    AllThere(s);
    FoundFirst(s, text, caseSensitive);
    FirstKid(s, caseSensitive);
    NothingLookedAt(members, text, caseSensitive);
    if name == null {
      LookupStep(members, text, 0, caseSensitive);
      return null;
    }
    item := parent.child;
    ghost var i := 0;
    while item != null
      invariant i <= |s.kids| && item == if i < |s.kids| then s.kids[i].node else null
      invariant ImageOf(s).kids == members && TextOf(name) == text && NoMatchBefore(members, text, i, caseSensitive)
      decreases |s.kids| - i
    {
      KidAt(s, i, caseSensitive);
      if caseSensitive {
        NamedAt(s, i);
      }
      KeyThere(s.kids[i]);
      LookupStep(members, text, i, caseSensitive);
      FoldThere(text, members[i].key, caseSensitive);
      var found := EqualNames(name, item.name, caseSensitive);
      if found {
        return;
      }
      item := item.next;
      i := i + 1;
    }
    LookupStep(members, text, i, caseSensitive);
  }

  /** The item is the first child whose name matches, or null when there is none. */
  ghost predicate FirstMatch(s: Shape, name: Option<bytes>, caseSensitive: bool, item: Node?)
    reads NodeSet(s), TextSet(s)
  {
    var members := ImageOf(s).kids;
    if item == null then forall j | 0 <= j < |members| :: !Matches(members[j].key, name, caseSensitive)
    else
      exists i | 0 <= i < |s.kids| && i < |members| ::
        && s.kids[i].node == item && Matches(members[i].key, name, caseSensitive)
        && forall j | 0 <= j < i :: !Matches(members[j].key, name, caseSensitive)
  }

  lemma FoundFirst(s: Shape, name: Option<bytes>, caseSensitive: bool)
    ensures var i := Lookup(ImageOf(s).kids, name, caseSensitive);
            && |ImageOf(s).kids| == |s.kids|
            && FirstMatch(s, name, caseSensitive, if i < |s.kids| then s.kids[i].node else null)
  {
    hide Lookup, Matches;
    LookupFindsFirst(ImageOf(s).kids, name, caseSensitive);
  }

  ghost predicate AllNamed(s: Shape) {
    forall i | 0 <= i < |s.kids| :: s.kids[i].key != null
  }

  lemma NamedAt(s: Shape, i: nat)
    requires AllNamed(s) && i < |s.kids|
    ensures s.kids[i].key != null
  {
  }

  lemma MembersNamed(s: Shape)
    requires Comparable(s, true) && s.node.kind == IsObject
    ensures AllNamed(s)
  {
    forall i | 0 <= i < |s.kids|
      ensures s.kids[i].key != null
    {
      KidAt(s, i, true);
    }
  }

  lemma KeyThere(s: Shape)
    ensures TextOf(s.key).Some? <==> s.key != null
  {
  }

  lemma FoldThere(x: Option<bytes>, y: Option<bytes>, caseSensitive: bool)
    ensures x.Some? && y.None? ==> FoldOf(x, caseSensitive) != FoldOf(y, caseSensitive)
  {
  }

  lemma NameThere(name: array?<byte>)
    ensures TextOf(name).Some? <==> name != null
  {
  }

  lemma SameKinds(s: Shape, a: Image, t: Shape, b: Image, caseSensitive: bool)
    ensures a.kind != b.kind || a.kind == Invalid ==> !SameNodes(s, a, t, b, caseSensitive)
    ensures a.kind == b.kind && a.kind != Invalid && s.node == t.node ==> SameNodes(s, a, t, b, caseSensitive)
    ensures a.kind == b.kind && (a.kind == IsFalse || a.kind == IsTrue || a.kind == IsNull) ==>
              SameNodes(s, a, t, b, caseSensitive)
    ensures s.node != t.node && a.kind == b.kind == IsNumber ==>
              (SameNodes(s, a, t, b, caseSensitive) <==> a.number == b.number)
    ensures s.node != t.node && a.kind == b.kind && (a.kind == IsString || a.kind == IsRaw) ==>
              (SameNodes(s, a, t, b, caseSensitive) <==> a.text.Some? && b.text == a.text)
  {
    hide Lookup, Weight;
  }

  lemma SameObjects(s: Shape, a: Image, t: Shape, b: Image, caseSensitive: bool)
    requires s.node != t.node && a.kind == b.kind == IsObject
    ensures SameNodes(s, a, t, b, caseSensitive) <==>
            NodesCovered(s, a, t, b, caseSensitive) && NodesCovered(t, b, s, a, caseSensitive)
  {
    hide Lookup, Weight;
    KidsWeigh(a);
    KidsWeigh(b);
  }

  /** cJSON_Compare; a pointer may be null. On trees that share no node, and on trees of which one
      is coherent, it decides what Same does. */
  method Compare(a: Node?, b: Node?, caseSensitive: bool, ghost s: Shape, ghost t: Shape) returns (same: bool)
    requires a != null ==> s.node == a && Comparable(s, caseSensitive)
    requires b != null ==> t.node == b && Comparable(t, caseSensitive)
    ensures a == null || b == null ==> !same
    ensures a != null && b != null ==> (same <==> SameNodes(s, ImageOf(s), t, ImageOf(t), caseSensitive))
    ensures a != null && b != null &&
            (NodeSet(s) !! NodeSet(t) || Coherent(ImageOf(s), caseSensitive) || Coherent(ImageOf(t), caseSensitive)) ==>
              (same <==> Same(ImageOf(s), ImageOf(t), caseSensitive))
    decreases Weight(ImageOf(s)) + Weight(ImageOf(t)), 3
  {
    hide *;
    same := false;
    if a != null && b != null {
      AllThere(s);
      AllThere(t);
      SharingIsSame(s, t, caseSensitive);
      same := CompareNodes(a, b, caseSensitive, s, t);
    }
  }

  lemma SharingIsSame(s: Shape, t: Shape, caseSensitive: bool)
    requires Comparable(s, caseSensitive) && Comparable(t, caseSensitive)
    ensures NodeSet(s) !! NodeSet(t) || Coherent(ImageOf(s), caseSensitive) || Coherent(ImageOf(t), caseSensitive) ==>
              (SameNodes(s, ImageOf(s), t, ImageOf(t), caseSensitive) <==> Same(ImageOf(s), ImageOf(t), caseSensitive))
  {
    hide SameNodes, Same, Coherent, NodeSet, ImageOf, Consistent;
    if NodeSet(s) !! NodeSet(t) {
      DisjointIsConsistent(s, t, caseSensitive);
      ConsistentIsSame(s, ImageOf(s), t, ImageOf(t), caseSensitive);
    } else if Coherent(ImageOf(s), caseSensitive) || Coherent(ImageOf(t), caseSensitive) {
      CoherentIsConsistent(s, t, caseSensitive);
      ConsistentIsSame(s, ImageOf(s), t, ImageOf(t), caseSensitive);
    }
  }

  method CompareNodes(a: Node, b: Node, caseSensitive: bool, ghost s: Shape, ghost t: Shape) returns (same: bool)
    requires s.node == a && Comparable(s, caseSensitive) && t.node == b && Comparable(t, caseSensitive)
    ensures same <==> SameNodes(s, ImageOf(s), t, ImageOf(t), caseSensitive)
    decreases Weight(ImageOf(s)) + Weight(ImageOf(t)), 2
  {
    hide *;
    AllThere(s);
    AllThere(t);
    FirstKid(s, caseSensitive);
    FirstKid(t, caseSensitive);
    SameKinds(s, ImageOf(s), t, ImageOf(t), caseSensitive);
    if a.kind != b.kind || a.kind == Invalid {
      same := false;
    } else if a == b {
      // identical objects
      same := true;
    } else if a.kind == IsFalse || a.kind == IsTrue || a.kind == IsNull {
      same := true;
    } else if a.kind == IsNumber {
      same := a.valuedouble == b.valuedouble;
    } else if a.kind == IsString || a.kind == IsRaw {
      same := CompareStrings(a.valuestring, b.valuestring);
    } else if a.kind == IsArray {
      same := CompareElements(a, b, caseSensitive, s, t);
    } else {
      SameObjects(s, ImageOf(s), t, ImageOf(t), caseSensitive);
      same := CompareMembers(a, b, caseSensitive, s, t);
      if same {
        // the other way round, or a subset of the members of b would do
        same := CompareMembers(b, a, caseSensitive, t, s);
      }
    }
  }

  method CompareStrings(x: array?<byte>, y: array?<byte>) returns (same: bool)
    requires HasEnd(x) && HasEnd(y)
    ensures same <==> TextOf(x).Some? && TextOf(y) == TextOf(x)
  {
    hide CString, Fold;
    if x == null || y == null {
      return false;
    }
    same := EqualStrings(x, y, true);
    FoldWhole(TextOf(x).value);
    FoldWhole(TextOf(y).value);
  }

  ghost predicate ElementsSame(s: Shape, a: Image, t: Shape, b: Image, n: nat, caseSensitive: bool) {
    && n <= |a.kids| && n <= |b.kids|
    && forall i | 0 <= i < n :: SameNodes(Kid(s, i), a.kids[i], Kid(t, i), b.kids[i], caseSensitive)
  }

  /** What the comparison of the elements at `n` means for the one of the arrays. */
  lemma ElementsStep(s: Shape, a: Image, t: Shape, b: Image, n: nat, caseSensitive: bool)
    requires a.kind == b.kind == IsArray && s.node != t.node && ElementsSame(s, a, t, b, n, caseSensitive)
    ensures n < |a.kids| && n < |b.kids| ==>
              if SameNodes(Kid(s, n), a.kids[n], Kid(t, n), b.kids[n], caseSensitive)
              then ElementsSame(s, a, t, b, n + 1, caseSensitive)
              else !SameNodes(s, a, t, b, caseSensitive)
    ensures n == |a.kids| || n == |b.kids| ==> (SameNodes(s, a, t, b, caseSensitive) <==> |a.kids| == |b.kids|)
  {
    KidsWeigh(a);
    KidsWeigh(b);
  }

  /** One turn of the loop over the elements of two arrays. */
  method CompareElement(x: Node, y: Node, caseSensitive: bool, ghost s: Shape, ghost t: Shape, ghost i: nat)
    returns (same: bool, x': Node?, y': Node?)
    requires Comparable(s, caseSensitive) && Comparable(t, caseSensitive)
    requires i < |s.kids| && i < |t.kids| && x == s.kids[i].node && y == t.kids[i].node
    ensures i < |ImageOf(s).kids| && i < |ImageOf(t).kids|
    ensures same <==> SameNodes(Kid(s, i), ImageOf(s).kids[i], Kid(t, i), ImageOf(t).kids[i], caseSensitive)
    ensures x' == if i + 1 < |s.kids| then s.kids[i + 1].node else null
    ensures y' == if i + 1 < |t.kids| then t.kids[i + 1].node else null
    decreases Weight(ImageOf(s)) + Weight(ImageOf(t)), 0
  {
    hide *;
    AllThere(s);
    AllThere(t);
    KidAt(s, i, caseSensitive);
    KidAt(t, i, caseSensitive);
    x', y' := x.next, y.next;
    same := Compare(x, y, caseSensitive, s.kids[i], t.kids[i]);
    KidAt(s, i, caseSensitive);
    KidAt(t, i, caseSensitive);
  }

  method CompareElements(a: Node, b: Node, caseSensitive: bool, ghost s: Shape, ghost t: Shape) returns (same: bool)
    requires s.node == a && Comparable(s, caseSensitive) && t.node == b && Comparable(t, caseSensitive)
    requires a != b && a.kind == b.kind == IsArray
    ensures same <==> SameNodes(s, ImageOf(s), t, ImageOf(t), caseSensitive)
    decreases Weight(ImageOf(s)) + Weight(ImageOf(t)), 1
  {
    hide *;
    ghost var im, jm := ImageOf(s), ImageOf(t);
    NothingCompared(s, im, t, jm, caseSensitive);
    AllThere(s);
    AllThere(t);
    FirstKid(s, caseSensitive);
    FirstKid(t, caseSensitive);
    var x, y := a.child, b.child;
    ghost var i := 0;
    while x != null && y != null
      invariant i <= |s.kids| && i <= |t.kids|
      invariant x == if i < |s.kids| then s.kids[i].node else null
      invariant y == if i < |t.kids| then t.kids[i].node else null
      invariant ImageOf(s) == im && ImageOf(t) == jm && ElementsSame(s, im, t, jm, i, caseSensitive)
      decreases |s.kids| - i
    {
      ElementsStep(s, im, t, jm, i, caseSensitive);
      same, x, y := CompareElement(x, y, caseSensitive, s, t, i);
      if !same {
        return;
      }
      i := i + 1;
    }
    ElementsStep(s, im, t, jm, i, caseSensitive);
    // otherwise one of the arrays is longer than the other
    same := x == y;
  }

  ghost predicate CoveredUpTo(s: Shape, a: Image, t: Shape, b: Image, n: nat, caseSensitive: bool) {
    n <= |a.kids| &&
    forall i | 0 <= i < n ::
      var j := Lookup(b.kids, a.kids[i].key, caseSensitive);
      j < |b.kids| && SameNodes(Kid(s, i), a.kids[i], Kid(t, j), b.kids[j], caseSensitive)
  }

  lemma CoveredStep(s: Shape, a: Image, t: Shape, b: Image, n: nat, caseSensitive: bool)
    requires CoveredUpTo(s, a, t, b, n, caseSensitive)
    ensures n < |a.kids| ==>
              var j := Lookup(b.kids, a.kids[n].key, caseSensitive);
              if j < |b.kids| && SameNodes(Kid(s, n), a.kids[n], Kid(t, j), b.kids[j], caseSensitive)
              then CoveredUpTo(s, a, t, b, n + 1, caseSensitive)
              else !NodesCovered(s, a, t, b, caseSensitive)
    ensures n == |a.kids| ==> NodesCovered(s, a, t, b, caseSensitive)
  {
  }

  lemma NothingCompared(s: Shape, a: Image, t: Shape, b: Image, caseSensitive: bool)
    ensures ElementsSame(s, a, t, b, 0, caseSensitive) && CoveredUpTo(s, a, t, b, 0, caseSensitive)
  {
  }

  /** One turn of the loop over the members of an object. */
  method CompareMember(x: Node, b: Node, caseSensitive: bool, ghost s: Shape, ghost t: Shape, ghost i: nat)
    returns (same: bool, x': Node?)
    requires Comparable(s, caseSensitive) && Comparable(t, caseSensitive)
    requires s.node.kind == t.node.kind == IsObject && t.node == b && i < |s.kids| && x == s.kids[i].node
    ensures i < |ImageOf(s).kids|
    ensures var j := Lookup(ImageOf(t).kids, ImageOf(s).kids[i].key, caseSensitive);
            same <==>
              j < |ImageOf(t).kids|
                  && SameNodes(Kid(s, i), ImageOf(s).kids[i], Kid(t, j), ImageOf(t).kids[j], caseSensitive)
    ensures x' == if i + 1 < |s.kids| then s.kids[i + 1].node else null
    decreases Weight(ImageOf(s)) + Weight(ImageOf(t)), 0
  {
    hide *;
    AllThere(s);
    AllThere(t);
    KidAt(s, i, caseSensitive);
    if caseSensitive {
      MembersNamed(t);
    }
    x' := x.next;
    var y := GetObjectItem(b, x.name, caseSensitive, t);
    FirstKid(t, caseSensitive);
    KidAt(s, i, caseSensitive);
    ghost var j := Lookup(ImageOf(t).kids, ImageOf(s).kids[i].key, caseSensitive);
    if y == null {
      return false, x';
    }
    KidAt(t, j, caseSensitive);
    same := Compare(x, y, caseSensitive, s.kids[i], t.kids[j]);
    KidAt(s, i, caseSensitive);
    KidAt(t, j, caseSensitive);
  }

  /** The loop over the members of `a`. */
  method CompareMembers(a: Node, b: Node, caseSensitive: bool, ghost s: Shape, ghost t: Shape) returns (same: bool)
    requires s.node == a && Comparable(s, caseSensitive) && t.node == b && Comparable(t, caseSensitive)
    requires a.kind == b.kind == IsObject
    ensures same <==> NodesCovered(s, ImageOf(s), t, ImageOf(t), caseSensitive)
    decreases Weight(ImageOf(s)) + Weight(ImageOf(t)), 1
  {
    hide *;
    ghost var im, jm := ImageOf(s), ImageOf(t);
    NothingCompared(s, im, t, jm, caseSensitive);
    AllThere(s);
    AllThere(t);
    FirstKid(s, caseSensitive);
    FirstKid(t, caseSensitive);
    var x := a.child;
    ghost var i := 0;
    while x != null
      invariant i <= |s.kids| && x == if i < |s.kids| then s.kids[i].node else null
      invariant ImageOf(s) == im && ImageOf(t) == jm && CoveredUpTo(s, im, t, jm, i, caseSensitive)
      decreases |s.kids| - i
    {
      CoveredStep(s, im, t, jm, i, caseSensitive);
      same, x := CompareMember(x, b, caseSensitive, s, t, i);
      if !same {
        return;
      }
      i := i + 1;
    }
    CoveredStep(s, im, t, jm, i, caseSensitive);
    same := true;
  }
}
