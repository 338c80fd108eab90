/** What cJSON_Compare says about two values: leaves must be equal, arrays agree element by element,
    and every member must agree with the first one of its name on the other side. */
module ValueComparison {
  import opened Bytes
  import opened JsonTree
  import opened Nodes
  import opened Duplication
  import opened NodeValues
  import opened Comparison

  /** The value of the first member with the name. */
  ghost function First(members: Members, name: bytes, caseSensitive: bool): (r: Option<Json>)
    ensures r.Some? ==> Size(r.value) < MembersSize(members)
  {
    match members
    case NoMembers => None
    case Member(key, value, rest) =>
      if SameName(key, name, caseSensitive) then Some(value) else First(rest, name, caseSensitive)
  }

  ghost predicate Alike(v: Json, w: Json, caseSensitive: bool)
    decreases Size(v) + Size(w), 0
  {
    match v
    case Array(items) => w.Array? && ItemsAlike(items, w.items, caseSensitive)
    case Object(members) =>
      w.Object? && Found(members, w.members, caseSensitive) && Found(w.members, members, caseSensitive)
    case _ => v == w
  }

  ghost predicate ItemsAlike(xs: Items, ys: Items, caseSensitive: bool)
    decreases ItemsSize(xs) + ItemsSize(ys), 0
  {
    match xs
    case NoItems => ys.NoItems?
    case Item(head, tail) =>
      ys.Item? && Alike(head, ys.head, caseSensitive) && ItemsAlike(tail, ys.tail, caseSensitive)
  }

  /** Each member agrees with the first one of its name in `others`. */
  ghost predicate Found(members: Members, others: Members, caseSensitive: bool)
    decreases MembersSize(members) + MembersSize(others), 0
  {
    match members
    case NoMembers => true
    case Member(key, value, rest) =>
      var other := First(others, key, caseSensitive);
      other.Some? && Alike(value, other.value, caseSensitive) && Found(rest, others, caseSensitive)
  }

  // ---------- That is what the comparison of their nodes decides ----------

  /** Half of what is asked of a member. */
  ghost predicate Covers(members: seq<Image>, m: Image, caseSensitive: bool) {
    var j := Lookup(members, m.key, caseSensitive);
    j < |members| && Same(m, members[j], caseSensitive)
  }

  lemma FirstMember(members: Members)
    requires members.Member?
    ensures var ims := MemberImages(members);
            && ims != [] && ims[0] == ImageFor(members.value, Some(members.key))
            && ims[1..] == MemberImages(members.rest)
  {
  }

  lemma LookupFromFront(ims: seq<Image>, name: bytes, caseSensitive: bool)
    requires ims != [] && ims[0].key.Some?
    ensures Lookup(ims, Some(name), caseSensitive) ==
            if SameName(ims[0].key.value, name, caseSensitive) then 0
            else 1 + Lookup(ims[1..], Some(name), caseSensitive)
  {
    hide SameName;
    FoldedNames(ims[0].key.value, name, caseSensitive);
  }

  lemma KeyOfImage(v: Json, key: Option<bytes>)
    ensures ImageFor(v, key).key == key
  {
  }

  lemma {:induction false} LookupIsFirst(members: Members, name: bytes, caseSensitive: bool)
    ensures var (ims, first) := (MemberImages(members), First(members, name, caseSensitive));
            var j := Lookup(ims, Some(name), caseSensitive);
            && j <= |ims| && (first.Some? <==> j < |ims|)
            && (first.Some? ==> exists key :: ims[j] == ImageFor(first.value, Some(key)))
  {
    hide SameName, ImageFor, Lookup;
    if members.Member? {
      FirstMember(members);
      KeyOfImage(members.value, Some(members.key));
      LookupFromFront(MemberImages(members), name, caseSensitive);
      LookupIsFirst(members.rest, name, caseSensitive);
    } else {
      NothingFound(name, caseSensitive);
    }
  }

  lemma NothingFound(name: bytes, caseSensitive: bool)
    ensures Lookup([], Some(name), caseSensitive) == 0
  {
  }

  /** cJSON_Compare on the nodes of two values. */
  lemma {:induction false} SameIsAlike(v: Json, k: Option<bytes>, w: Json, l: Option<bytes>, caseSensitive: bool)
    ensures Same(ImageFor(v, k), ImageFor(w, l), caseSensitive) <==> Alike(v, w, caseSensitive)
    decreases Size(v) + Size(w), 1
  {
    hide Same;
    if v.Array? && w.Array? {
      ItemsSame(v.items, w.items, caseSensitive);
      ArraySame(ImageFor(v, k), ImageFor(w, l), caseSensitive);
    } else if v.Object? && w.Object? {
      MembersFound(v.members, w.members, caseSensitive);
      MembersFound(w.members, v.members, caseSensitive);
      ObjectSame(ImageFor(v, k), ImageFor(w, l), caseSensitive);
    } else {
      LeafSame(v, k, w, l, caseSensitive);
    }
  }

  lemma LeafSame(v: Json, k: Option<bytes>, w: Json, l: Option<bytes>, caseSensitive: bool)
    requires !(v.Array? && w.Array?) && !(v.Object? && w.Object?)
    ensures Same(ImageFor(v, k), ImageFor(w, l), caseSensitive) <==> Alike(v, w, caseSensitive)
  {
    hide ItemImages, MemberImages, ItemsAlike, Found;
  }

  ghost predicate PairwiseSame(xs: seq<Image>, ys: seq<Image>, caseSensitive: bool) {
    |xs| == |ys| && forall i | 0 <= i < |xs| :: Same(xs[i], ys[i], caseSensitive)
  }

  lemma ArraySame(a: Image, b: Image, caseSensitive: bool)
    requires a.kind == b.kind == IsArray
    ensures Same(a, b, caseSensitive) <==> PairwiseSame(a.kids, b.kids, caseSensitive)
  {
    KidsWeigh(a);
  }

  lemma ObjectSame(a: Image, b: Image, caseSensitive: bool)
    requires a.kind == b.kind == IsObject
    ensures Same(a, b, caseSensitive) <==>
            && (forall i | 0 <= i < |a.kids| :: Covers(b.kids, a.kids[i], caseSensitive))
            && (forall j | 0 <= j < |b.kids| :: Covers(a.kids, b.kids[j], caseSensitive))
  {
    hide Lookup, Weight;
    KidsWeigh(a);
    KidsWeigh(b);
  }

  lemma FirstItem(items: Items)
    requires items.Item?
    ensures var ims := ItemImages(items);
            ims != [] && ims[0] == ImageFor(items.head, None) && ims[1..] == ItemImages(items.tail)
  {
  }

  lemma PairwiseFromFront(xs: seq<Image>, ys: seq<Image>, caseSensitive: bool)
    requires xs != [] && ys != []
    ensures PairwiseSame(xs, ys, caseSensitive) <==>
            Same(xs[0], ys[0], caseSensitive) && PairwiseSame(xs[1..], ys[1..], caseSensitive)
  {
    hide Same;
    if Same(xs[0], ys[0], caseSensitive) && PairwiseSame(xs[1..], ys[1..], caseSensitive) {
      forall i | 0 <= i < |xs|
        ensures Same(xs[i], ys[i], caseSensitive)
      {
        assert i > 0 ==> xs[1..][i - 1] == xs[i] && ys[1..][i - 1] == ys[i];
      }
    }
  }

  lemma {:induction false} ItemsSame(xs: Items, ys: Items, caseSensitive: bool)
    ensures PairwiseSame(ItemImages(xs), ItemImages(ys), caseSensitive) <==> ItemsAlike(xs, ys, caseSensitive)
    decreases ItemsSize(xs) + ItemsSize(ys), 1
  {
    hide Same, ImageFor, Alike;
    if xs.Item? && ys.Item? {
      hide PairwiseSame;
      FirstItem(xs);
      FirstItem(ys);
      PairwiseFromFront(ItemImages(xs), ItemImages(ys), caseSensitive);
      SameIsAlike(xs.head, None, ys.head, None, caseSensitive);
      ItemsSame(xs.tail, ys.tail, caseSensitive);
    }
  }

  lemma CoversFirst(members: Members, others: Members, caseSensitive: bool)
    requires members.Member?
    ensures var (ims, jms) := (MemberImages(members), MemberImages(others));
            (forall i | 0 <= i < |ims| :: Covers(jms, ims[i], caseSensitive)) <==>
              && Covers(jms, ims[0], caseSensitive)
              && forall i | 0 <= i < |MemberImages(members.rest)| ::
                   Covers(jms, MemberImages(members.rest)[i], caseSensitive)
  {
    hide Covers, ImageFor, MemberImages;
    FirstMember(members);
    var ims, rest := MemberImages(members), MemberImages(members.rest);
    assert forall i | 0 <= i < |rest| :: rest[i] == ims[i + 1];
    assert forall i | 1 <= i < |ims| :: ims[i] == rest[i - 1];
  }

  lemma {:induction false} MembersFound(members: Members, others: Members, caseSensitive: bool)
    ensures var (ims, jms) := (MemberImages(members), MemberImages(others));
            (forall i | 0 <= i < |ims| :: Covers(jms, ims[i], caseSensitive)) <==>
              Found(members, others, caseSensitive)
    decreases MembersSize(members) + MembersSize(others), 1
  {
    hide Same, ImageFor, Alike, First, Lookup;
    if members.Member? {
      FirstMember(members);
      KeyOfImage(members.value, Some(members.key));
      LookupIsFirst(others, members.key, caseSensitive);
      var other := First(others, members.key, caseSensitive);
      var jms := MemberImages(others);
      if other.Some? {
        var j := Lookup(jms, Some(members.key), caseSensitive);
        var key :| jms[j] == ImageFor(other.value, Some(key));
        SameIsAlike(members.value, Some(members.key), other.value, Some(key), caseSensitive);
      }
      assert Covers(jms, MemberImages(members)[0], caseSensitive) <==>
             other.Some? && Alike(members.value, other.value, caseSensitive);
      MembersFound(members.rest, others, caseSensitive);
      CoversFirst(members, others, caseSensitive);
    }
  }

  // ---------- Laws ----------

  lemma AlikeSymmetric(v: Json, w: Json, caseSensitive: bool)
    ensures Alike(v, w, caseSensitive) == Alike(w, v, caseSensitive)
  {
    hide *;
    SameIsAlike(v, None, w, None, caseSensitive);
    SameIsAlike(w, None, v, None, caseSensitive);
    SameSymmetric(ImageFor(v, None), ImageFor(w, None), caseSensitive);
  }

  lemma AlikeTransitive(v: Json, w: Json, x: Json, caseSensitive: bool)
    requires Alike(v, w, caseSensitive) && Alike(w, x, caseSensitive)
    ensures Alike(v, x, caseSensitive)
  {
    hide *;
    SameIsAlike(v, None, w, None, caseSensitive);
    SameIsAlike(w, None, x, None, caseSensitive);
    SameIsAlike(v, None, x, None, caseSensitive);
    SameTransitive(ImageFor(v, None), ImageFor(w, None), ImageFor(x, None), caseSensitive);
  }

  // ---------- Keys that differ in case only ----------

  /** The same value but for the case of the letters in the keys. */
  ghost predicate Recased(v: Json, w: Json)
    decreases v
  {
    match v
    case Array(items) => w.Array? && ItemsRecased(items, w.items)
    case Object(members) => w.Object? && MembersRecased(members, w.members)
    case _ => v == w
  }

  ghost predicate ItemsRecased(xs: Items, ys: Items)
    decreases xs
  {
    match xs
    case NoItems => ys.NoItems?
    case Item(head, tail) => ys.Item? && Recased(head, ys.head) && ItemsRecased(tail, ys.tail)
  }

  ghost predicate MembersRecased(ms: Members, ns: Members)
    decreases ms
  {
    match ms
    case NoMembers => ns.NoMembers?
    case Member(key, value, rest) =>
      ns.Member? && SameName(key, ns.key, false) && Recased(value, ns.value) && MembersRecased(rest, ns.rest)
  }

  lemma SameNameIs(x: bytes, y: bytes, z: bytes)
    ensures SameName(x, x, false) && (SameName(x, y, false) ==> SameName(y, x, false))
    ensures SameName(x, y, false) ==> (SameName(x, z, false) <==> SameName(y, z, false))
    ensures SameName(x, y, false) ==> (SameName(z, x, false) <==> SameName(z, y, false))
  {
    hide SameName, Fold;
    FoldedNames(x, x, false);
    FoldedNames(x, y, false);
    FoldedNames(y, x, false);
    FoldedNames(x, z, false);
    FoldedNames(y, z, false);
    FoldedNames(z, x, false);
    FoldedNames(z, y, false);
  }

  /** The first member of a name stands at the same place on both sides. */
  lemma {:induction false} FirstRecased(ms: Members, ns: Members, name: bytes, name': bytes)
    requires MembersRecased(ms, ns) && SameName(name, name', false)
    ensures var (x, y) := (First(ms, name, false), First(ns, name', false));
            (x.Some? <==> y.Some?) && (x.Some? ==> Recased(x.value, y.value))
    ensures var x := First(ms, name, false); x.Some? ==> Inside(x.value, ms)
    decreases ms
  {
    if ms.Member? {
      hide SameName, Recased;
      SameNameIs(ms.key, ns.key, name);
      SameNameIs(name, name', ns.key);
      FirstRecased(ms.rest, ns.rest, name, name');
    }
  }

  ghost predicate Inside(v: Json, members: Members) {
    members.Member? && (v == members.value || Inside(v, members.rest))
  }

  /** Every member's value is like the first one of its name, and so like itself. */
  lemma {:induction false} FoundInside(ms: Members, all: Members, v: Json)
    requires Found(ms, all, false) && Inside(v, ms)
    ensures Alike(v, v, false)
    decreases ms
  {
    hide Alike, First;
    if v == ms.value {
      var x := First(all, ms.key, false).value;
      AlikeSymmetric(v, x, false);
      AlikeTransitive(v, x, v, false);
    } else {
      FoundInside(ms.rest, all, v);
    }
  }

  /** Two values whose keys differ in case only compare equal without case, if they equal themselves. */
  lemma {:induction false} RecasedAlike(v: Json, w: Json)
    requires Recased(v, w) && Alike(v, v, false)
    ensures Alike(v, w, false)
    decreases v, 0
  {
    match v
    case Array(items) => ItemsRecasedAlike(items, w.items);
    case Object(members) => MembersRecasedFound(members, members, w.members, w.members);
    case Null =>
    case False =>
    case True =>
    case Number(_) =>
    case Str(_) =>
  }

  lemma {:induction false} ItemsRecasedAlike(xs: Items, ys: Items)
    requires ItemsRecased(xs, ys) && ItemsAlike(xs, xs, false)
    ensures ItemsAlike(xs, ys, false)
    decreases xs, 0
  {
    hide Alike, Recased;
    if xs.Item? {
      RecasedAlike(xs.head, ys.head);
      ItemsRecasedAlike(xs.tail, ys.tail);
    }
  }

  lemma {:induction false} InsideRecased(v: Json, w: Json, all: Members)
    requires Inside(v, all) && Found(all, all, false) && Recased(v, w)
    ensures Alike(v, w, false)
    decreases all, 0
  {
    hide Alike, Recased, Found;
    FoundInside(all, all, v);
    InsideSmaller(v, all);
    RecasedAlike(v, w);
  }

  lemma {:induction false} InsideSmaller(v: Json, all: Members)
    requires Inside(v, all)
    ensures v < all
  {
    if v != all.value {
      InsideSmaller(v, all.rest);
    }
  }

  /** `ms` and `ns` are the members from some place on of `all` and `others`. */
  lemma {:induction false} MembersRecasedFound(ms: Members, all: Members, ns: Members, others: Members)
    requires MembersRecased(ms, ns) && MembersRecased(all, others) && Found(ms, all, false) && Found(all, all, false)
    requires forall v | Inside(v, ms) :: Inside(v, all)
    ensures Found(ms, others, false) && Found(ns, all, false)
    decreases all, 1, ms
  {
    hide Alike, Recased, First, SameName;
    if ms.Member? {
      SameNameIs(ms.key, ms.key, ms.key);
      SameNameIs(ms.key, ns.key, ms.key);
      FirstRecased(all, others, ms.key, ms.key);
      FirstRecased(all, others, ms.key, ns.key);
      var x, y := First(all, ms.key, false).value, First(others, ms.key, false).value;
      InsideRecased(x, y, all);
      AlikeTransitive(ms.value, x, y, false);
      SameFirst(all, ms.key, ns.key);
      assert Inside(ms.value, ms);
      InsideRecased(ms.value, ns.value, all);
      AlikeSymmetric(ms.value, ns.value, false);
      AlikeTransitive(ns.value, ms.value, x, false);
      MembersRecasedFound(ms.rest, all, ns.rest, others);
    }
  }

  lemma {:induction false} SameFirst(all: Members, name: bytes, name': bytes)
    requires SameName(name, name', false)
    ensures First(all, name, false) == First(all, name', false)
  {
    if all.Member? {
      hide SameName;
      SameNameIs(name, name', all.key);
      SameFirst(all.rest, name, name');
    }
  }
}
