/** What cJSON_Compare decides. Same follows its branches and its two loops over the members of
    an object; Meaning is the value of a tree when the order of members does not matter. */
module Comparison {
  import opened Bytes
  import opened Nodes
  import opened Duplication

  // ---------- Looking up a member ----------

  /** tolower of the "C" locale. */
  function Lower(b: byte): byte {
    if 65 <= b <= 90 then b + 32 else b
  }

  /** A key as the case rule sees it. */
  function Fold(key: bytes, caseSensitive: bool): (r: bytes)
    ensures |r| == |key|
    ensures forall i | 0 <= i < |key| :: r[i] == if caseSensitive then key[i] else Lower(key[i])
  {
    seq(|key|, i requires 0 <= i < |key| => if caseSensitive then key[i] else Lower(key[i]))
  }

  function FoldOf(key: Option<bytes>, caseSensitive: bool): Option<bytes> {
    match key
    case None => None
    case Some(k) => Some(Fold(k, caseSensitive))
  }

  // ---------- Names without regard to case ----------

  const UPPER_LETTERS: string := "ABCDEFGHIJKLMNOPQRSTUVWXYZ"
  const LOWER_LETTERS: string := "abcdefghijklmnopqrstuvwxyz"

  /** The two cases of one of the 26 letters. */
  ghost predicate TwoCases(a: byte, b: byte) {
    exists i | 0 <= i < 26 :: a as char == UPPER_LETTERS[i] && b as char == LOWER_LETTERS[i]
  }

  ghost predicate SameLetter(a: byte, b: byte) {
    a == b || TwoCases(a, b) || TwoCases(b, a)
  }

  ghost predicate SameName(x: bytes, y: bytes, caseSensitive: bool) {
    |x| == |y| && forall i | 0 <= i < |x| :: if caseSensitive then x[i] == y[i] else SameLetter(x[i], y[i])
  }

  ghost predicate Matches(key: Option<bytes>, name: Option<bytes>, caseSensitive: bool) {
    key.Some? && name.Some? && SameName(key.value, name.value, caseSensitive)
  }

  lemma LetterTables(i: nat)
    requires i < 26
    ensures UPPER_LETTERS[i] as nat == 65 + i && LOWER_LETTERS[i] as nat == 97 + i
  {
  }

  lemma CasesAre(a: byte, b: byte)
    ensures TwoCases(a, b) <==> 65 <= a <= 90 && b == a + 32
  {
    forall i | 0 <= i < 26
      ensures UPPER_LETTERS[i] as nat == 65 + i && LOWER_LETTERS[i] as nat == 97 + i
    {
      LetterTables(i);
    }
    if 65 <= a <= 90 && b == a + 32 {
      var i := (a - 65) as nat;
      assert a as char == UPPER_LETTERS[i] && b as char == LOWER_LETTERS[i];
    }
  }

  /** Folding makes two bytes the same exactly when they are the same letter. */
  lemma FoldedLetters(a: byte, b: byte)
    ensures Lower(a) == Lower(b) <==> SameLetter(a, b)
  {
    CasesAre(a, b);
    CasesAre(b, a);
  }

  lemma FoldedNames(x: bytes, y: bytes, caseSensitive: bool)
    ensures Fold(x, caseSensitive) == Fold(y, caseSensitive) <==> SameName(x, y, caseSensitive)
  {
    var p, q := Fold(x, caseSensitive), Fold(y, caseSensitive);
    hide SameLetter, Lower, Fold;
    FoldIs(x, caseSensitive);
    FoldIs(y, caseSensitive);
    if |x| == |y| {
      forall i | 0 <= i < |x|
        ensures p[i] == q[i] <==> if caseSensitive then x[i] == y[i] else SameLetter(x[i], y[i])
      {
        FoldedLetters(x[i], y[i]);
      }
    }
  }

  lemma FoldIs(key: bytes, caseSensitive: bool)
    ensures |Fold(key, caseSensitive)| == |key|
    ensures forall i | 0 <= i < |key| :: Fold(key, caseSensitive)[i] == if caseSensitive then key[i] else Lower(key[i])
  {
  }

  lemma FoldedOptions(x: Option<bytes>, y: Option<bytes>, caseSensitive: bool)
    ensures Matches(x, y, caseSensitive) <==>
            x.Some? && y.Some? && FoldOf(x, caseSensitive) == FoldOf(y, caseSensitive)
  {
    if x.Some? && y.Some? {
      FoldedNames(x.value, y.value, caseSensitive);
    }
  }

  /** The index of the first member with the folded key, or the number of members. */
  function Find(members: seq<Image>, key: bytes, caseSensitive: bool): (r: nat)
    ensures r <= |members|
    ensures forall i | 0 <= i < r :: FoldOf(members[i].key, caseSensitive) != Some(key)
    ensures r < |members| ==> FoldOf(members[r].key, caseSensitive) == Some(key)
  {
    if members == [] || FoldOf(members[0].key, caseSensitive) == Some(key) then 0 else 1 + Find(members[1..], key,
        caseSensitive)
  }

  /** get_object_item */
  function Lookup(members: seq<Image>, name: Option<bytes>, caseSensitive: bool): (r: nat)
    ensures r <= |members|
    ensures r < |members| ==> name.Some? && FoldOf(members[r].key, caseSensitive) == FoldOf(name, caseSensitive)
  {
    match name
    case None => |members|
    case Some(key) => Find(members, Fold(key, caseSensitive), caseSensitive)
  }

  /** get_object_item finds the first member whose name matches, and null only when none does. */
  lemma LookupFindsFirst(members: seq<Image>, name: Option<bytes>, caseSensitive: bool)
    ensures var r := Lookup(members, name, caseSensitive);
            && r <= |members|
            && (forall i | 0 <= i < r :: !Matches(members[i].key, name, caseSensitive))
            && (r < |members| ==> Matches(members[r].key, name, caseSensitive))
  {
    hide SameName, Fold, Matches;
    var r := Lookup(members, name, caseSensitive);
    forall i | 0 <= i < |members|
      ensures Matches(members[i].key, name, caseSensitive) <==>
              members[i].key.Some? && name.Some? && FoldOf(members[i].key, caseSensitive) == FoldOf(name, caseSensitive)
    {
      FoldedOptions(members[i].key, name, caseSensitive);
    }
  }

  // ---------- The comparison ----------

  ghost function Weight(im: Image): nat {
    1 + Weights(im.kids)
  }

  ghost function Weights(ims: seq<Image>): nat {
    if ims == [] then 0 else Weights(ims[..|ims| - 1]) + Weight(ims[|ims| - 1])
  }

  lemma {:induction false} WeightAt(ims: seq<Image>, i: nat)
    requires i < |ims|
    ensures Weight(ims[i]) <= Weights(ims)
  {
    if i < |ims| - 1 {
      WeightAt(ims[..|ims| - 1], i);
    }
  }

  lemma KidsWeigh(im: Image)
    ensures forall i | 0 <= i < |im.kids| :: Weight(im.kids[i]) < Weight(im)
  {
    forall i | 0 <= i < |im.kids|
      ensures Weight(im.kids[i]) < Weight(im)
    {
      WeightAt(im.kids, i);
    }
  }

  /** cJSON_Compare on two trees that share no node. */
  ghost predicate Same(a: Image, b: Image, caseSensitive: bool)
    decreases Weight(a) + Weight(b)
  {
    KidsWeigh(a);
    KidsWeigh(b);
    a.kind == b.kind &&
    match a.kind
    case Invalid => false
    case IsNumber => a.number == b.number
    case IsString | IsRaw => a.text.Some? && b.text.Some? && a.text == b.text
    case IsArray => |a.kids| == |b.kids| && forall i | 0 <= i < |a.kids| :: Same(a.kids[i], b.kids[i], caseSensitive)
    case IsObject =>
      && (forall i | 0 <= i < |a.kids| ::
            var j := Lookup(b.kids, a.kids[i].key, caseSensitive);
            j < |b.kids| && Same(a.kids[i], b.kids[j], caseSensitive))
      && (forall j | 0 <= j < |b.kids| ::
            var i := Lookup(a.kids, b.kids[j].key, caseSensitive);
            i < |a.kids| && Same(b.kids[j], a.kids[i], caseSensitive))
    case _ => true
  }

  // ---------- What it decides ----------

  /** The value of a tree; an object is an unordered map. */
  datatype Value =
    | Nothing
    | Plain(kind: Kind)
    | Number(num: real)
    | Text(text: bytes)
    | Raw(raw: bytes)
    | List(items: seq<Value>)
    | Table(entries: map<bytes, Value>)

  ghost function Keys(members: seq<Image>, caseSensitive: bool): (r: set<bytes>)
    ensures forall key | key in r :: Find(members, key, caseSensitive) < |members|
  {
    set i | 0 <= i < |members| && members[i].key.Some? :: Fold(members[i].key.value, caseSensitive)
  }

  lemma KeyOf(members: seq<Image>, i: nat, caseSensitive: bool)
    requires i < |members| && members[i].key.Some?
    ensures Fold(members[i].key.value, caseSensitive) in Keys(members, caseSensitive)
  {
  }

  lemma FoundKey(members: seq<Image>, key: bytes, caseSensitive: bool)
    ensures Find(members, key, caseSensitive) < |members| <==> key in Keys(members, caseSensitive)
  {
    var i := Find(members, key, caseSensitive);
    if i < |members| {
      assert FoldOf(members[i].key, caseSensitive) == Some(key);
      KeyOf(members, i, caseSensitive);
    }
  }

  /** Where a key comes twice, the first member with it counts. */
  ghost function Meaning(im: Image, caseSensitive: bool): Value {
    match im.kind
    case Invalid => Nothing
    case IsNumber => Number(im.number)
    case IsString => if im.text.Some? then Text(im.text.value) else Nothing
    case IsRaw => if im.text.Some? then Raw(im.text.value) else Nothing
    case IsArray => List(seq(|im.kids|, i requires 0 <= i < |im.kids| => Meaning(im.kids[i], caseSensitive)))
    case IsObject => Table(map key | key in Keys(im.kids, caseSensitive) :: Meaning(im.kids[Find(im.kids, key,
        caseSensitive)], caseSensitive))
    case _ => Plain(im.kind)
  }

  /** Every node has a valid kind, every string a text, every member a key; and members with the
      same key agree. */
  ghost predicate Coherent(im: Image, caseSensitive: bool) {
    match im.kind
    case Invalid => false
    case IsString | IsRaw => im.text.Some?
    case IsArray => forall i | 0 <= i < |im.kids| :: Coherent(im.kids[i], caseSensitive)
    case IsObject => forall i | 0 <= i < |im.kids| ::
      && im.kids[i].key.Some? && Coherent(im.kids[i], caseSensitive)
      && (var first := Lookup(im.kids, im.kids[i].key, caseSensitive);
          first < |im.kids| && Meaning(im.kids[first], caseSensitive) == Meaning(im.kids[i], caseSensitive))
    case _ => true
  }

  // ---------- Arrays and objects of trees for which that is what Same decides ----------

  ghost predicate Decided(x: Image, y: Image, caseSensitive: bool) {
    Same(x, y, caseSensitive) <==>
      Coherent(x, caseSensitive) && Coherent(y, caseSensitive) && Meaning(x, caseSensitive) == Meaning(y, caseSensitive)
  }

  ghost predicate KidsDecided(a: Image, b: Image, caseSensitive: bool) {
    forall i, j | 0 <= i < |a.kids| && 0 <= j < |b.kids| ::
      Decided(a.kids[i], b.kids[j], caseSensitive) && Decided(b.kids[j], a.kids[i], caseSensitive)
  }

  lemma ArraysDecided(a: Image, b: Image, caseSensitive: bool)
    requires a.kind == b.kind == IsArray && KidsDecided(a, b, caseSensitive)
    ensures Decided(a, b, caseSensitive)
  {
    var x, y := Meaning(a, caseSensitive).items, Meaning(b, caseSensitive).items;
    assert |x| == |a.kids| && forall i | 0 <= i < |x| :: x[i] == Meaning(a.kids[i], caseSensitive);
    assert |y| == |b.kids| && forall i | 0 <= i < |y| :: y[i] == Meaning(b.kids[i], caseSensitive);
    if |a.kids| == |b.kids| {
      assert forall i | 0 <= i < |a.kids| :: Decided(a.kids[i], b.kids[i], caseSensitive);
    }
    if Same(a, b, caseSensitive) {
      assert x == y;
    }
  }

  /** The entry of a key is the meaning of the first member that has it. */
  lemma Entry(a: Image, key: bytes, caseSensitive: bool)
    requires a.kind == IsObject
    ensures Meaning(a, caseSensitive).Table?
    ensures var t := Meaning(a, caseSensitive).entries;
            var i := Find(a.kids, key, caseSensitive);
            && (key in t <==> i < |a.kids|)
            && (i < |a.kids| ==> t[key] == Meaning(a.kids[i], caseSensitive))
  {
    FoundKey(a.kids, key, caseSensitive);
  }

  lemma FirstAgrees(a: Image, i: nat, caseSensitive: bool)
    requires a.kind == IsObject && Coherent(a, caseSensitive) && i < |a.kids|
    ensures a.kids[i].key.Some? && Coherent(a.kids[i], caseSensitive)
    ensures var first := Lookup(a.kids, a.kids[i].key, caseSensitive);
            first < |a.kids| && Meaning(a.kids[first], caseSensitive) == Meaning(a.kids[i], caseSensitive)
  {
  }

  /** Half of what Same asks of two objects. */
  ghost predicate Covered(a: Image, b: Image, caseSensitive: bool) {
    forall i | 0 <= i < |a.kids| ::
      var j := Lookup(b.kids, a.kids[i].key, caseSensitive);
      j < |b.kids| && Same(a.kids[i], b.kids[j], caseSensitive)
  }

  lemma CoveredMember(a: Image, b: Image, i: nat, caseSensitive: bool)
    requires KidsDecided(a, b, caseSensitive) && Covered(a, b, caseSensitive) && i < |a.kids|
    ensures a.kids[i].key.Some? && Coherent(a.kids[i], caseSensitive)
    ensures var first := Lookup(a.kids, a.kids[i].key, caseSensitive);
            first < |a.kids| && Meaning(a.kids[first], caseSensitive) == Meaning(a.kids[i], caseSensitive)
  {
    hide Meaning, Coherent, Same, Fold;
    var j := Lookup(b.kids, a.kids[i].key, caseSensitive);
    assert Decided(a.kids[i], b.kids[j], caseSensitive);
    var first := Lookup(a.kids, a.kids[i].key, caseSensitive);
    assert Lookup(b.kids, a.kids[first].key, caseSensitive) == j;
    assert Decided(a.kids[first], b.kids[j], caseSensitive);
  }

  lemma CoveredEntry(a: Image, b: Image, key: bytes, caseSensitive: bool)
    requires a.kind == b.kind == IsObject && KidsDecided(a, b, caseSensitive) && Covered(a, b, caseSensitive)
    requires key in Meaning(a, caseSensitive).entries
    ensures key in Meaning(b, caseSensitive).entries
    ensures Meaning(a, caseSensitive).entries[key] == Meaning(b, caseSensitive).entries[key]
  {
    hide Meaning, Coherent, Same, Fold;
    Entry(a, key, caseSensitive);
    Entry(b, key, caseSensitive);
    var i := Find(a.kids, key, caseSensitive);
    assert Lookup(b.kids, a.kids[i].key, caseSensitive) == Find(b.kids, key, caseSensitive);
    assert Decided(a.kids[i], b.kids[Find(b.kids, key, caseSensitive)], caseSensitive);
  }

  lemma MembersCohere(a: Image, caseSensitive: bool)
    requires a.kind == IsObject
    requires forall i | 0 <= i < |a.kids| ::
               && a.kids[i].key.Some? && Coherent(a.kids[i], caseSensitive)
               && var first := Lookup(a.kids, a.kids[i].key, caseSensitive);
                  first < |a.kids| && Meaning(a.kids[first], caseSensitive) == Meaning(a.kids[i], caseSensitive)
    ensures Coherent(a, caseSensitive)
  {
  }

  lemma ObjectMeaning(a: Image, caseSensitive: bool)
    requires a.kind == IsObject
    ensures Meaning(a, caseSensitive).Table?
  {
  }

  lemma CoveredCoheres(a: Image, b: Image, caseSensitive: bool)
    requires a.kind == b.kind == IsObject && KidsDecided(a, b, caseSensitive) && Covered(a, b, caseSensitive)
    ensures Coherent(a, caseSensitive)
    ensures Meaning(a, caseSensitive).Table? && Meaning(b, caseSensitive).Table?
    ensures forall key | key in Meaning(a, caseSensitive).entries ::
              key in Meaning(b, caseSensitive).entries
                  && Meaning(a, caseSensitive).entries[key] == Meaning(b, caseSensitive).entries[key]
  {
    hide *;
    ObjectMeaning(a, caseSensitive);
    ObjectMeaning(b, caseSensitive);
    forall i | 0 <= i < |a.kids|
      ensures a.kids[i].key.Some? && Coherent(a.kids[i], caseSensitive)
      ensures var first := Lookup(a.kids, a.kids[i].key, caseSensitive);
              first < |a.kids| && Meaning(a.kids[first], caseSensitive) == Meaning(a.kids[i], caseSensitive)
    {
      CoveredMember(a, b, i, caseSensitive);
    }
    MembersCohere(a, caseSensitive);
    forall key | key in Meaning(a, caseSensitive).entries
      ensures key in Meaning(b, caseSensitive).entries
          && Meaning(a, caseSensitive).entries[key] == Meaning(b, caseSensitive).entries[key]
    {
      CoveredEntry(a, b, key, caseSensitive);
    }
  }

  lemma CoherentIsCovered(a: Image, b: Image, caseSensitive: bool)
    requires a.kind == b.kind == IsObject && KidsDecided(a, b, caseSensitive)
    requires Coherent(a, caseSensitive) && Coherent(b, caseSensitive)
        && Meaning(a, caseSensitive) == Meaning(b, caseSensitive)
    ensures Covered(a, b, caseSensitive)
  {
    forall i | 0 <= i < |a.kids|
      ensures var j := Lookup(b.kids, a.kids[i].key, caseSensitive);
              j < |b.kids| && Same(a.kids[i], b.kids[j], caseSensitive)
    {
      hide Meaning, Coherent, Same, Find, Fold;
      FirstAgrees(a, i, caseSensitive);
      var key := Fold(a.kids[i].key.value, caseSensitive);
      Entry(a, key, caseSensitive);
      Entry(b, key, caseSensitive);
      var j := Lookup(b.kids, a.kids[i].key, caseSensitive);
      FirstAgrees(b, j, caseSensitive);
      assert Decided(a.kids[i], b.kids[j], caseSensitive);
    }
  }

  lemma ObjectsDecided(a: Image, b: Image, caseSensitive: bool)
    requires a.kind == b.kind == IsObject && KidsDecided(a, b, caseSensitive)
    ensures Decided(a, b, caseSensitive)
  {
    KidsWeigh(a);
    KidsWeigh(b);
    assert KidsDecided(b, a, caseSensitive);
    assert Same(a, b, caseSensitive) <==> Covered(a, b, caseSensitive) && Covered(b, a, caseSensitive);
    hide Same, Covered, Coherent, Meaning;
    if Same(a, b, caseSensitive) {
      CoveredCoheres(a, b, caseSensitive);
      CoveredCoheres(b, a, caseSensitive);
      TablesEqual(a, b, caseSensitive);
    } else if Coherent(a, caseSensitive) && Coherent(b, caseSensitive)
        && Meaning(a, caseSensitive) == Meaning(b, caseSensitive) {
      CoherentIsCovered(a, b, caseSensitive);
      CoherentIsCovered(b, a, caseSensitive);
    }
  }

  lemma TablesEqual(a: Image, b: Image, caseSensitive: bool)
    requires a.kind == b.kind == IsObject
    requires forall key | key in Meaning(a, caseSensitive).entries ::
               key in Meaning(b, caseSensitive).entries
                   && Meaning(a, caseSensitive).entries[key] == Meaning(b, caseSensitive).entries[key]
    requires forall key | key in Meaning(b, caseSensitive).entries :: key in Meaning(a, caseSensitive).entries
    ensures Meaning(a, caseSensitive) == Meaning(b, caseSensitive)
  {
    hide *;
    Entry(a, [], caseSensitive);
    Entry(b, [], caseSensitive);
    MapsEqual(Meaning(a, caseSensitive).entries, Meaning(b, caseSensitive).entries);
  }

  lemma MapsEqual(m: map<bytes, Value>, n: map<bytes, Value>)
    requires forall key | key in m :: key in n && m[key] == n[key]
    requires forall key | key in n :: key in m
    ensures m == n
  {
  }

  // ---------- The theorem ----------

  /** cJSON_Compare holds exactly when both trees are coherent and stand for the same value. */
  lemma {:induction false} SameIsEqualMeaning(a: Image, b: Image, caseSensitive: bool)
    ensures Same(a, b, caseSensitive) <==>
            Coherent(a, caseSensitive) && Coherent(b, caseSensitive)
                && Meaning(a, caseSensitive) == Meaning(b, caseSensitive)
    decreases Weight(a) + Weight(b)
  {
    KidsWeigh(a);
    KidsWeigh(b);
    forall i, j | 0 <= i < |a.kids| && 0 <= j < |b.kids|
      ensures Decided(a.kids[i], b.kids[j], caseSensitive) && Decided(b.kids[j], a.kids[i], caseSensitive)
    {
      SameIsEqualMeaning(a.kids[i], b.kids[j], caseSensitive);
      SameIsEqualMeaning(b.kids[j], a.kids[i], caseSensitive);
    }
    if a.kind == b.kind == IsArray {
      ArraysDecided(a, b, caseSensitive);
    } else if a.kind == b.kind == IsObject {
      ObjectsDecided(a, b, caseSensitive);
    }
  }

  lemma SameSymmetric(a: Image, b: Image, caseSensitive: bool)
    ensures Same(a, b, caseSensitive) == Same(b, a, caseSensitive)
  {
    hide *;
    SameIsEqualMeaning(a, b, caseSensitive);
    SameIsEqualMeaning(b, a, caseSensitive);
  }

  lemma SameTransitive(a: Image, b: Image, c: Image, caseSensitive: bool)
    requires Same(a, b, caseSensitive) && Same(b, c, caseSensitive)
    ensures Same(a, c, caseSensitive)
  {
    hide *;
    SameIsEqualMeaning(a, b, caseSensitive);
    SameIsEqualMeaning(b, c, caseSensitive);
    SameIsEqualMeaning(a, c, caseSensitive);
  }

  /** A tree compares equal to a copy of itself exactly when it is coherent. */
  lemma SameReflexive(a: Image, caseSensitive: bool)
    ensures Same(a, a, caseSensitive) <==> Coherent(a, caseSensitive)
  {
    hide *;
    SameIsEqualMeaning(a, a, caseSensitive);
  }

  // ---------- Trees with distinct keys ----------

  /** Valid kinds, texts where there are strings, and distinct keys at every level. */
  ghost predicate DistinctKeys(im: Image, caseSensitive: bool) {
    match im.kind
    case Invalid => false
    case IsString | IsRaw => im.text.Some?
    case IsArray => forall i | 0 <= i < |im.kids| :: DistinctKeys(im.kids[i], caseSensitive)
    case IsObject =>
      && (forall i | 0 <= i < |im.kids| :: im.kids[i].key.Some? && DistinctKeys(im.kids[i], caseSensitive))
      && (forall i, j | 0 <= i < j < |im.kids| :: FoldOf(im.kids[i].key, caseSensitive) != FoldOf(im.kids[j].key,
          caseSensitive))
    case _ => true
  }

  lemma {:induction false} DistinctIsCoherent(im: Image, caseSensitive: bool)
    requires DistinctKeys(im, caseSensitive)
    ensures Coherent(im, caseSensitive)
  {
    if im.kind == IsArray || im.kind == IsObject {
      forall i | 0 <= i < |im.kids|
        ensures Coherent(im.kids[i], caseSensitive)
        ensures im.kind == IsObject ==> Lookup(im.kids, im.kids[i].key, caseSensitive) == i
      {
        DistinctIsCoherent(im.kids[i], caseSensitive);
      }
    }
  }

  /** With distinct keys cJSON_Compare is equality of unordered maps, and so it is reflexive. */
  lemma DistinctSame(a: Image, b: Image, caseSensitive: bool)
    requires DistinctKeys(a, caseSensitive) && DistinctKeys(b, caseSensitive)
    ensures Same(a, b, caseSensitive) <==> Meaning(a, caseSensitive) == Meaning(b, caseSensitive)
    ensures Same(a, a, caseSensitive)
  {
    hide *;
    DistinctIsCoherent(a, caseSensitive);
    DistinctIsCoherent(b, caseSensitive);
    SameIsEqualMeaning(a, b, caseSensitive);
    SameReflexive(a, caseSensitive);
  }

  /** The order of the members does not matter. */
  lemma MembersInAnyOrder(a: Image, b: Image, caseSensitive: bool)
    requires a.kind == b.kind == IsObject && DistinctKeys(a, caseSensitive) && DistinctKeys(b, caseSensitive)
    requires forall m :: m in a.kids <==> m in b.kids
    ensures Same(a, b, caseSensitive)
  {
    KidsWeigh(a);
    KidsWeigh(b);
    MembersCovered(a, b, caseSensitive);
    MembersCovered(b, a, caseSensitive);
    assert Covered(a, b, caseSensitive) && Covered(b, a, caseSensitive);
  }

  lemma MembersCovered(a: Image, b: Image, caseSensitive: bool)
    requires a.kind == b.kind == IsObject && DistinctKeys(a, caseSensitive) && DistinctKeys(b, caseSensitive)
    requires forall m | m in a.kids :: m in b.kids
    ensures Covered(a, b, caseSensitive)
  {
    forall i | 0 <= i < |a.kids|
      ensures var j := Lookup(b.kids, a.kids[i].key, caseSensitive);
              j < |b.kids| && Same(a.kids[i], b.kids[j], caseSensitive)
    {
      assert a.kids[i] in b.kids;
      var j :| 0 <= j < |b.kids| && b.kids[j] == a.kids[i];
      DistinctSame(a.kids[i], b.kids[j], caseSensitive);
      assert Lookup(b.kids, a.kids[i].key, caseSensitive) == j;
    }
  }

  /** A key that comes twice with different values: the tree differs from any copy of itself. */
  lemma RepeatedKeyDiffers(caseSensitive: bool)
    ensures var one := Image(IsTrue, 0.0, None, Some([LOWER_B]), []);
            var other := Image(IsFalse, 0.0, None, Some([LOWER_B]), []);
            var a := Image(IsObject, 0.0, None, None, [one, other]);
            !Same(a, a, caseSensitive)
  {
    var one := Image(IsTrue, 0.0, None, Some([LOWER_B]), []);
    var other := Image(IsFalse, 0.0, None, Some([LOWER_B]), []);
    var a := Image(IsObject, 0.0, None, None, [one, other]);
    SameReflexive(a, caseSensitive);
    assert a.kids[1] == other && Lookup(a.kids, other.key, caseSensitive) == 0;
  }
}
