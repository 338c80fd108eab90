/** The parse_buffer of cJSON and the recursive-descent parser that turns it into nodes. Each
    method is proved against the grammar of Parser.dfy; allocation may fail at any call. */
module ParseBuffers {
  import opened Bytes
  import opened JsonTree
  import opened Nodes
  import opened Trees
  import opened Duplication
  import opened NodeValues
  import opened Parser
  import opened StringReader
  import NumberCodec
  import StringCodec

  // ---------- A node that is being filled ----------

  /** The new node is still empty, apart from a name. */
  ghost predicate Fillable(item: Node, key: array?<byte>)
    reads item, Strings(key)
  {
    && item.child == null && item.valuestring == null && item.name == key
    && !item.isReference && !item.stringIsConst && item.valuedouble == 0.0 && HasEnd(key)
  }

  /** What a node has got, apart from its name. */
  ghost function Below(s: Shape): set<object> {
    Strings(s.text) + AllBlocks(s.kids)
  }

  ghost predicate Filled(s: Shape, item: Node, key: array?<byte>)
    reads item, NodeSet(s), NodeSets(s.kids), TextSet(s)
  {
    s.node == item && s.key == key && !s.reference && OwnsNames(s) && Whole(s)
  }

  lemma FilledLeaf(item: Node, key: array?<byte>, s: Shape)
    requires s == Shape(item, false, false, item.valuestring, key, [])
    requires item.child == null && item.name == key && !item.isReference && !item.stringIsConst
    requires HasEnd(key) && HasEnd(item.valuestring) && Strings(item.valuestring) !! Strings(key)
    ensures Filled(s, item, key) && Below(s) == Strings(item.valuestring)
    ensures ImageOf(s) == Image(item.kind, item.valuedouble, TextOf(item.valuestring), TextOf(key), [])
  {
    NothingGrown();
  }

  lemma FilledList(item: Node, key: array?<byte>, l: seq<Shape>, s: Shape)
    requires s == Shape(item, false, false, null, key, l)
    requires item.valuestring == null && item.name == key && !item.isReference && !item.stringIsConst && HasEnd(key)
    requires Grown(item.child, l) && item !in AllBlocks(l) && Strings(key) !! AllBlocks(l)
    ensures Filled(s, item, key) && Below(s) == AllBlocks(l)
    ensures ImageOf(s) == Image(item.kind, item.valuedouble, None, TextOf(key), Images(l))
  {
    Adopted(s);
  }

  /** A list of finished trees that own all they consist of. */
  ghost predicate Grown(head: Node?, l: seq<Shape>)
    reads NodesOf(l), NodeSets(l), Inner(l), TextSets(l)
  {
    Built(head, l) && AllOwnNames(l)
  }

  lemma NothingGrown()
    ensures Grown(null, []) && AllBlocks([]) == {} && Images([]) == [] && NodesOf([]) == []
    ensures ItemsExact([]) && MembersExact([])
  {
    NothingBuilt();
  }

  lemma GrownOwned(head: Node?, l: seq<Shape>)
    requires Grown(head, l)
    ensures forall n | n in NodeSets(l) :: n in AllBlocks(l)
    ensures l != [] ==> l[|l| - 1].node in AllBlocks(l)
  {
    BuiltOwned(head, l);
  }

  /** The new node is the last of the list, behind the finished trees. */
  ghost predicate Hung(head: Node?, l: seq<Shape>, item: Node)
    reads (NodesOf(l) + [item])`next, (NodesOf(l) + [item])`prev
    reads NodeSets(l)`child, NodeSets(l)`valuestring, NodeSets(l)`name, NodeSets(l)`isReference,
        NodeSets(l)`stringIsConst
    reads Inner(l)`next, Inner(l)`prev, TextSets(l)
  {
    && Linked(head, NodesOf(l) + [item]) && item !in AllBlocks(l)
    && AllShaped(l) && AllSeparate(l) && AllNoReference(l) && AllReadable(l) && AllOwnNames(l)
  }

  lemma Hanging(head: Node?, l: seq<Shape>, item: Node, key: array?<byte>, s: Shape)
    requires Hung(head, l, item) && Filled(s, item, key) && ({item} + Strings(key) + Below(s)) !! AllBlocks(l)
    ensures Grown(head, l + [s]) && Images(l + [s]) == Images(l) + [ImageOf(s)]
    ensures AllBlocks(l + [s]) == AllBlocks(l) + {item} + Strings(key) + Below(s)
    ensures (l + [s])[|l|].node == item && ImageOf(s).key == TextOf(key)
  {
    hide *;
    HungParts(head, l, item, key, s);
    Extended(l, s);
    ExtendedImages(l, s);
    AllGrown(head, l + [s]);
  }

  lemma HungParts(head: Node?, l: seq<Shape>, item: Node, key: array?<byte>, s: Shape)
    requires Hung(head, l, item) && Filled(s, item, key)
    ensures Linked(head, NodesOf(l) + [item]) && AllShaped(l) && AllSeparate(l) && AllNoReference(l) && AllReadable(l)
    ensures Shaped(s) && Separate(s) && NoReference(s) && Readable(s) && AllOwnNames(l) && OwnsNames(s)
    ensures s.node == item && ImageOf(s).key == TextOf(key) && Blocks(s) == {item} + Strings(key) + Below(s)
  {
  }

  lemma AllGrown(head: Node?, l: seq<Shape>)
    requires Linked(head, NodesOf(l)) && AllShaped(l) && AllSeparate(l) && AllNoReference(l) && AllReadable(l)
    requires AllOwnNames(l)
    ensures Grown(head, l)
  {
  }

  lemma EmptyItem(c: Shape, item: Node)
    requires Filled(c, item, null) && c == Shape(item, false, false, null, null, [])
    ensures Blocks(c) == {item} && Shaped(c) && Separate(c) && NoReference(c)
  {
  }

  lemma BuiltParts(head: Node?, l: seq<Shape>)
    requires Grown(head, l)
    ensures Linked(head, NodesOf(l)) && AllShaped(l) && AllSeparate(l) && AllNoReference(l) && AllReadable(l)
    ensures AllOwnNames(l)
  {
  }

  lemma HungUp(head: Node?, l: seq<Shape>, c: Shape)
    requires Linked(head, NodesOf(l + [c])) && AllShaped(l + [c]) && AllSeparate(l + [c]) && AllNoReference(l + [c])
    requires AllReadable(l) && AllOwnNames(l) && c.node !in AllBlocks(l)
    ensures Hung(head, l, c.node)
  {
    Extended(l, c);
  }

  lemma HungApart(head: Node?, l: seq<Shape>, item: Node)
    requires Hung(head, l, item)
    ensures item !in NodesOf(l) && item !in NodeSets(l) && item !in Inner(l) && item !in AllBlocks(l)
  {
    AllNodesOwned(l);
  }

  lemma BuiltApart(head: Node?, l: seq<Shape>, item: Node)
    requires Grown(head, l) && item !in AllBlocks(l)
    ensures item !in NodesOf(l) && item !in NodeSets(l) && item !in Inner(l)
  {
    AllNodesOwned(l);
  }

  lemma TreeOfArray(im: Image)
    requires im.kind == IsArray
    ensures TreeOf(im) == Array(ItemsOf(im.kids, NoItems))
  {
  }

  lemma TreeOfObject(im: Image)
    requires im.kind == IsObject
    ensures TreeOf(im) == Object(MembersOf(im.kids, NoMembers))
  {
  }

  lemma OtherValue(s: bytes, depth: nat)
    requires s != []
    ensures !(NULL_TEXT <= s) && !(FALSE_TEXT <= s) && !(TRUE_TEXT <= s) ==>
              Parser.ParseValue(s, depth) ==
                if s[0] == QUOTE then
                  match Parser.ParseString(s)
                  case Parsed(text, rest) => Parsed(Str(text), rest)
                  case Failed(rest) => Failed(rest)
                else if s[0] == MINUS || NumberCodec.IsDigit(s[0]) then
                  match NumberCodec.ParseNumber(s)
                  case None => Failed(s)
                  case Some((x, n)) => Parsed(Number(x), s[n..])
                else if s[0] == LEFT_BRACKET then Parser.ParseArray(s, depth)
                else if s[0] == LEFT_BRACE then Parser.ParseObject(s, depth)
                else Failed(s)
  {
    hide NumberCodec.ParseNumber, Parser.ParseString, Parser.ParseArray, Parser.ParseObject;
  }

  lemma ArraySpec(s: bytes, depth: nat)
    requires LooksAt(s, LEFT_BRACKET)
    ensures var t := SkipWhitespace(s[1..]);
            Parser.ParseArray(s, depth) ==
              if depth >= NESTING_LIMIT then Failed(s)
              else if LooksAt(t, RIGHT_BRACKET) then Parsed(Array(ItemsOf([], NoItems)), t[1..])
              else match Parser.ParseItems(t, depth + 1)
                   case Parsed(items, rest) => Parsed(Array(items), rest)
                   case Failed(rest) => Failed(rest)
  {
  }

  lemma ObjectSpec(s: bytes, depth: nat)
    requires LooksAt(s, LEFT_BRACE)
    ensures var t := SkipWhitespace(s[1..]);
            Parser.ParseObject(s, depth) ==
              if depth >= NESTING_LIMIT then Failed(s)
              else if LooksAt(t, RIGHT_BRACE) then Parsed(Object(MembersOf([], NoMembers)), t[1..])
              else match Parser.ParseMembers(t, depth + 1)
                   case Parsed(members, rest) => Parsed(Object(members), rest)
                   case Failed(rest) => Failed(rest)
  {
  }

  // ---------- The loops over elements and members ----------

  function InFront(ims: seq<Image>, r: Outcome<Items>): Outcome<Items> {
    match r
    case Parsed(tail, rest) => Parsed(ItemsOf(ims, tail), rest)
    case Failed(rest) => Failed(rest)
  }

  /** The elements `ims` have been read from `s`, and the next one starts at `at`. */
  ghost predicate ItemsRead(s: bytes, depth: nat, ims: seq<Image>, at: bytes) {
    ItemsExact(ims) && Parser.ParseItems(s, depth) == InFront(ims, Parser.ParseItems(at, depth))
  }

  /** The elements `ims` have been read, and what follows them is at `at`. */
  ghost predicate ItemsEnd(s: bytes, depth: nat, ims: seq<Image>, at: bytes) {
    && ItemsExact(ims)
    && Parser.ParseItems(s, depth) ==
         if LooksAt(at, RIGHT_BRACKET) then Parsed(ItemsOf(ims, NoItems), at[1..]) else Failed(at)
  }

  lemma ItemsStart(s: bytes, depth: nat)
    ensures ItemsRead(s, depth, [], s)
  {
    hide Parser.ParseItems;
  }

  lemma ItemsNext(s: bytes, depth: nat, ims: seq<Image>, at: bytes, im: Image)
    requires ItemsRead(s, depth, ims, at)
    ensures var r := Parser.ParseValue(SkipWhitespace(at), depth);
            && (r.Failed? ==> Parser.ParseItems(s, depth) == Failed(r.rest))
            && (r.Parsed? && TreeOf(im) == r.value && Exact(im) && im.key == None ==>
                 var t := SkipWhitespace(r.rest);
                 if LooksAt(t, COMMA) then ItemsRead(s, depth, ims + [im], t[1..]) else ItemsEnd(s, depth,
                     ims + [im], t))
  {
    hide Parser.ParseValue, SkipWhitespace, TreeOf, Exact;
    assert (ims + [im])[..|ims|] == ims;
  }

  function MembersInFront(ims: seq<Image>, r: Outcome<Members>): Outcome<Members> {
    match r
    case Parsed(tail, rest) => Parsed(MembersOf(ims, tail), rest)
    case Failed(rest) => Failed(rest)
  }

  ghost predicate MembersRead(s: bytes, depth: nat, ims: seq<Image>, at: bytes) {
    MembersExact(ims) && Parser.ParseMembers(s, depth) == MembersInFront(ims, Parser.ParseMembers(at, depth))
  }

  ghost predicate MembersEnd(s: bytes, depth: nat, ims: seq<Image>, at: bytes) {
    && MembersExact(ims)
    && Parser.ParseMembers(s, depth) ==
         if LooksAt(at, RIGHT_BRACE) then Parsed(MembersOf(ims, NoMembers), at[1..]) else Failed(at)
  }

  lemma MembersStart(s: bytes, depth: nat)
    ensures MembersRead(s, depth, [], s)
  {
    hide Parser.ParseMembers;
  }

  lemma MembersNext(s: bytes, depth: nat, ims: seq<Image>, at: bytes, im: Image)
    requires MembersRead(s, depth, ims, at)
    ensures var k := Parser.ParseKey(at);
            && (k.Failed? ==> Parser.ParseMembers(s, depth) == Failed(k.rest))
            && (k.Parsed? ==>
                 var r := Parser.ParseValue(SkipWhitespace(k.rest), depth);
                 && (r.Failed? ==> Parser.ParseMembers(s, depth) == Failed(r.rest))
                 && (r.Parsed? && TreeOf(im) == r.value && Exact(im) && im.key == Some(k.value) ==>
                      var t := SkipWhitespace(r.rest);
                      if LooksAt(t, COMMA) then MembersRead(s, depth, ims + [im], t[1..]) else MembersEnd(s, depth,
                          ims + [im], t)))
  {
    hide Parser.ParseValue, SkipWhitespace, Parser.ParseKey, TreeOf, Exact;
    assert (ims + [im])[..|ims|] == ims;
  }

  class ParseBuffer {
    const content: bytes
    var offset: nat
    var depth: nat

    constructor (text: bytes)
      requires NulFree(text)
      ensures content == text + [NUL] && offset == 0 && depth == 0 && Inside()
    {
      content := text + [NUL];
      offset, depth := 0, 0;
      new;
      assert content[..|content| - 1] == text;
    }

    ghost predicate Valid()
      reads this
    {
      Terminated(content) && offset <= |content|
    }

    ghost predicate Inside()
      reads this
    {
      Terminated(content) && offset < |content|
    }

    ghost function Rest(): bytes
      requires offset <= |content|
      reads this
    {
      content[offset..]
    }

    lemma Consume(n: nat)
      requires Inside() && 0 < n && offset + n <= |content| && content[offset + n - 1] != NUL
      ensures offset + n < |content| && content[offset + n..] == Rest()[n..]
    {
      TerminatedSuffix(content, offset + n - 1);
    }

    /** buffer_skip_whitespace, which steps back when it has run past the terminator. */
    method SkipBlanks()
      requires Inside()
      modifies this`offset
      ensures Inside() && Rest() == SkipWhitespace(old(Rest()))
    {
      ghost var start := offset;
      while offset < |content| && content[offset] <= SPACE
        invariant start <= offset <= |content|
        invariant offset < |content| ==> SkipWhitespace(content[offset..]) == SkipWhitespace(content[start..])
        invariant offset == |content| ==> SkipWhitespace(content[start..]) == content[|content| - 1..]
      {
        assert content[offset..][0] == content[offset];
        assert content[offset..][1..] == content[offset + 1..];
        offset := offset + 1;
      }
      if offset == |content| {
        offset := offset - 1;
      } else {
        assert content[offset..][0] == content[offset];
      }
    }

    /** The second half of parse_string, for the body between `start` and the closing quote. */
    method DecodeBody(heap: Heap, start: nat, end: nat, skipped: nat) returns (output: array?<byte>, p: nat)
      requires 0 < start <= end < |content| && StringCodec.Scan(content[start..]) == Some(end - start)
      requires end - start - skipped == StringCodec.Tokens(content[start..end]) && content[start - 1] == QUOTE
      modifies heap
      ensures var r := Parser.ParseString(content[start - 1..]);
              && (output != null ==>
                    && fresh(output) && HasEnd(output) && r.Parsed? && TextOf(output) == Some(r.value)
                    && r.rest == content[end + 1..])
              && (output == null ==> start <= p <= end && (heap.refused || r == Failed(content[p..])))
      ensures output != null ==> heap.live == old(heap.live) + {output} && heap.refused == old(heap.refused)
      ensures output == null ==> heap.live == old(heap.live)
    {
      hide StringCodec.Decode, StringCodec.Scan, StringCodec.Tokens, CString, Parser.ParseString;
      StringBody(start, end);
      assert content[start..][..end - start] == content[start..end];
      assert content[end] == content[start..][end - start];
      StringCodec.DecodeFits(content[start..]);
      var allocationLength := end - (start - 1) - skipped;
      output := heap.Allocate(allocationLength + 1);
      p := start;
      if output == null {
        return;
      }
      var ok, at;
      ok, p, at := DecodeInto(content, start, end, output);
      if !ok {
        heap.Deallocate(output);
        output := null;
        return;
      }
      output[at] := NUL;
      assert output[..] == output[..at] + [NUL] + output[at + 1..];
      CStringPrefix(output[..at], output[at + 1..]);
      assert output[at] == NUL;
      p := end;
    }

    lemma StringBody(start: nat, end: nat)
      requires 0 < start <= end < |content| && content[start - 1] == QUOTE
      requires StringCodec.Scan(content[start..]) == Some(end - start)
      ensures var (d, s) := (StringCodec.Decode(content[start..end]), content[start - 1..]);
              && (d.Done? ==> Parser.ParseString(s) == Parsed(CString(d.out), content[end + 1..]))
              && (forall p: nat | d.Bad? && p <= end
                  && content[p..end] == d.at :: Parser.ParseString(s) == Failed(content[p..]))
    {
      hide StringCodec.Decode, StringCodec.Scan, CString;
      var s, n := content[start - 1..], end - start;
      assert s[0] == content[start - 1] && s[1..] == content[start..];
      assert s[1..][..n] == content[start..end];
      assert s[n + 2..] == content[end + 1..];
      var d := StringCodec.Decode(content[start..end]);
      forall p: nat | d.Bad? && p <= end && content[p..end] == d.at
        ensures Parser.ParseString(s) == Failed(content[p..])
      {
        assert |d.at| == end - p;
        assert s[n + 1 - |d.at|..] == content[p..];
      }
    }

    lemma NoString()
      requires Inside()
      ensures content[offset] != QUOTE ==> Parser.ParseString(Rest()) == Failed(content[offset + 1..])
      ensures content[offset] == QUOTE && StringCodec.Scan(content[offset + 1..]).None? ==>
                Parser.ParseString(Rest()) == Failed(content[offset + 1..])
    {
      hide StringCodec.Decode, StringCodec.Scan, CString;
      assert Rest()[0] == content[offset] && Rest()[1..] == content[offset + 1..];
    }

    /** parse_string */
    method ParseString(heap: Heap, item: Node) returns (ok: bool)
      requires Inside() && item.valuestring == null
      modifies this`offset, heap, item`kind, item`valuestring
      ensures Valid()
      ensures ok ==>
              Inside() && item.kind == IsString && item.valuestring != null && fresh(item.valuestring)
                  && HasEnd(item.valuestring)
      ensures ok ==>
                var r := Parser.ParseString(old(Rest()));
                r.Parsed? && TextOf(item.valuestring) == Some(r.value) && Rest() == r.rest
      ensures ok ==> heap.live == old(heap.live) + {item.valuestring} && heap.refused == old(heap.refused)
      ensures !ok ==> heap.live == old(heap.live) && item.valuestring == null
      ensures !ok ==> heap.refused || Parser.ParseString(old(Rest())) == Failed(Rest())
    {
      hide StringCodec.Decode, StringCodec.Scan, StringCodec.Tokens, CString, Parser.ParseString, TextOf, HasEnd;
      var start := offset + 1;
      NoString();
      if content[offset] != QUOTE {
        offset := start;
        return false;
      }
      var found, end, skipped := ScanString(content, start);
      if !found {
        offset := start;
        return false;
      }
      assert content[end] == content[start..][end - start];
      Consume(end + 1 - offset);
      var output, p := DecodeBody(heap, start, end, skipped);
      if output == null {
        offset := p;
        return false;
      }
      item.kind := IsString;
      item.valuestring := output;
      offset := end + 1;
      ok := true;
    }

    /** The first `i` bytes can belong to a number, and `copy` holds them. */
    ghost predicate Copied(copy: bytes)
      reads this
    {
      var i := |copy|;
      && offset + i <= |content| && i <= NumberCodec.COPY_LIMIT && copy == content[offset..offset + i]
      && NumberCodec.Run(Rest(), NumberCodec.COPY_LIMIT) == i + NumberCodec.Run(Rest()[i..], NumberCodec.COPY_LIMIT - i)
    }

    lemma CopiedStep(copy: bytes)
      requires Copied(copy)
      ensures var i := |copy|;
              if i < NumberCodec.COPY_LIMIT && offset + i < |content| && NumberCodec.IsNumberByte(content[offset + i])
              then Copied(copy + [content[offset + i]])
              else copy == Rest()[..NumberCodec.Run(Rest(), NumberCodec.COPY_LIMIT)]
    {
      var t := Rest()[|copy|..];
      if t != [] {
        assert t[0] == content[offset + |copy|] && t[1..] == Rest()[|copy| + 1..];
      }
    }

    /** The copy of the bytes a number can have, for strtod. */
    method NumberBytes() returns (copy: bytes)
      requires Inside()
      ensures copy == Rest()[..NumberCodec.Run(Rest(), NumberCodec.COPY_LIMIT)]
    {
      copy := [];
      assert Copied(copy) by {
        assert Rest()[0..] == Rest();
      }
      hide NumberCodec.Run, Copied;
      while |copy| < NumberCodec.COPY_LIMIT && offset + |copy| < |content|
          && NumberCodec.IsNumberByte(content[offset + |copy|])
        invariant Copied(copy) && |copy| <= NumberCodec.COPY_LIMIT
      {
        CopiedStep(copy);
        copy := copy + [content[offset + |copy|]];
      }
      CopiedStep(copy);
    }

    /** parse_number: the bytes a number can have are copied, and strtod reads the copy. */
    method ParseNumber(item: Node) returns (ok: bool)
      requires Inside()
      modifies this`offset, item`kind, item`valuedouble
      ensures var r := NumberCodec.ParseNumber(old(Rest()));
              && (ok <==> r.Some?)
              && (ok ==>
                      Inside() && item.kind == IsNumber && item.valuedouble == r.value.0
                          && Rest() == old(Rest())[r.value.1..])
              && (!ok ==> offset == old(offset))
    {
      hide NumberCodec.Strtod, NumberCodec.Run;
      var copy := NumberBytes();
      ghost var s := Rest();
      var r := NumberCodec.Strtod(copy);
      assert r == NumberCodec.ParseNumber(s);
      ok := r.Some?;
      if ok {
        var (x, n) := r.value;
        item.kind := IsNumber;
        item.valuedouble := x;
        assert NumberCodec.IsNumberByte(s[n - 1]) && s[n - 1] == content[offset + n - 1];
        Consume(n);
        offset := offset + n;
      }
    }

    /** The comparison of parse_value with one of the three literals. */
    predicate LooksAtWord(word: bytes)
      requires offset <= |content|
      reads this
      ensures LooksAtWord(word) <==> word <= Rest()
    {
      assert offset + |word| <= |content| ==> content[offset..offset + |word|] == Rest()[..|word|];
      offset + |word| <= |content| && content[offset..offset + |word|] == word
    }

    /** A literal: the node has a kind and nothing else. */
    method ParseLiteral(item: Node, ghost key: array?<byte>, word: bytes, kind: Kind) returns (ghost s: Shape)
      requires Inside() && Fillable(item, key) && word <= Rest() && word != [] && word[|word| - 1] != NUL
      modifies this`offset, item`kind
      ensures Inside() && offset == old(offset) + |word| && Rest() == old(Rest())[|word|..]
      ensures Filled(s, item, key) && Below(s) == {} && s.node.kind == kind
      ensures ImageOf(s) == Image(kind, item.valuedouble, None, TextOf(key), [])
    {
      assert content[offset + |word| - 1] == Rest()[|word| - 1];
      Consume(|word|);
      item.kind := kind;
      offset := offset + |word|;
      s := Shape(item, false, false, null, key, []);
      FilledLeaf(item, key, s);
    }

    /** The three literals; when there is none, nothing has changed. */
    method ParseWord(item: Node, ghost key: array?<byte>) returns (found: bool, ghost s: Shape)
      requires Inside() && Fillable(item, key)
      modifies this`offset, item`kind
      ensures Inside() && Filled(s, item, key) && Below(s) == {}
      ensures found ==> old(offset) < offset
      ensures found ==> Exact(ImageOf(s))
      ensures found ==> forall depth: nat :: Parser.ParseValue(old(Rest()), depth) == Parsed(TreeOf(ImageOf(s)), Rest())
      ensures !found ==>
              offset == old(offset) && !(NULL_TEXT <= Rest()) && !(FALSE_TEXT <= Rest()) && !(TRUE_TEXT <= Rest())
    {
      hide Linked, NodesOf, NodeSet, NodeSets, Inner, TextSet, TextSets, Blocks, AllBlocks, ImageOf, Images, ItemsOf;
      hide MembersOf;
      hide Separate, AllSeparate, Shaped, AllShaped, NoReference, AllNoReference, Readable, AllReadable, Whole, Grown;
      hide Hung, Filled, Below, OwnsNames, AllOwnNames, ItemsExact, MembersExact;
      found := true;
      if LooksAtWord(NULL_TEXT) {
        s := ParseLiteral(item, key, NULL_TEXT, IsNull);
      } else if LooksAtWord(FALSE_TEXT) {
        s := ParseLiteral(item, key, FALSE_TEXT, IsFalse);
      } else if LooksAtWord(TRUE_TEXT) {
        s := ParseLiteral(item, key, TRUE_TEXT, IsTrue);
      } else {
        found := false;
        s := Shape(item, false, false, null, key, []);
        FilledLeaf(item, key, s);
      }
    }

    /** A string as a value. */
    method FillString(heap: Heap, item: Node, ghost key: array?<byte>) returns (ok: bool, ghost s: Shape)
      requires Inside() && Fillable(item, key)
      modifies this`offset, heap, item`kind, item`valuestring
      ensures Valid() && Filled(s, item, key) && fresh(Below(s)) && heap.live == old(heap.live) + Below(s)
      ensures ok ==> Inside() && heap.refused == old(heap.refused)
      ensures var r := Parser.ParseString(old(Rest()));
              && (ok ==> r.Parsed? && TreeOf(ImageOf(s)) == Str(r.value) && Exact(ImageOf(s)) && Rest() == r.rest)
              && (!ok ==> Below(s) == {} && (heap.refused || r == Failed(Rest())))
    {
      hide Linked, NodesOf, NodeSet, NodeSets, Inner, TextSet, TextSets, Blocks, AllBlocks, ImageOf, Images, ItemsOf;
      hide MembersOf;
      hide Separate, AllSeparate, Shaped, AllShaped, NoReference, AllNoReference, Readable, AllReadable, Whole, Grown;
      hide Hung, Filled, Below, OwnsNames, AllOwnNames, ItemsExact, MembersExact;
      hide Parser.ParseString;
      ok := ParseString(heap, item);
      s := Shape(item, false, false, item.valuestring, key, []);
      FilledLeaf(item, key, s);
    }

    /** A number as a value. */
    method FillNumber(item: Node, ghost key: array?<byte>) returns (ok: bool, ghost s: Shape)
      requires Inside() && Fillable(item, key)
      modifies this`offset, item`kind, item`valuedouble
      ensures Inside() && Filled(s, item, key) && Below(s) == {}
      ensures var r := NumberCodec.ParseNumber(old(Rest()));
              && (ok <==> r.Some?)
              && (ok ==>
                    && TreeOf(ImageOf(s)) == Number(r.value.0) && Exact(ImageOf(s))
                    && Rest() == old(Rest())[r.value.1..])
              && (!ok ==> offset == old(offset))
    {
      hide Linked, NodesOf, NodeSet, NodeSets, Inner, TextSet, TextSets, Blocks, AllBlocks, ImageOf, Images, ItemsOf;
      hide MembersOf;
      hide Separate, AllSeparate, Shaped, AllShaped, NoReference, AllNoReference, Readable, AllReadable, Whole, Grown;
      hide Hung, Filled, Below, OwnsNames, AllOwnNames, ItemsExact, MembersExact;
      hide NumberCodec.ParseNumber;
      ok := ParseNumber(item);
      s := Shape(item, false, false, null, key, []);
      FilledLeaf(item, key, s);
    }

    /** parse_value: the node is filled in with the next value of the input. When that fails, it has
        got nothing, and the input is left at the error, unless the reason is a refused allocation. */
    method ParseValue(heap: Heap, item: Node, ghost key: array?<byte>) returns (ok: bool, ghost s: Shape)
      requires Inside() && Fillable(item, key)
      modifies this`offset, this`depth, heap, item`kind, item`child, item`valuestring, item`valuedouble
      ensures Valid() && Filled(s, item, key) && fresh(Below(s)) && heap.live == old(heap.live) + Below(s)
      ensures ok ==> Inside() && old(offset) < offset && depth == old(depth) && heap.refused == old(heap.refused)
      ensures ok ==>
                Parser.ParseValue(old(Rest()), old(depth)) == Parsed(TreeOf(ImageOf(s)), Rest()) && Exact(ImageOf(s))
      ensures !ok ==> Below(s) == {} && (heap.refused || Parser.ParseValue(old(Rest()), old(depth)) == Failed(Rest()))
      decreases |content| - offset, 7
    {
      hide Linked, NodesOf, NodeSet, NodeSets, Inner, TextSet, TextSets, Blocks, AllBlocks, ImageOf, Images, TreeOf;
      hide ItemsOf, MembersOf;
      hide Separate, AllSeparate, Shaped, AllShaped, NoReference, AllNoReference, Readable, AllReadable, Whole, Grown;
      hide Hung, Filled, Below, OwnsNames, AllOwnNames, ItemsExact, MembersExact;
      hide NumberCodec.ParseNumber, Parser.ParseString, Parser.ParseArray, Parser.ParseObject, Parser.ParseValue;
      hide LooksAtWord;
      OtherValue(Rest(), depth);
      ok, s := ParseWord(item, key);
      if ok {
        return;
      }
      ok := true;
      assert Rest()[0] == content[offset];
      if content[offset] == QUOTE {
        ok, s := FillString(heap, item, key);
      } else if content[offset] == MINUS || NumberCodec.IsDigit(content[offset]) {
        ok, s := FillNumber(item, key);
      } else if content[offset] == LEFT_BRACKET {
        ok, s := ParseArray(heap, item, key);
      } else if content[offset] == LEFT_BRACE {
        ok, s := ParseObject(heap, item, key);
      } else {
        ok := false;
        s := Shape(item, false, false, null, key, []);
        FilledLeaf(item, key, s);
      }
    }

    /** parse_array */
    method ParseArray(heap: Heap, item: Node, ghost key: array?<byte>) returns (ok: bool, ghost s: Shape)
      requires Inside() && content[offset] == LEFT_BRACKET && Fillable(item, key)
      modifies this`offset, this`depth, heap, item`kind, item`child
      ensures Valid() && Filled(s, item, key) && fresh(Below(s)) && heap.live == old(heap.live) + Below(s)
      ensures ok ==> Inside() && old(offset) < offset && depth == old(depth) && heap.refused == old(heap.refused)
      ensures LooksAt(old(Rest()), LEFT_BRACKET)
      ensures ok ==>
                Parser.ParseArray(old(Rest()), old(depth)) == Parsed(TreeOf(ImageOf(s)), Rest()) && Exact(ImageOf(s))
      ensures !ok ==> Below(s) == {} && (heap.refused || Parser.ParseArray(old(Rest()), old(depth)) == Failed(Rest()))
      decreases |content| - offset, 6
    {
      hide Linked, NodesOf, NodeSet, NodeSets, Inner, TextSet, TextSets, Blocks, AllBlocks, ImageOf, Images, TreeOf;
      hide ItemsOf, MembersOf;
      hide Separate, AllSeparate, Shaped, AllShaped, NoReference, AllNoReference, Readable, AllReadable, Whole, Grown;
      hide Hung, Filled, Below, OwnsNames, AllOwnNames, ItemsExact, MembersExact;
      hide Parser.ParseArray, SkipWhitespace;
      ArraySpec(Rest(), depth);
      assert Rest()[0] == content[offset];
      s := Shape(item, false, false, null, key, []);
      ok := false;
      var head: Node? := null;
      ghost var l := [];
      if depth < NESTING_LIMIT {
        ok, head, l := ArrayBody(heap);
      }
      if !ok {
        FilledLeaf(item, key, s);
        return;
      }
      s := FinishList(item, key, head, IsArray, l);
      TreeOfArray(ImageOf(s));
      ExactArray(ImageOf(s));
    }

    /** The success exit of parse_array and of parse_object. */
    method FinishList(item: Node, ghost key: array?<byte>, head: Node?, kind: Kind, ghost l: seq<Shape>)
      returns (ghost s: Shape)
      requires Inside() && content[offset] != NUL && depth > 0 && Fillable(item, key)
      requires Grown(head, l) && item !in AllBlocks(l) && Strings(key) !! AllBlocks(l)
      modifies this`offset, this`depth, item`kind, item`child
      ensures Inside() && offset == old(offset) + 1 && depth == old(depth) - 1 && Rest() == old(Rest())[1..]
      ensures Filled(s, item, key) && Below(s) == AllBlocks(l)
      ensures ImageOf(s) == Image(kind, 0.0, None, TextOf(key), old(Images(l)))
    {
      hide Linked, NodesOf, NodeSet, NodeSets, Inner, TextSet, TextSets, Blocks, AllBlocks, ImageOf, Images, ItemsOf;
      hide MembersOf;
      hide Separate, AllSeparate, Shaped, AllShaped, NoReference, AllNoReference, Readable, AllReadable, Whole, Grown;
      hide Hung, Filled, Below, OwnsNames, AllOwnNames, ItemsExact, MembersExact;
      AllAllocated(l);
      BuiltApart(head, l, item);
      Consume(1);
      depth := depth - 1;
      item.kind := kind;
      item.child := head;
      offset := offset + 1;
      s := Shape(item, false, false, null, key, l);
      FilledList(item, key, l, s);
    }

    /** Past the opening byte of an array or an object, up to what is in it. */
    method OpenList()
      requires Inside() && content[offset] != NUL
      modifies this`offset, this`depth
      ensures Inside() && old(offset) < offset && depth == old(depth) + 1 && Rest() == SkipWhitespace(old(Rest())[1..])
    {
      hide SkipWhitespace;
      depth := depth + 1;
      Consume(1);
      offset := offset + 1;
      SkipBlanks();
    }

    /** What stands between the check of the depth and the closing byte. */
    method ArrayBody(heap: Heap) returns (ok: bool, head: Node?, ghost l: seq<Shape>)
      requires Inside() && content[offset] == LEFT_BRACKET && depth < NESTING_LIMIT
      modifies this`offset, this`depth, heap
      ensures Valid() && Grown(head, l) && fresh(AllBlocks(l)) && heap.live == old(heap.live) + AllBlocks(l)
      ensures ok ==> Inside() && old(offset) < offset && depth == old(depth) + 1 && heap.refused == old(heap.refused)
      ensures LooksAt(old(Rest()), LEFT_BRACKET)
      ensures ok ==> content[offset] == RIGHT_BRACKET && ItemsExact(Images(l))
      ensures ok ==> Parser.ParseArray(old(Rest()), old(depth)) == Parsed(Array(ItemsOf(Images(l), NoItems)),
          Rest()[1..])
      ensures !ok ==>
              heap.live == old(heap.live)
                  && (heap.refused || Parser.ParseArray(old(Rest()), old(depth)) == Failed(Rest()))
      decreases |content| - offset, 5
    {
      hide Linked, NodesOf, NodeSet, NodeSets, Inner, TextSet, TextSets, Blocks, AllBlocks, ImageOf, Images, TreeOf;
      hide ItemsOf, MembersOf;
      hide Separate, AllSeparate, Shaped, AllShaped, NoReference, AllNoReference, Readable, AllReadable, Whole, Grown;
      hide Hung, Filled, Below, OwnsNames, AllOwnNames, ItemsExact, MembersExact;
      hide Parser.ParseItems, Parser.ParseArray, SkipWhitespace;
      ArraySpec(Rest(), depth);
      assert Rest()[0] == content[offset];
      OpenList();
      assert Rest()[0] == content[offset];
      head, l := null, [];
      NothingGrown();
      ok := true;
      if content[offset] != RIGHT_BRACKET {
        // step back to the character in front of the first element
        offset := offset - 1;
        ok, head, l := ParseItems(heap);
        if !ok {
          BuiltParts(head, l);
          Delete(heap, head, l);
          head, l := null, [];
          NothingGrown();
        }
      }
    }

    /** The loop over the elements, from the byte in front of the first one. */
    method ParseItems(heap: Heap) returns (ok: bool, head: Node?, ghost l: seq<Shape>)
      requires Terminated(content) && offset + 1 < |content|
      modifies this`offset, this`depth, heap
      ensures Valid() && Grown(head, l) && fresh(AllBlocks(l)) && heap.live == old(heap.live) + AllBlocks(l)
      ensures ok ==> Inside() && old(offset) < offset && depth == old(depth) && heap.refused == old(heap.refused)
      ensures ok ==> content[offset] == RIGHT_BRACKET && ItemsExact(Images(l))
      ensures ok ==> Parser.ParseItems(old(content[offset + 1..]), old(depth)) == Parsed(ItemsOf(Images(l), NoItems),
          Rest()[1..])
      ensures !ok ==> heap.refused || Parser.ParseItems(old(content[offset + 1..]), old(depth)) == Failed(Rest())
      decreases |content| - offset, 4
    {
      hide Linked, NodesOf, NodeSet, NodeSets, Inner, TextSet, TextSets, Blocks, AllBlocks, ImageOf, Images, TreeOf;
      hide ItemsOf, MembersOf;
      hide Separate, AllSeparate, Shaped, AllShaped, NoReference, AllNoReference, Readable, AllReadable, Whole, Grown;
      hide Hung, Filled, Below, OwnsNames, AllOwnNames, ItemsExact, MembersExact;
      hide Parser.ParseItems, ItemsRead;
      ghost var start := content[offset + 1..];
      head, l := null, [];
      NothingGrown();
      ItemsStart(start, depth);
      ok := true;
      var current: Node? := null;
      var more := true;
      while more
        invariant Terminated(content) && old(offset) <= offset < |content| && depth == old(depth)
            && heap.refused == old(heap.refused)
        invariant Grown(head, l) && fresh(AllBlocks(l)) && heap.live == old(heap.live) + AllBlocks(l)
        invariant current == if l == [] then null else l[|l| - 1].node
        invariant forall n | n in Only(current) :: n in AllBlocks(l)
        invariant more ==> offset + 1 < |content| && ItemsRead(start, depth, Images(l), content[offset + 1..])
        invariant !more ==> old(offset) < offset && ItemsEnd(start, depth, Images(l), Rest())
        decreases |content| - offset, more
      {
        ok, head, current, l := ParseElement(heap, head, current, l, old(heap.live), start);
        if !ok {
          return;
        }
        GrownOwned(head, l);
        more := content[offset] == COMMA;
        if more {
          Consume(1);
        }
      }
      assert Rest()[0] == content[offset];
      ok := content[offset] == RIGHT_BRACKET;
    }

    /** The next item, linked behind the last one of the list. */
    method NextItem(heap: Heap, head: Node?, last: Node?, ghost l: seq<Shape>) returns (item: Node?, head': Node?)
      requires Grown(head, l) && last == if l == [] then null else l[|l| - 1].node
      modifies heap, Only(last)`next
      ensures item == null ==> head' == head && Grown(head, l) && heap.refused && heap.live == old(heap.live)
      ensures item != null ==> fresh(item) && Hung(head', l, item) && Fillable(item, null)
      ensures item != null ==> heap.live == old(heap.live) + {item} && heap.refused == old(heap.refused)
    {
      hide Linked, NodesOf, NodeSet, NodeSets, Inner, TextSet, TextSets, Blocks, AllBlocks, ImageOf, Images, TreeOf;
      hide ItemsOf, MembersOf;
      hide Separate, AllSeparate, Shaped, AllShaped, NoReference, AllNoReference, Readable, AllReadable, Whole, Grown;
      hide Hung, Filled, Below, OwnsNames, AllOwnNames, ItemsExact, MembersExact;
      head' := head;
      AllAllocated(l);
      item := heap.NewItem();
      if item == null {
        return;
      }
      ghost var c := Shape(item, false, false, null, null, []);
      FilledLeaf(item, null, c);
      EmptyItem(c, item);
      BuiltParts(head, l);
      head' := AttachLast(head, last, item, l, c);
      AllAllocated(l);
      HungUp(head', l, c);
    }

    /** The value behind the byte at the offset, with the whitespace around it. */
    method ParseNext(heap: Heap, item: Node, ghost key: array?<byte>) returns (ok: bool, ghost s: Shape)
      requires Terminated(content) && offset + 1 < |content| && Fillable(item, key)
      modifies this`offset, this`depth, heap, item`kind, item`child, item`valuestring, item`valuedouble
      ensures Valid() && Filled(s, item, key) && fresh(Below(s)) && heap.live == old(heap.live) + Below(s)
      ensures ok ==> Inside() && old(offset) < offset && depth == old(depth) && heap.refused == old(heap.refused)
      ensures var r := Parser.ParseValue(SkipWhitespace(old(content[offset + 1..])), old(depth));
              && (ok ==>
                    && r.Parsed? && r.value == TreeOf(ImageOf(s)) && Exact(ImageOf(s))
                    && Rest() == SkipWhitespace(r.rest))
              && (!ok ==> Below(s) == {} && (heap.refused || r == Failed(Rest())))
      decreases |content| - offset, 1
    {
      hide Linked, NodesOf, NodeSet, NodeSets, Inner, TextSet, TextSets, Blocks, AllBlocks, ImageOf, Images, ItemsOf;
      hide MembersOf;
      hide Separate, AllSeparate, Shaped, AllShaped, NoReference, AllNoReference, Readable, AllReadable, Whole, Grown;
      hide Hung, Filled, Below, OwnsNames, AllOwnNames, ItemsExact, MembersExact;
      hide Parser.ParseValue, SkipWhitespace;
      offset := offset + 1;
      SkipBlanks();
      ok, s := ParseValue(heap, item, key);
      Allocated(s);
      AllAllocated(s.kids);
      if ok {
        SkipBlanks();
      }
    }

    /** One turn of that loop. */
    method ParseElement(heap: Heap, head: Node?, last: Node?, ghost l: seq<Shape>, ghost live: set<object>,
        ghost start: bytes)
      returns (ok: bool, head': Node?, current: Node?, ghost l': seq<Shape>)
      requires Terminated(content) && offset + 1 < |content|
      requires Grown(head, l) && last == (if l == [] then null else l[|l| - 1].node) && heap.live == live + AllBlocks(l)
      requires ItemsRead(start, depth, Images(l), content[offset + 1..])
      modifies this`offset, this`depth, heap, Only(last)`next
      ensures Valid() && Grown(head', l') && fresh(AllBlocks(l') - AllBlocks(l)) && heap.live == live + AllBlocks(l')
      ensures ok ==> Inside() && old(offset) < offset && depth == old(depth) && heap.refused == old(heap.refused)
      ensures ok ==> l' != [] && current == l'[|l'| - 1].node
      ensures ok ==> if content[offset] == COMMA then ItemsRead(start, depth, Images(l'), content[offset + 1..])
                     else ItemsEnd(start, depth, Images(l'), Rest())
      ensures !ok ==> heap.refused || Parser.ParseItems(start, old(depth)) == Failed(Rest())
      decreases |content| - offset, 3
    {
      hide Linked, NodesOf, NodeSet, NodeSets, Inner, TextSet, TextSets, Blocks, AllBlocks, ImageOf, Images, TreeOf;
      hide ItemsOf, MembersOf;
      hide Separate, AllSeparate, Shaped, AllShaped, NoReference, AllNoReference, Readable, AllReadable, Whole, Grown;
      hide Hung, Filled, Below, OwnsNames, AllOwnNames, ItemsExact, MembersExact;
      hide Parser.ParseItems, Parser.ParseValue, SkipWhitespace, Fillable, ItemsRead, ItemsEnd;
      ok, current, l' := false, null, l;
      AllAllocated(l);
      ghost var (ims, at) := (Images(l), content[offset + 1..]);
      var item;
      item, head' := NextItem(heap, head, last, l);
      if item == null {
        return;
      }
      HungApart(head', l, item);
      AllAllocated(l);
      ghost var s;
      ok, s := ParseNext(heap, item, null);
      Hanging(head', l, item, null, s);
      ItemsNext(start, old(depth), ims, at, ImageOf(s));
      current, l' := item, l + [s];
      if ok {
        assert Rest()[0] == content[offset];
      }
    }

    /** parse_object */
    method ParseObject(heap: Heap, item: Node, ghost key: array?<byte>) returns (ok: bool, ghost s: Shape)
      requires Inside() && content[offset] == LEFT_BRACE && Fillable(item, key)
      modifies this`offset, this`depth, heap, item`kind, item`child
      ensures Valid() && Filled(s, item, key) && fresh(Below(s)) && heap.live == old(heap.live) + Below(s)
      ensures ok ==> Inside() && old(offset) < offset && depth == old(depth) && heap.refused == old(heap.refused)
      ensures LooksAt(old(Rest()), LEFT_BRACE)
      ensures ok ==>
                Parser.ParseObject(old(Rest()), old(depth)) == Parsed(TreeOf(ImageOf(s)), Rest()) && Exact(ImageOf(s))
      ensures !ok ==> Below(s) == {} && (heap.refused || Parser.ParseObject(old(Rest()), old(depth)) == Failed(Rest()))
      decreases |content| - offset, 6
    {
      hide Linked, NodesOf, NodeSet, NodeSets, Inner, TextSet, TextSets, Blocks, AllBlocks, ImageOf, Images, TreeOf;
      hide ItemsOf, MembersOf;
      hide Separate, AllSeparate, Shaped, AllShaped, NoReference, AllNoReference, Readable, AllReadable, Whole, Grown;
      hide Hung, Filled, Below, OwnsNames, AllOwnNames, ItemsExact, MembersExact;
      hide Parser.ParseObject, SkipWhitespace;
      ObjectSpec(Rest(), depth);
      assert Rest()[0] == content[offset];
      s := Shape(item, false, false, null, key, []);
      ok := false;
      var head: Node? := null;
      ghost var l := [];
      if depth < NESTING_LIMIT {
        ok, head, l := ObjectBody(heap);
      }
      if !ok {
        FilledLeaf(item, key, s);
        return;
      }
      s := FinishList(item, key, head, IsObject, l);
      TreeOfObject(ImageOf(s));
      ExactObject(ImageOf(s));
    }

    /** What stands between the check of the depth and the closing byte. */
    method ObjectBody(heap: Heap) returns (ok: bool, head: Node?, ghost l: seq<Shape>)
      requires Inside() && content[offset] == LEFT_BRACE && depth < NESTING_LIMIT
      modifies this`offset, this`depth, heap
      ensures Valid() && Grown(head, l) && fresh(AllBlocks(l)) && heap.live == old(heap.live) + AllBlocks(l)
      ensures ok ==> Inside() && old(offset) < offset && depth == old(depth) + 1 && heap.refused == old(heap.refused)
      ensures LooksAt(old(Rest()), LEFT_BRACE)
      ensures ok ==> content[offset] == RIGHT_BRACE && MembersExact(Images(l))
      ensures ok ==> Parser.ParseObject(old(Rest()), old(depth)) == Parsed(Object(MembersOf(Images(l), NoMembers)),
          Rest()[1..])
      ensures !ok ==>
              heap.live == old(heap.live)
                  && (heap.refused || Parser.ParseObject(old(Rest()), old(depth)) == Failed(Rest()))
      decreases |content| - offset, 5
    {
      hide Linked, NodesOf, NodeSet, NodeSets, Inner, TextSet, TextSets, Blocks, AllBlocks, ImageOf, Images, TreeOf;
      hide ItemsOf, MembersOf;
      hide Separate, AllSeparate, Shaped, AllShaped, NoReference, AllNoReference, Readable, AllReadable, Whole, Grown;
      hide Hung, Filled, Below, OwnsNames, AllOwnNames, ItemsExact, MembersExact;
      hide Parser.ParseMembers, Parser.ParseObject, SkipWhitespace;
      ObjectSpec(Rest(), depth);
      assert Rest()[0] == content[offset];
      OpenList();
      assert Rest()[0] == content[offset];
      head, l := null, [];
      NothingGrown();
      ok := true;
      if content[offset] != RIGHT_BRACE {
        // step back to the character in front of the first member
        offset := offset - 1;
        ok, head, l := ParseMembers(heap);
        if !ok {
          BuiltParts(head, l);
          Delete(heap, head, l);
          head, l := null, [];
          NothingGrown();
        }
      }
    }

    /** The loop over the members, from the byte in front of the first one. */
    method ParseMembers(heap: Heap) returns (ok: bool, head: Node?, ghost l: seq<Shape>)
      requires Terminated(content) && offset + 1 < |content|
      modifies this`offset, this`depth, heap
      ensures Valid() && Grown(head, l) && fresh(AllBlocks(l)) && heap.live == old(heap.live) + AllBlocks(l)
      ensures ok ==> Inside() && old(offset) < offset && depth == old(depth) && heap.refused == old(heap.refused)
      ensures ok ==> content[offset] == RIGHT_BRACE && MembersExact(Images(l))
      ensures ok ==> Parser.ParseMembers(old(content[offset + 1..]), old(depth)) == Parsed(MembersOf(Images(l),
          NoMembers), Rest()[1..])
      ensures !ok ==> heap.refused || Parser.ParseMembers(old(content[offset + 1..]), old(depth)) == Failed(Rest())
      decreases |content| - offset, 4
    {
      hide Linked, NodesOf, NodeSet, NodeSets, Inner, TextSet, TextSets, Blocks, AllBlocks, ImageOf, Images, TreeOf;
      hide ItemsOf, MembersOf;
      hide Separate, AllSeparate, Shaped, AllShaped, NoReference, AllNoReference, Readable, AllReadable, Whole, Grown;
      hide Hung, Filled, Below, OwnsNames, AllOwnNames, ItemsExact, MembersExact;
      hide Parser.ParseMembers, MembersRead;
      ghost var start := content[offset + 1..];
      head, l := null, [];
      NothingGrown();
      MembersStart(start, depth);
      ok := true;
      var current: Node? := null;
      var more := true;
      while more
        invariant Terminated(content) && old(offset) <= offset < |content| && depth == old(depth)
            && heap.refused == old(heap.refused)
        invariant Grown(head, l) && fresh(AllBlocks(l)) && heap.live == old(heap.live) + AllBlocks(l)
        invariant current == if l == [] then null else l[|l| - 1].node
        invariant forall n | n in Only(current) :: n in AllBlocks(l)
        invariant more ==> offset + 1 < |content| && MembersRead(start, depth, Images(l), content[offset + 1..])
        invariant !more ==> old(offset) < offset && MembersEnd(start, depth, Images(l), Rest())
        decreases |content| - offset, more
      {
        ok, head, current, l := ParseMember(heap, head, current, l, old(heap.live), start);
        if !ok {
          return;
        }
        GrownOwned(head, l);
        more := content[offset] == COMMA;
        if more {
          Consume(1);
        }
      }
      assert Rest()[0] == content[offset];
      ok := content[offset] == RIGHT_BRACE;
    }

    /** The key of a member and its colon; the node keeps the key as its name. */
    method ParseName(heap: Heap, item: Node) returns (ok: bool)
      requires Terminated(content) && offset + 1 < |content| && Fillable(item, null)
      modifies this`offset, heap, item`kind, item`valuestring, item`name
      ensures Valid() && Fillable(item, item.name) && fresh(Strings(item.name))
          && heap.live == old(heap.live) + Strings(item.name)
      ensures ok ==> old(offset) < offset && offset + 1 < |content| && heap.refused == old(heap.refused)
      ensures ok ==>
                var k := Parser.ParseKey(old(content[offset + 1..]));
                k.Parsed? && TextOf(item.name) == Some(k.value) && content[offset + 1..] == k.rest
      ensures !ok ==> heap.refused || Parser.ParseKey(old(content[offset + 1..])) == Failed(Rest())
    {
      hide Parser.ParseString, SkipWhitespace, CString, TextIn, TextOf, NulFree;
      offset := offset + 1;
      SkipBlanks();
      ok := ParseString(heap, item);
      if !ok {
        return;
      }
      SkipBlanks();
      // the string that was parsed is the name
      item.name := item.valuestring;
      item.valuestring := null;
      assert Rest()[0] == content[offset];
      ok := content[offset] == COLON;
      if ok {
        Consume(1);
      }
    }

    /** The key and the value of a member. */
    method FillMember(heap: Heap, item: Node) returns (ok: bool, ghost s: Shape)
      requires Terminated(content) && offset + 1 < |content| && Fillable(item, null)
      modifies this`offset, this`depth, heap, item`kind, item`child, item`valuestring, item`valuedouble, item`name
      ensures Valid() && Filled(s, item, item.name) && fresh(Strings(item.name)) && fresh(Below(s))
      ensures heap.live == old(heap.live) + Strings(item.name) + Below(s)
      ensures ok ==> Inside() && old(offset) < offset && depth == old(depth) && heap.refused == old(heap.refused)
      ensures var k := Parser.ParseKey(old(content[offset + 1..]));
              && (ok ==> k.Parsed? && TextOf(item.name) == Some(k.value))
              && (k.Parsed? ==>
                    var r := Parser.ParseValue(SkipWhitespace(k.rest), old(depth));
                    && (ok ==>
                          && r.Parsed? && r.value == TreeOf(ImageOf(s)) && Exact(ImageOf(s))
                          && Rest() == SkipWhitespace(r.rest))
                    && (!ok ==> heap.refused || r == Failed(Rest())))
              && (k.Failed? ==> heap.refused || k == Failed(Rest()))
      decreases |content| - offset, 2
    {
      hide Linked, NodesOf, NodeSet, NodeSets, Inner, TextSet, TextSets, Blocks, AllBlocks, ImageOf, Images, ItemsOf;
      hide MembersOf;
      hide Separate, AllSeparate, Shaped, AllShaped, NoReference, AllNoReference, Readable, AllReadable, Whole, Grown;
      hide Hung, Filled, Below, OwnsNames, AllOwnNames, ItemsExact, MembersExact;
      hide Parser.ParseKey, Parser.ParseValue, SkipWhitespace, CString;
      ok := ParseName(heap, item);
      if ok {
        ok, s := ParseNext(heap, item, item.name);
      } else {
        s := Shape(item, false, false, null, item.name, []);
        FilledLeaf(item, item.name, s);
      }
    }

    /** One turn of that loop. */
    method ParseMember(heap: Heap, head: Node?, last: Node?, ghost l: seq<Shape>, ghost live: set<object>,
        ghost start: bytes)
      returns (ok: bool, head': Node?, current: Node?, ghost l': seq<Shape>)
      requires Terminated(content) && offset + 1 < |content|
      requires Grown(head, l) && last == (if l == [] then null else l[|l| - 1].node) && heap.live == live + AllBlocks(l)
      requires MembersRead(start, depth, Images(l), content[offset + 1..])
      modifies this`offset, this`depth, heap, Only(last)`next
      ensures Valid() && Grown(head', l') && fresh(AllBlocks(l') - AllBlocks(l)) && heap.live == live + AllBlocks(l')
      ensures ok ==> Inside() && old(offset) < offset && depth == old(depth) && heap.refused == old(heap.refused)
      ensures ok ==> l' != [] && current == l'[|l'| - 1].node
      ensures ok ==> if content[offset] == COMMA then MembersRead(start, depth, Images(l'), content[offset + 1..])
                     else MembersEnd(start, depth, Images(l'), Rest())
      ensures !ok ==> heap.refused || Parser.ParseMembers(start, old(depth)) == Failed(Rest())
      decreases |content| - offset, 3
    {
      hide Linked, NodesOf, NodeSet, NodeSets, Inner, TextSet, TextSets, Blocks, AllBlocks, ImageOf, Images, TreeOf;
      hide ItemsOf, MembersOf;
      hide Separate, AllSeparate, Shaped, AllShaped, NoReference, AllNoReference, Readable, AllReadable, Whole, Grown;
      hide Hung, Filled, Below, OwnsNames, AllOwnNames, ItemsExact, MembersExact;
      hide Parser.ParseMembers, Parser.ParseKey, Parser.ParseValue, SkipWhitespace, Fillable, TextIn, TextOf;
      hide MembersRead, MembersEnd;
      ok, current, l' := false, null, l;
      AllAllocated(l);
      ghost var (ims, at) := (Images(l), content[offset + 1..]);
      var item;
      item, head' := NextItem(heap, head, last, l);
      if item == null {
        return;
      }
      HungApart(head', l, item);
      AllAllocated(l);
      ghost var s;
      ok, s := FillMember(heap, item);
      Hanging(head', l, item, item.name, s);
      MembersNext(start, old(depth), ims, at, ImageOf(s));
      current, l' := item, l + [s];
      if ok {
        assert Rest()[0] == content[offset];
      }
    }
  }

  lemma WholeAlone(s: Shape, item: Node)
    requires Filled(s, item, null) && item.next == null && item.prev == null
    ensures Whole(s) && Linked(item, NodesOf([s])) && AllShaped([s]) && AllSeparate([s]) && AllBlocks([s]) == Blocks(s)
    ensures Blocks(s) == {item} + Below(s)
  {
    ListOfOne(s);
  }

  lemma Rooted(s: Shape, item: Node)
    requires Filled(s, item, null) && Exact(ImageOf(s))
    ensures ImageOf(s) == ImageFor(TreeOf(ImageOf(s)), None) && Blocks(s) == NodeSet(s) + TextSet(s)
  {
    AllOwned(s);
  }

  /** The part of cJSON_ParseWithOpts that follows the allocation of the root. */
  method ParseRoot(heap: Heap, root: Node, buffer: ParseBuffer, requireNullTerminated: bool)
    returns (ok: bool, ghost s: Shape)
    requires buffer.Inside() && Fillable(root, null) && root.next == null && root.prev == null
    modifies heap, buffer`offset, buffer`depth, root`kind, root`child, root`valuestring, root`valuedouble
    ensures Filled(s, root, null) && root.next == null && root.prev == null
    ensures fresh(Below(s)) && heap.live == old(heap.live) + Below(s)
    ensures buffer.Valid() && (ok ==> buffer.Inside() && heap.refused == old(heap.refused))
    ensures var r := ValueAndEnd(SkipWhitespace(old(buffer.Rest())), old(buffer.depth), requireNullTerminated);
            if ok then r == Parsed(TreeOf(ImageOf(s)), buffer.Rest()) && Exact(ImageOf(s))
            else heap.refused || r == Failed(buffer.Rest())
  {
    hide Linked, NodesOf, NodeSet, NodeSets, Inner, TextSet, TextSets, Blocks, AllBlocks, ImageOf, Images, ItemsOf;
    hide MembersOf;
    hide Separate, AllSeparate, Shaped, AllShaped, NoReference, AllNoReference, Readable, AllReadable, Whole, Grown;
    hide Hung, Filled, Below, OwnsNames, AllOwnNames, ItemsExact, MembersExact;
    hide Parser.ParseValue, SkipWhitespace;
    buffer.SkipBlanks();
    ok, s := buffer.ParseValue(heap, root, null);
    Allocated(s);
    AllAllocated(s.kids);
    // without appended garbage, only the terminator may follow
    if ok && requireNullTerminated {
      buffer.SkipBlanks();
      assert buffer.Rest()[0] == buffer.content[buffer.offset];
      ok := buffer.content[buffer.offset] == NUL;
    }
  }

  /** cJSON_ParseWithOpts: the tree and where it ends, or null and where the error is. Nothing
      that was allocated for a text that is refused stays behind. */
  method ParseWithOpts(heap: Heap, text: bytes, requireNullTerminated: bool)
    returns (item: Node?, end: nat, ghost tree: Option<Shape>)
    requires NulFree(text)
    modifies heap
    ensures end <= |text| && (item == null <==> tree == None)
    ensures item == null ==> heap.live == old(heap.live)
    ensures item == null ==>
              heap.refused ||
              (var r := Parser.ParseText(text, requireNullTerminated);
               r.Failed? && end == if r.rest == [] then |text| else |text| + 1 - |r.rest|)
    ensures item != null ==> tree.value.node == item && Whole(tree.value) && item.next == null && item.prev == null
    ensures item != null ==>
            fresh(Blocks(tree.value)) && heap.live == old(heap.live) + Blocks(tree.value)
                && heap.refused == old(heap.refused)
    ensures item != null ==> Blocks(tree.value) == NodeSet(tree.value) + TextSet(tree.value)
    ensures item != null ==>
              var r := Parser.ParseText(text, requireNullTerminated);
              r.Parsed? && r.rest == (text + [NUL])[end..] && ImageOf(tree.value) == ImageFor(r.value, None)
  {
    var buffer := new ParseBuffer(text);
    item := heap.NewItem();
    end, tree := 0, None;
    if item == null {
      return;
    }
    hide Linked, NodesOf, NodeSet, NodeSets, Inner, TextSet, TextSets, Blocks, AllBlocks, ImageOf, Images, ItemsOf;
    hide MembersOf;
    hide Separate, AllSeparate, Shaped, AllShaped, NoReference, AllNoReference, Readable, AllReadable, Whole, Grown;
    hide Hung, Filled, Below, OwnsNames, AllOwnNames, ItemsExact, MembersExact;
    hide Parser.ParseValue, SkipWhitespace, ValueAndEnd;
    assert buffer.Rest() == text + [NUL];
    var ok;
    ghost var s;
    ok, s := ParseRoot(heap, item, buffer, requireNullTerminated);
    WholeAlone(s, item);
    end := if buffer.offset < |buffer.content| then buffer.offset else |buffer.content| - 1;
    if ok {
      tree := Some(s);
      Rooted(s, item);
    } else {
      Delete(heap, item, [s]);
      item := null;
    }
  }

  /** Parsing and deleting again frees every block exactly once, whatever the text and the allocator do. */
  method ParseAndDelete(heap: Heap, text: bytes, requireNullTerminated: bool)
    requires NulFree(text)
    modifies heap
    ensures heap.live == old(heap.live)
  {
    ghost var tree;
    var item, end;
    item, end, tree := ParseWithOpts(heap, text, requireNullTerminated);
    if item != null {
      ListOfOne(tree.value);
      Delete(heap, item, [tree.value]);
    }
  }
}
