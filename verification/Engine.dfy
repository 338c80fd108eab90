/** The printer, the parser and the minifier working on each other's buffers. */
module Engine {
  import opened Bytes
  import opened JsonTree
  import opened Nodes
  import opened Trees
  import opened Duplication
  import opened NodeValues
  import opened Parser
  import opened ParseBuffers
  import opened Printer
  import opened RoundTrip
  import opened Minifier
  import opened MinifyMeaning
  import ValueComparison
  import opened NodeComparison
  import PrintBuffers
  import Grammar
  import Rfc8259
  import MinifyBuffer

  lemma CStringOf(b: bytes, text: bytes)
    requires NulFree(text) && |text| < |b| && b[..|text|] == text && b[|text|] == NUL
    ensures CString(b) == text
  {
    assert b == text + [NUL] + b[|text| + 1..];
    CStringPrefix(text, b[|text| + 1..]);
  }

  /** What the printer leaves in its block, the parser turns into nodes that stand for the tree
      that was printed; when no allocation is refused, it fails for a nesting of more than 1000 only.
      Besides the nodes only the printed block is left, or the one that a failed print keeps. */
  method PrintThenParse(heap: Heap, original: Node, fmt: bool, ghost s: Shape, ghost v: Json)
    returns (item: Node?, printed: array?<byte>, ghost kept: set<object>, ghost tree: Option<Shape>)
    requires Says(original, s, v) && Printable(v) && |Text(v, fmt)| + 2 <= PrintBuffers.LONG_MAX
    modifies heap
    ensures item != null ==>
              && tree.Some? && tree.value.node == item && Whole(tree.value)
              && ImageOf(tree.value) == ImageFor(v, None) && Nesting(v) <= NESTING_LIMIT
              && printed != null && heap.live == old(heap.live) + {printed} + Blocks(tree.value)
    ensures item == null ==> heap.live == old(heap.live) + Strings(printed) + kept
    ensures item == null ==> heap.refused || Nesting(v) > NESTING_LIMIT
    ensures kept != {} ==> heap.reallocates && heap.refused && printed == null && exists b :: kept == {b}
  {
    hide *;
    item, tree := null, None;
    printed, kept := PrintBuffers.Print(heap, original, fmt, s, v);
    if printed == null {
      return;
    }
    OneString(printed);
    TextIsNulFree(v, fmt);
    CStringOf(printed[..], Text(v, fmt));
    TextRoundTrip(v, fmt, true);
    var end;
    item, end, tree := ParseWithOpts(heap, CString(printed[..]), true);
  }

  lemma OneString(block: array<byte>)
    ensures Strings(block) == {block}
  {
  }

  lemma TextIsNulFree(v: Json, fmt: bool)
    requires Printable(v)
    ensures NulFree(Text(v, fmt))
  {
    ValueTextNulFree(v, fmt, 0);
  }

  /** A text that is accepted up to its terminator still gives the same tree after it has been
      minified in its own buffer. */
  method MinifyThenParse(heap: Heap, block: array<byte>, ghost text: bytes)
    returns (item: Node?, ghost tree: Option<Shape>)
    requires block[..] == text + [NUL] && NulFree(text) && ParseText(text, true).Parsed?
    modifies heap, block
    ensures item != null ==>
              && tree.Some? && tree.value.node == item && Whole(tree.value)
              && ImageOf(tree.value) == ImageFor(ParseText(text, true).value, None)
              && heap.live == old(heap.live) + Blocks(tree.value)
    ensures item == null ==> heap.live == old(heap.live) && heap.refused
  {
    hide *;
    MinifyKeepsMeaning(text);
    MinifiedEnds(text);
    MinifyBuffer.MinifyInPlace(block);
    MinifiedHere(block[..], text);
    var end;
    item, end, tree := ParseWithOpts(heap, CString(block[..]), true);
  }

  lemma MinifiedEnds(text: bytes)
    requires NulFree(text) && Minify(text + [NUL]).Some?
    ensures var m := Minify(text + [NUL]).value;
            m != [] && m == MinifiedText(text) + [NUL] && NulFree(MinifiedText(text))
  {
    assert (text + [NUL])[..|text|] == text;
    MinifyTerminated(text + [NUL]);
  }

  lemma MinifiedHere(b: bytes, text: bytes)
    requires NulFree(text) && Minify(text + [NUL]).Some?
    requires var m := Minify(text + [NUL]).value; |m| <= |b| && b[..|m|] == m
    ensures CString(b) == MinifiedText(text) && NulFree(MinifiedText(text))
  {
    MinifiedEnds(text);
    hide Minify, MinifiedText, CString;
    var m := Minify(text + [NUL]).value;
    assert b[|MinifiedText(text)|] == m[|MinifiedText(text)|];
    assert b[..|MinifiedText(text)|] == m[..|MinifiedText(text)|];
    CStringOf(b, MinifiedText(text));
  }

  lemma CopySays(c: Shape, v: Json, im: Image)
    requires Whole(c) && ImageOf(c) == im && Known(im) && TreeOf(im) == v
    ensures Says(c.node, c, v)
  {
  }

  lemma SaysImage(item: Node, s: Shape, v: Json)
    requires Says(item, s, v)
    ensures Shaped(s) && Readable(s) && s.node == item && Known(ImageOf(s)) && TreeOf(ImageOf(s)) == v
  {
  }

  /** A deep copy prints to the text of the original, in either format. */
  method DuplicateThenPrint(heap: Heap, item: Node, fmt: bool, ghost s: Shape, ghost v: Json)
    returns (copy: Node?, printed: array?<byte>, ghost kept: set<object>, ghost c: Shape)
    requires Says(item, s, v) && Printable(v) && |Text(v, fmt)| + 2 <= PrintBuffers.LONG_MAX
    modifies heap
    ensures copy == null ==> heap.live == old(heap.live) && heap.refused
    ensures copy != null ==>
              && Says(copy, c, v) && fresh(Blocks(c))
              && heap.live == old(heap.live) + Blocks(c) + Strings(printed) + kept
    ensures printed != null ==>
              && |Text(v, fmt)| < printed.Length
              && printed[..|Text(v, fmt)|] == Text(v, fmt) && printed[|Text(v, fmt)|] == NUL
    ensures copy != null && printed == null ==> heap.refused
    ensures kept != {} ==> heap.reallocates && heap.refused && printed == null && exists b :: kept == {b}
  {
    hide *;
    printed, kept := null, {};
    SaysImage(item, s, v);
    ghost var im := ImageOf(s);
    Allocated(s);
    AllAllocated(s.kids);
    copy, c := Duplicate(heap, item, true, s);
    if copy == null {
      return;
    }
    CopySays(c, v, im);
    Allocated(c);
    AllAllocated(c.kids);
    printed, kept := PrintBuffers.Print(heap, copy, fmt, c, v);
  }
  // ---------- Parsed trees go on ----------

  /** The trees that were parsed can be printed, compared and copied. */
  lemma ParsedSays(item: Node, s: Shape, v: Json)
    requires s.node == item && Whole(s) && ImageOf(s) == ImageFor(v, None)
    ensures Says(item, s, v) && Comparable(s, true) && Comparable(s, false)
  {
    ImageForStands(v, None);
    ImageForNamed(v, None);
  }

  lemma {:induction false} ImageForNamed(v: Json, key: Option<bytes>)
    ensures Named(ImageFor(v, key))
    decreases v
  {
    if v.Array? {
      ItemImagesNamed(v.items);
    } else if v.Object? {
      MemberImagesNamed(v.members);
    }
  }

  lemma {:induction false} ItemImagesNamed(items: Items)
    ensures forall i | 0 <= i < |ItemImages(items)| :: Named(ItemImages(items)[i])
    decreases items
  {
    if items.Item? {
      ImageForNamed(items.head, None);
      ItemImagesNamed(items.tail);
    }
  }

  lemma {:induction false} MemberImagesNamed(members: Members)
    ensures forall i | 0 <= i < |MemberImages(members)| ::
              Named(MemberImages(members)[i]) && MemberImages(members)[i].key.Some?
    decreases members
  {
    if members.Member? {
      ImageForNamed(members.value, Some(members.key));
      MemberImagesNamed(members.rest);
    }
  }

  /** What the parser leaves in its nodes, the printer turns into the text of the value, whatever
      layout the input had; the numbers must be plain integers. */
  method ParseThenPrint(heap: Heap, text: bytes, requireNullTerminated: bool, fmt: bool)
    returns (item: Node?, printed: array?<byte>, ghost kept: set<object>, ghost tree: Option<Shape>)
    requires NulFree(text)
    requires var r := ParseText(text, requireNullTerminated);
             r.Parsed? ==> PlainNumbers(r.value)
    modifies heap
    ensures var r := ParseText(text, requireNullTerminated);
            && (r.Failed? ==> item == null)
            && (item == null ==> printed == null && (r.Failed? || heap.refused))
            && (item != null ==> tree.Some? && Says(item, tree.value, r.value) && Printable(r.value))
            && (item != null && printed == null ==>
                  heap.refused || |Text(r.value, fmt)| + 2 > PrintBuffers.LONG_MAX)
            && (printed != null ==>
                  && |Text(r.value, fmt)| < printed.Length
                  && printed[..|Text(r.value, fmt)|] == Text(r.value, fmt) && printed[|Text(r.value, fmt)|] == NUL)
    ensures heap.live ==
              old(heap.live) + (if item == null then {} else Blocks(tree.value)) + Strings(printed) + kept
    ensures kept != {} ==> heap.reallocates && heap.refused && printed == null && exists b :: kept == {b}
  {
    hide *;
    printed, kept := null, {};
    NoStrings();
    var end;
    item, end, tree := ParseWithOpts(heap, text, requireNullTerminated);
    if item == null {
      return;
    }
    ghost var v := ParseText(text, requireNullTerminated).value;
    TextPrintable(text, requireNullTerminated);
    ParsedSays(item, tree.value, v);
    Allocated(tree.value);
    AllAllocated(tree.value.kids);
    printed, kept := PrintBuffers.Print(heap, item, fmt, tree.value, v);
  }

  lemma NoStrings()
    ensures Strings(null) == {}
  {
  }

  /** The trees of two texts compare equal exactly when their values do. */
  method CompareTexts(heap: Heap, text: bytes, other: bytes, caseSensitive: bool)
    returns (a: Node?, b: Node?, same: bool)
    requires NulFree(text) && NulFree(other)
    modifies heap
    ensures a == null ==> heap.refused || ParseText(text, true).Failed?
    ensures b == null ==> a == null || heap.refused || ParseText(other, true).Failed?
    ensures same ==> a != null && b != null
    ensures a != null && b != null ==>
              && ParseText(text, true).Parsed? && ParseText(other, true).Parsed?
              && (same <==>
                    ValueComparison.Alike(ParseText(text, true).value, ParseText(other, true).value, caseSensitive))
  {
    hide *;
    same := false;
    var end;
    ghost var s, t;
    a, end, s := ParseWithOpts(heap, text, true);
    b := null;
    if a == null {
      return;
    }
    Allocated(s.value);
    AllAllocated(s.value.kids);
    b, end, t := ParseWithOpts(heap, other, true);
    if b != null {
      ParsedSays(a, s.value, ParseText(text, true).value);
      ParsedSays(b, t.value, ParseText(other, true).value);
      ValueComparison.SameIsAlike(ParseText(text, true).value, None, ParseText(other, true).value, None, caseSensitive);
      same := NodeComparison.Compare(a, b, caseSensitive, s.value, t.value);
    }
  }

  /** A text of RFC 8259 becomes the nodes of its meaning; when no allocation is refused, it fails
      exactly for a nesting of more than 1000, a number of more than 63 bytes or a surrogate that
      stands alone. */
  method ParseStandard(heap: Heap, text: bytes, ghost before: bytes, ghost t: Grammar.Text, ghost after: bytes)
    returns (item: Node?, ghost tree: Option<Shape>)
    requires Rfc8259.Whitespace(before) && Rfc8259.Formed(t) && Rfc8259.Whitespace(after)
    requires text == before + (Grammar.Spelled(t) + after)
    modifies heap
    ensures item != null ==>
              && tree.Some? && tree.value.node == item && Whole(tree.value)
              && ImageOf(tree.value) == ImageFor(Grammar.Meaning(t), None)
              && heap.live == old(heap.live) + Blocks(tree.value)
    ensures item == null ==> heap.live == old(heap.live)
    ensures var accepted := Grammar.Regular(t) && Nesting(Grammar.Meaning(t)) <= 1000;
            && (item != null ==> accepted)
            && (item == null ==> heap.refused || !accepted)
  {
    hide *;
    Rfc8259.TextNulFree(before, t, after);
    Rfc8259.TextAccepted(before, t, after);
    var end;
    item, end, tree := ParseWithOpts(heap, text, true);
  }
}
