/** Minifying a text of RFC 8259 that has whitespace and comments between its tokens: exactly they
    are removed. */
module MinifyStandard {
  import opened Bytes
  import opened JsonTree
  import opened StringCodec
  import opened Parser
  import opened Minifier
  import opened Grammar
  import opened AcceptedTexts
  import opened Rfc8259

  // ---------- What stands between tokens ----------

  /** Whitespace, a comment up to the end of its line, or a comment between its two marks. */
  datatype Piece = Blank(b: byte) | LineComment(body: bytes) | BlockComment(body: bytes)

  ghost predicate PieceFormed(p: Piece) {
    match p
    case Blank(b) => b == 0x20 || b == 0x09 || b == 0x0A || b == 0x0D
    case LineComment(body) => forall i | 0 <= i < |body| :: body[i] != NUL && body[i] != LF
    case BlockComment(body) =>
      // the code looks for the end mark from the star of the start mark on
      NulFree(body) && NoEndMark([STAR] + body)
  }

  ghost predicate NoEndMark(c: bytes) {
    forall i | 0 <= i < |c| - 1 :: c[i] != STAR || c[i + 1] != SLASH
  }

  function PieceText(p: Piece): bytes {
    match p
    case Blank(b) => [b]
    case LineComment(body) => [SLASH, SLASH] + body + [LF]
    case BlockComment(body) => [SLASH, STAR] + body + [STAR, SLASH]
  }

  function PiecesText(ps: seq<Piece>): bytes {
    if ps == [] then [] else PieceText(ps[0]) + PiecesText(ps[1..])
  }

  ghost predicate Filler(w: bytes) {
    exists ps: seq<Piece> :: (forall i | 0 <= i < |ps| :: PieceFormed(ps[i])) && PiecesText(ps) == w
  }

  lemma BlanksDropped(b: byte)
    ensures IsDropped(b) <==> PieceFormed(Blank(b))
  {
  }

  lemma {:induction false} LineEnds(body: bytes, tail: bytes)
    requires forall i | 0 <= i < |body| :: body[i] != NUL && body[i] != LF
    ensures SkipLine(body + ([LF] + tail)) == [LF] + tail
  {
    if body == [] {
      assert body + ([LF] + tail) == [LF] + tail;
    } else {
      assert (body + ([LF] + tail))[1..] == body[1..] + ([LF] + tail);
      LineEnds(body[1..], tail);
    }
  }

  lemma {:induction false} CommentEnds(c: bytes, tail: bytes)
    requires NulFree(c) && NoEndMark(c)
    ensures SkipComment(c + ([STAR, SLASH] + tail)) == Some(tail)
  {
    var s := c + ([STAR, SLASH] + tail);
    if c == [] {
      assert s[0] == STAR && s[1] == SLASH && s[2..] == tail;
    } else {
      assert s[1..] == c[1..] + ([STAR, SLASH] + tail);
      assert s[0] == c[0] && s[1] == if |c| > 1 then c[1] else STAR;
      CommentEnds(c[1..], tail);
    }
  }

  lemma LineSkipped(s: bytes)
    requires |s| > 1 && s[0] == SLASH && s[1] == SLASH
    ensures Minify(s) == Minify(SkipLine(s)) && SkipLine(s) == SkipLine(s[2..])
  {
    assert s[1..][1..] == s[2..];
    assert SkipLine(s) == SkipLine(s[1..]);
  }

  lemma CommentSkipped(s: bytes, rest: bytes)
    requires |s| > 1 && s[0] == SLASH && s[1] == STAR && SkipComment(s[1..]) == Some(rest)
    ensures Minify(s) == Minify(rest)
  {
    assert SkipComment(s) == SkipComment(s[1..]);
  }

  lemma BlockGone(body: bytes, tail: bytes)
    requires PieceFormed(BlockComment(body))
    ensures Minify(PieceText(BlockComment(body)) + tail) == Minify(tail)
  {
    hide Minify, NoEndMark;
    var s, c := PieceText(BlockComment(body)) + tail, [STAR] + body;
    Assoc([SLASH, STAR], body, [STAR, SLASH]);
    assert [SLASH, STAR] == [SLASH] + [STAR];
    assert s == [SLASH] + (c + ([STAR, SLASH] + tail));
    ConsDrop(SLASH, c + ([STAR, SLASH] + tail));
    CommentEnds(c, tail);
    CommentSkipped(s, tail);
  }

  /** A piece disappears. */
  lemma PieceGone(p: Piece, tail: bytes)
    requires PieceFormed(p)
    ensures Minify(PieceText(p) + tail) == Minify(tail)
  {
    match p
    case Blank(b) =>
      DropBlank([b], tail);
    case LineComment(body) =>
      var s := PieceText(p) + tail;
      assert s[2..] == body + ([LF] + tail);
      LineSkipped(s);
      LineEnds(body, tail);
      DropBlank([LF], tail);
    case BlockComment(body) =>
      BlockGone(body, tail);
  }

  lemma {:induction false} PiecesGone(ps: seq<Piece>, tail: bytes)
    requires forall i | 0 <= i < |ps| :: PieceFormed(ps[i])
    ensures Minify(PiecesText(ps) + tail) == Minify(tail)
  {
    hide Minify, PieceFormed;
    if ps == [] {
      assert [] + tail == tail;
    } else {
      PieceGone(ps[0], PiecesText(ps[1..]) + tail);
      PiecesGone(ps[1..], tail);
      Assoc(PieceText(ps[0]), PiecesText(ps[1..]), tail);
    }
  }

  lemma FillerGone(w: bytes, tail: bytes)
    requires Filler(w)
    ensures Minify(w + tail) == Minify(tail)
  {
    hide Minify, PieceFormed, PiecesText;
    var ps: seq<Piece> :| (forall i | 0 <= i < |ps| :: PieceFormed(ps[i])) && PiecesText(ps) == w;
    PiecesGone(ps, tail);
  }

  lemma NoFiller()
    ensures Filler([])
  {
    assert PiecesText([]) == [];
  }

  /** The code takes the slash right behind the start mark for the end of the comment. */
  lemma ShortestComment(tail: bytes)
    ensures Minify([SLASH, STAR, SLASH] + tail) == Minify(tail)
  {
    var s := [SLASH, STAR, SLASH] + tail;
    assert s[1..][2..] == tail;
    CommentSkipped(s, tail);
  }

  // ---------- Texts with whitespace and comments ----------

  /** A text of the grammar with fillers where the grammar has whitespace. */
  ghost predicate Commented(t: Text) {
    match t
    case NullWord => true
    case FalseWord => true
    case TrueWord => true
    case NumberText(n) => NumFormed(n)
    case CharSeq(cs) => CharsFormed(cs)
    case EmptyArray(blank) => Filler(blank)
    case FullArray(elements) => ElementsCommented(elements)
    case EmptyObject(blank) => Filler(blank)
    case FullObject(fields) => FieldsCommented(fields)
  }

  ghost predicate ElementsCommented(l: Elements) {
    Filler(l.before) && Commented(l.value) && Filler(l.after) && (l.Element? ==> ElementsCommented(l.rest))
  }

  ghost predicate FieldsCommented(l: Fields) {
    && Filler(l.before) && CharsFormed(l.key) && Filler(l.afterKey) && Filler(l.beforeValue)
    && Commented(l.value) && Filler(l.after) && (l.Field? ==> FieldsCommented(l.rest))
  }

  /** The same text with nothing between the tokens. */
  function Squeezed(t: Text): Text {
    match t
    case EmptyArray(_) => EmptyArray([])
    case FullArray(elements) => FullArray(ElementsSqueezed(elements))
    case EmptyObject(_) => EmptyObject([])
    case FullObject(fields) => FullObject(FieldsSqueezed(fields))
    case _ => t
  }

  function ElementsSqueezed(l: Elements): Elements {
    match l
    case LastElement(_, value, _) => LastElement([], Squeezed(value), [])
    case Element(_, value, _, rest) => Element([], Squeezed(value), [], ElementsSqueezed(rest))
  }

  function FieldsSqueezed(l: Fields): Fields {
    match l
    case LastField(_, key, _, _, value, _) => LastField([], key, [], [], Squeezed(value), [])
    case Field(_, key, _, _, value, _, rest) => Field([], key, [], [], Squeezed(value), [], FieldsSqueezed(rest))
  }

  lemma EmptyIsBlank()
    ensures Whitespace([])
  {
  }

  /** What is left is a text of RFC 8259. */
  lemma {:induction false} SqueezedFormed(t: Text)
    requires Commented(t)
    ensures Formed(Squeezed(t))
    decreases t
  {
    hide Whitespace, Filler, NumFormed, CharsFormed;
    EmptyIsBlank();
    if t.FullArray? {
      ElementsSqueezedFormed(t.elements);
    } else if t.FullObject? {
      FieldsSqueezedFormed(t.fields);
    }
  }

  lemma {:induction false} ElementsSqueezedFormed(l: Elements)
    requires ElementsCommented(l)
    ensures ElementsFormed(ElementsSqueezed(l))
    decreases l
  {
    hide Whitespace, Filler;
    EmptyIsBlank();
    SqueezedFormed(l.value);
    if l.Element? {
      ElementsSqueezedFormed(l.rest);
    }
  }

  lemma {:induction false} FieldsSqueezedFormed(l: Fields)
    requires FieldsCommented(l)
    ensures FieldsFormed(FieldsSqueezed(l))
    decreases l
  {
    hide Whitespace, Filler, CharsFormed;
    EmptyIsBlank();
    SqueezedFormed(l.value);
    if l.Field? {
      FieldsSqueezedFormed(l.rest);
    }
  }

  // ---------- Tokens are copied ----------

  /** Minifying `x` in front of anything gives `y` in front of what it gives. */
  ghost predicate Copies(x: bytes, y: bytes) {
    forall tail: bytes {:trigger Minify(x + tail)} :: Minify(x + tail) == Prepend(y, Minify(tail))
  }

  lemma CopiesAfter(x: bytes, y: bytes, x': bytes, y': bytes)
    requires Copies(x, y) && Copies(x', y')
    ensures Copies(x + x', y + y')
  {
    hide Minify;
    forall tail: bytes
      ensures Minify(x + x' + tail) == Prepend(y + y', Minify(tail))
    {
      Assoc(x, x', tail);
      assert Minify(x + (x' + tail)) == Prepend(y, Minify(x' + tail));
      if Minify(tail).Some? {
        Assoc(y, y', Minify(tail).value);
      }
    }
  }

  lemma CopiesPlain(x: bytes)
    requires forall i | 0 <= i < |x| :: IsPlainByte(x[i])
    ensures Copies(x, x)
  {
    hide Minify;
    forall tail: bytes
      ensures Minify(x + tail) == Prepend(x, Minify(tail))
    {
      CopyPlain(x, tail);
    }
  }

  lemma CopiesFiller(w: bytes)
    requires Filler(w)
    ensures Copies(w, [])
  {
    hide Minify, Filler;
    forall tail: bytes
      ensures Minify(w + tail) == Prepend([], Minify(tail))
    {
      FillerGone(w, tail);
      if Minify(tail).Some? {
        assert [] + Minify(tail).value == Minify(tail).value;
      }
    }
  }

  lemma CopiesString(cs: seq<Char>)
    requires CharsFormed(cs)
    ensures Copies(StringText(cs), StringText(cs))
  {
    hide Minify, CharsText, Scan, NulFree, CharsFormed, StringLax, Guarded;
    var body := CharsText(cs);
    StringIsLax(cs);
    LaxString(cs);
    forall tail: bytes
      ensures Minify(StringText(cs) + tail) == Prepend(StringText(cs), Minify(tail))
    {
      var s := StringText(cs) + tail;
      StringTextIs(cs, tail);
      ConsDrop(QUOTE, body + ([QUOTE] + tail));
      GuardedScan(body, tail);
      AppendDrop(body, [QUOTE] + tail);
      CharsNulFree(cs);
      CopyString(s);
      assert s[..|body| + 2] == StringText(cs);
      assert s[|body| + 2..] == tail;
    }
  }

  lemma CopiesNumber(n: Num)
    requires NumFormed(n)
    ensures Copies(NumText(n), NumText(n))
  {
    hide Minify, NumText, NumFormed, NumLax, Copies;
    NumIsLax(n);
    NumBytes(n);
    CopiesPlain(NumText(n));
  }

  lemma CopiesPunctuation()
    ensures Copies([COMMA], [COMMA]) && Copies([COLON], [COLON])
    ensures Copies([LEFT_BRACKET], [LEFT_BRACKET]) && Copies([RIGHT_BRACKET], [RIGHT_BRACKET])
    ensures Copies([LEFT_BRACE], [LEFT_BRACE]) && Copies([RIGHT_BRACE], [RIGHT_BRACE])
    ensures Copies(NULL_TEXT, NULL_TEXT) && Copies(FALSE_TEXT, FALSE_TEXT) && Copies(TRUE_TEXT, TRUE_TEXT)
    ensures Copies([], [])
  {
    hide Copies;
    CopiesPlain([COMMA]);
    CopiesPlain([COLON]);
    CopiesPlain([LEFT_BRACKET]);
    CopiesPlain([RIGHT_BRACKET]);
    CopiesPlain([LEFT_BRACE]);
    CopiesPlain([RIGHT_BRACE]);
    CopiesPlain(NULL_TEXT);
    CopiesPlain(FALSE_TEXT);
    CopiesPlain(TRUE_TEXT);
    CopiesPlain([]);
  }

  // ---------- The induction over the text ----------

  /** A value is copied without its fillers. */
  lemma {:induction false} ValueCopies(t: Text)
    requires Commented(t)
    ensures Copies(Spelled(t), Spelled(Squeezed(t)))
    decreases t
  {
    hide Copies, Filler, NumFormed, CharsFormed, NumText, StringText, ElementsSpelled, FieldsSpelled;
    CopiesPunctuation();
    match t
    case NullWord =>
    case FalseWord =>
    case TrueWord =>
    case NumberText(n) => CopiesNumber(n);
    case CharSeq(cs) => CopiesString(cs);
    case EmptyArray(blank) =>
      CopiesFiller(blank);
      CopiesBetween([LEFT_BRACKET], blank, [], [RIGHT_BRACKET]);
    case EmptyObject(blank) =>
      CopiesFiller(blank);
      CopiesBetween([LEFT_BRACE], blank, [], [RIGHT_BRACE]);
    case FullArray(elements) =>
      ElementsCopy(elements);
      CopiesBetween([LEFT_BRACKET], ElementsSpelled(elements), ElementsSpelled(ElementsSqueezed(elements)),
          [RIGHT_BRACKET]);
    case FullObject(fields) =>
      FieldsCopy(fields);
      CopiesBetween([LEFT_BRACE], FieldsSpelled(fields), FieldsSpelled(FieldsSqueezed(fields)), [RIGHT_BRACE]);
  }

  lemma CopiesBetween(a: bytes, x: bytes, y: bytes, b: bytes)
    requires Copies(a, a) && Copies(x, y) && Copies(b, b)
    ensures Copies(a + (x + b), a + (y + b))
  {
    hide Copies;
    CopiesAfter(x, y, b, b);
    CopiesAfter(a, a, x + b, y + b);
  }

  /** Fillers around something that is copied. */
  lemma CopiesAround(w: bytes, x: bytes, y: bytes, w': bytes, z: bytes, z': bytes)
    requires Filler(w) && Copies(x, y) && Filler(w') && Copies(z, z')
    ensures Copies(w + (x + (w' + z)), [] + (y + ([] + z')))
  {
    hide Copies, Filler;
    CopiesFiller(w);
    CopiesFiller(w');
    CopiesAfter(w', [], z, z');
    CopiesAfter(x, y, w' + z, [] + z');
    CopiesAfter(w, [], x + (w' + z), y + ([] + z'));
  }

  lemma {:induction false} ElementsCopy(l: Elements)
    requires ElementsCommented(l)
    ensures Copies(ElementsSpelled(l), ElementsSpelled(ElementsSqueezed(l)))
    decreases l
  {
    hide Copies, Filler, Spelled, Squeezed;
    CopiesPunctuation();
    ValueCopies(l.value);
    if l.Element? {
      ElementsCopy(l.rest);
      CopiesAfter([COMMA], [COMMA], ElementsSpelled(l.rest), ElementsSpelled(ElementsSqueezed(l.rest)));
      CopiesAround(l.before, Spelled(l.value), Spelled(Squeezed(l.value)), l.after,
          [COMMA] + ElementsSpelled(l.rest), [COMMA] + ElementsSpelled(ElementsSqueezed(l.rest)));
    } else {
      CopiesAround(l.before, Spelled(l.value), Spelled(Squeezed(l.value)), l.after, [], []);
    }
  }

  lemma KeyCopies(l: Fields)
    requires FieldsCommented(l)
    ensures Copies(KeySpelled(l), KeySpelled(FieldsSqueezed(l)))
  {
    hide Copies, Filler, StringText, CharsFormed, Squeezed, Commented;
    CopiesPunctuation();
    CopiesString(l.key);
    CopiesFiller(l.beforeValue);
    CopiesAfter([COLON], [COLON], l.beforeValue, []);
    CopiesAround(l.before, StringText(l.key), StringText(l.key), l.afterKey, [COLON] + l.beforeValue, [COLON] + []);
  }

  lemma {:induction false} FieldsCopy(l: Fields)
    requires FieldsCommented(l)
    ensures Copies(FieldsSpelled(l), FieldsSpelled(FieldsSqueezed(l)))
    decreases l
  {
    hide Copies, Filler, Spelled, Squeezed, KeySpelled;
    CopiesPunctuation();
    KeyCopies(l);
    ValueCopies(l.value);
    CopiesFiller(l.after);
    var (v, v') := (Spelled(l.value), Spelled(Squeezed(l.value)));
    if l.Field? {
      FieldsCopy(l.rest);
      var (z, z') := (FieldsSpelled(l.rest), FieldsSpelled(FieldsSqueezed(l.rest)));
      CopiesAfter([COMMA], [COMMA], z, z');
      CopiesAfter(l.after, [], [COMMA] + z, [COMMA] + z');
      CopiesAfter(v, v', l.after + ([COMMA] + z), [] + ([COMMA] + z'));
      CopiesAfter(KeySpelled(l), KeySpelled(FieldsSqueezed(l)), v + (l.after + ([COMMA] + z)),
          v' + ([] + ([COMMA] + z')));
    } else {
      CopiesAfter(l.after, [], [], []);
      CopiesAfter(v, v', l.after + [], [] + []);
      CopiesAfter(KeySpelled(l), KeySpelled(FieldsSqueezed(l)), v + (l.after + []), v' + ([] + []));
    }
  }

  /** A text of RFC 8259 with whitespace and comments anywhere between its tokens is minified, inside
      its buffer, to the same text with nothing between them. */
  lemma CommentsRemoved(before: bytes, t: Text, after: bytes)
    requires Filler(before) && Commented(t) && Filler(after)
    ensures Formed(Squeezed(t))
    ensures Minify(before + (Spelled(t) + (after + [NUL]))) == Some(Spelled(Squeezed(t)) + [NUL])
  {
    hide Minify, Filler, Commented, Squeezed, Spelled, Formed;
    SqueezedFormed(t);
    var s := Spelled(t) + (after + [NUL]);
    FillerGone(before, s);
    ValueCopies(t);
    assert Minify(Spelled(t) + (after + [NUL])) == Prepend(Spelled(Squeezed(t)), Minify(after + [NUL]));
    FillerGone(after, [NUL]);
    TerminatorAlone();
  }

  lemma TerminatorAlone()
    ensures Minify([NUL]) == Some([NUL])
  {
  }

  // ---------- What the text means does not change ----------

  lemma {:induction false} SqueezedMeans(t: Text)
    requires Formed(t)
    ensures Formed(Squeezed(t)) && Meaning(Squeezed(t)) == Meaning(t) && Regular(Squeezed(t)) == Regular(t)
    decreases t
  {
    hide Whitespace, NumFormed, CharsFormed, NumValue, StringMeaning, NoLoneSurrogate, NumText;
    EmptyIsBlank();
    if t.FullArray? {
      ElementsSqueezedMean(t.elements);
    } else if t.FullObject? {
      FieldsSqueezedMean(t.fields);
    }
  }

  lemma {:induction false} ElementsSqueezedMean(l: Elements)
    requires ElementsFormed(l)
    ensures ElementsFormed(ElementsSqueezed(l)) && ElementsMeaning(ElementsSqueezed(l)) == ElementsMeaning(l)
    ensures ElementsRegular(ElementsSqueezed(l)) == ElementsRegular(l)
    decreases l
  {
    hide Whitespace;
    EmptyIsBlank();
    SqueezedMeans(l.value);
    if l.Element? {
      ElementsSqueezedMean(l.rest);
    }
  }

  lemma {:induction false} FieldsSqueezedMean(l: Fields)
    requires FieldsFormed(l)
    ensures FieldsFormed(FieldsSqueezed(l)) && FieldsMeaning(FieldsSqueezed(l)) == FieldsMeaning(l)
    ensures FieldsRegular(FieldsSqueezed(l)) == FieldsRegular(l)
    decreases l
  {
    hide Whitespace, CharsFormed, StringMeaning, NoLoneSurrogate;
    EmptyIsBlank();
    SqueezedMeans(l.value);
    if l.Field? {
      FieldsSqueezedMean(l.rest);
    }
  }

  /** So a commented text can be parsed once it has been minified, with the meaning of the text
      without its comments. */
  lemma CommentedParses(before: bytes, t: Text, after: bytes)
    requires Filler(before) && Commented(t) && Filler(after)
    ensures Formed(Squeezed(t))
    ensures var m := Minify(before + (Spelled(t) + (after + [NUL])));
            m.Some? && |m.value| > 0 &&
            var r := ParseText(m.value[..|m.value| - 1], true);
            if Regular(Squeezed(t)) && Nesting(Meaning(Squeezed(t))) <= 1000 then
              r == Parsed(Meaning(Squeezed(t)), [NUL])
            else r.Failed?
  {
    hide *;
    CommentsRemoved(before, t, after);
    EmptyIsBlank();
    var x := Spelled(Squeezed(t));
    TextAccepted([], Squeezed(t), []);
    assert [] + (x + []) == x;
    assert (x + [NUL])[..|x|] == x;
  }
}
