/** The texts of RFC 8259 as concrete syntax, with what they mean, and what the parser makes of
    every one of them. Bytes of 128 and above stand for themselves; the parser passes them on. */
module Rfc8259 {
  import opened Bytes
  import opened JsonTree
  import opened NumberCodec
  import opened StringCodec
  import opened Parser
  import opened Grammar
  import opened AcceptedTexts
  import opened RoundTrip

  // ---------- Whitespace (section 2) ----------

  ghost predicate Whitespace(w: bytes) {
    forall i | 0 <= i < |w| :: w[i] == SPACE || w[i] == TAB || w[i] == LF || w[i] == CR
  }

  // ---------- Strings (section 7) ----------

  ghost predicate CharFormed(c: Char) {
    match c
    case Plain(b) => b >= SPACE && b != QUOTE && b != BACKSLASH
    case Short(letter) => letter as char in SHORT_ESCAPES
    case Unit(unit, digits) => WritesUnit(digits, unit)
    case _ => false
  }

  ghost predicate CharsFormed(cs: seq<Char>) {
    forall i | 0 <= i < |cs| :: CharFormed(cs[i])
  }

  // ---------- Numbers (section 6) ----------

  ghost predicate NumFormed(n: Num) {
    && AllDigits(n.whole) && n.whole != [] && (n.whole[0] == DIGIT_0 ==> |n.whole| == 1)
    && AllDigits(n.fraction) && (n.dot <==> n.fraction != []) && ExponentFormed(n.exponent)
  }

  // ---------- Values, arrays and objects (sections 3 to 5) ----------

  ghost predicate Formed(t: Text) {
    match t
    case NullWord => true
    case FalseWord => true
    case TrueWord => true
    case NumberText(n) => NumFormed(n)
    case CharSeq(cs) => CharsFormed(cs)
    case EmptyArray(blank) => Whitespace(blank)
    case FullArray(elements) => ElementsFormed(elements)
    case EmptyObject(blank) => Whitespace(blank)
    case FullObject(fields) => FieldsFormed(fields)
  }

  ghost predicate ElementsFormed(l: Elements) {
    Whitespace(l.before) && Formed(l.value) && Whitespace(l.after) && (l.Element? ==> ElementsFormed(l.rest))
  }

  ghost predicate FieldsFormed(l: Fields) {
    && Whitespace(l.before) && CharsFormed(l.key) && Whitespace(l.afterKey) && Whitespace(l.beforeValue)
    && Formed(l.value) && Whitespace(l.after) && (l.Field? ==> FieldsFormed(l.rest))
  }

  // ---------- They are taken by the parser ----------

  lemma CharIsLax(c: Char)
    requires CharFormed(c)
    ensures CharLax(c) && !c.Garbled? && !c.Dangling?
    ensures c.Plain? ==> c.b != QUOTE && c.b != NUL
    ensures c.Unit? ==> |c.digits| == 4
    ensures c.Unit? ==>
              forall i | 0 <= i < 4 :: c.digits[i] != QUOTE && c.digits[i] != BACKSLASH && c.digits[i] != NUL
  {
    if c.Unit? {
      UnitReads(c.digits, c.unit);
      assert forall i | 0 <= i < 4 :: HexValue(c.digits[i]).Some?;
    }
  }

  lemma {:induction false} GuardedPlain(x: bytes, tail: bytes)
    requires forall i | 0 <= i < |x| :: x[i] != QUOTE && x[i] != BACKSLASH
    ensures Guarded(x + tail) == Guarded(tail)
  {
    if x == [] {
      assert x + tail == tail;
    } else {
      assert (x + tail)[1..] == x[1..] + tail;
      GuardedPlain(x[1..], tail);
    }
  }

  lemma GuardedChar(c: Char, tail: bytes)
    requires CharFormed(c)
    ensures Guarded(CharText(c) + tail) == Guarded(tail)
  {
    hide CharFormed, CharLax;
    CharIsLax(c);
    match c
    case Plain(b) =>
      GuardedByte(c, tail);
    case Short(letter) =>
      assert (CharText(c) + tail)[2..] == tail;
    case Unit(_, digits) =>
      assert (CharText(c) + tail)[2..] == digits + tail;
      GuardedPlain(digits, tail);
    case Garbled(_) => assert false;
    case Dangling => assert false;
  }

  lemma GuardedByte(c: Char, tail: bytes)
    requires c.Plain? && CharFormed(c)
    ensures Guarded(CharText(c) + tail) == Guarded(tail)
  {
    GuardedPlain([c.b], tail);
  }

  lemma {:induction false} StringIsLax(cs: seq<Char>)
    requires CharsFormed(cs)
    ensures StringLax(cs)
  {
    hide CharFormed, CharText, CharLax, Guarded;
    if cs == [] {
      NothingGuarded();
    } else {
      StringIsLax(cs[1..]);
      CharIsLax(cs[0]);
      GuardedChar(cs[0], CharsText(cs[1..]));
      assert forall i | 1 <= i < |cs| :: cs[i] == cs[1..][i - 1];
    }
  }

  lemma NothingGuarded()
    ensures CharsText([]) == [] && Guarded([])
  {
  }

  lemma NumIsLax(n: Num)
    requires NumFormed(n)
    ensures NumLax(n)
  {
  }

  lemma WhitespaceIsBlank(w: bytes)
    requires Whitespace(w)
    ensures Blank(w)
  {
  }

  /** Every text of RFC 8259 is one the parser takes. */
  lemma {:induction false} FormedIsLax(t: Text)
    requires Formed(t)
    ensures Lax(t)
    decreases t
  {
    hide Whitespace, Blank, NumFormed, NumLax, CharsFormed, StringLax;
    match t
    case NullWord =>
    case FalseWord =>
    case TrueWord =>
    case NumberText(n) => NumIsLax(n);
    case CharSeq(cs) => StringIsLax(cs);
    case EmptyArray(blank) => WhitespaceIsBlank(blank);
    case FullArray(elements) => ElementsAreLax(elements);
    case EmptyObject(blank) => WhitespaceIsBlank(blank);
    case FullObject(fields) => FieldsAreLax(fields);
  }

  lemma {:induction false} ElementsAreLax(l: Elements)
    requires ElementsFormed(l)
    ensures ElementsLax(l)
    decreases l
  {
    hide Whitespace, Blank;
    WhitespaceIsBlank(l.before);
    WhitespaceIsBlank(l.after);
    FormedIsLax(l.value);
    if l.Element? {
      ElementsAreLax(l.rest);
    }
  }

  lemma {:induction false} FieldsAreLax(l: Fields)
    requires FieldsFormed(l)
    ensures FieldsLax(l)
    decreases l
  {
    hide Whitespace, Blank, CharsFormed, StringLax;
    WhitespaceIsBlank(l.before);
    StringIsLax(l.key);
    WhitespaceIsBlank(l.afterKey);
    WhitespaceIsBlank(l.beforeValue);
    WhitespaceIsBlank(l.after);
    FormedIsLax(l.value);
    if l.Field? {
      FieldsAreLax(l.rest);
    }
  }

  /** Every text of the grammar, with whitespace around it, is accepted with its meaning exactly when
      it is nested at most 1000 deep, every number has at most 63 bytes and no surrogate stands
      alone; otherwise it is rejected. */
  lemma TextAccepted(before: bytes, t: Text, after: bytes)
    requires Whitespace(before) && Formed(t) && Whitespace(after)
    ensures var r := ParseText(before + (Spelled(t) + after), true);
            if Regular(t) && Nesting(Meaning(t)) <= 1000 then r == Parsed(Meaning(t), [NUL]) else r.Failed?
  {
    hide *;
    WhitespaceIsBlank(before);
    WhitespaceIsBlank(after);
    FormedIsLax(t);
    LaxAccepted(before, t, after);
  }

  // ---------- The texts are C strings ----------

  lemma NulFreeBoth(a: bytes, b: bytes)
    ensures NulFree(a + b) <==> NulFree(a) && NulFree(b)
  {
    if NulFree(a + b) {
      assert forall i | 0 <= i < |a| :: a[i] == (a + b)[i];
      assert forall i | 0 <= i < |b| :: b[i] == (a + b)[|a| + i];
    }
  }

  lemma CharNulFree(c: Char)
    requires CharFormed(c)
    ensures NulFree(CharText(c))
  {
    hide CharFormed, CharLax, IsHex4, Hex4;
    CharIsLax(c);
    CharLooks(c);
  }

  lemma {:induction false} CharsNulFree(cs: seq<Char>)
    requires CharsFormed(cs)
    ensures NulFree(CharsText(cs))
  {
    hide CharText, CharFormed;
    if cs != [] {
      assert CharFormed(cs[0]) && CharsFormed(cs[1..]);
      CharNulFree(cs[0]);
      CharsNulFree(cs[1..]);
      NulFreeBoth(CharText(cs[0]), CharsText(cs[1..]));
    }
  }

  lemma StringNulFree(cs: seq<Char>)
    requires CharsFormed(cs)
    ensures NulFree(StringText(cs))
  {
    hide CharsText, CharsFormed, NulFree;
    CharsNulFree(cs);
    PunctuationNulFree();
    NulFreeBoth([QUOTE], CharsText(cs));
    NulFreeBoth([QUOTE] + CharsText(cs), [QUOTE]);
  }

  lemma PunctuationNulFree()
    ensures NulFree([]) && NulFree([QUOTE]) && NulFree([COMMA]) && NulFree([COLON])
    ensures NulFree([LEFT_BRACKET]) && NulFree([RIGHT_BRACKET]) && NulFree([LEFT_BRACE]) && NulFree([RIGHT_BRACE])
    ensures NulFree(NULL_TEXT) && NulFree(FALSE_TEXT) && NulFree(TRUE_TEXT)
  {
  }

  lemma NumNulFree(n: Num)
    requires NumFormed(n)
    ensures NulFree(NumText(n))
  {
    NumIsLax(n);
    NumBytes(n);
    hide NumText, NumFormed;
    assert forall i | 0 <= i < |NumText(n)| :: IsNumberByte(NumText(n)[i]);
  }

  lemma BlankNulFree(w: bytes)
    requires Whitespace(w)
    ensures NulFree(w)
  {
  }

  lemma {:induction false} SpelledNulFree(t: Text)
    requires Formed(t)
    ensures NulFree(Spelled(t))
    decreases t
  {
    hide NulFree, Whitespace, NumFormed, CharsFormed, ElementsFormed, FieldsFormed, NumText, StringText;
    hide ElementsSpelled, FieldsSpelled;
    PunctuationNulFree();
    match t
    case NullWord =>
    case FalseWord =>
    case TrueWord =>
    case NumberText(n) => NumNulFree(n);
    case CharSeq(cs) => StringNulFree(cs);
    case EmptyArray(blank) =>
      BlankNulFree(blank);
      Between([LEFT_BRACKET], blank, [RIGHT_BRACKET]);
    case EmptyObject(blank) =>
      BlankNulFree(blank);
      Between([LEFT_BRACE], blank, [RIGHT_BRACE]);
    case FullArray(elements) =>
      ElementsNulFree(elements);
      Between([LEFT_BRACKET], ElementsSpelled(elements), [RIGHT_BRACKET]);
    case FullObject(fields) =>
      FieldsNulFree(fields);
      Between([LEFT_BRACE], FieldsSpelled(fields), [RIGHT_BRACE]);
  }

  lemma Between(a: bytes, b: bytes, c: bytes)
    ensures NulFree(a + (b + c)) <==> NulFree(a) && NulFree(b) && NulFree(c)
  {
    NulFreeBoth(a, b + c);
    NulFreeBoth(b, c);
  }

  lemma {:induction false} ElementsNulFree(l: Elements)
    requires ElementsFormed(l)
    ensures NulFree(ElementsSpelled(l))
    decreases l
  {
    hide NulFree, Whitespace, Formed, Spelled;
    PunctuationNulFree();
    BlankNulFree(l.before);
    BlankNulFree(l.after);
    SpelledNulFree(l.value);
    if l.Element? {
      ElementsNulFree(l.rest);
      NulFreeBoth([COMMA], ElementsSpelled(l.rest));
    }
    var x := if l.Element? then [COMMA] + ElementsSpelled(l.rest) else [];
    Between(Spelled(l.value), l.after, x);
    NulFreeBoth(l.before, Spelled(l.value) + (l.after + x));
  }

  lemma KeyNulFree(l: Fields)
    requires FieldsFormed(l)
    ensures NulFree(KeySpelled(l))
  {
    hide NulFree, Whitespace, CharsFormed, StringText;
    PunctuationNulFree();
    BlankNulFree(l.before);
    BlankNulFree(l.afterKey);
    BlankNulFree(l.beforeValue);
    StringNulFree(l.key);
    Between(l.afterKey, [COLON], l.beforeValue);
    Between(l.before, StringText(l.key), l.afterKey + ([COLON] + l.beforeValue));
  }

  lemma {:induction false} FieldsNulFree(l: Fields)
    requires FieldsFormed(l)
    ensures NulFree(FieldsSpelled(l))
    decreases l
  {
    hide NulFree, Whitespace, Formed, Spelled, KeySpelled;
    PunctuationNulFree();
    BlankNulFree(l.after);
    KeyNulFree(l);
    SpelledNulFree(l.value);
    if l.Field? {
      FieldsNulFree(l.rest);
      NulFreeBoth([COMMA], FieldsSpelled(l.rest));
    }
    var x := if l.Field? then [COMMA] + FieldsSpelled(l.rest) else [];
    Between(Spelled(l.value), l.after, x);
    NulFreeBoth(KeySpelled(l), Spelled(l.value) + (l.after + x));
  }

  lemma TextNulFree(before: bytes, t: Text, after: bytes)
    requires Whitespace(before) && Formed(t) && Whitespace(after)
    ensures NulFree(before + (Spelled(t) + after))
  {
    hide NulFree, Spelled, Formed;
    BlankNulFree(before);
    BlankNulFree(after);
    SpelledNulFree(t);
    Between(before, Spelled(t), after);
  }
}
