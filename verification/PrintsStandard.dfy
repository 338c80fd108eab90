/** What the printer writes is a text of RFC 8259 that means the tree that was printed. */
module PrintsStandard {
  import opened Bytes
  import opened JsonTree
  import opened NumberCodec
  import opened StringCodec
  import opened Printer
  import opened Grammar
  import opened AcceptedTexts
  import opened Rfc8259
  import Utf8

  // ---------- Strings ----------

  /** The character the printer writes for a byte. */
  function CharFor(b: byte): Char {
    if HasShortEscape(b) then Short(ShortLetter(b))
    else if b < SPACE then Unit(b as nat, [DIGIT_0, DIGIT_0, HexDigit(b / 16), HexDigit(b % 16)])
    else Plain(b)
  }

  function CharsFor(s: bytes): seq<Char> {
    if s == [] then [] else [CharFor(s[0])] + CharsFor(s[1..])
  }

  lemma CharForIs(b: byte)
    ensures var c := CharFor(b);
            && CharFormed(c) && CharText(c) == EscapeByte(b) && CharMeaning(c) == [b]
            && !IsHighSurrogate(UnitOf(c)) && !IsLowSurrogate(UnitOf(c))
  {
    if HasShortEscape(b) {
      ShortFor(b);
    } else if b < SPACE {
      ControlFor(b);
    }
  }

  lemma ShortFor(b: byte)
    requires HasShortEscape(b)
    ensures ShortLetter(b) as char in SHORT_ESCAPES && SHORT_ESCAPES[ShortLetter(b) as char] == b as nat
  {
  }

  lemma ControlFor(b: byte)
    requires b < SPACE
    ensures WritesUnit([DIGIT_0, DIGIT_0, HexDigit(b / 16), HexDigit(b % 16)], b as nat)
    ensures Utf8.Encode(b as nat) == [b]
  {
    hide WritesUnit;
    var h := [DIGIT_0, DIGIT_0, HexDigit(b / 16), HexDigit(b % 16)];
    assert HexValue(h[2]) == Some((b / 16) as nat) && HexValue(h[3]) == Some((b % 16) as nat);
    assert Hex4(h) == b as nat;
    UnitReads(h, b as nat);
  }

  lemma CharsFromByte(s: bytes)
    requires s != []
    ensures CharsFor(s) == [CharFor(s[0])] + CharsFor(s[1..]) && CharsFor(s)[1..] == CharsFor(s[1..])
  {
  }

  lemma NoCharacters()
    ensures CharsFor([]) == [] && CharsText([]) == [] && CharsMeaning([]) == [] && NoLoneSurrogate([])
  {
  }

  /** An escaped string is a string of the grammar that means the string. */
  lemma {:induction false} CharsForIs(s: bytes)
    ensures var cs := CharsFor(s);
            CharsFormed(cs) && CharsText(cs) == Escape(s) && CharsMeaning(cs) == s && NoLoneSurrogate(cs)
  {
    hide CharsFor, CharFor, CharFormed, CharText, CharMeaning, CharsText, CharsMeaning, NoLoneSurrogate, EscapeByte;
    hide UnitOf;
    if s == [] {
      NoCharacters();
    } else {
      CharForIs(s[0]);
      CharsFromByte(s);
      CharsForIs(s[1..]);
      OneCharacter(CharsFor(s));
    }
  }

  lemma StringFor(s: bytes)
    requires NulFree(s)
    ensures var cs := CharsFor(s);
            CharsFormed(cs) && StringText(cs) == Quoted(s) && StringMeaning(cs) == s && NoLoneSurrogate(cs)
  {
    hide CharsFor, CharsFormed, CharsText, CharsMeaning, NoLoneSurrogate, Escape;
    CharsForIs(s);
    CStringPrefix(s, []);
  }

  /** Bytes that the printer leaves alone. */
  lemma {:induction false} EscapeLeaves(s: bytes)
    requires forall i | 0 <= i < |s| :: s[i] >= 0x80
    ensures Escape(s) == s
  {
    if s != [] {
      EscapeLeaves(s[1..]);
      assert EscapeByte(s[0]) == [s[0]];
    }
  }

  lemma EscapeOfOne(b: byte)
    ensures Escape([b]) == EscapeByte(b) && |EscapeByte(b)| <= 6
  {
    assert [b][1..] == [];
    assert EscapeByte(b) + Escape([]) == EscapeByte(b);
  }

  lemma EncodingEscapes(cp: nat)
    requires Utf8.IsScalar(cp)
    ensures |Escape(Utf8.Encode(cp))| <= if cp < 0x1_0000 then 6 else 12
  {
    var e := Utf8.Encode(cp);
    if cp < 0x80 {
      EscapeOfOne(e[0]);
      assert e == [e[0]];
    } else {
      EscapeLeaves(e);
    }
  }

  lemma CharEscapes(c: Char)
    requires CharFormed(c) && !IsHighSurrogate(UnitOf(c)) && !IsLowSurrogate(UnitOf(c))
    ensures |Escape(CharMeaning(c))| <= |CharText(c)|
  {
    CharIsLax(c);
    CharLooks(c);
    match c
    case Plain(b) => EscapeOfOne(b);
    case Short(letter) =>
      EscapeOfOne(CharMeaning(c)[0]);
      assert CharMeaning(c) == [CharMeaning(c)[0]];
      assert HasShortEscape(CharMeaning(c)[0]) || CharMeaning(c)[0] == SLASH;
    case Unit(unit, digits) => EncodingEscapes(unit);
    case Garbled(_) => assert false;
    case Dangling => assert false;
  }

  lemma PairBehind(cs: seq<Char>)
    requires CharsFormed(cs) && StartsPair(cs)
    ensures |CharsText(cs)| == 12 + |CharsText(cs[2..])|
    ensures CharsMeaning(cs) == Utf8.Encode(JoinSurrogates(UnitOf(cs[0]), UnitOf(cs[1]))) + CharsMeaning(cs[2..])
    ensures NoLoneSurrogate(cs) == NoLoneSurrogate(cs[2..])
  {
    hide IsHex4, Hex4, JoinSurrogates, Utf8.Encode, CharFormed, CharLax;
    CharIsLax(cs[0]);
    CharIsLax(cs[1]);
    assert cs[1..][0] == cs[1] && cs[1..][1..] == cs[2..];
    assert CharsText(cs) == CharText(cs[0]) + CharsText(cs[1..]);
    assert CharsText(cs[1..]) == CharText(cs[1]) + CharsText(cs[2..]);
  }

  /** No other spelling of a string is shorter than the one that is printed. */
  lemma {:induction false} ShortestSpelling(cs: seq<Char>)
    requires CharsFormed(cs) && NoLoneSurrogate(cs)
    ensures |Escape(CharsMeaning(cs))| <= |CharsText(cs)|
    decreases |cs|
  {
    hide CharsText, CharsMeaning, NoLoneSurrogate, CharFormed, CharText, CharMeaning, Escape, Utf8.Encode;
    hide JoinSurrogates;
    if cs == [] {
      NoCharacters();
      DecodeEscapeNothing();
    } else if StartsPair(cs) {
      PairBehind(cs);
      var cp := JoinSurrogates(UnitOf(cs[0]), UnitOf(cs[1]));
      PairIsScalar(UnitOf(cs[0]), UnitOf(cs[1]));
      EncodingEscapes(cp);
      ShortestSpelling(cs[2..]);
      EscapeAppend(Utf8.Encode(cp), CharsMeaning(cs[2..]));
    } else {
      NotLone(cs);
      OneCharacter(cs);
      CharEscapes(cs[0]);
      ShortestSpelling(cs[1..]);
      EscapeAppend(CharMeaning(cs[0]), CharsMeaning(cs[1..]));
    }
  }

  lemma PairIsScalar(high: nat, low: nat)
    ensures var cp := JoinSurrogates(high, low); cp >= 0x1_0000 && Utf8.IsScalar(cp)
  {
  }

  lemma NotLone(cs: seq<Char>)
    requires cs != [] && !StartsPair(cs) && NoLoneSurrogate(cs)
    ensures !IsHighSurrogate(UnitOf(cs[0])) && !IsLowSurrogate(UnitOf(cs[0]))
  {
  }

  lemma DecodeEscapeNothing()
    ensures Escape([]) == []
  {
  }

  // ---------- Numbers ----------

  function NumFor(n: int): Num {
    Num(n < 0, Digits(if n < 0 then -n else n), false, [], NoExponent)
  }

  lemma NumForIs(n: int)
    requires IsPlainInteger(n)
    ensures var x := NumFor(n);
            NumFormed(x) && NumText(x) == Decimal(n) && NumValue(x) == n as real && |NumText(x)| <= 63
  {
    hide NumValue, Scaled, Digits, NatOf;
    var m: nat := if n < 0 then -n else n;
    DigitsAreDigits(m);
    NoLeadingZero(m);
    FifteenDigits(n);
    NumIsLax(NumFor(n));
    NumValueIs(NumFor(n));
    assert Digits(m) + [] == Digits(m);
    ScaledByOne(Digits(m), m);
  }

  lemma ScaledByOne(d: bytes, m: nat)
    requires (forall i | 0 <= i < |d| :: IsDigit(d[i])) && NatOf(d) == m
    ensures Scaled(d, 0) == m as real
  {
    PowerZero();
  }

  // ---------- Values ----------

  function TextFor(v: Json, fmt: bool, depth: nat): Grammar.Text
    decreases v, 0
  {
    match v
    case Null => NullWord
    case False => FalseWord
    case True => TrueWord
    case Number(x) => NumberText(NumFor(x.Floor))
    case Str(s) => CharSeq(CharsFor(s))
    case Array(items) =>
      if items.NoItems? then EmptyArray([]) else FullArray(ElementsFor(items, [], fmt, depth + 1))
    case Object(members) =>
      if members.NoMembers? then EmptyObject(When(fmt, LF) + Indent(fmt, depth))
      else FullObject(FieldsFor(members, When(fmt, LF), Indent(fmt, depth), fmt, depth + 1))
  }

  function ElementsFor(items: Items, before: bytes, fmt: bool, depth: nat): Elements
    requires items.Item?
    decreases items, 1
  {
    var head := TextFor(items.head, fmt, depth);
    if items.tail.NoItems? then LastElement(before, head, [])
    else Element(before, head, [], ElementsFor(items.tail, When(fmt, SPACE), fmt, depth))
  }

  /** `lead` stands in front of the line of the first member, `close` in front of the closing brace. */
  function FieldsFor(members: Members, lead: bytes, close: bytes, fmt: bool, depth: nat): Fields
    requires members.Member?
    decreases members, 1
  {
    var before, key := lead + Indent(fmt, depth), CharsFor(members.key);
    var value := TextFor(members.value, fmt, depth);
    if members.rest.NoMembers? then LastField(before, key, [], When(fmt, TAB), value, When(fmt, LF) + close)
    else Field(before, key, [], When(fmt, TAB), value, [], FieldsFor(members.rest, When(fmt, LF), close, fmt, depth))
  }

  lemma LayoutIsBlank(fmt: bool, depth: nat)
    ensures Whitespace([]) && Whitespace(When(fmt, LF)) && Whitespace(When(fmt, SPACE)) && Whitespace(When(fmt, TAB))
    ensures Whitespace(Indent(fmt, depth))
  {
  }

  lemma BothBlank(a: bytes, b: bytes)
    requires Whitespace(a) && Whitespace(b)
    ensures Whitespace(a + b)
  {
  }

  /** Well formed, written so, meaning `v` and regular. */
  ghost predicate StandsFor(t: Grammar.Text, text: bytes, v: Json) {
    Formed(t) && Spelled(t) == text && Meaning(t) == v && Regular(t)
  }

  ghost predicate ElementsStand(l: Elements, text: bytes, items: Items) {
    ElementsFormed(l) && ElementsSpelled(l) == text && ElementsMeaning(l) == items && ElementsRegular(l)
  }

  ghost predicate FieldsStand(l: Fields, text: bytes, members: Members) {
    FieldsFormed(l) && FieldsSpelled(l) == text && FieldsMeaning(l) == members && FieldsRegular(l)
  }

  lemma LeafStands(v: Json, fmt: bool, depth: nat)
    requires Printable(v) && !v.Array? && !v.Object?
    ensures StandsFor(TextFor(v, fmt, depth), ValueText(v, fmt, depth), v)
  {
    hide NumFor, CharsFor, NumFormed, CharsFormed, NumText, StringText, NumValue, StringMeaning, NoLoneSurrogate;
    hide Quoted, Decimal;
    if v.Number? {
      NumForIs(v.num.Floor);
    } else if v.Str? {
      StringFor(v.text);
    }
  }

  lemma LastElementStands(before: bytes, t: Grammar.Text, text: bytes, v: Json)
    requires Whitespace(before) && StandsFor(t, text, v)
    ensures ElementsStand(LastElement(before, t, []), before + text, Item(v, NoItems))
  {
    hide Formed, Spelled, Meaning, Regular;
    assert text + ([] + []) == text;
  }

  lemma ElementStands(before: bytes, t: Grammar.Text, text: bytes, v: Json, rest: Elements, more: bytes, tail: Items)
    requires Whitespace(before) && StandsFor(t, text, v) && ElementsStand(rest, more, tail)
    ensures ElementsStand(Element(before, t, [], rest), before + (text + ([COMMA] + more)), Item(v, tail))
  {
    hide Formed, Spelled, Meaning, Regular;
    assert [] + ([COMMA] + more) == [COMMA] + more;
  }

  lemma {:induction false} ItemsStand(items: Items, before: bytes, fmt: bool, depth: nat)
    requires PrintableItems(items) && items.Item? && Whitespace(before)
    ensures ElementsStand(ElementsFor(items, before, fmt, depth), before + ItemsText(items, fmt, depth), items)
    decreases items, 1
  {
    hide StandsFor, ElementsStand, TextFor, Whitespace, ValueText, When;
    LayoutIsBlank(fmt, depth);
    var head, text := TextFor(items.head, fmt, depth), ValueText(items.head, fmt, depth);
    ValueStands(items.head, fmt, depth);
    if items.tail.NoItems? {
      assert text + [] + [] == text;
      LastElementStands(before, head, text, items.head);
    } else {
      var w, more := When(fmt, SPACE), ItemsText(items.tail, fmt, depth);
      ItemsStand(items.tail, w, fmt, depth);
      ElementStands(before, head, text, items.head, ElementsFor(items.tail, w, fmt, depth), w + more, items.tail);
      Assoc(text, [COMMA] + w, more);
      Assoc([COMMA], w, more);
    }
  }

  /** The line of a member up to its value. */
  ghost predicate KeyStands(l: Fields, text: bytes, key: bytes) {
    && Whitespace(l.before) && CharsFormed(l.key) && Whitespace(l.afterKey) && Whitespace(l.beforeValue)
    && KeySpelled(l) == text && StringMeaning(l.key) == key && NoLoneSurrogate(l.key)
  }

  lemma KeyFor(l: Fields, lead: bytes, key: bytes, fmt: bool, depth: nat)
    requires l.before == lead + Indent(fmt, depth) && l.key == CharsFor(key) && l.afterKey == []
    requires l.beforeValue == When(fmt, TAB) && Whitespace(lead) && NulFree(key)
    ensures KeyStands(l, lead + KeyText(key, fmt, depth), key)
  {
    hide CharsFormed, StringText, StringMeaning, NoLoneSurrogate, CharsFor, Quoted, Whitespace, Indent, When;
    LayoutIsBlank(fmt, depth);
    BothBlank(lead, Indent(fmt, depth));
    StringFor(key);
    var i, q, c := Indent(fmt, depth), Quoted(key), [COLON] + When(fmt, TAB);
    assert [] + c == c;
    Assoc(i + q, [COLON], When(fmt, TAB));
    Assoc(i, q, c);
    Assoc(lead, i, q + c);
  }

  lemma LastFieldStands(l: Fields, line: bytes, key: bytes, text: bytes, v: Json)
    requires l.LastField? && KeyStands(l, line, key) && StandsFor(l.value, text, v) && Whitespace(l.after)
    ensures FieldsStand(l, line + (text + l.after), Member(key, v, NoMembers))
  {
    hide Formed, Spelled, Meaning, Regular, KeySpelled, StringMeaning, NoLoneSurrogate, CharsFormed, Whitespace;
    assert l.after + [] == l.after;
  }

  lemma FieldStands(l: Fields, line: bytes, key: bytes, text: bytes, v: Json, more: bytes, rest: Members)
    requires l.Field? && KeyStands(l, line, key) && StandsFor(l.value, text, v) && l.after == []
    requires FieldsStand(l.rest, more, rest)
    ensures FieldsStand(l, line + (text + ([COMMA] + more)), Member(key, v, rest))
  {
    hide Formed, Spelled, Meaning, Regular, KeySpelled, StringMeaning, NoLoneSurrogate, CharsFormed;
    assert [] + ([COMMA] + more) == [COMMA] + more;
  }

  lemma {:induction false} MembersStand(members: Members, lead: bytes, close: bytes, fmt: bool, depth: nat)
    requires PrintableMembers(members) && members.Member? && Whitespace(lead) && Whitespace(close)
    ensures FieldsStand(FieldsFor(members, lead, close, fmt, depth),
              lead + (MembersText(members, fmt, depth) + close), members)
    decreases members, 1
  {
    hide StandsFor, FieldsStand, KeyStands, TextFor, Whitespace, ValueText, KeyText, Indent, CharsFor;
    LayoutIsBlank(fmt, depth);
    var Member(key, value, rest) := members;
    var l := FieldsFor(members, lead, close, fmt, depth);
    var line, text, w := lead + KeyText(key, fmt, depth), ValueText(value, fmt, depth), When(fmt, LF);
    KeyFor(l, lead, key, fmt, depth);
    ValueStands(value, fmt, depth);
    if rest.NoMembers? {
      BothBlank(w, close);
      LastFieldStands(l, line, key, text, value);
      LastMemberGroups(lead, KeyText(key, fmt, depth), text, w, close);
    } else {
      var more := MembersText(rest, fmt, depth);
      MembersStand(rest, w, close, fmt, depth);
      FieldStands(l, line, key, text, value, w + (more + close), rest);
      MemberGroups(lead, KeyText(key, fmt, depth), text, w, more, close);
    }
  }

  lemma LastMemberGroups(lead: bytes, k: bytes, text: bytes, w: bytes, close: bytes)
    ensures (lead + k) + (text + (w + close)) == lead + ((k + text + ([] + w) + []) + close)
  {
    assert [] + w == w;
    assert k + text + w + [] == k + text + w;
    Assoc(lead, k, text + (w + close));
    Assoc(k + text, w, close);
    Assoc(k, text, w + close);
  }

  lemma MemberGroups(lead: bytes, k: bytes, text: bytes, w: bytes, more: bytes, close: bytes)
    ensures (lead + k) + (text + ([COMMA] + (w + (more + close)))) ==
            lead + ((k + text + ([COMMA] + w) + more) + close)
  {
    var c := [COMMA] + w;
    Assoc([COMMA], w, more + close);
    Assoc(lead, k, text + (c + (more + close)));
    Assoc(k + text + c, more, close);
    Assoc(k + text, c, more + close);
    Assoc(k, text, c + (more + close));
  }

  lemma ArrayStands(items: Items, l: Elements, text: bytes, v: Json)
    requires v == Array(items) && ElementsStand(l, text, items)
    ensures StandsFor(FullArray(l), [LEFT_BRACKET] + (text + [RIGHT_BRACKET]), v)
  {
    hide ElementsFormed, ElementsSpelled, ElementsMeaning, ElementsRegular;
  }

  lemma ObjectStands(members: Members, l: Fields, text: bytes, v: Json)
    requires v == Object(members) && FieldsStand(l, text, members)
    ensures StandsFor(FullObject(l), [LEFT_BRACE] + (text + [RIGHT_BRACE]), v)
  {
    hide FieldsFormed, FieldsSpelled, FieldsMeaning, FieldsRegular;
  }

  lemma EmptyStands(blank: bytes)
    requires Whitespace(blank)
    ensures StandsFor(EmptyArray(blank), [LEFT_BRACKET] + (blank + [RIGHT_BRACKET]), Array(NoItems))
    ensures StandsFor(EmptyObject(blank), [LEFT_BRACE] + (blank + [RIGHT_BRACE]), Object(NoMembers))
  {
  }

  lemma ArrayGroups(text: bytes)
    ensures [LEFT_BRACKET] + text + [RIGHT_BRACKET] == [LEFT_BRACKET] + (([] + text) + [RIGHT_BRACKET])
  {
  }

  lemma ObjectGroups(w: bytes, text: bytes, close: bytes)
    ensures [LEFT_BRACE] + w + text + close + [RIGHT_BRACE] == [LEFT_BRACE] + ((w + (text + close)) + [RIGHT_BRACE])
    ensures text == [] ==>
              [LEFT_BRACE] + w + text + close + [RIGHT_BRACE] == [LEFT_BRACE] + ((w + close) + [RIGHT_BRACE])
  {
    Assoc([LEFT_BRACE] + w, text, close);
    Assoc([LEFT_BRACE], w, text + close);
    Assoc([LEFT_BRACE], w + (text + close), [RIGHT_BRACE]);
    assert text == [] ==> text + close == close;
  }

  /** The text of a value at any depth is a text of the grammar that means the value. */
  lemma {:induction false} ValueStands(v: Json, fmt: bool, depth: nat)
    requires Printable(v)
    ensures StandsFor(TextFor(v, fmt, depth), ValueText(v, fmt, depth), v)
    decreases v, 0
  {
    hide StandsFor, ElementsStand, FieldsStand, Whitespace, ElementsFor, FieldsFor, When, Indent;
    LayoutIsBlank(fmt, depth);
    if v.Array? {
      if v.items.NoItems? {
        EmptyStands([]);
        ArrayGroups([]);
      } else {
        ItemsStand(v.items, [], fmt, depth + 1);
        ArrayStands(v.items, ElementsFor(v.items, [], fmt, depth + 1), [] + ItemsText(v.items, fmt, depth + 1), v);
        ArrayGroups(ItemsText(v.items, fmt, depth + 1));
      }
    } else if v.Object? {
      var w, close := When(fmt, LF), Indent(fmt, depth);
      ObjectGroups(w, MembersText(v.members, fmt, depth + 1), close);
      if v.members.NoMembers? {
        BothBlank(w, close);
        EmptyStands(w + close);
      } else {
        MembersStand(v.members, w, close, fmt, depth + 1);
        ObjectStands(v.members, FieldsFor(v.members, w, close, fmt, depth + 1),
            w + (MembersText(v.members, fmt, depth + 1) + close), v);
      }
    } else {
      LeafStands(v, fmt, depth);
    }
  }

  /** Everything that is printed, formatted or not, is a text of RFC 8259 with the meaning of the tree. */
  lemma PrintedIsStandard(v: Json, fmt: bool)
    requires Printable(v)
    ensures var t := TextFor(v, fmt, 0);
            Formed(t) && Spelled(t) == Printer.Text(v, fmt) && Meaning(t) == v && Regular(t)
  {
    ValueStands(v, fmt, 0);
  }
}
