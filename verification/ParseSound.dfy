/** Nothing but lax texts is accepted: for whatever the parser takes there is a text of the grammar
    that is spelled so and means the result. */
module ParseSound {
  import opened Bytes
  import opened JsonTree
  import opened NumberCodec
  import opened StringCodec
  import opened Parser
  import opened RoundTrip
  import opened Grammar
  import opened AcceptedTexts
  import Utf8

  // ---------- Strings ----------

  lemma {:induction false} ScanGuards(t: bytes)
    requires Scan(t).Some?
    ensures Guarded(t[..Scan(t).value])
    decreases |t|
  {
    var n := Scan(t).value;
    if t[0] != QUOTE {
      var step := if t[0] == BACKSLASH then 2 else 1;
      ScanGuards(t[step..]);
      assert t[..n][step..] == t[step..][..n - step];
      assert t[..n][0] == t[0];
    }
  }

  /** `cs` is what the second pass has read of `b`. */
  ghost predicate ReadAs(b: bytes, cs: seq<Char>) {
    && CharsLax(cs) && CharsText(cs) == b && NoLoneSurrogate(cs)
    && Decode(b) == Done(CharsMeaning(cs))
  }

  lemma NothingRead()
    ensures ReadAs([], [])
  {
  }

  lemma CharRead(c: Char, cs: seq<Char>, tail: bytes)
    requires CharLax(c) && !c.Dangling? && !IsHighSurrogate(UnitOf(c)) && !IsLowSurrogate(UnitOf(c))
    requires ReadAs(tail, cs)
    ensures ReadAs(CharText(c) + tail, [c] + cs)
  {
    hide CharLax, CharText, CharMeaning, Decode;
    var all := [c] + cs;
    assert all[1..] == cs;
    assert forall i | 1 <= i < |all| :: all[i] == cs[i - 1];
    OneCharacter(all);
    DecodeChars(all);
  }

  lemma PairRead(c: Char, e: Char, cs: seq<Char>, tail: bytes)
    requires CharLax(c) && CharLax(e) && c.Unit? && e.Unit? && IsHighSurrogate(c.unit) && IsLowSurrogate(e.unit)
    requires ReadAs(tail, cs)
    ensures ReadAs(CharText(c) + (CharText(e) + tail), [c, e] + cs)
  {
    hide CharLax, CharText, CharMeaning, Decode;
    var all := [c, e] + cs;
    assert all[2..] == cs && all[1..][1..] == cs && all[1..][0] == e;
    assert forall i | 2 <= i < |all| :: all[i] == cs[i - 2];
    DecodeChars(all);
  }

  lemma DanglingRead()
    ensures ReadAs([BACKSLASH], [Dangling])
  {
    assert [Dangling][1..] == [];
    DecodeChars([Dangling]);
  }

  /** The escape of a code unit, or of no digits. */
  function UCharOf(four: bytes): Char
    requires |four| == 4
  {
    if IsHex4(four) then Unit(Hex4(four), four) else Garbled(four)
  }

  lemma UCharLax(four: bytes)
    requires |four| == 4
    ensures var c := UCharOf(four);
            CharLax(c) && UnitOf(c) == Hex4(four) && CharText(c) == [BACKSLASH, LOWER_U] + four
  {
    hide WritesUnit, Hex4;
    GarbledLooks(four);
    if IsHex4(four) {
      UnitReads(four, Hex4(four));
    }
    NotDigits(four);
  }

  lemma NotDigits(four: bytes)
    requires |four| == 4
    ensures !IsHex4(four) ==> Hex4(four) == 0
    ensures Hex4(four) != 0 ==> IsHex4(four)
  {
  }

  /** The turns of the second pass, cut into characters. */
  lemma {:induction false} CharsOf(b: bytes) returns (cs: seq<Char>)
    requires Decode(b).Done?
    ensures ReadAs(b, cs)
    decreases |b|
  {
    hide ReadAs, CharLax, CharText, Hex4, IsHex4, Utf8.Encode, JoinSurrogates, Unescape;
    if b == [] {
      NothingRead();
      cs := [];
    } else if b == [BACKSLASH] {
      DanglingRead();
      cs := [Dangling];
    } else if b[0] != BACKSLASH {
      var tail := CharsOf(b[1..]);
      PlainLax(b[0]);
      CharRead(Plain(b[0]), tail, b[1..]);
      assert [b[0]] + b[1..] == b;
      cs := [Plain(b[0])] + tail;
    } else if b[1] != LOWER_U {
      ShortLax(b[1]);
      var tail := CharsOf(b[2..]);
      CharRead(Short(b[1]), tail, b[2..]);
      assert [BACKSLASH, b[1]] + b[2..] == b;
      cs := [Short(b[1])] + tail;
    } else {
      cs := UCharsOf(b);
    }
  }

  lemma PlainLax(b: byte)
    requires b != BACKSLASH
    ensures CharLax(Plain(b)) && CharText(Plain(b)) == [b]
  {
  }

  lemma ShortLax(letter: byte)
    requires Unescape(letter).Some? && letter != LOWER_U
    ensures CharLax(Short(letter)) && CharText(Short(letter)) == [BACKSLASH, letter]
  {
    EightEscapes(letter);
  }

  lemma {:induction false} UCharsOf(b: bytes) returns (cs: seq<Char>)
    requires |b| > 1 && b[0] == BACKSLASH && b[1] == LOWER_U && Decode(b).Done?
    ensures ReadAs(b, cs)
    decreases |b|, 0
  {
    hide ReadAs, CharLax, CharText, Hex4, IsHex4, Decode, UCharOf;
    UEscapeTaken(b);
    var c := UCharOf(b[2..6]);
    UCharLax(b[2..6]);
    if IsHighSurrogate(Hex4(b[2..6])) {
      var e := UCharOf(b[8..12]);
      UCharLax(b[8..12]);
      UnitChars(b[2..6], b[8..12]);
      var tail := CharsOf(b[12..]);
      PairRead(c, e, tail, b[12..]);
      assert [BACKSLASH, LOWER_U] + b[2..6] + ([BACKSLASH, LOWER_U] + b[8..12] + b[12..]) == b;
      cs := [c, e] + tail;
    } else {
      var tail := CharsOf(b[6..]);
      NotDangling(b[2..6]);
      CharRead(c, tail, b[6..]);
      assert [BACKSLASH, LOWER_U] + b[2..6] + b[6..] == b;
      cs := [c] + tail;
    }
  }

  /** An escape that is taken, and what is decoded behind it. */
  lemma UEscapeTaken(b: bytes)
    requires |b| > 1 && b[0] == BACKSLASH && b[1] == LOWER_U && Decode(b).Done?
    ensures |b| >= 6 && !IsLowSurrogate(Hex4(b[2..6]))
    ensures if IsHighSurrogate(Hex4(b[2..6])) then
              && |b| >= 12 && b[6] == BACKSLASH && b[7] == LOWER_U && IsLowSurrogate(Hex4(b[8..12]))
              && Decode(b[12..]).Done?
            else Decode(b[6..]).Done?
  {
    hide Hex4, Utf8.Encode, JoinSurrogates;
  }

  lemma NotDangling(four: bytes)
    requires |four| == 4
    ensures !UCharOf(four).Dangling?
  {
  }

  lemma UnitChars(x: bytes, y: bytes)
    requires |x| == 4 && |y| == 4 && IsHighSurrogate(Hex4(x)) && IsLowSurrogate(Hex4(y))
    ensures UCharOf(x).Unit? && UCharOf(x).unit == Hex4(x) && UCharOf(y).Unit? && UCharOf(y).unit == Hex4(y)
  {
    NotDigits(x);
    NotDigits(y);
    hide Hex4, IsHex4;
  }

  lemma ReadParts(b: bytes, cs: seq<Char>)
    requires ReadAs(b, cs)
    ensures CharsLax(cs) && CharsText(cs) == b && NoLoneSurrogate(cs) && Decode(b) == Done(CharsMeaning(cs))
  {
  }

  lemma StringOpened(s: bytes)
    requires ParseString(s).Parsed?
    ensures s != [] && s[0] == QUOTE && Scan(s[1..]).Some? && Scan(s[1..]).value < |s[1..]|
    ensures s[1..][Scan(s[1..]).value] == QUOTE
    ensures var (n, d) := (Scan(s[1..]).value, Decode(s[1..][..Scan(s[1..]).value]));
            n + 2 <= |s| && d.Done? && ParseString(s) == Parsed(CString(d.out), s[n + 2..])
  {
    hide Decode, CString;
  }

  /** An accepted string. */
  lemma StringSound(s: bytes) returns (cs: seq<Char>)
    requires ParseString(s).Parsed?
    ensures StringLax(cs) && NoLoneSurrogate(cs)
    ensures s == StringText(cs) + ParseString(s).rest && StringMeaning(cs) == ParseString(s).value
  {
    hide *;
    StringOpened(s);
    var t := s[1..];
    var n := Scan(t).value;
    cs := CharsOf(t[..n]);
    ReadParts(t[..n], cs);
    ScanGuards(t);
    StringIs(cs);
    StringTextIs(cs, s[n + 2..]);
    assert t == t[..n] + ([QUOTE] + s[n + 2..]);
    assert s == [QUOTE] + t;
  }

  lemma StringIs(cs: seq<Char>)
    ensures StringLax(cs) <==> CharsLax(cs) && Guarded(CharsText(cs))
    ensures StringMeaning(cs) == CString(CharsMeaning(cs))
  {
  }

  // ---------- Numbers ----------

  lemma ExponentOf(q: bytes) returns (e: Exponent)
    ensures ExponentFormed(e) && ExponentText(e) == q[..ExponentLength(q)] && Power(e) == ExponentValue(q)
  {
    hide NatOf;
    e := NoExponent;
    if ExponentLength(q) > 0 {
      var g := SignLength(q[1..]);
      var t := q[1..][g..];
      var n := DigitSpan(t);
      e := Exponent(q[0], q[1..][..g], t[..n]);
      assert q[1] == MINUS <==> e.sign == [MINUS];
      assert q[..1 + g + n] == [q[0]] + (q[1..][..g] + t[..n]);
    }
  }

  /** The parts strtod finds. */
  lemma StrtodParts(p: bytes) returns (g: nat, i: nat, f: nat)
    requires Strtod(p).Some?
    ensures p != [] && g == SignLength(p) && g + i + f <= |p| && i == DigitSpan(p[g..])
    ensures f == FractionLength(p[g + i..]) && (i > 0 || f > 1)
    ensures AllDigits(p[g..][..i]) && (f > 0 ==> p[g + i] == DOT && AllDigits(p[g + i..][1..f]))
    ensures var fr := if f == 0 then [] else p[g + i..][1..f];
            && AllDigits(p[g..][..i] + fr)
            && var x := Scaled(p[g..][..i] + fr, ExponentValue(p[g + i + f..]) - |fr|);
               && Strtod(p).value.0 == (if p[0] == MINUS then -x else x)
               && Strtod(p).value.1 == g + i + f + ExponentLength(p[g + i + f..])
  {
    hide Scaled, ExponentValue, ExponentLength;
    g, i := SignLength(p), DigitSpan(p[SignLength(p)..]);
    f := FractionLength(p[g + i..]);
    if f > 0 {
      assert p[g + i..][0] == p[g + i];
    }
  }

  /** The text of a number that starts with a digit or a minus sign. */
  lemma NumberOf(p: bytes) returns (n: Num)
    requires Strtod(p).Some? && (p[0] == MINUS || IsDigit(p[0]))
    ensures NumLax(n) && NumText(n) == p[..Strtod(p).value.1] && NumValue(n) == Strtod(p).value.0
  {
    hide Strtod, Scaled, NumValue, ExponentLength, ExponentValue, ExponentText, ExponentFormed, Power;
    var g, i, f := StrtodParts(p);
    var q := p[g + i + f..];
    var e := ExponentOf(q);
    var (w, fr) := (p[g..][..i], if f == 0 then [] else p[g + i..][1..f]);
    n := Num(p[0] == MINUS, w, f > 0, fr, e);
    assert !n.minus ==> i > 0 by {
      if !n.minus {
        assert p[g..][0] == p[0];
      }
    }
    NumValueIs(n);
    var front := if n.minus then [MINUS] else [];
    assert p[..g] == front;
    assert FractionText(n.dot, fr) == p[g + i..][..f];
    PrefixParts(p, g, i, f, ExponentLength(q));
  }

  lemma PrefixParts(p: bytes, g: nat, i: nat, f: nat, k: nat)
    requires g + i + f + k <= |p|
    ensures p[..g + i + f + k] == p[..g] + (p[g..][..i] + (p[g + i..][..f] + p[g + i + f..][..k]))
  {
  }

  lemma NumberSound(s: bytes) returns (n: Num)
    requires s != [] && (s[0] == MINUS || IsDigit(s[0])) && ParseNumber(s).Some?
    ensures NumLax(n) && |NumText(n)| <= 63
    ensures s == NumText(n) + s[ParseNumber(s).value.1..] && NumValue(n) == ParseNumber(s).value.0
  {
    hide Strtod, NumLax, NumText, NumValue;
    var p := s[..Run(s, COPY_LIMIT)];
    assert p[0] == s[0];
    n := NumberOf(p);
    assert p[..ParseNumber(s).value.1] == s[..ParseNumber(s).value.1];
  }

  // ---------- Blanks ----------

  lemma {:induction false} BlanksOf(s: bytes) returns (w: bytes)
    ensures Blank(w) && s == w + SkipWhitespace(s)
    decreases |s|
  {
    if |s| > 1 && s[0] <= SPACE {
      var rest := BlanksOf(s[1..]);
      w := [s[0]] + rest;
      assert s == [s[0]] + s[1..];
    } else {
      w := [];
      assert s == [] + s;
    }
  }

  lemma SkippedByte(s: bytes)
    requires LooksAt(s, COMMA) || LooksAt(s, COLON) || LooksAt(s, RIGHT_BRACKET) || LooksAt(s, RIGHT_BRACE)
    ensures s == [s[0]] + s[1..]
  {
  }

  // ---------- Values ----------

  /** `t` is a text for what was read of `s` in front of `k`. */
  ghost predicate TextFor(s: bytes, t: Text, k: bytes, v: Json, d: nat) {
    && Lax(t) && Regular(t) && s == Spelled(t) + k && Meaning(t) == v && Nesting(v) + d <= NESTING_LIMIT
  }

  ghost predicate ElementsFor(s: bytes, l: Elements, k: bytes, items: Items, d: nat) {
    && ElementsLax(l) && ElementsRegular(l) && s == ElementsSpelled(l) + ([RIGHT_BRACKET] + k)
    && ElementsMeaning(l) == items && ItemsNesting(items) + d <= NESTING_LIMIT
  }

  ghost predicate FieldsFor(s: bytes, l: Fields, k: bytes, members: Members, d: nat) {
    && FieldsLax(l) && FieldsRegular(l) && s == FieldsSpelled(l) + ([RIGHT_BRACE] + k)
    && FieldsMeaning(l) == members && MembersNesting(members) + d <= NESTING_LIMIT
  }

  /** The branches of parse_value. */
  lemma ValueCases(s: bytes, d: nat)
    requires ParseValue(s, d).Parsed?
    ensures var r := ParseValue(s, d);
            || (NULL_TEXT <= s && r == Parsed(Null, s[4..]))
            || (FALSE_TEXT <= s && r == Parsed(False, s[5..]))
            || (TRUE_TEXT <= s && r == Parsed(True, s[4..]))
            || (ParseString(s).Parsed? && r == Parsed(Str(ParseString(s).value), ParseString(s).rest))
            || (s != [] && (s[0] == MINUS || IsDigit(s[0])) && ParseNumber(s).Some?
                  && r == Parsed(Number(ParseNumber(s).value.0), s[ParseNumber(s).value.1..]))
            || (LooksAt(s, LEFT_BRACKET) && r == ParseArray(s, d))
            || (LooksAt(s, LEFT_BRACE) && r == ParseObject(s, d))
  {
    hide ParseString, ParseNumber, ParseArray, ParseObject;
  }

  lemma WordText(s: bytes, word: bytes, t: Text, d: nat)
    requires word <= s && d <= NESTING_LIMIT && (t.NullWord? || t.FalseWord? || t.TrueWord?) && Spelled(t) == word
    ensures TextFor(s, t, s[|word|..], Meaning(t), d)
  {
    assert s == word + s[|word|..];
  }

  lemma StringTextFor(s: bytes, cs: seq<Char>, k: bytes, d: nat)
    requires StringLax(cs) && NoLoneSurrogate(cs) && s == StringText(cs) + k && d <= NESTING_LIMIT
    ensures TextFor(s, CharSeq(cs), k, Str(StringMeaning(cs)), d)
  {
    hide StringLax, NoLoneSurrogate, StringText, StringMeaning;
  }

  lemma NumberTextFor(s: bytes, n: Num, k: bytes, d: nat)
    requires NumLax(n) && |NumText(n)| <= 63 && s == NumText(n) + k && d <= NESTING_LIMIT
    ensures TextFor(s, NumberText(n), k, Number(NumValue(n)), d)
  {
    hide NumLax, NumText, NumValue;
  }

  /** What parse_value accepts is a lax text that means the result, not nested more than 1000 deep. */
  lemma {:induction false} ValueSound(s: bytes, d: nat) returns (t: Text)
    requires ParseValue(s, d).Parsed? && d <= NESTING_LIMIT
    ensures TextFor(s, t, ParseValue(s, d).rest, ParseValue(s, d).value, d)
    decreases |s|, 1
  {
    hide *;
    ValueCases(s, d);
    var r := ParseValue(s, d);
    WordsAre();
    if NULL_TEXT <= s && r == Parsed(Null, s[4..]) {
      t := NullWord;
      WordText(s, NULL_TEXT, t, d);
    } else if FALSE_TEXT <= s && r == Parsed(False, s[5..]) {
      t := FalseWord;
      WordText(s, FALSE_TEXT, t, d);
    } else if TRUE_TEXT <= s && r == Parsed(True, s[4..]) {
      t := TrueWord;
      WordText(s, TRUE_TEXT, t, d);
    } else if ParseString(s).Parsed? && r == Parsed(Str(ParseString(s).value), ParseString(s).rest) {
      var cs := StringSound(s);
      t := CharSeq(cs);
      StringTextFor(s, cs, r.rest, d);
    } else if LooksAt(s, LEFT_BRACKET) && r == ParseArray(s, d) {
      t := ArraySound(s, d);
    } else if LooksAt(s, LEFT_BRACE) && r == ParseObject(s, d) {
      t := ObjectSound(s, d);
    } else {
      var n := NumberSound(s);
      t := NumberText(n);
      NumberTextFor(s, n, r.rest, d);
    }
  }

  lemma WordsAre()
    ensures Spelled(NullWord) == NULL_TEXT && Meaning(NullWord) == Null && |NULL_TEXT| == 4
    ensures Spelled(FalseWord) == FALSE_TEXT && Meaning(FalseWord) == False && |FALSE_TEXT| == 5
    ensures Spelled(TrueWord) == TRUE_TEXT && Meaning(TrueWord) == True && |TRUE_TEXT| == 4
  {
  }

  lemma ArrayCases(s: bytes, d: nat)
    requires LooksAt(s, LEFT_BRACKET) && ParseArray(s, d).Parsed?
    ensures var (r, x) := (ParseArray(s, d), SkipWhitespace(s[1..]));
            && s == [LEFT_BRACKET] + s[1..] && d < NESTING_LIMIT && s[1..] != []
            && if LooksAt(x, RIGHT_BRACKET) then r == Parsed(Array(NoItems), x[1..])
               else
                 var i := ParseItems(x, d + 1);
                 i.Parsed? && r == Parsed(Array(i.value), i.rest)
  {
    hide ParseItems, SkipWhitespace;
    EmptyFails(d + 1);
    SkipNothing();
  }

  lemma SkipNothing()
    ensures SkipWhitespace([]) == []
  {
  }

  lemma EmptyFails(d: nat)
    ensures ParseItems([], d).Failed? && ParseMembers([], d).Failed?
  {
  }

  lemma EmptyArrayText(s: bytes, w: bytes, k: bytes, d: nat)
    requires Blank(w) && s == [LEFT_BRACKET] + (w + ([RIGHT_BRACKET] + k)) && d < NESTING_LIMIT
    ensures TextFor(s, EmptyArray(w), k, Array(NoItems), d)
  {
    Assoc([LEFT_BRACKET], w + [RIGHT_BRACKET], k);
    Assoc(w, [RIGHT_BRACKET], k);
  }

  lemma FullArrayText(s: bytes, l: Elements, k: bytes, items: Items, x: bytes, d: nat)
    requires ElementsFor(x, l, k, items, d + 1) && s == [LEFT_BRACKET] + x
    ensures TextFor(s, FullArray(l), k, Array(items), d)
  {
    hide ElementsLax, ElementsRegular, ElementsSpelled, ElementsMeaning;
    Assoc([LEFT_BRACKET], ElementsSpelled(l) + [RIGHT_BRACKET], k);
    Assoc(ElementsSpelled(l), [RIGHT_BRACKET], k);
  }

  lemma {:induction false} ArraySound(s: bytes, d: nat) returns (t: Text)
    requires LooksAt(s, LEFT_BRACKET) && ParseArray(s, d).Parsed? && d <= NESTING_LIMIT
    ensures TextFor(s, t, ParseArray(s, d).rest, ParseArray(s, d).value, d)
    decreases |s|, 0
  {
    hide *;
    ArrayCases(s, d);
    var x := SkipWhitespace(s[1..]);
    var w := BlanksOf(s[1..]);
    if LooksAt(x, RIGHT_BRACKET) {
      ByteThere(x, RIGHT_BRACKET);
      t := EmptyArray(w);
      EmptyArrayText(s, w, x[1..], d);
    } else {
      SkipSomething(s[1..]);
      ItemsSkip(w, x, d + 1);
      var l := ItemsSound(s[1..], d + 1);
      t := FullArray(l);
      FullArrayText(s, l, ParseArray(s, d).rest, ParseItems(x, d + 1).value, s[1..], d);
    }
  }

  lemma ByteThere(x: bytes, b: byte)
    requires LooksAt(x, b)
    ensures x == [b] + x[1..]
  {
  }

  lemma SkipSomething(s: bytes)
    requires s != []
    ensures SkipWhitespace(s) != []
  {
  }

  lemma ItemsCases(s: bytes, d: nat)
    requires ParseItems(s, d).Parsed?
    ensures var (r, v) := (ParseItems(s, d), ParseValue(SkipWhitespace(s), d));
            && v.Parsed? && |SkipWhitespace(s)| <= |s| && |v.rest| < |s|
            && var y := SkipWhitespace(v.rest);
               && |y| <= |v.rest|
               && if LooksAt(y, COMMA) then
                    var more := ParseItems(y[1..], d);
                    more.Parsed? && r == Parsed(Item(v.value, more.value), more.rest)
                  else LooksAt(y, RIGHT_BRACKET) && r == Parsed(Item(v.value, NoItems), y[1..])
  {
    hide ParseValue;
  }

  lemma LastElementText(s: bytes, w: bytes, t: Text, w': bytes, k: bytes, v: Json, x: bytes, d: nat)
    requires Blank(w) && Blank(w') && s == w + x && TextFor(x, t, w' + ([RIGHT_BRACKET] + k), v, d)
    ensures ElementsFor(s, LastElement(w, t, w'), k, Item(v, NoItems), d)
  {
    hide Lax, Regular, Spelled, Meaning, Blank, Nesting;
    ElementsAre(LastElement(w, t, w'), k);
    ItemNests(v, NoItems);
  }

  lemma ItemNests(v: Json, tail: Items)
    ensures ItemsNesting(Item(v, tail)) == Max(Nesting(v), ItemsNesting(tail)) && ItemsNesting(NoItems) == 0
  {
  }

  lemma ElementText(s: bytes, w: bytes, t: Text, w': bytes, l: Elements, y: bytes, k: bytes, v: Json, tail: Items,
      x: bytes, d: nat)
    requires Blank(w) && Blank(w') && s == w + x && TextFor(x, t, w' + ([COMMA] + y), v, d)
    requires ElementsFor(y, l, k, tail, d)
    ensures ElementsFor(s, Element(w, t, w', l), k, Item(v, tail), d)
  {
    hide Lax, Regular, Spelled, Meaning, Blank, Nesting;
    ElementsAre(Element(w, t, w', l), k);
    ItemNests(v, tail);
  }

  lemma {:induction false} ItemsSound(s: bytes, d: nat) returns (l: Elements)
    requires ParseItems(s, d).Parsed? && d <= NESTING_LIMIT
    ensures ElementsFor(s, l, ParseItems(s, d).rest, ParseItems(s, d).value, d)
    decreases |s|, 2
  {
    hide *;
    ItemsCases(s, d);
    var x := SkipWhitespace(s);
    var w := BlanksOf(s);
    var t := ValueSound(x, d);
    var v := ParseValue(x, d);
    var y := SkipWhitespace(v.rest);
    var w' := BlanksOf(v.rest);
    if LooksAt(y, COMMA) {
      ByteThere(y, COMMA);
      var more := ItemsSound(y[1..], d);
      l := Element(w, t, w', more);
      ElementText(s, w, t, w', more, y[1..], ParseItems(s, d).rest, v.value, ParseItems(y[1..], d).value, x, d);
    } else {
      ByteThere(y, RIGHT_BRACKET);
      l := LastElement(w, t, w');
      LastElementText(s, w, t, w', y[1..], v.value, x, d);
    }
  }

  lemma ObjectCases(s: bytes, d: nat)
    requires LooksAt(s, LEFT_BRACE) && ParseObject(s, d).Parsed?
    ensures var (r, x) := (ParseObject(s, d), SkipWhitespace(s[1..]));
            && s == [LEFT_BRACE] + s[1..] && d < NESTING_LIMIT && s[1..] != []
            && if LooksAt(x, RIGHT_BRACE) then r == Parsed(Object(NoMembers), x[1..])
               else
                 var i := ParseMembers(x, d + 1);
                 i.Parsed? && r == Parsed(Object(i.value), i.rest)
  {
    hide ParseMembers, SkipWhitespace;
    EmptyFails(d + 1);
    SkipNothing();
  }

  lemma EmptyObjectText(s: bytes, w: bytes, k: bytes, d: nat)
    requires Blank(w) && s == [LEFT_BRACE] + (w + ([RIGHT_BRACE] + k)) && d < NESTING_LIMIT
    ensures TextFor(s, EmptyObject(w), k, Object(NoMembers), d)
  {
    Assoc([LEFT_BRACE], w + [RIGHT_BRACE], k);
    Assoc(w, [RIGHT_BRACE], k);
  }

  lemma FullObjectText(s: bytes, l: Fields, k: bytes, members: Members, x: bytes, d: nat)
    requires FieldsFor(x, l, k, members, d + 1) && s == [LEFT_BRACE] + x
    ensures TextFor(s, FullObject(l), k, Object(members), d)
  {
    hide FieldsLax, FieldsRegular, FieldsSpelled, FieldsMeaning;
    Assoc([LEFT_BRACE], FieldsSpelled(l) + [RIGHT_BRACE], k);
    Assoc(FieldsSpelled(l), [RIGHT_BRACE], k);
  }

  lemma {:induction false} ObjectSound(s: bytes, d: nat) returns (t: Text)
    requires LooksAt(s, LEFT_BRACE) && ParseObject(s, d).Parsed? && d <= NESTING_LIMIT
    ensures TextFor(s, t, ParseObject(s, d).rest, ParseObject(s, d).value, d)
    decreases |s|, 0
  {
    hide *;
    ObjectCases(s, d);
    var x := SkipWhitespace(s[1..]);
    var w := BlanksOf(s[1..]);
    if LooksAt(x, RIGHT_BRACE) {
      ByteThere(x, RIGHT_BRACE);
      t := EmptyObject(w);
      EmptyObjectText(s, w, x[1..], d);
    } else {
      SkipSomething(s[1..]);
      MembersSkip(w, x, d + 1);
      var l := MembersSound(s[1..], d + 1);
      t := FullObject(l);
      FullObjectText(s, l, ParseObject(s, d).rest, ParseMembers(x, d + 1).value, s[1..], d);
    }
  }

  lemma KeyCases(s: bytes)
    requires ParseKey(s).Parsed?
    ensures var k := ParseString(SkipWhitespace(s));
            && k.Parsed? && LooksAt(SkipWhitespace(k.rest), COLON)
            && ParseKey(s) == Parsed(k.value, SkipWhitespace(k.rest)[1..])
  {
    hide ParseString, SkipWhitespace;
  }

  /** A key with its blanks and its colon. */
  lemma KeySound(s: bytes) returns (w: bytes, cs: seq<Char>, w': bytes)
    requires ParseKey(s).Parsed?
    ensures Blank(w) && StringLax(cs) && NoLoneSurrogate(cs) && Blank(w') && StringMeaning(cs) == ParseKey(s).value
    ensures s == w + (StringText(cs) + (w' + ([COLON] + ParseKey(s).rest)))
  {
    hide *;
    KeyCases(s);
    w := BlanksOf(s);
    cs := StringSound(SkipWhitespace(s));
    var rest := ParseString(SkipWhitespace(s)).rest;
    w' := BlanksOf(rest);
    ByteThere(SkipWhitespace(rest), COLON);
  }

  lemma MembersCases(s: bytes, d: nat)
    requires ParseMembers(s, d).Parsed?
    ensures var (r, k) := (ParseMembers(s, d), ParseKey(s));
            && k.Parsed? && |k.rest| < |s|
            && var v := ParseValue(SkipWhitespace(k.rest), d);
               && |SkipWhitespace(k.rest)| <= |k.rest| && v.Parsed? && |v.rest| < |s|
               && var y := SkipWhitespace(v.rest);
                  && |y| <= |v.rest|
                  && if LooksAt(y, COMMA) then
                       var more := ParseMembers(y[1..], d);
                       more.Parsed? && r == Parsed(Member(k.value, v.value, more.value), more.rest)
                     else LooksAt(y, RIGHT_BRACE) && r == Parsed(Member(k.value, v.value, NoMembers), y[1..])
  {
    hide ParseValue, ParseKey;
  }

  lemma MemberNests(key: bytes, v: Json, rest: Members)
    ensures MembersNesting(Member(key, v, rest)) == Max(Nesting(v), MembersNesting(rest))
    ensures MembersNesting(NoMembers) == 0
  {
  }

  /** The key, the blanks and the value of a member. */
  ghost predicate FieldHead(l: Fields, s: bytes, k: bytes, key: bytes, v: Json, d: nat) {
    && Blank(l.before) && StringLax(l.key) && NoLoneSurrogate(l.key) && Blank(l.afterKey) && Blank(l.beforeValue)
    && StringMeaning(l.key) == key && Blank(l.after)
    && exists x :: TextFor(x, l.value, l.after + k, v, d)
         && s == l.before + (StringText(l.key) + (l.afterKey + ([COLON] + (l.beforeValue + x))))
  }

  lemma LastFieldText(l: Fields, s: bytes, k: bytes, key: bytes, v: Json, d: nat)
    requires l.LastField? && FieldHead(l, s, [RIGHT_BRACE] + k, key, v, d)
    ensures FieldsFor(s, l, k, Member(key, v, NoMembers), d)
  {
    hide Lax, Regular, Spelled, Meaning, Blank, Nesting, StringLax, NoLoneSurrogate;
    hide StringMeaning, StringText, KeySpelled;
    var x :| TextFor(x, l.value, l.after + ([RIGHT_BRACE] + k), v, d)
      && s == l.before + (StringText(l.key) + (l.afterKey + ([COLON] + (l.beforeValue + x))));
    KeyIs(l, x);
    FieldsAre(l, k);
    MemberNests(key, v, NoMembers);
  }

  lemma FieldText(l: Fields, s: bytes, y: bytes, k: bytes, key: bytes, v: Json, rest: Members, d: nat)
    requires l.Field? && FieldHead(l, s, [COMMA] + y, key, v, d) && FieldsFor(y, l.rest, k, rest, d)
    ensures FieldsFor(s, l, k, Member(key, v, rest), d)
  {
    hide Lax, Regular, Spelled, Meaning, Blank, Nesting, StringLax, NoLoneSurrogate;
    hide StringMeaning, StringText, KeySpelled;
    var x :| TextFor(x, l.value, l.after + ([COMMA] + y), v, d)
      && s == l.before + (StringText(l.key) + (l.afterKey + ([COLON] + (l.beforeValue + x))));
    KeyIs(l, x);
    FieldsAre(l, k);
    MemberNests(key, v, rest);
  }

  lemma HeadIs(l: Fields, s: bytes, k: bytes, key: bytes, v: Json, x: bytes, d: nat)
    requires Blank(l.before) && StringLax(l.key) && NoLoneSurrogate(l.key) && Blank(l.afterKey) && Blank(l.beforeValue)
    requires StringMeaning(l.key) == key && Blank(l.after) && TextFor(x, l.value, l.after + k, v, d)
    requires s == l.before + (StringText(l.key) + (l.afterKey + ([COLON] + (l.beforeValue + x))))
    ensures FieldHead(l, s, k, key, v, d)
  {
    hide TextFor, StringLax, NoLoneSurrogate, StringMeaning, StringText, Blank;
  }

  lemma {:induction false} MembersSound(s: bytes, d: nat) returns (l: Fields)
    requires ParseMembers(s, d).Parsed? && d <= NESTING_LIMIT
    ensures FieldsFor(s, l, ParseMembers(s, d).rest, ParseMembers(s, d).value, d)
    decreases |s|, 2
  {
    hide *;
    MembersCases(s, d);
    var k := ParseKey(s);
    var w, cs, w' := KeySound(s);
    var x := SkipWhitespace(k.rest);
    var u := BlanksOf(k.rest);
    var t := ValueSound(x, d);
    var v := ParseValue(x, d);
    var y := SkipWhitespace(v.rest);
    var u' := BlanksOf(v.rest);
    if LooksAt(y, COMMA) {
      ByteThere(y, COMMA);
      var more := MembersSound(y[1..], d);
      l := Field(w, cs, w', u, t, u', more);
      HeadIs(l, s, [COMMA] + y[1..], k.value, v.value, x, d);
      FieldText(l, s, y[1..], ParseMembers(s, d).rest, k.value, v.value, ParseMembers(y[1..], d).value, d);
    } else {
      ByteThere(y, RIGHT_BRACE);
      l := LastField(w, cs, w', u, t, u');
      HeadIs(l, s, [RIGHT_BRACE] + y[1..], k.value, v.value, x, d);
      LastFieldText(l, s, y[1..], k.value, v.value, d);
    }
  }

  // ---------- Whole texts ----------

  /** `text` is a lax text that means `v`, with blanks around it. */
  ghost predicate IsTextOf(text: bytes, v: Json) {
    exists before, t, after ::
      && Blank(before) && Lax(t) && Blank(after) && text == before + (Spelled(t) + after)
      && Regular(t) && Nesting(Meaning(t)) <= 1000 && Meaning(t) == v
  }

  lemma TextCases(text: bytes)
    requires NulFree(text) && ParseText(text, true).Parsed?
    ensures var r := ParseValue(SkipWhitespace(text + [NUL]), 0);
            r.Parsed? && ParseText(text, true).value == r.value && LooksAt(SkipWhitespace(r.rest), NUL)
  {
    hide ParseValue, SkipWhitespace;
  }

  /** The only terminator is at the end. */
  lemma UpToTerminator(text: bytes, a: bytes, y: bytes)
    requires NulFree(text) && text + [NUL] == a + y && LooksAt(y, NUL)
    ensures text == a && y == [NUL]
  {
    assert (a + y)[|a|] == NUL;
    assert forall i | 0 <= i < |text| :: (text + [NUL])[i] != NUL;
    assert |a| == |text|;
    assert text == (text + [NUL])[..|text|] == (a + y)[..|a|] == a;
  }

  /** cJSON_ParseWithOpts accepts a C string up to its terminator exactly when it is a lax text, with
      blanks around it, of numbers of at most 63 bytes, without lone surrogates and nested at most
      1000 deep; and the result is what the text means. */
  lemma AcceptedIff(text: bytes, v: Json)
    requires NulFree(text)
    ensures ParseText(text, true) == Parsed(v, [NUL]) <==> IsTextOf(text, v)
    ensures ParseText(text, true).Parsed? ==> ParseText(text, true).rest == [NUL]
  {
    hide ParseText, Lax, Regular, Spelled, Meaning, Blank, NulFree, TextFor;
    if ParseText(text, true).Parsed? {
      var w, t, u := TextSound(text);
      assert text == w + (Spelled(t) + u);
      LaxAccepted(w, t, u);
    }
    if IsTextOf(text, v) {
      var before, t, after :|
        && Blank(before) && Lax(t) && Blank(after) && text == before + (Spelled(t) + after)
        && Regular(t) && Nesting(Meaning(t)) <= 1000 && Meaning(t) == v;
      LaxAccepted(before, t, after);
    }
  }

  lemma TextSound(text: bytes) returns (w: bytes, t: Text, u: bytes)
    requires NulFree(text) && ParseText(text, true).Parsed?
    ensures Blank(w) && Lax(t) && Blank(u) && text == w + (Spelled(t) + u)
    ensures Regular(t) && Nesting(Meaning(t)) <= 1000 && Meaning(t) == ParseText(text, true).value
  {
    hide *;
    TextCases(text);
    var x := SkipWhitespace(text + [NUL]);
    w := BlanksOf(text + [NUL]);
    t := ValueSound(x, 0);
    var rest := ParseValue(x, 0).rest;
    u := BlanksOf(rest);
    TextParts(x, t, rest, ParseValue(x, 0).value);
    Assoc(Spelled(t), u, SkipWhitespace(rest));
    Assoc(w, Spelled(t) + u, SkipWhitespace(rest));
    UpToTerminator(text, w + (Spelled(t) + u), SkipWhitespace(rest));
  }

  lemma TextParts(x: bytes, t: Text, k: bytes, v: Json)
    requires TextFor(x, t, k, v, 0)
    ensures Lax(t) && Regular(t) && x == Spelled(t) + k && Meaning(t) == v && Nesting(v) <= 1000
  {
  }
}
