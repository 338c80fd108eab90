/** Parsing the text of a tree, formatted or not, gives the tree back. */
module RoundTrip {
  import opened Bytes
  import opened JsonTree
  import opened NumberCodec
  import opened StringCodec
  import opened Printer
  import opened Parser

  ghost predicate Blank(w: bytes) {
    forall i | 0 <= i < |w| :: w[i] <= SPACE
  }

  /** Input a number cannot run on into. */
  ghost predicate EndsNumber(k: bytes) {
    k == [] || !IsNumberByte(k[0])
  }

  lemma {:induction false} SkipBlank(w: bytes, x: bytes)
    requires Blank(w) && x != []
    ensures SkipWhitespace(w + x) == SkipWhitespace(x)
  {
    if w == [] {
      assert w + x == x;
    } else {
      assert (w + x)[1..] == w[1..] + x;
      SkipBlank(w[1..], x);
    }
  }

  lemma FirstByte(v: Json, fmt: bool, depth: nat)
    requires Printable(v)
    ensures var b := ValueText(v, fmt, depth)[0]; b > SPACE && b != RIGHT_BRACKET && b != RIGHT_BRACE
  {
    if v.Number? {
      var n := v.num.Floor;
      DigitsAreDigits(if n < 0 then -n else n);
      assert IsDigit(Digits(if n < 0 then -n else n)[0]);
    }
  }

  // ---------- Leaves ----------

  lemma StringReadsBack(s: bytes, k: bytes)
    requires NulFree(s)
    ensures ParseString(Quoted(s) + k) == Parsed(s, k)
  {
    var t := Quoted(s) + k;
    assert t[1..] == Escape(s) + ([QUOTE] + k);
    ScanEscape(s, k);
    assert t[1..][..|Escape(s)|] == Escape(s);
    DecodeEscape(s);
    CStringPrefix(s, []);
  }

  lemma NumberStep(s: bytes, d: nat)
    requires s != [] && (s[0] == MINUS || IsDigit(s[0])) && ParseNumber(s).Some?
    ensures ParseValue(s, d) == Parsed(Number(ParseNumber(s).value.0), s[ParseNumber(s).value.1..])
  {
    hide ParseNumber, ParseArray, ParseObject;
  }

  lemma NumberReadsBack(x: real, k: bytes, d: nat)
    requires IsPlain(x) && EndsNumber(k)
    ensures ParseValue(Decimal(x.Floor) + k, d) == Parsed(Number(x), k)
  {
    var n := x.Floor;
    var t := Decimal(n) + k;
    hide ParseValue, ParseNumber;
    DigitsAreDigits(if n < 0 then -n else n);
    ParseDecimal(n, k);
    AppendDrop(Decimal(n), k);
    assert t[0] == Decimal(n)[0];
    NumberStep(t, d);
  }

  lemma LiteralReadsBack(k: bytes, d: nat)
    ensures ParseValue(NULL_TEXT + k, d) == Parsed(Null, k)
    ensures ParseValue(FALSE_TEXT + k, d) == Parsed(False, k)
    ensures ParseValue(TRUE_TEXT + k, d) == Parsed(True, k)
  {
    AppendDrop(NULL_TEXT, k);
    AppendDrop(FALSE_TEXT, k);
    AppendDrop(TRUE_TEXT, k);
    assert (FALSE_TEXT + k)[0] != NULL_TEXT[0];
    assert (TRUE_TEXT + k)[0] != NULL_TEXT[0] && (TRUE_TEXT + k)[0] != FALSE_TEXT[0];
  }

  lemma LeafReadsBack(v: Json, fmt: bool, depth: nat, k: bytes, d: nat)
    requires Printable(v) && !v.Array? && !v.Object? && EndsNumber(k)
    ensures ParseValue(ValueText(v, fmt, depth) + k, d) == Parsed(v, k)
  {
    if v.Number? {
      NumberReadsBack(v.num, k, d);
    } else if v.Str? {
      StringReadsBack(v.text, k);
    } else {
      LiteralReadsBack(k, d);
    }
  }

  // ---------- One step of the parser ----------

  /** What parsing the text of `v` in front of `k` must give: the tree, unless it is nested too
      deeply for the arrays and objects already open. */
  ghost predicate ReadsBack<T>(r: Outcome<T>, v: T, k: bytes, nesting: nat, d: nat) {
    if nesting + d <= NESTING_LIMIT then r == Parsed(v, k) else r.Failed?
  }

  lemma EmptyArrayStep(k: bytes, d: nat)
    ensures ReadsBack(ParseValue([LEFT_BRACKET] + ([RIGHT_BRACKET] + k), d), Array(NoItems), k, 1, d)
  {
    ConsDrop(LEFT_BRACKET, [RIGHT_BRACKET] + k);
    ConsDrop(RIGHT_BRACKET, k);
  }

  lemma ArrayStep(inner: bytes, items: Items, k: bytes, d: nat)
    requires inner != [] && inner[0] > SPACE && inner[0] != RIGHT_BRACKET
    requires d < NESTING_LIMIT ==> ReadsBack(ParseItems(inner, d + 1), items, k, ItemsNesting(items), d + 1)
    ensures ReadsBack(ParseValue([LEFT_BRACKET] + inner, d), Array(items), k, Nesting(Array(items)), d)
  {
    hide ParseMembers, ParseItems, ParseString, NumberCodec.ParseNumber;
    ConsDrop(LEFT_BRACKET, inner);
  }

  lemma LastItemStep(text: bytes, head: Json, k: bytes, d: nat)
    requires text != [] && text[0] > SPACE
    requires ReadsBack(ParseValue(text, d), head, [RIGHT_BRACKET] + k, Nesting(head), d)
    ensures ReadsBack(ParseItems(text, d), Item(head, NoItems), k, ItemsNesting(Item(head, NoItems)), d)
  {
    hide ParseValue;
    ConsDrop(RIGHT_BRACKET, k);
  }

  lemma ItemStep(text: bytes, head: Json, w: bytes, more: bytes, tail: Items, k: bytes, d: nat)
    requires text != [] && text[0] > SPACE && Blank(w) && more != []
    requires ReadsBack(ParseValue(text, d), head, [COMMA] + (w + more), Nesting(head), d)
    requires ReadsBack(ParseItems(more, d), tail, k, ItemsNesting(tail), d)
    ensures ReadsBack(ParseItems(text, d), Item(head, tail), k, ItemsNesting(Item(head, tail)), d)
  {
    hide ParseValue;
    if ParseValue(text, d).Parsed? {
      ConsDrop(COMMA, w + more);
      ItemsUnfold(text, head, [COMMA] + (w + more), d);
      ItemsSkip(w, more, d);
    } else {
      assert Nesting(head) + d > NESTING_LIMIT;
    }
  }

  lemma ItemsUnfold(s: bytes, head: Json, rest: bytes, d: nat)
    requires ParseValue(SkipWhitespace(s), d) == Parsed(head, rest)
    requires LooksAt(SkipWhitespace(rest), COMMA)
    ensures ParseItems(s, d) ==
            match ParseItems(SkipWhitespace(rest)[1..], d)
            case Parsed(tail, rest') => Parsed(Item(head, tail), rest')
            case Failed(rest') => Failed(rest')
  {
    hide ParseValue;
  }

  lemma ItemsSkip(w: bytes, s: bytes, d: nat)
    requires Blank(w) && s != []
    ensures ParseItems(w + s, d) == ParseItems(s, d)
  {
    hide ParseValue;
    SkipBlank(w, s);
  }

  lemma {:induction false} SkipIdempotent(s: bytes)
    ensures SkipWhitespace(SkipWhitespace(s)) == SkipWhitespace(s)
  {
    if |s| > 1 && s[0] <= SPACE {
      SkipIdempotent(s[1..]);
    }
  }

  lemma EmptyObjectStep(w: bytes, k: bytes, d: nat)
    requires Blank(w)
    ensures ReadsBack(ParseValue([LEFT_BRACE] + (w + ([RIGHT_BRACE] + k)), d), Object(NoMembers), k, 1, d)
  {
    ConsDrop(LEFT_BRACE, w + ([RIGHT_BRACE] + k));
    ConsDrop(RIGHT_BRACE, k);
    SkipBlank(w, [RIGHT_BRACE] + k);
  }

  lemma SkipTwice(s: bytes, d: nat)
    ensures ParseMembers(SkipWhitespace(s), d) == ParseMembers(s, d)
  {
    hide ParseValue, ParseString;
    SkipIdempotent(s);
  }

  lemma ObjectStep(w: bytes, inner: bytes, members: Members, k: bytes, d: nat)
    requires Blank(w) && LooksAt(SkipWhitespace(inner), QUOTE)
    requires d < NESTING_LIMIT ==> ReadsBack(ParseMembers(inner, d + 1), members, k, MembersNesting(members), d + 1)
    ensures ReadsBack(ParseValue([LEFT_BRACE] + (w + inner), d), Object(members), k, Nesting(Object(members)), d)
  {
    hide ParseMembers, ParseItems, ParseString, NumberCodec.ParseNumber;
    ConsDrop(LEFT_BRACE, w + inner);
    SkipBlank(w, inner);
    SkipTwice(inner, d + 1);
    assert ParseValue([LEFT_BRACE] + (w + inner), d) == ParseObject([LEFT_BRACE] + (w + inner), d);
  }

  lemma KeyReadsBack(indent: bytes, key: bytes, k: bytes)
    requires Blank(indent) && NulFree(key)
    ensures ParseKey(indent + (Quoted(key) + ([COLON] + k))) == Parsed(key, k)
    ensures LooksAt(SkipWhitespace(indent + (Quoted(key) + ([COLON] + k))), QUOTE)
  {
    var x := Quoted(key) + ([COLON] + k);
    SkipBlank(indent, x);
    assert x[0] == QUOTE;
    StringReadsBack(key, [COLON] + k);
    ConsDrop(COLON, k);
  }

  lemma LastMemberStep(s: bytes, key: bytes, afterKey: bytes, value: Json, after: bytes, k: bytes, d: nat)
    requires ParseKey(s) == Parsed(key, afterKey)
    requires ReadsBack(ParseValue(SkipWhitespace(afterKey), d), value, after, Nesting(value), d)
    requires SkipWhitespace(after) == [RIGHT_BRACE] + k
    ensures var members := Member(key, value, NoMembers); ReadsBack(ParseMembers(s, d), members, k,
        MembersNesting(members), d)
  {
    hide ParseValue, ParseKey;
    ConsDrop(RIGHT_BRACE, k);
  }

  lemma MemberStep(s: bytes, key: bytes, afterKey: bytes, value: Json, w: bytes, more: bytes, rest: Members, k: bytes,
      d: nat)
    requires ParseKey(s) == Parsed(key, afterKey) && Blank(w) && more != []
    requires ReadsBack(ParseValue(SkipWhitespace(afterKey), d), value, [COMMA] + (w + more), Nesting(value), d)
    requires ReadsBack(ParseMembers(more, d), rest, k, MembersNesting(rest), d)
    ensures var members := Member(key, value, rest); ReadsBack(ParseMembers(s, d), members, k,
        MembersNesting(members), d)
  {
    hide ParseValue, ParseKey;
    if ParseValue(SkipWhitespace(afterKey), d).Parsed? {
      ConsDrop(COMMA, w + more);
      MembersUnfold(s, key, afterKey, value, [COMMA] + (w + more), d);
      MembersSkip(w, more, d);
    } else {
      assert Nesting(value) + d > NESTING_LIMIT;
    }
  }

  lemma MembersUnfold(s: bytes, key: bytes, afterKey: bytes, value: Json, rest: bytes, d: nat)
    requires ParseKey(s) == Parsed(key, afterKey)
    requires ParseValue(SkipWhitespace(afterKey), d) == Parsed(value, rest)
    requires LooksAt(SkipWhitespace(rest), COMMA)
    ensures ParseMembers(s, d) ==
            match ParseMembers(SkipWhitespace(rest)[1..], d)
            case Parsed(others, rest') => Parsed(Member(key, value, others), rest')
            case Failed(rest') => Failed(rest')
  {
    hide ParseValue, ParseKey;
  }

  lemma MembersSkip(w: bytes, s: bytes, d: nat)
    requires Blank(w) && s != []
    ensures ParseMembers(w + s, d) == ParseMembers(s, d)
  {
    hide ParseValue, ParseString;
    SkipBlank(w, s);
  }

  // ---------- The induction over the tree ----------

  lemma {:induction false} ValueReadsBack(v: Json, fmt: bool, depth: nat, k: bytes, d: nat)
    requires Printable(v) && EndsNumber(k) && d <= NESTING_LIMIT
    ensures ReadsBack(ParseValue(ValueText(v, fmt, depth) + k, d), v, k, Nesting(v), d)
    decreases v, 0
  {
    if v.Array? {
      ArrayReadsBack(v.items, fmt, depth, k, d);
    } else if v.Object? {
      ObjectReadsBack(v.members, fmt, depth, k, d);
    } else {
      LeafReadsBack(v, fmt, depth, k, d);
    }
  }

  lemma {:induction false} ArrayReadsBack(items: Items, fmt: bool, depth: nat, k: bytes, d: nat)
    requires PrintableItems(items) && d <= NESTING_LIMIT
    ensures ReadsBack(ParseValue(ValueText(Array(items), fmt, depth) + k, d), Array(items), k, Nesting(Array(items)), d)
    decreases items, 1
  {
    hide ParseValue, ParseItems, ValueText;
    var close := [RIGHT_BRACKET] + k;
    ArrayShape(items, fmt, depth, k);
    if items.NoItems? {
      assert ItemsText(items, fmt, depth + 1) + close == close;
      EmptyArrayStep(k, d);
    } else {
      var inner := ItemsText(items, fmt, depth + 1) + close;
      ItemsStart(items, fmt, depth + 1, close);
      if d < NESTING_LIMIT {
        ItemsReadBack(items, fmt, depth + 1, k, d + 1);
      }
      ArrayStep(inner, items, k, d);
    }
  }

  lemma ItemsStart(items: Items, fmt: bool, depth: nat, k: bytes)
    requires PrintableItems(items) && items.Item?
    ensures var s := ItemsText(items, fmt, depth) + k; s != [] && s[0] > SPACE && s[0] != RIGHT_BRACKET
  {
    FirstByte(items.head, fmt, depth);
    ItemsShape(items, fmt, depth, k);
  }

  lemma {:induction false} ItemsReadBack(items: Items, fmt: bool, depth: nat, k: bytes, d: nat)
    requires PrintableItems(items) && items.Item? && d <= NESTING_LIMIT
    ensures ReadsBack(ParseItems(ItemsText(items, fmt, depth) + ([RIGHT_BRACKET] + k), d), items, k,
        ItemsNesting(items), d)
    decreases items, 0
  {
    hide ParseValue, ParseItems, ValueText;
    var Item(head, tail) := items;
    var close := [RIGHT_BRACKET] + k;
    var more := ItemsText(tail, fmt, depth) + close;
    ItemsShape(items, fmt, depth, close);
    ItemsStart(items, fmt, depth, close);
    if tail.NoItems? {
      assert [] + ([] + close) == close;
      ValueReadsBack(head, fmt, depth, close, d);
      LastItemStep(ItemsText(items, fmt, depth) + close, head, k, d);
    } else {
      Assoc([COMMA], When(fmt, SPACE), more);
      ValueReadsBack(head, fmt, depth, [COMMA] + (When(fmt, SPACE) + more), d);
      ItemsReadBack(tail, fmt, depth, k, d);
      ItemStep(ItemsText(items, fmt, depth) + close, head, When(fmt, SPACE), more, tail, k, d);
    }
  }

  lemma EmptyObjectReadsBack(fmt: bool, depth: nat, k: bytes, d: nat)
    ensures ReadsBack(ParseValue(ValueText(Object(NoMembers), fmt, depth) + k, d), Object(NoMembers), k, 1, d)
  {
    var indent := Indent(fmt, depth);
    var close := indent + ([RIGHT_BRACE] + k);
    ObjectShape(NoMembers, fmt, depth, k);
    assert MembersText(NoMembers, fmt, depth + 1) + close == close;
    Assoc(When(fmt, LF), indent, [RIGHT_BRACE] + k);
    EmptyObjectStep(When(fmt, LF) + indent, k, d);
  }

  lemma {:induction false} ObjectReadsBack(members: Members, fmt: bool, depth: nat, k: bytes, d: nat)
    requires PrintableMembers(members) && d <= NESTING_LIMIT
    ensures ReadsBack(ParseValue(ValueText(Object(members), fmt, depth) + k, d), Object(members), k,
        Nesting(Object(members)), d)
    decreases members, 1
  {
    hide ParseValue, ParseMembers, ValueText;
    if members.NoMembers? {
      EmptyObjectReadsBack(fmt, depth, k, d);
    } else {
      var close := Indent(fmt, depth) + ([RIGHT_BRACE] + k);
      ObjectShape(members, fmt, depth, k);
      MembersStart(members, fmt, depth + 1, close);
      if d < NESTING_LIMIT {
        MembersReadBack(members, fmt, depth + 1, Indent(fmt, depth), k, d + 1);
      }
      ObjectStep(When(fmt, LF), MembersText(members, fmt, depth + 1) + close, members, k, d);
    }
  }

  lemma MembersStart(members: Members, fmt: bool, depth: nat, k: bytes)
    requires PrintableMembers(members) && members.Member?
    ensures LooksAt(SkipWhitespace(MembersText(members, fmt, depth) + k), QUOTE)
  {
    var more := ValueText(members.value, fmt, depth) + (MemberSeparator(members.rest,
        fmt) + (MembersText(members.rest, fmt, depth) + k));
    MembersShape(members, fmt, depth, k);
    KeyShape(members.key, fmt, depth, more);
    KeyReadsBack(Indent(fmt, depth), members.key, When(fmt, TAB) + more);
  }

  lemma KeyTextReadsBack(key: bytes, fmt: bool, depth: nat, k: bytes)
    requires k != [] && k[0] > SPACE && NulFree(key)
    ensures ParseKey(KeyText(key, fmt, depth) + k) == Parsed(key, When(fmt, TAB) + k)
    ensures SkipWhitespace(When(fmt, TAB) + k) == k
  {
    KeyShape(key, fmt, depth, k);
    KeyReadsBack(Indent(fmt, depth), key, When(fmt, TAB) + k);
    SkipBlank(When(fmt, TAB), k);
  }

  /** `indent` stands in front of the closing brace. */
  lemma {:induction false} MembersReadBack(members: Members, fmt: bool, depth: nat, indent: bytes, k: bytes, d: nat)
    requires PrintableMembers(members) && members.Member? && d <= NESTING_LIMIT && Blank(indent)
    ensures ReadsBack(ParseMembers(MembersText(members, fmt, depth) + (indent + ([RIGHT_BRACE] + k)), d), members, k,
        MembersNesting(members), d)
    decreases members, 0
  {
    hide ParseValue, ParseMembers, ParseKey, ValueText, SkipWhitespace;
    var Member(key, value, rest) := members;
    var close := indent + ([RIGHT_BRACE] + k);
    var more := MembersText(rest, fmt, depth) + close;
    var after := MemberSeparator(rest, fmt) + more;
    var v := ValueText(value, fmt, depth) + after;
    MembersShape(members, fmt, depth, close);
    FirstByte(value, fmt, depth);
    KeyTextReadsBack(key, fmt, depth, v);
    if rest.NoMembers? {
      AfterLastMember(fmt, indent, k);
      assert [] + close == close;
      ValueReadsBack(value, fmt, depth, after, d);
      LastMemberStep(MembersText(members, fmt, depth) + close, key, When(fmt, TAB) + v, value, after, k, d);
    } else {
      Assoc([COMMA], When(fmt, LF), more);
      ValueReadsBack(value, fmt, depth, after, d);
      MembersReadBack(rest, fmt, depth, indent, k, d);
      MembersStart(rest, fmt, depth, close);
      MemberStep(MembersText(members, fmt, depth) + close, key, When(fmt, TAB) + v, value, When(fmt, LF), more, rest,
          k, d);
    }
  }

  lemma AfterLastMember(fmt: bool, indent: bytes, k: bytes)
    requires Blank(indent)
    ensures var after := MemberSeparator(NoMembers, fmt) + (indent + ([RIGHT_BRACE] + k));
            EndsNumber(after) && SkipWhitespace(after) == [RIGHT_BRACE] + k
  {
    var x := [RIGHT_BRACE] + k;
    var w := MemberSeparator(NoMembers, fmt);
    SkipBlank(w, indent + x);
    SkipBlank(indent, x);
    assert (w + (indent + x))[0] == if w != [] then w[0] else if indent != [] then indent[0] else x[0];
  }

  /** For every tree the printer accepts, in either format and whether or not the parser has to
      reach the terminator: a nesting of at most 1000 reads back as the same tree, and a deeper
      one is rejected. */
  lemma TextRoundTrip(v: Json, fmt: bool, requireNullTerminated: bool)
    requires Printable(v)
    ensures Nesting(v) <= NESTING_LIMIT ==> ParseText(Text(v, fmt), requireNullTerminated) == Parsed(v, [NUL])
    ensures Nesting(v) > NESTING_LIMIT ==> ParseText(Text(v, fmt), requireNullTerminated).Failed?
  {
    FirstByte(v, fmt, 0);
    var s := Text(v, fmt) + [NUL];
    assert SkipWhitespace(s) == s;
    ValueReadsBack(v, fmt, 0, [NUL], 0);
  }
  // ---------- What was parsed can be printed ----------

  /** Strings that were parsed are C strings, so a parsed tree of plain integers is printable. */
  lemma {:induction false} ParsedPrintable(s: bytes, d: nat)
    ensures var r := ParseValue(s, d); r.Parsed? && PlainNumbers(r.value) ==> Printable(r.value)
    decreases |s|, 1
  {
    hide ParseNumber, ParseItems, ParseMembers, SkipWhitespace, Scan, Decode, CString;
    if LooksAt(s, LEFT_BRACKET) {
      ItemsPrintable(SkipWhitespace(s[1..]), d + 1);
    } else if LooksAt(s, LEFT_BRACE) {
      MembersPrintable(SkipWhitespace(s[1..]), d + 1);
    }
  }

  lemma {:induction false} ItemsPrintable(s: bytes, d: nat)
    ensures var r := ParseItems(s, d); r.Parsed? && PlainItems(r.value) ==> PrintableItems(r.value)
    decreases |s|, 2
  {
    hide ParseValue, SkipWhitespace;
    ParsedPrintable(SkipWhitespace(s), d);
    var r := ParseValue(SkipWhitespace(s), d);
    if r.Parsed? && LooksAt(SkipWhitespace(r.rest), COMMA) {
      ItemsPrintable(SkipWhitespace(r.rest)[1..], d);
    }
  }

  lemma KeyPrintable(s: bytes)
    ensures var r := ParseKey(s); r.Parsed? ==> NulFree(r.value)
  {
    hide SkipWhitespace, Scan, Decode, CString;
  }

  lemma {:induction false} MembersPrintable(s: bytes, d: nat)
    ensures var r := ParseMembers(s, d); r.Parsed? && PlainMembers(r.value) ==> PrintableMembers(r.value)
    decreases |s|, 2
  {
    hide ParseValue, SkipWhitespace, ParseKey;
    var k := ParseKey(s);
    KeyPrintable(s);
    if k.Parsed? {
      ParsedPrintable(SkipWhitespace(k.rest), d);
      var r := ParseValue(SkipWhitespace(k.rest), d);
      if r.Parsed? && LooksAt(SkipWhitespace(r.rest), COMMA) {
        MembersPrintable(SkipWhitespace(r.rest)[1..], d);
      }
    }
  }

  lemma TextPrintable(text: bytes, requireNullTerminated: bool)
    ensures var r := ParseText(text, requireNullTerminated);
            r.Parsed? && PlainNumbers(r.value) ==> Printable(r.value)
  {
    hide ParseValue, SkipWhitespace;
    ParsedPrintable(SkipWhitespace(text + [NUL]), 0);
  }
}
