/** Where the printer puts whitespace: a reader that checks every blank outside of strings accepts
    exactly the layout of cJSON_Print, or of cJSON_PrintUnformatted. */
module PrintLayout {
  import opened Bytes
  import opened JsonTree
  import opened StringCodec
  import opened Printer
  import NumberCodec

  /** Tabs counts the tabs since the beginning of the line; the Need places must be followed by
      their blank. */
  datatype Place = Mid | InString | InEscape | NeedLine | NeedTab | NeedSpace | Tabs(count: nat)

  /** `open` says of every bracket that is open, from the outside in, whether it is a brace. */
  datatype Layout = Layout(open: seq<bool>, place: Place)

  predicate InObject(l: Layout) {
    l.open != [] && l.open[|l.open| - 1]
  }

  function Shut(l: Layout): Option<Layout> {
    if l.open == [] then None else Some(Layout(l.open[..|l.open| - 1], Mid))
  }

  /** One byte outside of strings that is not at the beginning of a line. */
  function StepMid(fmt: bool, l: Layout, b: byte): Option<Layout> {
    if b == QUOTE then Some(l.(place := InString))
    else if b == LEFT_BRACE then Some(Layout(l.open + [true], if fmt then NeedLine else Mid))
    else if b == LEFT_BRACKET then Some(Layout(l.open + [false], Mid))
    else if b == RIGHT_BRACKET then if InObject(l) then None else Shut(l)
    // a brace is closed at the beginning of a line, or anywhere in an unformatted print
    else if b == RIGHT_BRACE then if InObject(l) && !fmt then Shut(l) else None
    else if b == COMMA then Some(l.(place := if !fmt then Mid else if InObject(l) then NeedLine else NeedSpace))
    else if b == COLON then Some(l.(place := if fmt then NeedTab else Mid))
    else if b == LF then if fmt && InObject(l) then Some(l.(place := Tabs(0))) else None
    else if b <= SPACE then None
    else Some(l)
  }

  /** Keys are indented by one tab for every open bracket, closing braces by one less. */
  function Step(fmt: bool, l: Layout, b: byte): Option<Layout> {
    match l.place
    case Mid => StepMid(fmt, l, b)
    case InString =>
      Some(l.(place := if b == QUOTE then Mid else if b == BACKSLASH then InEscape else InString))
    case InEscape => Some(l.(place := InString))
    case NeedLine => if b == LF then Some(l.(place := Tabs(0))) else None
    case NeedTab => if b == TAB then Some(l.(place := Mid)) else None
    case NeedSpace => if b == SPACE then Some(l.(place := Mid)) else None
    case Tabs(count) =>
      if b == TAB then Some(l.(place := Tabs(count + 1)))
      else if b == QUOTE && count == |l.open| then Some(l.(place := InString))
      else if b == RIGHT_BRACE && InObject(l) && count + 1 == |l.open| then Shut(l)
      else None
  }

  function Read(fmt: bool, l: Layout, s: bytes): Option<Layout>
    decreases |s|
  {
    if s == [] then Some(l)
    else
      match Step(fmt, l, s[0])
      case None => None
      case Some(m) => Read(fmt, m, s[1..])
  }

  /** Reading `s` leads from one layout to another. */
  ghost predicate Leads(fmt: bool, l: Layout, s: bytes, m: Layout) {
    Read(fmt, l, s) == Some(m)
  }

  lemma {:induction false} LeadsOn(fmt: bool, l: Layout, a: bytes, m: Layout, b: bytes, n: Layout)
    requires Leads(fmt, l, a, m) && Leads(fmt, m, b, n)
    ensures Leads(fmt, l, a + b, n)
    decreases |a|
  {
    if a == [] {
      assert a + b == b;
    } else {
      assert (a + b)[1..] == a[1..] + b;
      LeadsOn(fmt, Step(fmt, l, a[0]).value, a[1..], m, b, n);
    }
  }

  lemma LeadsByte(fmt: bool, l: Layout, b: byte)
    requires Step(fmt, l, b).Some?
    ensures Leads(fmt, l, [b], Step(fmt, l, b).value)
  {
    assert Read(fmt, Step(fmt, l, b).value, []) == Some(Step(fmt, l, b).value);
  }

  lemma LeadsNowhere(fmt: bool, l: Layout)
    ensures Leads(fmt, l, [], l)
  {
  }

  // ---------- Strings and other leaves ----------

  lemma {:induction false} LeadsPlain(fmt: bool, l: Layout, s: bytes)
    requires l.place.Mid? && forall i | 0 <= i < |s| :: StepMid(fmt, l, s[i]) == Some(l)
    ensures Leads(fmt, l, s, l)
  {
    if s != [] {
      LeadsPlain(fmt, l, s[1..]);
    }
  }

  lemma {:induction false} LeadsInString(fmt: bool, l: Layout, s: bytes)
    requires l.place.InString? && forall i | 0 <= i < |s| :: s[i] != QUOTE && s[i] != BACKSLASH
    ensures Leads(fmt, l, s, l)
  {
    if s != [] {
      LeadsInString(fmt, l, s[1..]);
    }
  }

  lemma LeadsEscapedByte(fmt: bool, l: Layout, b: byte)
    requires l.place.InString?
    ensures Leads(fmt, l, EscapeByte(b), l)
  {
    var e := EscapeByte(b);
    if e[0] == BACKSLASH {
      EscapedTail(b);
      hide EscapeByte;
      LeadsByte(fmt, l, e[0]);
      LeadsByte(fmt, l.(place := InEscape), e[1]);
      LeadsOn(fmt, l, [e[0]], l.(place := InEscape), [e[1]], l);
      LeadsInString(fmt, l, e[2..]);
      LeadsOn(fmt, l, [e[0]] + [e[1]], l, e[2..], l);
      assert e == [e[0]] + [e[1]] + e[2..];
    } else {
      PlainInString(b);
      LeadsInString(fmt, l, e);
    }
  }

  lemma PlainInString(b: byte)
    requires EscapeByte(b)[0] != BACKSLASH
    ensures EscapeByte(b) == [b] && b != QUOTE && b != BACKSLASH
  {
  }

  lemma {:induction false} LeadsEscape(fmt: bool, l: Layout, s: bytes)
    requires l.place.InString?
    ensures Leads(fmt, l, Escape(s), l)
  {
    hide Leads, EscapeByte;
    if s == [] {
      LeadsNowhere(fmt, l);
    } else {
      LeadsEscapedByte(fmt, l, s[0]);
      LeadsEscape(fmt, l, s[1..]);
      LeadsOn(fmt, l, EscapeByte(s[0]), l, Escape(s[1..]), l);
    }
  }

  /** A quoted string, where a string may start. */
  lemma LeadsQuoted(fmt: bool, l: Layout, s: bytes)
    requires l.place.Mid? || l.place == Tabs(|l.open|)
    ensures Leads(fmt, l, Quoted(s), l.(place := Mid))
  {
    hide Leads, Escape;
    var m := l.(place := InString);
    LeadsByte(fmt, l, QUOTE);
    LeadsEscape(fmt, m, s);
    LeadsByte(fmt, m, QUOTE);
    LeadsOn(fmt, l, [QUOTE], m, Escape(s), m);
    LeadsOn(fmt, l, [QUOTE] + Escape(s), m, [QUOTE], l.(place := Mid));
  }

  lemma LeadsDecimal(fmt: bool, l: Layout, n: int)
    requires l.place.Mid?
    ensures Leads(fmt, l, NumberCodec.Decimal(n), l)
  {
    NumberCodec.DigitsAreDigits(if n < 0 then -n else n);
    LeadsPlain(fmt, l, NumberCodec.Decimal(n));
  }

  lemma LeadsLeaf(v: Json, fmt: bool, depth: nat, l: Layout)
    requires Printable(v) && !v.Array? && !v.Object? && l.place.Mid?
    ensures Leads(fmt, l, ValueText(v, fmt, depth), l)
  {
    hide Leads, Quoted, NumberCodec.Decimal;
    if v.Number? {
      LeadsDecimal(fmt, l, v.num.Floor);
    } else if v.Str? {
      LeadsQuoted(fmt, l, v.text);
    } else {
      LeadsPlain(fmt, l, NULL_TEXT);
      LeadsPlain(fmt, l, FALSE_TEXT);
      LeadsPlain(fmt, l, TRUE_TEXT);
    }
  }

  // ---------- Lines ----------

  /** The beginning of a line in a formatted print. */
  function LineStart(fmt: bool, open: seq<bool>): Layout {
    Layout(open, if fmt then Tabs(0) else Mid)
  }

  lemma {:induction false} LeadsTabs(open: seq<bool>, k: nat, n: nat)
    ensures Leads(true, Layout(open, Tabs(k)), seq(n, _ => TAB), Layout(open, Tabs(k + n)))
    decreases n
  {
    if n > 0 {
      var s := seq(n, _ => TAB);
      assert s[1..] == seq(n - 1, _ => TAB);
      LeadsTabs(open, k + 1, n - 1);
    }
  }

  lemma LeadsIndent(fmt: bool, open: seq<bool>, depth: nat)
    ensures Leads(fmt, LineStart(fmt, open), Indent(fmt, depth), Layout(open, if fmt then Tabs(depth) else Mid))
  {
    hide Leads;
    if fmt {
      LeadsTabs(open, 0, depth);
      assert Indent(fmt, depth) == seq(depth, _ => TAB);
    } else {
      LeadsNowhere(fmt, LineStart(fmt, open));
    }
  }

  /** The blank that a formatted print has behind a byte. */
  lemma LeadsWhen(fmt: bool, l: Layout, x: byte, m: Layout)
    requires if fmt then Step(fmt, l, x) == Some(m) else m == l
    ensures Leads(fmt, l, When(fmt, x), m)
  {
    hide Leads;
    if fmt {
      LeadsByte(fmt, l, x);
    } else {
      LeadsNowhere(fmt, l);
    }
  }

  /** A key at the beginning of its line, up to the value. */
  lemma LeadsKey(key: bytes, fmt: bool, open: seq<bool>)
    ensures Leads(fmt, LineStart(fmt, open), KeyText(key, fmt, |open|), Layout(open, Mid))
  {
    hide Leads, Quoted, Indent, When;
    var depth := |open|;
    var i, q := Indent(fmt, depth), Quoted(key);
    var (a, b, mid) := (LineStart(fmt, open), Layout(open, if fmt then Tabs(depth) else Mid), Layout(open, Mid));
    var c := Layout(open, if fmt then NeedTab else Mid);
    LeadsIndent(fmt, open, depth);
    LeadsQuoted(fmt, b, key);
    LeadsOn(fmt, a, i, b, q, mid);
    LeadsByte(fmt, mid, COLON);
    LeadsOn(fmt, a, i + q, mid, [COLON], c);
    LeadsWhen(fmt, c, TAB, mid);
    LeadsOn(fmt, a, i + q + [COLON], c, When(fmt, TAB), mid);
  }

  /** The end of a member's line. */
  lemma LeadsMemberEnd(rest: Members, fmt: bool, open: seq<bool>)
    requires open != [] && open[|open| - 1]
    ensures Leads(fmt, Layout(open, Mid), MemberSeparator(rest, fmt), LineStart(fmt, open))
  {
    hide Leads, When;
    var mid := Layout(open, Mid);
    var a := if rest.Member? then Layout(open, if fmt then NeedLine else Mid) else mid;
    if rest.Member? {
      LeadsByte(fmt, mid, COMMA);
      WhenIs(COMMA);
    } else {
      LeadsNowhere(fmt, mid);
      WhenIs(COMMA);
    }
    LeadsWhen(fmt, a, LF, LineStart(fmt, open));
    LeadsOn(fmt, mid, When(rest.Member?, COMMA), a, When(fmt, LF), LineStart(fmt, open));
  }

  lemma WhenIs(x: byte)
    ensures When(true, x) == [x] && When(false, x) == []
  {
  }

  lemma LeadsItemEnd(tail: Items, fmt: bool, open: seq<bool>)
    requires open != [] && !open[|open| - 1]
    ensures Leads(fmt, Layout(open, Mid), ItemSeparator(tail, fmt), Layout(open, Mid))
  {
    hide Leads, When;
    var mid := Layout(open, Mid);
    if tail.Item? {
      var a := Layout(open, if fmt then NeedSpace else Mid);
      LeadsByte(fmt, mid, COMMA);
      LeadsWhen(fmt, a, SPACE, mid);
      LeadsOn(fmt, mid, [COMMA], a, When(fmt, SPACE), mid);
    } else {
      LeadsNowhere(fmt, mid);
    }
  }

  // ---------- The induction over the tree ----------

  /** The text of a value at the depth of the open brackets leaves them as they are. */
  lemma {:induction false} LeadsValue(v: Json, fmt: bool, open: seq<bool>)
    requires Printable(v)
    ensures Leads(fmt, Layout(open, Mid), ValueText(v, fmt, |open|), Layout(open, Mid))
    decreases v, 1
  {
    hide Leads, ItemsText, MembersText;
    if v.Array? {
      var mid, inner := Layout(open, Mid), open + [false];
      LeadsByte(fmt, mid, LEFT_BRACKET);
      LeadsItems(v.items, fmt, inner);
      LeadsByte(fmt, Layout(inner, Mid), RIGHT_BRACKET);
      assert inner[..|open|] == open;
      LeadsOn(fmt, mid, [LEFT_BRACKET], Layout(inner, Mid), ItemsText(v.items, fmt, |open| + 1), Layout(inner, Mid));
      LeadsOn(fmt, mid, [LEFT_BRACKET] + ItemsText(v.items, fmt, |open| + 1), Layout(inner, Mid), [RIGHT_BRACKET], mid);
    } else if v.Object? {
      LeadsObject(v.members, fmt, open);
    } else {
      LeadsLeaf(v, fmt, |open|, Layout(open, Mid));
    }
  }

  lemma {:induction false} LeadsItems(items: Items, fmt: bool, open: seq<bool>)
    requires PrintableItems(items) && open != [] && !open[|open| - 1]
    ensures Leads(fmt, Layout(open, Mid), ItemsText(items, fmt, |open|), Layout(open, Mid))
    decreases items, 0
  {
    hide Leads, ValueText, ItemSeparator;
    var mid := Layout(open, Mid);
    if items.NoItems? {
      LeadsNowhere(fmt, mid);
    } else {
      var h, s := ValueText(items.head, fmt, |open|), ItemSeparator(items.tail, fmt);
      LeadsValue(items.head, fmt, open);
      LeadsItemEnd(items.tail, fmt, open);
      LeadsItems(items.tail, fmt, open);
      LeadsOn(fmt, mid, h, mid, s, mid);
      LeadsOn(fmt, mid, h + s, mid, ItemsText(items.tail, fmt, |open|), mid);
    }
  }

  lemma OpenBrace(fmt: bool, open: seq<bool>)
    ensures Leads(fmt, Layout(open, Mid), [LEFT_BRACE] + When(fmt, LF), LineStart(fmt, open + [true]))
  {
    hide Leads, When;
    var a := Layout(open + [true], if fmt then NeedLine else Mid);
    LeadsByte(fmt, Layout(open, Mid), LEFT_BRACE);
    LeadsWhen(fmt, a, LF, LineStart(fmt, open + [true]));
    LeadsOn(fmt, Layout(open, Mid), [LEFT_BRACE], a, When(fmt, LF), LineStart(fmt, open + [true]));
  }

  lemma CloseBrace(fmt: bool, open: seq<bool>)
    ensures Leads(fmt, LineStart(fmt, open + [true]), Indent(fmt, |open|) + [RIGHT_BRACE], Layout(open, Mid))
  {
    hide Leads, Indent;
    var inner := open + [true];
    var b := Layout(inner, if fmt then Tabs(|open|) else Mid);
    LeadsIndent(fmt, inner, |open|);
    assert inner[..|open|] == open;
    LeadsByte(fmt, b, RIGHT_BRACE);
    LeadsOn(fmt, LineStart(fmt, inner), Indent(fmt, |open|), b, [RIGHT_BRACE], Layout(open, Mid));
  }

  lemma {:induction false} LeadsObject(members: Members, fmt: bool, open: seq<bool>)
    requires PrintableMembers(members)
    ensures Leads(fmt, Layout(open, Mid), ValueText(Object(members), fmt, |open|), Layout(open, Mid))
    decreases members, 1
  {
    hide Leads, MembersText, Indent, When, LineStart;
    var (mid, inner) := (Layout(open, Mid), open + [true]);
    var (a, t, c) := ([LEFT_BRACE] + When(fmt, LF), MembersText(members, fmt, |open| + 1), Indent(fmt, |open|));
    OpenBrace(fmt, open);
    LeadsMembers(members, fmt, inner);
    CloseBrace(fmt, open);
    LeadsOn(fmt, mid, a, LineStart(fmt, inner), t, LineStart(fmt, inner));
    LeadsOn(fmt, mid, a + t, LineStart(fmt, inner), c + [RIGHT_BRACE], mid);
    Assoc(a + t, c, [RIGHT_BRACE]);
  }

  lemma {:induction false} LeadsMembers(members: Members, fmt: bool, open: seq<bool>)
    requires PrintableMembers(members) && open != [] && open[|open| - 1]
    ensures Leads(fmt, LineStart(fmt, open), MembersText(members, fmt, |open|), LineStart(fmt, open))
    decreases members, 0
  {
    hide Leads, ValueText, KeyText, MemberSeparator, LineStart;
    var line, mid := LineStart(fmt, open), Layout(open, Mid);
    if members.NoMembers? {
      LeadsNowhere(fmt, line);
    } else {
      var (k, v) := (KeyText(members.key, fmt, |open|), ValueText(members.value, fmt, |open|));
      var s := MemberSeparator(members.rest, fmt);
      LeadsKey(members.key, fmt, open);
      LeadsValue(members.value, fmt, open);
      LeadsMemberEnd(members.rest, fmt, open);
      LeadsMembers(members.rest, fmt, open);
      LeadsOn(fmt, line, k, mid, v, mid);
      LeadsOn(fmt, line, k + v, mid, s, line);
      LeadsOn(fmt, line, k + v + s, line, MembersText(members.rest, fmt, |open|), line);
    }
  }

  /** Every blank of a print is where it belongs: in a formatted one, a line for every member,
      indented by one tab for every open bracket, a tab behind a colon, a space behind a comma in an
      array, a line of its own for a closing brace, and no others; in an unformatted one, none. */
  lemma PrintsInLayout(v: Json, fmt: bool)
    requires Printable(v)
    ensures Read(fmt, Layout([], Mid), Text(v, fmt)) == Some(Layout([], Mid))
  {
    LeadsValue(v, fmt, []);
  }
}
