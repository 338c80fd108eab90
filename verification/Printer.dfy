/** The text of a tree: what print_value and its helpers leave in the buffer. */
module Printer {
  import opened Bytes
  import opened JsonTree
  import NumberCodec
  import StringCodec

  /** `x` when the print is a formatted one. */
  function When(c: bool, x: byte): bytes {
    if c then [x] else []
  }

  /** The tabs in front of a line of a formatted print. */
  function Indent(fmt: bool, depth: nat): bytes {
    if fmt then seq(depth, i => TAB) else []
  }

  function ItemSeparator(tail: Items, fmt: bool): bytes {
    if tail.Item? then [COMMA] + When(fmt, SPACE) else []
  }

  function KeyText(key: bytes, fmt: bool, depth: nat): bytes {
    Indent(fmt, depth) + StringCodec.Quoted(key) + [COLON] + When(fmt, TAB)
  }

  function MemberSeparator(rest: Members, fmt: bool): bytes {
    When(rest.Member?, COMMA) + When(fmt, LF)
  }

  /** `depth` is the nesting depth of the printbuffer when the value is printed. */
  function ValueText(v: Json, fmt: bool, depth: nat): (t: bytes)
    requires Printable(v)
    ensures t != []
  {
    match v
    case Null => NULL_TEXT
    case False => FALSE_TEXT
    case True => TRUE_TEXT
    case Number(x) => NumberCodec.Decimal(x.Floor)
    case Str(s) => StringCodec.Quoted(s)
    case Array(items) => [LEFT_BRACKET] + ItemsText(items, fmt, depth + 1) + [RIGHT_BRACKET]
    case Object(members) =>
      [LEFT_BRACE] + When(fmt, LF) + MembersText(members, fmt, depth + 1) + Indent(fmt, depth) + [RIGHT_BRACE]
  }

  function ItemsText(items: Items, fmt: bool, depth: nat): bytes
    requires PrintableItems(items)
  {
    match items
    case NoItems => []
    case Item(head, tail) =>
      ValueText(head, fmt, depth) + ItemSeparator(tail, fmt) + ItemsText(tail, fmt, depth)
  }

  function MembersText(members: Members, fmt: bool, depth: nat): bytes
    requires PrintableMembers(members)
  {
    match members
    case NoMembers => []
    case Member(key, value, rest) =>
      KeyText(key, fmt, depth)
      + ValueText(value, fmt, depth)
      + MemberSeparator(rest, fmt)
      + MembersText(rest, fmt, depth)
  }

  /** The text of a whole tree: cJSON_Print when `fmt`, cJSON_PrintUnformatted otherwise. */
  function Text(v: Json, fmt: bool): bytes
    requires Printable(v)
  {
    ValueText(v, fmt, 0)
  }

  // The same texts in front of what follows them, grouped to the right.

  lemma ArrayShape(items: Items, fmt: bool, depth: nat, k: bytes)
    requires PrintableItems(items)
    ensures ValueText(Array(items), fmt, depth) + k == [LEFT_BRACKET] + (ItemsText(items, fmt,
        depth + 1) + ([RIGHT_BRACKET] + k))
  {
    var t := ItemsText(items, fmt, depth + 1);
    Assoc([LEFT_BRACKET] + t, [RIGHT_BRACKET], k);
    Assoc([LEFT_BRACKET], t, [RIGHT_BRACKET] + k);
  }

  lemma ItemsShape(items: Items, fmt: bool, depth: nat, k: bytes)
    requires PrintableItems(items) && items.Item?
    ensures ItemsText(items, fmt, depth) + k
         == ValueText(items.head, fmt, depth) + (ItemSeparator(items.tail, fmt) + (ItemsText(items.tail, fmt,
             depth) + k))
  {
    var h := ValueText(items.head, fmt, depth);
    var sep := ItemSeparator(items.tail, fmt);
    var t := ItemsText(items.tail, fmt, depth);
    Assoc(h + sep, t, k);
    Assoc(h, sep, t + k);
  }

  lemma ObjectShape(members: Members, fmt: bool, depth: nat, k: bytes)
    requires PrintableMembers(members)
    ensures ValueText(Object(members), fmt, depth) + k
         == [LEFT_BRACE] + (When(fmt, LF) + (MembersText(members, fmt, depth + 1) + (Indent(fmt,
             depth) + ([RIGHT_BRACE] + k))))
  {
    var w := When(fmt, LF);
    var t := MembersText(members, fmt, depth + 1);
    var i := Indent(fmt, depth);
    Assoc([LEFT_BRACE] + w + t + i, [RIGHT_BRACE], k);
    Assoc([LEFT_BRACE] + w + t, i, [RIGHT_BRACE] + k);
    Assoc([LEFT_BRACE] + w, t, i + ([RIGHT_BRACE] + k));
    Assoc([LEFT_BRACE], w, t + (i + ([RIGHT_BRACE] + k)));
  }

  lemma KeyShape(key: bytes, fmt: bool, depth: nat, k: bytes)
    ensures KeyText(key, fmt, depth) + k == Indent(fmt, depth) + (StringCodec.Quoted(key) + ([COLON] + (When(fmt,
        TAB) + k)))
  {
    var i := Indent(fmt, depth);
    var q := StringCodec.Quoted(key);
    Assoc(i + q + [COLON], When(fmt, TAB), k);
    Assoc(i + q, [COLON], When(fmt, TAB) + k);
    Assoc(i, q, [COLON] + (When(fmt, TAB) + k));
  }

  lemma MembersShape(members: Members, fmt: bool, depth: nat, k: bytes)
    requires PrintableMembers(members) && members.Member?
    ensures MembersText(members, fmt, depth) + k
         == KeyText(members.key, fmt, depth)
            + (ValueText(members.value, fmt, depth) + (MemberSeparator(members.rest,
                fmt) + (MembersText(members.rest, fmt, depth) + k)))
  {
    var q := KeyText(members.key, fmt, depth);
    var v := ValueText(members.value, fmt, depth);
    var sep := MemberSeparator(members.rest, fmt);
    var t := MembersText(members.rest, fmt, depth);
    Assoc(q + v + sep, t, k);
    Assoc(q + v, sep, t + k);
    Assoc(q, v, sep + (t + k));
  }

  // A text has no terminator in it, so strlen finds its end.

  lemma {:induction false} EscapeNulFree(s: bytes)
    ensures NulFree(StringCodec.Escape(s))
  {
    if s != [] {
      EscapeNulFree(s[1..]);
    }
  }

  lemma QuotedNulFree(s: bytes)
    ensures NulFree(StringCodec.Quoted(s))
  {
    EscapeNulFree(s);
  }

  lemma DecimalNulFree(n: int)
    ensures NulFree(NumberCodec.Decimal(n))
  {
    NumberCodec.DigitsAreDigits(if n < 0 then -n else n);
    assert forall i | 0 <= i < |NumberCodec.Decimal(n)| :: NumberCodec.IsNumberByte(NumberCodec.Decimal(n)[i]);
  }

  lemma {:induction false} ValueTextNulFree(v: Json, fmt: bool, depth: nat)
    requires Printable(v)
    ensures NulFree(ValueText(v, fmt, depth))
    decreases v
  {
    match v
    case Null =>
    case False =>
    case True =>
    case Number(x) => DecimalNulFree(x.Floor);
    case Str(s) => QuotedNulFree(s);
    case Array(items) => ItemsTextNulFree(items, fmt, depth + 1);
    case Object(members) => MembersTextNulFree(members, fmt, depth + 1);
  }

  lemma {:induction false} ItemsTextNulFree(items: Items, fmt: bool, depth: nat)
    requires PrintableItems(items)
    ensures NulFree(ItemsText(items, fmt, depth))
    decreases items
  {
    if items.Item? {
      ValueTextNulFree(items.head, fmt, depth);
      ItemsTextNulFree(items.tail, fmt, depth);
    }
  }

  lemma {:induction false} MembersTextNulFree(members: Members, fmt: bool, depth: nat)
    requires PrintableMembers(members)
    ensures NulFree(MembersText(members, fmt, depth))
    decreases members
  {
    if members.Member? {
      QuotedNulFree(members.key);
      ValueTextNulFree(members.value, fmt, depth);
      MembersTextNulFree(members.rest, fmt, depth);
    }
  }
}
