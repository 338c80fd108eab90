/** Minifying the formatted print of a tree gives its unformatted print. */
module PrettyCompact {
  import opened Bytes
  import opened JsonTree
  import opened NumberCodec
  import opened StringCodec
  import opened Printer
  import opened Minifier

  lemma PrependTwice(a: bytes, b: bytes, r: Option<bytes>)
    ensures Prepend(a, Prepend(b, r)) == Prepend(a + b, r)
    ensures Prepend([], r) == r
  {
    if r.Some? {
      Assoc(a, b, r.value);
      assert [] + r.value == r.value;
    }
  }

  lemma MinifyQuoted(s: bytes, k: bytes)
    ensures Minify(Quoted(s) + k) == Prepend(Quoted(s), Minify(k))
  {
    hide Minify;
    var t := Quoted(s) + k;
    assert t[1..] == Escape(s) + ([QUOTE] + k);
    ScanEscape(s, k);
    EscapeNulFree(s);
    assert t[1..][..|Escape(s)|] == Escape(s);
    CopyString(t);
    AppendDrop(Quoted(s), k);
  }

  lemma MinifyLeaf(v: Json, depth: nat, depth': nat, k: bytes)
    requires Printable(v) && !v.Array? && !v.Object?
    ensures Minify(ValueText(v, true, depth) + k) == Prepend(ValueText(v, false, depth'), Minify(k))
  {
    hide Minify;
    if v.Str? {
      MinifyQuoted(v.text, k);
    } else {
      if v.Number? {
        DigitsAreDigits(if v.num.Floor < 0 then -v.num.Floor else v.num.Floor);
        assert forall i | 0 <= i < |Decimal(v.num.Floor)| :: IsNumberByte(Decimal(v.num.Floor)[i]);
      }
      CopyPlain(ValueText(v, true, depth), k);
    }
  }

  lemma {:induction false} MinifyValue(v: Json, depth: nat, depth': nat, k: bytes)
    requires Printable(v)
    ensures Minify(ValueText(v, true, depth) + k) == Prepend(ValueText(v, false, depth'), Minify(k))
    decreases v
  {
    hide Minify;
    if v.Array? {
      var t := ItemsText(v.items, true, depth + 1);
      var t' := ItemsText(v.items, false, depth' + 1);
      ArrayShape(v.items, true, depth, k);
      CopyByte(LEFT_BRACKET, t + ([RIGHT_BRACKET] + k));
      MinifyItems(v.items, depth + 1, depth' + 1, [RIGHT_BRACKET] + k);
      CopyByte(RIGHT_BRACKET, k);
      PrependTwice(t', [RIGHT_BRACKET], Minify(k));
      PrependTwice([LEFT_BRACKET], t' + [RIGHT_BRACKET], Minify(k));
      Assoc([LEFT_BRACKET], t', [RIGHT_BRACKET]);
    } else if v.Object? {
      MinifyMembers(v.members, depth + 1, depth' + 1, Indent(true, depth) + ([RIGHT_BRACE] + k));
      MinifyBraces(v.members, depth, depth', k);
    } else {
      MinifyLeaf(v, depth, depth', k);
    }
  }

  lemma {:induction false} MinifyItems(items: Items, depth: nat, depth': nat, k: bytes)
    requires PrintableItems(items)
    ensures Minify(ItemsText(items, true, depth) + k) == Prepend(ItemsText(items, false, depth'), Minify(k))
    decreases items
  {
    hide Minify, ValueText;
    if items.NoItems? {
      assert [] + k == k;
      PrependTwice([], [], Minify(k));
    } else {
      var h := ValueText(items.head, false, depth');
      var sep := ItemSeparator(items.tail, false);
      var t := ItemsText(items.tail, false, depth');
      var more := ItemsText(items.tail, true, depth) + k;
      ItemsShape(items, true, depth, k);
      MinifyValue(items.head, depth, depth', ItemSeparator(items.tail, true) + more);
      MinifyItemSeparator(items.tail, more);
      MinifyItems(items.tail, depth, depth', k);
      PrependTwice(sep, t, Minify(k));
      PrependTwice(h, sep + t, Minify(k));
      Assoc(h, sep, t);
    }
  }

  lemma MinifyItemSeparator(tail: Items, k: bytes)
    ensures Minify(ItemSeparator(tail, true) + k) == Prepend(ItemSeparator(tail, false), Minify(k))
  {
    hide Minify;
    if tail.Item? {
      Assoc([COMMA], [SPACE], k);
      CopyByte(COMMA, [SPACE] + k);
      DropBlank([SPACE], k);
      assert [COMMA] + [] == [COMMA];
    } else {
      assert [] + k == k;
      PrependTwice([], [], Minify(k));
    }
  }

  lemma MinifyBraces(members: Members, depth: nat, depth': nat, k: bytes)
    requires PrintableMembers(members)
    requires var close := Indent(true, depth) + ([RIGHT_BRACE] + k);
             Minify(MembersText(members, true, depth + 1) + close) == Prepend(MembersText(members, false,
                 depth' + 1), Minify(close))
    ensures Minify(ValueText(Object(members), true, depth) + k) == Prepend(ValueText(Object(members), false, depth'),
        Minify(k))
  {
    hide Minify, MembersText;
    var t := MembersText(members, true, depth + 1);
    var t' := MembersText(members, false, depth' + 1);
    var close := Indent(true, depth) + ([RIGHT_BRACE] + k);
    ObjectShape(members, true, depth, k);
    CopyByte(LEFT_BRACE, [LF] + (t + close));
    DropBlank([LF], t + close);
    DropBlank(Indent(true, depth), [RIGHT_BRACE] + k);
    CopyByte(RIGHT_BRACE, k);
    PrependTwice(t', [RIGHT_BRACE], Minify(k));
    PrependTwice([LEFT_BRACE], t' + [RIGHT_BRACE], Minify(k));
    CompactObject(members, depth');
  }

  lemma CompactObject(members: Members, depth: nat)
    requires PrintableMembers(members)
    ensures ValueText(Object(members), false, depth) == [LEFT_BRACE] + (MembersText(members, false,
        depth + 1) + [RIGHT_BRACE])
  {
    var t := MembersText(members, false, depth + 1);
    assert [LEFT_BRACE] + [] == [LEFT_BRACE];
    assert [LEFT_BRACE] + t + [] == [LEFT_BRACE] + t;
    Assoc([LEFT_BRACE], t, [RIGHT_BRACE]);
  }

  lemma MinifyKeyText(key: bytes, depth: nat, depth': nat, k: bytes)
    ensures Minify(KeyText(key, true, depth) + k) == Prepend(KeyText(key, false, depth'), Minify(k))
  {
    hide Minify;
    var q := Quoted(key);
    KeyShape(key, true, depth, k);
    DropBlank(Indent(true, depth), q + ([COLON] + ([TAB] + k)));
    MinifyQuoted(key, [COLON] + ([TAB] + k));
    CopyByte(COLON, [TAB] + k);
    DropBlank([TAB], k);
    PrependTwice(q, [COLON], Minify(k));
    assert [] + q == q && q + [COLON] + [] == q + [COLON];
  }

  lemma MinifyMemberSeparator(rest: Members, k: bytes)
    ensures Minify(MemberSeparator(rest, true) + k) == Prepend(MemberSeparator(rest, false), Minify(k))
  {
    hide Minify;
    if rest.Member? {
      Assoc([COMMA], [LF], k);
      CopyByte(COMMA, [LF] + k);
      DropBlank([LF], k);
      assert [COMMA] + [] == [COMMA];
    } else {
      assert [] + [LF] == [LF];
      DropBlank([LF], k);
      PrependTwice([], [], Minify(k));
    }
  }

  lemma {:induction false} MinifyMembers(members: Members, depth: nat, depth': nat, k: bytes)
    requires PrintableMembers(members)
    ensures Minify(MembersText(members, true, depth) + k) == Prepend(MembersText(members, false, depth'), Minify(k))
    decreases members
  {
    hide Minify, ValueText, KeyText;
    if members.NoMembers? {
      assert [] + k == k;
      PrependTwice([], [], Minify(k));
    } else {
      var Member(key, value, rest) := members;
      var q := KeyText(key, false, depth');
      var v := ValueText(value, false, depth');
      var sep := MemberSeparator(rest, false);
      var t := MembersText(rest, false, depth');
      var more := MembersText(rest, true, depth) + k;
      var sepMore := MemberSeparator(rest, true) + more;
      MembersShape(members, true, depth, k);
      MinifyKeyText(key, depth, depth', ValueText(value, true, depth) + sepMore);
      MinifyValue(value, depth, depth', sepMore);
      MinifyMemberSeparator(rest, more);
      MinifyMembers(rest, depth, depth', k);
      PrependTwice(sep, t, Minify(k));
      PrependTwice(v, sep + t, Minify(k));
      PrependTwice(q, v + (sep + t), Minify(k));
      Assoc(q + v, sep, t);
      Assoc(q, v, sep + t);
    }
  }

  /** For every printable tree, cJSON_Minify turns what cJSON_Print gives into what
      cJSON_PrintUnformatted gives. */
  lemma PrettyMinifiesToCompact(v: Json)
    requires Printable(v)
    ensures Minify(Text(v, true) + [NUL]) == Some(Text(v, false) + [NUL])
  {
    MinifyValue(v, 0, 0, [NUL]);
  }
}
