/** Minifying an accepted text keeps it accepted and keeps the tree it stands for. */
module MinifyMeaning {
  import opened Bytes
  import opened NumberCodec
  import opened StringCodec
  import opened Parser
  import opened RoundTrip
  import opened MinifyBounds
  import opened Minifier

  /** What can follow a value in an accepted text: whitespace and then a comma, a closing
      bracket or brace, or the end. */
  ghost predicate Follows(rest: bytes) {
    && Terminated(rest)
    && var b := SkipWhitespace(rest)[0];
       b == COMMA || b == RIGHT_BRACKET || b == RIGHT_BRACE || b == NUL
  }

  /** Minifying the input `s` and then parsing `v` is parsing `v` and then minifying the rest. */
  ghost predicate Commutes<T>(s: bytes, before: Outcome<T>, after: Outcome<T>) {
    && before.Parsed?
    && Minify(before.rest).Some?
    && Minify(s).Some?
    && after == Parsed(before.value, Minify(before.rest).value)
  }

  // ---------- Strings and numbers ----------

  lemma {:induction false} ScanLocal(t: bytes, m: bytes)
    requires Scan(t).Some?
    ensures Scan(t[..Scan(t).value + 1] + m) == Scan(t)
    decreases |t|
  {
    var n := Scan(t).value;
    var u := t[..n + 1] + m;
    assert u[0] == t[0];
    if t[0] != QUOTE {
      var step := if t[0] == BACKSLASH then 2 else 1;
      ScanLocal(t[step..], m);
      assert u[step..] == t[step..][..n - step + 1] + m;
    }
  }

  lemma MinifiedString(s: bytes)
    requires Terminated(s) && ParseString(s).Parsed? && Minify(ParseString(s).rest).Some?
    ensures Minify(s).Some? && Commutes(s, ParseString(s), ParseString(Minify(s).value))
    ensures Minify(s).value[0] == QUOTE
  {
    hide Minify, Scan, Decode;
    var n := Scan(s[1..]).value;
    var m := Minify(s[n + 2..]).value;
    StringRest(s);
    CopyString(s);
    var t := s[..n + 2] + m;
    ScanLocal(s[1..], m);
    assert t[0] == s[0];
    assert t[1..] == s[1..][..n + 1] + m;
    assert t[1..][..n] == s[1..][..n];
    AppendDrop(s[..n + 2], m);
  }

  lemma FollowsEndsNumber(rest: bytes)
    requires Follows(rest) && Minify(rest).Some?
    ensures EndsNumber(rest) && EndsNumber(Minify(rest).value)
  {
    SkipRest(rest);
    SkipMinifiable(rest);
    SkipMinified(rest);
  }

  /** What is left after skipping whitespace can be minified when the whole can. */
  lemma {:induction false} SkipMinifiable(s: bytes)
    requires Terminated(s) && SkipWhitespace(s)[0] != SLASH && Minify(s).Some?
    ensures Minify(SkipWhitespace(s)).Some?
    decreases |s|
  {
    if |s| > 1 && s[0] <= SPACE {
      TerminatedSuffix(s, 0);
      TerminatedSuffix(s, 1);
      SkipMinifiable(s[1..]);
    }
  }

  lemma WholeRun(s: bytes, n: nat)
    requires n <= Run(s, COPY_LIMIT) && n < |s| && EndsNumber(s[n..])
    ensures Run(s, COPY_LIMIT) == n
  {
    assert s[n..][0] == s[n];
  }

  lemma MinifiedNumber(s: bytes, m: bytes)
    requires ParseNumber(s).Some?
    requires var rest := s[ParseNumber(s).value.1..]; rest != [] && EndsNumber(rest) && Minify(rest) == Some(m)
    requires EndsNumber(m)
    ensures var n := ParseNumber(s).value.1; Minify(s) == Some(s[..n] + m)
    ensures ParseNumber(Minify(s).value) == ParseNumber(s)
  {
    hide Strtod, Minify;
    var n := ParseNumber(s).value.1;
    WholeRun(s, n);
    var x := s[..n];
    assert s == x + s[n..];
    assert forall i | 0 <= i < n :: IsNumberByte(x[i]) && IsPlainByte(x[i]);
    CopyPlain(x, s[n..]);
    RunOfNumber(x, m, COPY_LIMIT);
    assert (x + m)[..n] == x;
  }

  // ---------- Values ----------

  lemma MinifiedLiteral(s: bytes, x: bytes)
    requires x <= s && x != [] && forall i | 0 <= i < |x| :: IsPlainByte(x[i])
    requires Minify(s[|x|..]).Some?
    ensures Minify(s) == Some(x + Minify(s[|x|..]).value)
  {
    assert s == x + s[|x|..];
    CopyPlain(x, s[|x|..]);
  }

  lemma {:induction false} MinifiedValue(s: bytes, d: nat)
    requires Terminated(s)
    requires var r := ParseValue(s, d); r.Parsed? && Follows(r.rest) && Minify(r.rest).Some?
    ensures Minify(s).Some? && Commutes(s, ParseValue(s, d), ParseValue(Minify(s).value, d))
    ensures Minify(s).value[0] == s[0] && s[0] > SPACE && s[0] != SLASH && s[0] != RIGHT_BRACKET && s[0] != RIGHT_BRACE
    decreases |s|, 1
  {
    var m := Minify(ParseValue(s, d).rest).value;
    if NULL_TEXT <= s {
      MinifiedLiteral(s, NULL_TEXT);
      LiteralReadsBack(m, d);
    } else if FALSE_TEXT <= s {
      MinifiedLiteral(s, FALSE_TEXT);
      LiteralReadsBack(m, d);
    } else if TRUE_TEXT <= s {
      MinifiedLiteral(s, TRUE_TEXT);
      LiteralReadsBack(m, d);
    } else if s[0] == QUOTE {
      MinifiedString(s);
    } else if s[0] == MINUS || IsDigit(s[0]) {
      MinifiedNumberValue(s, d);
    } else if s[0] == LEFT_BRACKET {
      MinifiedArray(s, d);
    } else {
      MinifiedObject(s, d);
    }
  }

  lemma MinifiedNumberValue(s: bytes, d: nat)
    requires s != [] && (s[0] == MINUS || IsDigit(s[0]))
    requires var r := ParseValue(s, d); r.Parsed? && Follows(r.rest) && Minify(r.rest).Some?
    ensures Minify(s).Some? && Commutes(s, ParseValue(s, d), ParseValue(Minify(s).value, d))
    ensures Minify(s).value[0] == s[0]
  {
    hide ParseArray, ParseObject, ParseString, Minify, ParseNumber;
    var rest := ParseValue(s, d).rest;
    var m := Minify(rest).value;
    var n := ParseNumber(s).value.1;
    FollowsEndsNumber(rest);
    MinifiedNumber(s, m);
    var t := s[..n] + m;
    assert t[0] == s[0];
    NumberStep(t, d);
    assert t[n..] == m;
  }

  lemma ArrayDispatch(s: bytes, d: nat)
    requires LooksAt(s, LEFT_BRACKET)
    ensures ParseValue(s, d) == ParseArray(s, d)
  {
    hide ParseArray, ParseObject, ParseString, ParseNumber;
  }

  lemma ObjectDispatch(s: bytes, d: nat)
    requires LooksAt(s, LEFT_BRACE)
    ensures ParseValue(s, d) == ParseObject(s, d)
  {
    hide ParseArray, ParseObject, ParseString, ParseNumber;
  }

  lemma {:induction false} MinifiedArray(s: bytes, d: nat)
    requires Terminated(s) && LooksAt(s, LEFT_BRACKET)
    requires var r := ParseValue(s, d); r.Parsed? && Follows(r.rest) && Minify(r.rest).Some?
    ensures Minify(s).Some? && Commutes(s, ParseValue(s, d), ParseValue(Minify(s).value, d))
    ensures Minify(s).value[0] == s[0]
    decreases |s|, 0
  {
    hide ParseValue, ParseItems, Minify;
    ArrayDispatch(s, d);
    ByteRest(s, LEFT_BRACKET);
    SkipRest(s[1..]);
    var t := SkipWhitespace(s[1..]);
    var rest := ParseValue(s, d).rest;
    if t[0] == RIGHT_BRACKET {
      assert t == [RIGHT_BRACKET] + rest;
      CopyByte(RIGHT_BRACKET, rest);
      ConsDrop(RIGHT_BRACKET, Minify(rest).value);
    } else {
      SkipIdempotent(s[1..]);
      MinifiedItems(t, d + 1);
    }
    SkipMinified(s[1..]);
    assert s == [LEFT_BRACKET] + s[1..];
    CopyByte(LEFT_BRACKET, s[1..]);
    var ms := [LEFT_BRACKET] + Minify(s[1..]).value;
    ConsDrop(LEFT_BRACKET, Minify(s[1..]).value);
    ArrayDispatch(ms, d);
  }

  /** `s` starts with the first byte of an element. */
  lemma {:induction false} MinifiedItems(s: bytes, d: nat)
    requires Terminated(s)
    requires var r := ParseItems(s, d); r.Parsed? && Minify(r.rest).Some?
    ensures Minify(s).Some? && Commutes(s, ParseItems(s, d), ParseItems(Minify(s).value, d))
    ensures SkipWhitespace(s) == s ==> s[0] != SLASH && Minify(s).value[0] == s[0]
    decreases |s|, 2
  {
    hide ParseValue, Minify;
    SkipRest(s);
    var t := SkipWhitespace(s);
    assert ParseValue(t, d).Parsed?;
    var Parsed(head, rest) := ParseValue(t, d);
    ValueRest(t, d);
    SkipRest(rest);
    var u := SkipWhitespace(rest);
    ByteRest(u, u[0]);
    if u[0] == COMMA {
      MinifiedItems(u[1..], d);
    }
    assert u == [u[0]] + u[1..];
    CopyByte(u[0], u[1..]);
    SkipMinified(rest);
    MinifiedValue(t, d);
    SkipMinified(s);
    ConsDrop(u[0], Minify(u[1..]).value);
  }

  lemma {:induction false} MinifiedObject(s: bytes, d: nat)
    requires Terminated(s) && LooksAt(s, LEFT_BRACE)
    requires var r := ParseValue(s, d); r.Parsed? && Follows(r.rest) && Minify(r.rest).Some?
    ensures Minify(s).Some? && Commutes(s, ParseValue(s, d), ParseValue(Minify(s).value, d))
    ensures Minify(s).value[0] == s[0]
    decreases |s|, 0
  {
    hide ParseValue, ParseMembers, Minify;
    ObjectDispatch(s, d);
    ByteRest(s, LEFT_BRACE);
    SkipRest(s[1..]);
    var t := SkipWhitespace(s[1..]);
    var rest := ParseValue(s, d).rest;
    if t[0] == RIGHT_BRACE {
      assert t == [RIGHT_BRACE] + rest;
      CopyByte(RIGHT_BRACE, rest);
      ConsDrop(RIGHT_BRACE, Minify(rest).value);
    } else {
      SkipIdempotent(s[1..]);
      MinifiedMembers(t, d + 1);
    }
    SkipMinified(s[1..]);
    assert s == [LEFT_BRACE] + s[1..];
    CopyByte(LEFT_BRACE, s[1..]);
    var ms := [LEFT_BRACE] + Minify(s[1..]).value;
    ConsDrop(LEFT_BRACE, Minify(s[1..]).value);
    ObjectDispatch(ms, d);
  }

  /** A key and its colon. */
  lemma KeyOpened(s: bytes)
    requires ParseKey(s).Parsed?
    ensures var r := ParseString(SkipWhitespace(s));
            && r.Parsed? && LooksAt(SkipWhitespace(s), QUOTE) && LooksAt(SkipWhitespace(r.rest), COLON)
            && ParseKey(s) == Parsed(r.value, SkipWhitespace(r.rest)[1..])
            && SkipWhitespace(r.rest) == [COLON] + SkipWhitespace(r.rest)[1..]
  {
    hide SkipWhitespace, Scan, Decode;
  }

  lemma KeyFrom(s: bytes, key: bytes, rest: bytes, tail: bytes)
    requires ParseString(SkipWhitespace(s)) == Parsed(key, rest) && SkipWhitespace(rest) == [COLON] + tail
    ensures ParseKey(s) == Parsed(key, tail)
  {
    hide ParseString, SkipWhitespace;
    ConsDrop(COLON, tail);
  }

  /** The colon and what is behind it. */
  lemma MinifiedColon(rest: bytes)
    requires Terminated(rest) && LooksAt(SkipWhitespace(rest), COLON) && Minify(SkipWhitespace(rest)[1..]).Some?
    ensures Minify(rest).Some?
    ensures SkipWhitespace(Minify(rest).value) == [COLON] + Minify(SkipWhitespace(rest)[1..]).value
  {
    hide Minify, SkipWhitespace;
    var u := SkipWhitespace(rest);
    assert u == [COLON] + u[1..];
    CopyByte(COLON, u[1..]);
    SkipMinified(rest);
  }

  lemma MinifiedKey(s: bytes)
    requires Terminated(s) && ParseKey(s).Parsed? && Minify(ParseKey(s).rest).Some?
    ensures Minify(s).Some? && Commutes(s, ParseKey(s), ParseKey(Minify(s).value))
    ensures SkipWhitespace(s) == s ==> s[0] == QUOTE && Minify(s).value[0] == s[0]
  {
    hide Minify, ParseString, SkipWhitespace, NulFree, ParseKey;
    KeyOpened(s);
    SkipRest(s);
    var t := SkipWhitespace(s);
    var r := ParseString(t);
    StringRest(t);
    MinifiedColon(r.rest);
    MinifiedString(t);
    SkipMinified(s);
    KeyFrom(Minify(s).value, r.value, Minify(r.rest).value, Minify(SkipWhitespace(r.rest)[1..]).value);
  }

  lemma {:induction false} MinifiedMembers(s: bytes, d: nat)
    requires Terminated(s)
    requires var r := ParseMembers(s, d); r.Parsed? && Minify(r.rest).Some?
    ensures Minify(s).Some? && Commutes(s, ParseMembers(s, d), ParseMembers(Minify(s).value, d))
    ensures SkipWhitespace(s) == s ==> s[0] != SLASH && Minify(s).value[0] == s[0]
    decreases |s|, 2
  {
    hide ParseValue, ParseKey, Minify;
    var Parsed(key, afterKey) := ParseKey(s);
    KeyRest(s);
    SkipRest(afterKey);
    var t := SkipWhitespace(afterKey);
    var Parsed(value, rest) := ParseValue(t, d);
    ValueRest(t, d);
    SkipRest(rest);
    var u := SkipWhitespace(rest);
    ByteRest(u, u[0]);
    if u[0] == COMMA {
      MinifiedMembers(u[1..], d);
    }
    assert u == [u[0]] + u[1..];
    CopyByte(u[0], u[1..]);
    SkipMinified(rest);
    MinifiedValue(t, d);
    SkipMinified(afterKey);
    MinifiedKey(s);
    ConsDrop(u[0], Minify(u[1..]).value);
  }

  // ---------- A successful parse never consumes the terminator ----------

  lemma KeyRest(s: bytes)
    requires Terminated(s) && ParseKey(s).Parsed?
    ensures Terminated(ParseKey(s).rest)
  {
    SkipRest(s);
    var rest := ParseString(SkipWhitespace(s)).rest;
    StringRest(SkipWhitespace(s));
    SkipRest(rest);
    ByteRest(SkipWhitespace(rest), COLON);
  }

  lemma {:induction false} ValueRest(s: bytes, d: nat)
    requires Terminated(s) && ParseValue(s, d).Parsed?
    ensures Terminated(ParseValue(s, d).rest)
    decreases |s|, 1
  {
    if NULL_TEXT <= s {
      assert s[3] == NULL_TEXT[3];
      PlainRest(s, 4);
    } else if FALSE_TEXT <= s {
      assert s[4] == FALSE_TEXT[4];
      PlainRest(s, 5);
    } else if TRUE_TEXT <= s {
      assert s[3] == TRUE_TEXT[3];
      PlainRest(s, 4);
    } else if s[0] == QUOTE {
      StringRest(s);
    } else if s[0] == MINUS || IsDigit(s[0]) {
      var n := ParseNumber(s).value.1;
      assert IsNumberByte(s[n - 1]);
      PlainRest(s, n);
    } else if s[0] == LEFT_BRACKET {
      ByteRest(s, LEFT_BRACKET);
      SkipRest(s[1..]);
      var t := SkipWhitespace(s[1..]);
      if t[0] == RIGHT_BRACKET {
        ByteRest(t, RIGHT_BRACKET);
      } else {
        ItemsRest(t, d + 1);
      }
    } else {
      ByteRest(s, LEFT_BRACE);
      SkipRest(s[1..]);
      var t := SkipWhitespace(s[1..]);
      if t[0] == RIGHT_BRACE {
        ByteRest(t, RIGHT_BRACE);
      } else {
        MembersRest(t, d + 1);
      }
    }
  }

  lemma {:induction false} ItemsRest(s: bytes, d: nat)
    requires Terminated(s) && ParseItems(s, d).Parsed?
    ensures Terminated(ParseItems(s, d).rest)
    decreases |s|, 2
  {
    SkipRest(s);
    var rest := ParseValue(SkipWhitespace(s), d).rest;
    ValueRest(SkipWhitespace(s), d);
    SkipRest(rest);
    var t := SkipWhitespace(rest);
    ByteRest(t, t[0]);
    if t[0] == COMMA {
      ItemsRest(t[1..], d);
    }
  }

  lemma {:induction false} MembersRest(s: bytes, d: nat)
    requires Terminated(s) && ParseMembers(s, d).Parsed?
    ensures Terminated(ParseMembers(s, d).rest)
    decreases |s|, 2
  {
    KeyRest(s);
    var afterKey := ParseKey(s).rest;
    SkipRest(afterKey);
    var rest := ParseValue(SkipWhitespace(afterKey), d).rest;
    ValueRest(SkipWhitespace(afterKey), d);
    SkipRest(rest);
    var t := SkipWhitespace(rest);
    ByteRest(t, t[0]);
    if t[0] == COMMA {
      MembersRest(t[1..], d);
    }
  }

  // ---------- Whole texts ----------

  /** The C string a minified text leaves in the buffer. */
  function MinifiedText(text: bytes): bytes
    requires Minify(text + [NUL]).Some?
  {
    var m := Minify(text + [NUL]).value;
    m[..|m| - 1]
  }

  lemma MinifyTerminator()
    ensures Minify([NUL]) == Some([NUL])
  {
  }

  /** Every text that is accepted up to its terminator ends outside strings and comments, so it is
      minified without leaving the buffer, and the minified text is accepted and stands for the same tree. */
  lemma MinifyKeepsMeaning(text: bytes)
    requires NulFree(text) && ParseText(text, true).Parsed?
    ensures EndsClosed(text + [NUL]) && Minify(text + [NUL]).Some?
    ensures ParseText(MinifiedText(text), true) == Parsed(ParseText(text, true).value, [NUL])
  {
    hide ParseValue, Minify, EndsClosed;
    var s := text + [NUL];
    StaysIffClosed(s);
    assert s[..|s| - 1] == text;
    SkipRest(s);
    var t := SkipWhitespace(s);
    var r := ParseValue(t, 0);
    ValueRest(t, 0);
    var u := SkipWhitespace(r.rest);
    SkipRest(r.rest);
    TerminatedSuffix(u, 0);
    assert u == [NUL];
    MinifyTerminator();
    SkipMinified(r.rest);
    MinifiedValue(t, 0);
    SkipMinified(s);
    MinifyTerminated(s);
    var m := Minify(s).value;
    assert m == MinifiedText(text) + [NUL];
    assert SkipWhitespace(Minify(r.rest).value) == [NUL];
  }
}
