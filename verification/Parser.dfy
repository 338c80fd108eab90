/** The grammar the parser accepts, as functions of the input that is left. The imperative
    parser of ParseBuffer.dfy is proved against them. */
module Parser {
  import opened Bytes
  import opened JsonTree
  import NumberCodec
  import StringCodec
  import Utf8

  /** Success with the input behind the value, or failure with the input at the error offset. */
  datatype Outcome<+T> = Parsed(value: T, rest: bytes) | Failed(rest: bytes)

  const NESTING_LIMIT: nat := 1000

  /** buffer_skip_whitespace: it never steps past the last byte, the terminator. */
  function SkipWhitespace(s: bytes): (r: bytes)
    ensures |r| <= |s|
    ensures s != [] ==> r != []
  {
    if |s| > 1 && s[0] <= SPACE then SkipWhitespace(s[1..]) else s
  }

  predicate LooksAt(s: bytes, b: byte) {
    s != [] && s[0] == b
  }

  /** parse_string. What a reader of the tree sees of the decoded bytes is a C string. */
  function ParseString(s: bytes): (r: Outcome<bytes>)
    ensures r.Parsed? ==> |r.rest| < |s|
    ensures |r.rest| <= |s|
  {
    if !LooksAt(s, QUOTE) then Failed(StringCodec.Drop(s, 1))
    else
      match StringCodec.Scan(s[1..])
      case None => Failed(s[1..])
      case Some(n) =>
        match StringCodec.Decode(s[1..][..n])
        case Done(out) => Parsed(CString(out), s[n + 2..])
        case Bad(_, at) => Failed(s[1 + n - |at|..])
  }

  /** `depth` counts the arrays and objects the value is in. */
  function ParseValue(s: bytes, depth: nat): (r: Outcome<Json>)
    ensures r.Parsed? ==> |r.rest| < |s|
    ensures |r.rest| <= |s|
    decreases |s|, 1
  {
    if NULL_TEXT <= s then Parsed(Null, s[4..])
    else if FALSE_TEXT <= s then Parsed(False, s[5..])
    else if TRUE_TEXT <= s then Parsed(True, s[4..])
    else if LooksAt(s, QUOTE) then
      match ParseString(s)
      case Parsed(text, rest) => Parsed(Str(text), rest)
      case Failed(rest) => Failed(rest)
    else if s != [] && (s[0] == MINUS || NumberCodec.IsDigit(s[0])) then
      match NumberCodec.ParseNumber(s)
      case None => Failed(s)
      case Some((x, n)) => Parsed(Number(x), s[n..])
    else if LooksAt(s, LEFT_BRACKET) then ParseArray(s, depth)
    else if LooksAt(s, LEFT_BRACE) then ParseObject(s, depth)
    else Failed(s)
  }

  function ParseArray(s: bytes, depth: nat): (r: Outcome<Json>)
    requires LooksAt(s, LEFT_BRACKET)
    ensures r.Parsed? ==> |r.rest| < |s|
    ensures |r.rest| <= |s|
    decreases |s|, 0
  {
    if depth >= NESTING_LIMIT then Failed(s)
    else
      var t := SkipWhitespace(s[1..]);
      if LooksAt(t, RIGHT_BRACKET) then Parsed(Array(NoItems), t[1..])
      else
        match ParseItems(t, depth + 1)
        case Parsed(items, rest) => Parsed(Array(items), rest)
        case Failed(rest) => Failed(rest)
  }

  /** The elements up to and including the closing bracket. */
  function ParseItems(s: bytes, depth: nat): (r: Outcome<Items>)
    ensures r.Parsed? ==> |r.rest| < |s|
    ensures |r.rest| <= |s|
    decreases |s|, 2
  {
    match ParseValue(SkipWhitespace(s), depth)
    case Failed(rest) => Failed(rest)
    case Parsed(head, rest) =>
      var t := SkipWhitespace(rest);
      if LooksAt(t, COMMA) then
        match ParseItems(t[1..], depth)
        case Parsed(tail, rest') => Parsed(Item(head, tail), rest')
        case Failed(rest') => Failed(rest')
      else if LooksAt(t, RIGHT_BRACKET) then Parsed(Item(head, NoItems), t[1..])
      else Failed(t)
  }

  function ParseObject(s: bytes, depth: nat): (r: Outcome<Json>)
    requires LooksAt(s, LEFT_BRACE)
    ensures r.Parsed? ==> |r.rest| < |s|
    ensures |r.rest| <= |s|
    decreases |s|, 0
  {
    if depth >= NESTING_LIMIT then Failed(s)
    else
      var t := SkipWhitespace(s[1..]);
      if LooksAt(t, RIGHT_BRACE) then Parsed(Object(NoMembers), t[1..])
      else
        match ParseMembers(t, depth + 1)
        case Parsed(members, rest) => Parsed(Object(members), rest)
        case Failed(rest) => Failed(rest)
  }

  /** A key and its colon, with the whitespace around them. */
  function ParseKey(s: bytes): (r: Outcome<bytes>)
    ensures r.Parsed? ==> |r.rest| < |s|
    ensures |r.rest| <= |s|
  {
    match ParseString(SkipWhitespace(s))
    case Failed(rest) => Failed(rest)
    case Parsed(key, rest) =>
      var t := SkipWhitespace(rest);
      if LooksAt(t, COLON) then Parsed(key, t[1..]) else Failed(t)
  }

  /** The members up to and including the closing brace. */
  function ParseMembers(s: bytes, depth: nat): (r: Outcome<Members>)
    ensures r.Parsed? ==> |r.rest| < |s|
    ensures |r.rest| <= |s|
    decreases |s|, 2
  {
    match ParseKey(s)
    case Failed(rest) => Failed(rest)
    case Parsed(key, afterKey) =>
      match ParseValue(SkipWhitespace(afterKey), depth)
      case Failed(rest) => Failed(rest)
      case Parsed(value, rest) =>
        var t := SkipWhitespace(rest);
        if LooksAt(t, COMMA) then
          match ParseMembers(t[1..], depth)
          case Parsed(others, rest') => Parsed(Member(key, value, others), rest')
          case Failed(rest') => Failed(rest')
        else if LooksAt(t, RIGHT_BRACE) then Parsed(Member(key, value, NoMembers), t[1..])
        else Failed(t)
  }

  /** A value and, when nothing else may follow it, the terminator. */
  function ValueAndEnd(s: bytes, depth: nat, requireNullTerminated: bool): Outcome<Json> {
    match ParseValue(s, depth)
    case Failed(rest) => Failed(rest)
    case Parsed(v, rest) =>
      if requireNullTerminated then
        var t := SkipWhitespace(rest);
        if LooksAt(t, NUL) then Parsed(v, t) else Failed(t)
      else Parsed(v, rest)
  }

  /** cJSON_ParseWithOpts on the C string `text`. */
  function ParseText(text: bytes, requireNullTerminated: bool): Outcome<Json> {
    ValueAndEnd(SkipWhitespace(text + [NUL]), 0, requireNullTerminated)
  }

  // ---------- Malformed escapes ----------

  /** The text of an escape that reads as U+0000: malformed, or four zeros. */
  ghost predicate ReadsAsNul(b: bytes) {
    && |b| >= 6 && b[0] == BACKSLASH && b[1] == LOWER_U
    && (!StringCodec.IsHex4(b[2..6]) || StringCodec.Hex4(b[2..6]) == 0)
  }

  /** Where pass two has written `out` and comes to such an escape at the front of `rest`, the parsed
      text ends: what is behind decides only whether the string is accepted. */
  lemma TextEndsAtEscape(s: bytes, body: bytes, rest: bytes, out: bytes)
    requires s != [] && s[0] == QUOTE && StringCodec.Scan(s[1..]) == Some(|body|) && body <= s[1..]
    requires ReadsAsNul(rest) && StringCodec.Decode(body) == StringCodec.Emit(out, StringCodec.Decode(rest))
    ensures ParseString(s).Parsed? <==> StringCodec.Decode(rest[6..]).Done?
    ensures ParseString(s).Parsed? ==> ParseString(s) == Parsed(CString(out), s[|body| + 2..])
  {
    hide StringCodec.Scan, StringCodec.Decode, CString;
    EscapeDecodes(rest, out);
    assert s[1..][..|body|] == body;
  }

  lemma EscapeDecodes(rest: bytes, out: bytes)
    requires ReadsAsNul(rest)
    ensures var d := StringCodec.Emit(out, StringCodec.Decode(rest));
            && (d.Done? <==> StringCodec.Decode(rest[6..]).Done?)
            && (d.Done? ==> CString(d.out) == CString(out))
  {
    StringCodec.MalformedEscapeReadsAsNul(rest);
    hide StringCodec.DecodeStep, CString;
    var d := StringCodec.Decode(StringCodec.Drop(rest, 6));
    assert StringCodec.Decode(rest) == StringCodec.Emit([NUL], d);
    assert out + ([NUL] + d.out) == out + [NUL] + d.out;
    CStringPrefix(out, d.out);
  }

  /** Four bytes between which the scan sees nothing special. */
  ghost predicate Digitlike(h: bytes) {
    |h| == 4 && forall i | 0 <= i < 4 :: h[i] != QUOTE && h[i] != BACKSLASH
  }

  /** Such an escape behind any escaped text is not rejected: the string is accepted if and only if
      what is behind the escape would be accepted as a string, and it is the text alone. */
  lemma ReadsAsTextAlone(x: bytes, h: bytes, tail: bytes)
    requires NulFree(x) && Digitlike(h) && (!StringCodec.IsHex4(h) || StringCodec.Hex4(h) == 0)
    ensures var s := [QUOTE] + (StringCodec.Escape(x) + ([BACKSLASH, LOWER_U] + (h + tail)));
            var r := ParseString([QUOTE] + tail);
            if r.Parsed? then ParseString(s) == Parsed(x, r.rest) else ParseString(s).Failed?
  {
    hide *;
    var e, rest := StringCodec.Escape(x), [BACKSLASH, LOWER_U] + (h + tail);
    var s := [QUOTE] + (e + rest);
    ConsDrop(QUOTE, e + rest);
    ConsDrop(QUOTE, tail);
    ScanAtEscape(x, h, tail);
    if StringCodec.Scan(tail).Some? {
      var m := StringCodec.Scan(tail).value;
      ScanInside(tail);
      EscapeCut(e, h, tail, m);
      StringCodec.DecodeBehind(x, rest[..6 + m]);
      TextEndsAtEscape(s, e + rest[..6 + m], rest[..6 + m], x);
      CStringPrefix(x, []);
      StringSpec([QUOTE] + tail, m);
      assert s[|e| + 6 + m + 2..] == tail[m + 1..];
      assert ([QUOTE] + tail)[m + 2..] == tail[m + 1..];
    } else {
      UnclosedString(s);
      UnclosedString([QUOTE] + tail);
    }
  }

  /** One escape behind any escaped text: refused exactly when it is one for a surrogate. */
  lemma SingleEscape(x: bytes, h: bytes, tail: bytes)
    requires NulFree(x) && Digitlike(h)
    ensures var s := [QUOTE] + (StringCodec.Escape(x) + ([BACKSLASH, LOWER_U] + (h + ([QUOTE] + tail))));
            var u := StringCodec.Hex4(h);
            if StringCodec.IsHighSurrogate(u) || StringCodec.IsLowSurrogate(u) then ParseString(s).Failed?
            else ParseString(s) == Parsed(CString(x + Utf8.Encode(u)), tail)
  {
    hide *;
    var e, rest := StringCodec.Escape(x), [BACKSLASH, LOWER_U] + (h + ([QUOTE] + tail));
    var s := [QUOTE] + (e + rest);
    ConsDrop(QUOTE, e + rest);
    ScanAtEscape(x, h, [QUOTE] + tail);
    ScanQuote(tail);
    EscapeCut(e, h, [QUOTE] + tail, 0);
    StringCodec.DecodeBehind(x, rest[..6]);
    LastEscape(rest[..6], h);
    StringSpec(s, |e| + 6);
    assert s[|e| + 8..] == tail;
  }

  lemma ScanAtEscape(x: bytes, h: bytes, tail: bytes)
    requires Digitlike(h)
    ensures var e := StringCodec.Escape(x);
            StringCodec.Scan(e + ([BACKSLASH, LOWER_U] + (h + tail))) ==
              StringCodec.Passed(|e| + 6, StringCodec.Scan(tail))
    ensures var passed := StringCodec.Passed(|StringCodec.Escape(x)| + 6, StringCodec.Scan(tail));
            && (StringCodec.Scan(tail).None? <==> passed.None?)
            && (StringCodec.Scan(tail).Some? ==>
                  passed == Some(|StringCodec.Escape(x)| + 6 + StringCodec.Scan(tail).value))
  {
    hide StringCodec.Scan, StringCodec.Escape, StringCodec.Passed;
    var e, rest, r := StringCodec.Escape(x), [BACKSLASH, LOWER_U] + (h + tail), StringCodec.Scan(tail);
    StringCodec.ScanBehind(x, rest);
    assert rest[2..] == h + tail;
    StringCodec.ScanPair(rest, h + tail);
    StringCodec.ScanPlain(h, tail);
    StringCodec.PassedTwice(2, 4, r);
    StringCodec.PassedTwice(|e|, 6, r);
    PassedIs(|e| + 6, r);
  }

  lemma PassedIs(n: nat, r: Option<nat>)
    ensures var passed := StringCodec.Passed(n, r);
            && (r.None? <==> passed.None?) && (r.Some? ==> passed == Some(n + r.value))
  {
  }

  lemma ScanInside(t: bytes)
    requires StringCodec.Scan(t).Some?
    ensures StringCodec.Scan(t).value < |t|
  {
  }

  lemma ScanQuote(tail: bytes)
    ensures StringCodec.Scan([QUOTE] + tail) == Some(0)
  {
  }

  /** The body up to `m` bytes behind the escape. */
  lemma EscapeCut(e: bytes, h: bytes, tail: bytes, m: nat)
    requires Digitlike(h) && m <= |tail|
    ensures var rest := [BACKSLASH, LOWER_U] + (h + tail);
            && (e + rest)[..|e| + 6 + m] == e + rest[..6 + m] <= e + rest && |e + rest[..6 + m]| == |e| + 6 + m
            && rest[..6 + m][6..] == tail[..m] && rest[..6 + m][2..6] == h
            && (!StringCodec.IsHex4(h) || StringCodec.Hex4(h) == 0 ==> ReadsAsNul(rest[..6 + m]))
            && |rest[..6]| == 6 && rest[..6][0] == BACKSLASH && rest[..6][1] == LOWER_U && rest[..6][2..6] == h
  {
    hide StringCodec.IsHex4, StringCodec.Hex4;
    var rest := [BACKSLASH, LOWER_U] + (h + tail);
    assert rest[..6 + m][2..6] == h;
    assert rest[..6][2..6] == h;
  }

  lemma LastEscape(b: bytes, h: bytes)
    requires |b| == 6 && b[0] == BACKSLASH && b[1] == LOWER_U && b[2..6] == h
    ensures var u := StringCodec.Hex4(h);
            forall x: bytes ::
              var d := StringCodec.Emit(x, StringCodec.Decode(b));
              if StringCodec.IsHighSurrogate(u) || StringCodec.IsLowSurrogate(u) then d.Bad?
              else d == StringCodec.Done(x + Utf8.Encode(u))
  {
    hide StringCodec.Hex4, Utf8.Encode;
    var u := StringCodec.Hex4(h);
    if !StringCodec.IsHighSurrogate(u) && !StringCodec.IsLowSurrogate(u) {
      assert StringCodec.Drop(b, 6) == [];
      assert Utf8.Encode(u) + [] == Utf8.Encode(u);
    }
  }

  lemma StringSpec(s: bytes, n: nat)
    requires s != [] && s[0] == QUOTE && StringCodec.Scan(s[1..]) == Some(n)
    ensures n + 2 <= |s|
    ensures match StringCodec.Decode(s[1..][..n])
            case Done(out) => ParseString(s) == Parsed(CString(out), s[n + 2..])
            case Bad(_, _) => ParseString(s).Failed?
  {
    hide StringCodec.Scan, StringCodec.Decode, CString;
  }

  lemma UnclosedString(s: bytes)
    requires s != [] && s[0] == QUOTE && StringCodec.Scan(s[1..]).None?
    ensures ParseString(s).Failed?
  {
    hide StringCodec.Scan, StringCodec.Decode, CString;
  }

  /** Whatever the four bytes are, a text with such an escape behind it reads, if it is accepted, as
      the text alone. */
  lemma NothingBehindEscape(x: bytes, h: bytes, tail: bytes)
    requires NulFree(x) && |h| == 4 && (!StringCodec.IsHex4(h) || StringCodec.Hex4(h) == 0)
    ensures var s := [QUOTE] + (StringCodec.Escape(x) + ([BACKSLASH, LOWER_U] + (h + tail)));
            ParseString(s).Parsed? ==> ParseString(s).value == x
  {
    hide *;
    var e, rest := StringCodec.Escape(x), [BACKSLASH, LOWER_U] + (h + tail);
    var s := [QUOTE] + (e + rest);
    ConsDrop(QUOTE, e + rest);
    assert rest[2..6] == h;
    if ParseString(s).Parsed? {
      ParsedBody(s);
      StringCodec.ScanBehind(x, rest);
      PassedSome(|e|, StringCodec.Scan(rest));
      EscapeBehind(s, e, x, rest, h, StringCodec.Scan(rest).value);
    }
  }

  lemma PassedSome(n: nat, r: Option<nat>)
    requires StringCodec.Passed(n, r).Some?
    ensures r.Some? && StringCodec.Passed(n, r) == Some(n + r.value)
  {
  }

  lemma ParsedBody(s: bytes)
    requires s != [] && s[0] == QUOTE && ParseString(s).Parsed?
    ensures LooksAt(s, QUOTE) && StringCodec.Scan(s[1..]).Some?
    ensures StringCodec.Decode(s[1..][..StringCodec.Scan(s[1..]).value]).Done?
  {
    hide StringCodec.Scan, StringCodec.Decode;
  }

  lemma EscapeBehind(s: bytes, e: bytes, x: bytes, rest: bytes, h: bytes, m: nat)
    requires s != [] && s[0] == QUOTE && s[1..] == e + rest && e == StringCodec.Escape(x) && NulFree(x)
    requires |rest| >= 6 && rest[0] == BACKSLASH && rest[1] == LOWER_U && rest[2..6] == h
    requires !StringCodec.IsHex4(h) || StringCodec.Hex4(h) == 0
    requires StringCodec.Scan(rest) == Some(m) && StringCodec.Scan(s[1..]) == Some(|e| + m)
    requires StringCodec.Decode(s[1..][..|e| + m]).Done?
    ensures ParseString(s).Parsed? ==> ParseString(s).value == x
  {
    hide *;
    EscapeInBody(rest, h, m);
    BodyBehind(e, rest, m);
    StringCodec.DecodeBehind(x, rest[..m]);
    EmitDone(x, StringCodec.Decode(rest[..m]));
    TextEndsAtEscape(s, e + rest[..m], rest[..m], x);
    CStringPrefix(x, []);
  }

  lemma EmitDone(x: bytes, d: StringCodec.Decoding)
    ensures StringCodec.Emit(x, d).Done? <==> d.Done?
  {
  }

  lemma BodyBehind(e: bytes, rest: bytes, m: nat)
    requires m <= |rest|
    ensures (e + rest)[..|e| + m] == e + rest[..m] && |e + rest[..m]| == |e| + m && e + rest[..m] <= e + rest
  {
  }

  lemma ShortEscapeFails(b: bytes)
    requires 2 <= |b| < 6 && b[0] == BACKSLASH && b[1] == LOWER_U
    ensures StringCodec.Decode(b).Bad?
  {
    assert StringCodec.DecodeStep(b).None?;
  }

  lemma ScanOfEscape(rest: bytes, m: nat)
    requires |rest| >= 2 && rest[0] == BACKSLASH && StringCodec.Scan(rest) == Some(m)
    ensures 2 <= m <= |rest|
  {
  }

  lemma EscapeInBody(rest: bytes, h: bytes, m: nat)
    requires |rest| >= 6 && rest[0] == BACKSLASH && rest[1] == LOWER_U && rest[2..6] == h
    requires StringCodec.Scan(rest) == Some(m) && (!StringCodec.IsHex4(h) || StringCodec.Hex4(h) == 0)
    ensures 2 <= m <= |rest| && (m < 6 ==> StringCodec.Decode(rest[..m]).Bad?)
    ensures m >= 6 ==> ReadsAsNul(rest[..m])
  {
    hide StringCodec.Scan, StringCodec.Decode, StringCodec.IsHex4, StringCodec.Hex4;
    ScanOfEscape(rest, m);
    if m >= 6 {
      assert rest[..m][2..6] == h;
    } else {
      ShortEscapeFails(rest[..m]);
    }
  }
}
