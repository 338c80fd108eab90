/** What the parser makes of every text it can be given: it accepts exactly the lax texts of the
    grammar that are not nested too deeply and regular, with their meaning. */
module AcceptedTexts {
  import opened Bytes
  import opened JsonTree
  import opened NumberCodec
  import opened StringCodec
  import opened Parser
  import opened RoundTrip
  import opened Grammar
  import Utf8

  // ---------- Strings are parsed ----------

  lemma CharsFromFront(cs: seq<Char>)
    requires CharsLax(cs) && cs != []
    ensures CharsText(cs) == CharText(cs[0]) + CharsText(cs[1..])
    ensures CharLax(cs[0]) && CharsLax(cs[1..])
    ensures |cs| > 1 ==> CharLax(cs[1]) && CharsLax(cs[2..]) && cs[1..][0] == cs[1] && cs[1..][1..] == cs[2..]
    ensures cs[0].Dangling? ==> cs[1..] == [] && CharsText(cs[1..]) == []
    ensures |cs| > 1 && cs[1].Dangling? ==> cs[2..] == [] && CharsText(cs[2..]) == []
  {
    hide CharLax, CharText;
  }

  /** The parser knows the eight two-character escapes of the grammar, and no others. */
  lemma EightEscapes(letter: byte)
    ensures Unescape(letter) == if letter as char in SHORT_ESCAPES then Some(ShortMeaning(letter as char)) else None
  {
  }

  /** A character that is spelled with a u. */
  predicate WithU(c: Char) { c.Unit? || c.Garbled? }

  /** The four bytes behind the u. */
  function FourOf(c: Char): bytes { if c.Unit? then c.digits else if c.Garbled? then c.four else [] }

  lemma GarbledLooks(four: bytes)
    requires |four| == 4
    ensures IsHex4(four) <==> exists unit :: WritesUnit(four, unit)
  {
    hide WritesUnit, Hex4;
    if IsHex4(four) {
      UnitReads(four, Hex4(four));
    }
    forall unit | WritesUnit(four, unit)
      ensures IsHex4(four)
    {
      UnitReads(four, unit);
    }
  }

  /** What the code looks at in a character. */
  lemma CharLooks(c: Char)
    requires CharLax(c)
    ensures c.Plain? ==> c.b != BACKSLASH
    ensures c.Short? ==> Unescape(c.letter) == Some(CharMeaning(c)[0]) && |CharMeaning(c)| == 1
    ensures c.Short? ==> c.letter != LOWER_U && c.letter != NUL
    ensures c.Unit? ==> c.unit < 0x1_0000 && IsHex4(c.digits)
    ensures WithU(c) ==> |FourOf(c)| == 4 && Hex4(FourOf(c)) == UnitOf(c)
  {
    match c
    case Plain(_) =>
    case Short(letter) =>
      EightEscapes(letter);
    case Unit(unit, digits) =>
      UnitReads(digits, unit);
    case Garbled(four) =>
      GarbledLooks(four);
    case Dangling =>
  }

  lemma UnitAt(c: Char, tail: bytes)
    requires CharLax(c) && (c.Dangling? ==> tail == [])
    ensures var b := CharText(c) + tail;
            && (WithU(c) ==>
                  |b| == 6 + |tail| && b[0] == BACKSLASH && b[1] == LOWER_U && b[2..6] == FourOf(c) && b[6..] == tail)
            && (!WithU(c) ==> b != [] && (b[0] != BACKSLASH || |b| == 1 || b[1] != LOWER_U))
  {
    hide CharLax, IsHex4, Hex4;
    CharLooks(c);
  }

  /** A character other than half a pair, at the front of a body. */
  lemma DecodeChar(c: Char, tail: bytes)
    requires CharLax(c) && !c.Dangling? && !IsHighSurrogate(UnitOf(c)) && !IsLowSurrogate(UnitOf(c))
    ensures DecodeStep(CharText(c) + tail) == Some((CharMeaning(c), |CharText(c)|))
  {
    hide CharLax, IsHex4, Hex4;
    CharLooks(c);
    UnitAt(c, tail);
    if c.Short? {
      assert (CharText(c) + tail)[1] == c.letter;
      assert CharMeaning(c) == [CharMeaning(c)[0]];
    }
  }

  lemma LoneHalf(cs: seq<Char>)
    requires CharsLax(cs) && cs != [] && !StartsPair(cs)
    requires IsHighSurrogate(UnitOf(cs[0])) || IsLowSurrogate(UnitOf(cs[0]))
    ensures Decode(CharsText(cs)).Bad?
  {
    hide Decode, CharText, CharLax, Hex4, IsHex4, Utf8.Encode;
    CharsFromFront(cs);
    CharLooks(cs[0]);
    var b, tail := CharsText(cs), CharsText(cs[1..]);
    UnitAt(cs[0], tail);
    if |cs| > 1 {
      CharsFromFront(cs[1..]);
      UnitAt(cs[1], CharsText(cs[2..]));
      UnitBehind(b, tail, cs[1]);
    } else {
      assert tail == [];
    }
    assert DecodeStep(b) == None;
    StuckDecoding(b);
  }

  lemma UnitBehind(b: bytes, tail: bytes, c: Char)
    requires |b| == 6 + |tail| && b[6..] == tail && CharLax(c)
    requires WithU(c) ==> |tail| >= 6 && tail[0] == BACKSLASH && tail[1] == LOWER_U && tail[2..6] == FourOf(c)
    requires !WithU(c) ==> tail != [] && (tail[0] != BACKSLASH || |tail| == 1 || tail[1] != LOWER_U)
    ensures WithU(c) ==> |b| >= 12 && b[6] == BACKSLASH && b[7] == LOWER_U
    ensures WithU(c) ==> b[8..12] == FourOf(c) && b[12..] == tail[6..] && Hex4(b[8..12]) == UnitOf(c)
    ensures !WithU(c) ==> |b| < 12 || b[6] != BACKSLASH || b[7] != LOWER_U
  {
    hide Hex4, IsHex4, CharLax;
    CharLooks(c);
    assert b[6] == tail[0];
    assert |tail| > 1 ==> b[7] == tail[1];
    if WithU(c) {
      assert b[8..12] == tail[2..6];
    }
  }

  lemma StuckDecoding(b: bytes)
    requires b != [] && DecodeStep(b) == None
    ensures Decode(b).Bad?
  {
  }

  lemma PairAtFront(cs: seq<Char>)
    requires CharsLax(cs) && StartsPair(cs)
    ensures var cp := JoinSurrogates(UnitOf(cs[0]), UnitOf(cs[1]));
            DecodeStep(CharsText(cs)) == Some((Utf8.Encode(cp), 12))
    ensures Drop(CharsText(cs), 12) == CharsText(cs[2..]) && CharsText(cs) != []
  {
    hide CharText, CharLax, Hex4, IsHex4, Utf8.Encode;
    CharsFromFront(cs);
    CharLooks(cs[0]);
    var b, tail := CharsText(cs), CharsText(cs[1..]);
    UnitAt(cs[0], tail);
    CharsFromFront(cs[1..]);
    UnitAt(cs[1], CharsText(cs[2..]));
    UnitBehind(b, tail, cs[1]);
  }

  lemma DecodeOn(b: bytes, out: bytes, n: nat, rest: bytes)
    requires b != [] && DecodeStep(b) == Some((out, n)) && Drop(b, n) == rest
    ensures Decode(b) == Emit(out, Decode(rest))
  {
  }

  lemma CharAtFront(cs: seq<Char>)
    requires CharsLax(cs) && cs != [] && !IsHighSurrogate(UnitOf(cs[0])) && !IsLowSurrogate(UnitOf(cs[0]))
    ensures Decode(CharsText(cs)) == Emit(CharMeaning(cs[0]), Decode(CharsText(cs[1..])))
  {
    hide Decode, CharText, CharLax, CharMeaning, DecodeStep;
    CharsFromFront(cs);
    var tail := CharsText(cs[1..]);
    if cs[0].Dangling? {
      DanglingAlone(cs);
      return;
    }
    DecodeChar(cs[0], tail);
    CharSomething(cs[0]);
    AppendDrop(CharText(cs[0]), tail);
    DecodeOn(CharsText(cs), CharMeaning(cs[0]), |CharText(cs[0])|, tail);
  }

  lemma DanglingAlone(cs: seq<Char>)
    requires cs == [Dangling]
    ensures Decode(CharsText(cs)) == Emit(CharMeaning(cs[0]), Decode(CharsText(cs[1..])))
  {
    assert cs[1..] == [] && CharsText(cs) == [BACKSLASH];
    assert DecodeStep([BACKSLASH]) == Some(([QUOTE], 2));
    assert Drop([BACKSLASH], 2) == [];
  }

  lemma OneCharacter(cs: seq<Char>)
    requires cs != [] && !IsHighSurrogate(UnitOf(cs[0])) && !IsLowSurrogate(UnitOf(cs[0]))
    ensures CharsText(cs) == CharText(cs[0]) + CharsText(cs[1..])
    ensures CharsMeaning(cs) == CharMeaning(cs[0]) + CharsMeaning(cs[1..])
    ensures NoLoneSurrogate(cs) == NoLoneSurrogate(cs[1..])
  {
  }

  lemma CharSomething(c: Char)
    ensures CharText(c) != []
  {
  }

  /** The decoder gives the meaning of the characters, unless a surrogate stands alone. */
  lemma {:induction false} DecodeChars(cs: seq<Char>)
    requires CharsLax(cs)
    ensures if NoLoneSurrogate(cs) then Decode(CharsText(cs)) == Done(CharsMeaning(cs)) else Decode(CharsText(cs)).Bad?
    decreases |cs|
  {
    hide Decode, CharsText, CharMeaning, JoinSurrogates, Utf8.Encode, DecodeStep, CharLax, StartsPair;
    if cs == [] {
      NothingToDecode();
    } else if StartsPair(cs) {
      PairAtFront(cs);
      PairIsTwo(cs);
      var x := Utf8.Encode(JoinSurrogates(UnitOf(cs[0]), UnitOf(cs[1])));
      DecodeOn(CharsText(cs), x, 12, CharsText(cs[2..]));
      DecodeChars(cs[2..]);
    } else if IsHighSurrogate(UnitOf(cs[0])) || IsLowSurrogate(UnitOf(cs[0])) {
      LoneHalf(cs);
    } else {
      CharAtFront(cs);
      DecodeChars(cs[1..]);
    }
  }

  lemma PairIsTwo(cs: seq<Char>)
    requires StartsPair(cs)
    ensures |cs| > 1
  {
  }

  lemma NothingToDecode()
    ensures CharsText([]) == [] && Decode([]) == Done([])
  {
  }

  /** Pass one finds the quote behind a guarded body. */
  lemma {:induction false} GuardedScan(body: bytes, tail: bytes)
    requires Guarded(body)
    ensures Scan(body + ([QUOTE] + tail)) == Some(|body|)
    decreases |body|
  {
    var s := body + ([QUOTE] + tail);
    if body == [] {
      assert s == [QUOTE] + tail;
    } else {
      var step := if body[0] == BACKSLASH then 2 else 1;
      assert s[step..] == body[step..] + ([QUOTE] + tail);
      GuardedScan(body[step..], tail);
    }
  }

  lemma StringParses(cs: seq<Char>, tail: bytes)
    requires StringLax(cs)
    ensures var r := ParseString(StringText(cs) + tail);
            if NoLoneSurrogate(cs) then r == Parsed(StringMeaning(cs), tail) else r.Failed?
  {
    hide *;
    var x := CharsText(cs);
    var s := StringText(cs) + tail;
    StringTextIs(cs, tail);
    assert ([QUOTE] + (x + ([QUOTE] + tail)))[1..] == x + ([QUOTE] + tail);
    LaxString(cs);
    GuardedScan(x, tail);
    StringSpec(s, |x|);
    AppendDrop(x, [QUOTE] + tail);
    assert s[|x| + 2..] == tail;
    DecodeChars(cs);
    StringMeaningIs(cs);
  }

  lemma StringMeaningIs(cs: seq<Char>)
    ensures StringMeaning(cs) == CString(CharsMeaning(cs))
  {
  }

  lemma LaxString(cs: seq<Char>)
    requires StringLax(cs)
    ensures CharsLax(cs) && Guarded(CharsText(cs))
  {
  }

  lemma StringTextIs(cs: seq<Char>, tail: bytes)
    ensures StringText(cs) + tail == [QUOTE] + (CharsText(cs) + ([QUOTE] + tail))
  {
    var x := CharsText(cs);
    Assoc([QUOTE] + x, [QUOTE], tail);
    Assoc([QUOTE], x, [QUOTE] + tail);
  }

  // ---------- Numbers are parsed ----------

  lemma {:induction false} PowerUp(e: int)
    ensures Pow10(e + 1) == 10.0 * Pow10(e)
  {
  }

  lemma {:induction false} PowerSum(a: int, n: nat)
    ensures Pow10(a + n) == Pow10(a) * Pow10(n)
    decreases n
  {
    if n > 0 {
      PowerSum(a, n - 1);
      PowerUp(a + (n - 1));
      Regroup(Pow10(a), Pow10(n - 1));
    }
  }

  lemma Regroup(x: real, y: real)
    ensures 10.0 * (x * y) == x * (10.0 * y)
  {
  }

  lemma NatStep(s: bytes, b: byte)
    requires AllDigits(s) && IsDigit(b)
    ensures AllDigits(s + [b]) && NatOf(s + [b]) == NatOf(s) * 10 + (b - DIGIT_0) as nat
  {
    assert (s + [b])[..|s|] == s;
  }

  lemma {:induction false} NatOfDigits(w: bytes, f: bytes)
    requires AllDigits(w) && AllDigits(f)
    ensures AllDigits(w + f) && NatOf(w + f) == NatOf(w) * PowerOfTen(|f|) + NatOf(f)
  {
    if f == [] {
      assert w + f == w;
    } else {
      hide NatOf, PowerOfTen;
      var front, last := f[..|f| - 1], f[|f| - 1];
      assert w + f == (w + front) + [last] && f == front + [last];
      NatOfDigits(w, front);
      NatStep(w + front, last);
      NatStep(front, last);
      PowerOfTenUp(|front|);
      OneMoreDigit(NatOf(w + front), NatOf(front), (last - DIGIT_0) as nat, NatOf(w), PowerOfTen(|front|));
    }
  }

  lemma PowerOfTenUp(k: nat)
    ensures PowerOfTen(k + 1) == 10 * PowerOfTen(k)
  {
  }

  lemma OneMoreDigit(x: nat, y: nat, d: nat, w: nat, p: nat)
    requires x == w * p + y
    ensures x * 10 + d == w * (10 * p) + (y * 10 + d)
  {
  }

  lemma {:induction false} PowersAgree(k: nat)
    ensures PowerOfTen(k) as real == Pow10(k)
  {
    if k > 0 {
      PowersAgree(k - 1);
    }
  }

  lemma ProductIsReal(w: nat, p: nat, f: nat)
    ensures (w * p + f) as real == w as real * p as real + f as real
  {
  }

  /** strtod joins the digits; the number is the same. */
  lemma JoinedDigits(n: Num)
    requires NumLax(n)
    ensures AllDigits(n.whole + n.fraction)
    ensures Scaled(n.whole + n.fraction, Power(n.exponent) - |n.fraction|) == Mantissa(n) * Pow10(Power(n.exponent))
  {
    hide Pow10, PowerOfTen, NatOf, Power;
    var k, e := |n.fraction|, Power(n.exponent);
    NatOfDigits(n.whole, n.fraction);
    PowersAgree(k);
    ProductIsReal(NatOf(n.whole), PowerOfTen(k), NatOf(n.fraction));
    PowerSum(e - k, k);
    PowerSum(-k, k);
    PowerZero();
    assert e - k + k == e && -k + k == 0;
    Joined(NatOf(n.whole + n.fraction) as real, NatOf(n.whole) as real, NatOf(n.fraction) as real, Pow10(k),
        Pow10(e - k), Pow10(-k), Pow10(e), Mantissa(n));
  }

  lemma PowerZero()
    ensures Pow10(0) == 1.0
  {
  }

  lemma Joined(x: real, w: real, f: real, p: real, q: real, r: real, s: real, m: real)
    requires x == w * p + f && m == w + f * r && q * p == s && r * p == 1.0
    ensures x * q == m * s
  {
    assert x * q == w * (q * p) + f * q;
    assert f * r * s == f * q * (r * p);
    assert m * s == w * s + f * r * s;
  }

  lemma SpanThen(d: bytes, tail: bytes)
    requires AllDigits(d) && (tail == [] || !IsDigit(tail[0]))
    ensures DigitSpan(d + tail) == |d| && (d + tail)[..|d|] == d && (d + tail)[|d|..] == tail
  {
    SpanOfDigits(d, tail);
    AppendDrop(d, tail);
  }

  lemma ExponentIs(e: Exponent)
    requires ExponentFormed(e)
    ensures ExponentLength(ExponentText(e)) == |ExponentText(e)| && ExponentValue(ExponentText(e)) == Power(e)
  {
    if e.Exponent? {
      var s := ExponentText(e);
      assert s[1..] == e.sign + e.digits;
      assert e.digits[0] != PLUS && e.digits[0] != MINUS by {
        assert IsDigit(e.digits[0]);
      }
      assert SignLength(s[1..]) == |e.sign|;
      AppendDrop(e.sign, e.digits);
      SpanThen(e.digits, []);
      assert e.digits + [] == e.digits && e.digits[..|e.digits|] == e.digits;
      assert s[1] == MINUS <==> e.sign == [MINUS];
    }
  }

  lemma FractionIs(dot: bool, fraction: bytes, tail: bytes)
    requires AllDigits(fraction) && (tail == [] || (!IsDigit(tail[0]) && tail[0] != DOT)) && (fraction != [] ==> dot)
    ensures var s := FractionText(dot, fraction) + tail; var f := FractionLength(s);
            && f == |FractionText(dot, fraction)| && s[f..] == tail && fraction == (if f == 0 then [] else s[1..f])
            && (s == [] || !IsDigit(s[0]))
  {
    var s := FractionText(dot, fraction) + tail;
    if !dot {
      assert s == tail;
    } else {
      SpanThen(fraction, tail);
      assert s[1..] == fraction + tail;
      assert s[1..][|fraction|..] == s[1 + |fraction|..];
      assert s[1..1 + |fraction|] == s[1..][..|fraction|];
    }
  }

  /** How strtod cuts a text: a sign of `g` bytes, the digits `w`, `f` bytes of a fraction with the
      digits `fr`, and `e`. */
  ghost predicate Cut(s: bytes, g: nat, w: bytes, f: nat, fr: bytes, e: bytes) {
    && s != [] && SignLength(s) == g && g + |w| + f <= |s| && (w != [] || f > 1) && AllDigits(w + fr)
    && DigitSpan(s[g..]) == |w| && s[g..][..|w|] == w
    && FractionLength(s[g + |w|..]) == f && s[g + |w| + f..] == e
    && fr == if f == 0 then [] else s[g + |w|..][1..f]
  }

  /** What strtod makes of these parts. */
  lemma StrtodIs(s: bytes, g: nat, w: bytes, f: nat, fr: bytes, e: bytes)
    requires Cut(s, g, w, f, fr, e)
    ensures var x := Scaled(w + fr, ExponentValue(e) - |fr|);
            && Strtod(s).Some? && Strtod(s).value.0 == (if s[0] == MINUS then -x else x)
            && Strtod(s).value.1 == g + |w| + f + ExponentLength(e)
  {
    hide Scaled, FractionLength, ExponentLength, ExponentValue, DigitSpan, SignLength;
  }

  lemma LaxParts(n: Num)
    requires NumLax(n)
    ensures AllDigits(n.whole) && AllDigits(n.fraction) && ExponentFormed(n.exponent)
    ensures (n.whole != [] || n.fraction != []) && (n.fraction != [] ==> n.dot) && (n.whole == [] ==> n.minus)
    ensures n.whole == [] ==> |FractionText(n.dot, n.fraction)| > 1
  {
  }

  lemma NumValueIs(n: Num)
    requires NumLax(n)
    ensures AllDigits(n.whole + n.fraction)
    ensures var x := Scaled(n.whole + n.fraction, Power(n.exponent) - |n.fraction|);
            NumValue(n) == if n.minus then -x else x
  {
    hide Scaled, Mantissa, Pow10, Power, NumLax;
    LaxParts(n);
    JoinedDigits(n);
  }

  /** Where the parts of the text are. */
  lemma NumParts(n: Num)
    requires NumLax(n)
    ensures var (s, g, behind) :=
              (NumText(n), if n.minus then 1 else 0, FractionText(n.dot, n.fraction) + ExponentText(n.exponent));
            && s != [] && SignLength(s) == g && (s[0] == MINUS <==> n.minus)
            && |s| == g + |n.whole| + |behind| && s[g..] == n.whole + behind && s[g + |n.whole|..] == behind
  {
    var s, behind := NumText(n), FractionText(n.dot, n.fraction) + ExponentText(n.exponent);
    hide FractionText, ExponentText;
    assert n.whole != [] ==> IsDigit(n.whole[0]);
    AppendDrop(n.whole, behind);
  }

  lemma ExponentStart(e: Exponent)
    requires ExponentFormed(e)
    ensures ExponentText(e) == [] || (!IsDigit(ExponentText(e)[0]) && ExponentText(e)[0] != DOT)
  {
  }

  lemma CutAt(s: bytes, g: nat, w: bytes, behind: bytes, f: nat, fr: bytes, e: bytes)
    requires s != [] && SignLength(s) == g && g + |w| <= |s| && s[g + |w|..] == behind
    requires (w != [] || f > 1) && AllDigits(w + fr)
    requires DigitSpan(s[g..]) == |w| && s[g..][..|w|] == w
    requires FractionLength(behind) == f <= |behind| && behind[f..] == e && fr == if f == 0 then [] else behind[1..f]
    ensures Cut(s, g, w, f, fr, e)
  {
    hide SignLength, DigitSpan, FractionLength;
    assert behind[f..] == s[g + |w| + f..];
  }

  lemma NumCut(n: Num) returns (g: nat, f: nat)
    requires NumLax(n)
    ensures g == (if n.minus then 1 else 0) && f == |FractionText(n.dot, n.fraction)|
    ensures Cut(NumText(n), g, n.whole, f, n.fraction, ExponentText(n.exponent))
  {
    hide *;
    var s, e := NumText(n), ExponentText(n.exponent);
    var behind := FractionText(n.dot, n.fraction) + e;
    g, f := if n.minus then 1 else 0, |FractionText(n.dot, n.fraction)|;
    LaxParts(n);
    NumParts(n);
    ExponentStart(n.exponent);
    FractionIs(n.dot, n.fraction, e);
    SpanThen(n.whole, behind);
    DigitsJoin(n.whole, n.fraction);
    CutAt(s, g, n.whole, behind, f, n.fraction, e);
  }

  lemma DigitsJoin(a: bytes, b: bytes)
    requires AllDigits(a) && AllDigits(b)
    ensures AllDigits(a + b)
  {
  }

  lemma NumLength(n: Num)
    ensures |NumText(n)| ==
            (if n.minus then 1 else 0) + |n.whole| + |FractionText(n.dot, n.fraction)| + |ExponentText(n.exponent)|
  {
  }

  lemma MinusFirst(n: Num)
    requires NumLax(n)
    ensures NumText(n) != [] && (NumText(n)[0] == MINUS <==> n.minus)
  {
    NumParts(n);
  }

  /** strtod reads a number of the grammar to its end, and exactly. */
  lemma StrtodReads(n: Num)
    requires NumLax(n)
    ensures var r := Strtod(NumText(n)); r.Some? && r.value.0 == NumValue(n) && r.value.1 == |NumText(n)|
  {
    hide *;
    LaxParts(n);
    MinusFirst(n);
    NumLength(n);
    ExponentIs(n.exponent);
    NumValueIs(n);
    var g, f := NumCut(n);
    StrtodIs(NumText(n), g, n.whole, f, n.fraction, ExponentText(n.exponent));
  }

  /** A value that was not read as it stands: a failure, or the rest of a number is left over. */
  ghost predicate Stuck<T>(r: Outcome<T>) {
    r.Failed? || (r.rest != [] && IsNumberByte(r.rest[0]))
  }

  ghost predicate ReadsIff<T>(r: Outcome<T>, good: bool, v: T, k: bytes) {
    if good then r == Parsed(v, k) else Stuck(r)
  }

  ghost predicate DecidedBy<T>(r: Outcome<T>, good: bool, v: T, k: bytes) {
    if good then r == Parsed(v, k) else r.Failed?
  }

  lemma ExponentBytes(e: Exponent)
    requires ExponentFormed(e)
    ensures forall i | 0 <= i < |ExponentText(e)| :: IsNumberByte(ExponentText(e)[i])
  {
  }

  lemma NumBytes(n: Num)
    requires NumLax(n)
    ensures NumText(n) != [] && (NumText(n)[0] == MINUS || IsDigit(NumText(n)[0]))
    ensures forall i | 0 <= i < |NumText(n)| :: IsNumberByte(NumText(n)[i])
  {
    ExponentBytes(n.exponent);
    assert n.whole != [] ==> IsDigit(n.whole[0]);
  }

  lemma {:induction false} LongRun(s: bytes, limit: nat)
    requires |s| >= limit && forall i | 0 <= i < limit :: IsNumberByte(s[i])
    ensures Run(s, limit) == limit
  {
    if limit > 0 {
      LongRun(s[1..], limit - 1);
    }
  }

  lemma NumberBranch(s: bytes, d: nat)
    requires s != [] && (s[0] == MINUS || IsDigit(s[0]))
    ensures ParseValue(s, d) ==
            match ParseNumber(s)
            case None => Failed(s)
            case Some((x, n)) => Parsed(Number(x), s[n..])
  {
    hide ParseNumber, ParseArray, ParseObject;
  }

  /** A number that fits the copy is read as it stands; a longer one leaves some of its bytes. */
  lemma NumberParses(n: Num, k: bytes, d: nat)
    requires NumLax(n) && EndsNumber(k)
    ensures ReadsIff(ParseValue(NumText(n) + k, d), |NumText(n)| <= COPY_LIMIT, Number(NumValue(n)), k)
  {
    hide NumValue, Strtod, Run, ParseValue, NumLax;
    var x := NumText(n);
    var s := x + k;
    NumBytes(n);
    NumberBranch(s, d);
    if |x| <= COPY_LIMIT {
      RunOfNumber(x, k, COPY_LIMIT);
      AppendDrop(x, k);
      StrtodReads(n);
    } else {
      LongRun(s, COPY_LIMIT);
    }
  }

  // ---------- Values are parsed ----------

  lemma WordParses(t: Text, k: bytes, d: nat)
    requires t.NullWord? || t.FalseWord? || t.TrueWord?
    ensures ParseValue(Spelled(t) + k, d) == Parsed(Meaning(t), k)
  {
    hide ParseValue;
    LiteralReadsBack(k, d);
  }

  lemma CharSeqParses(cs: seq<Char>, k: bytes, d: nat)
    requires StringLax(cs)
    ensures DecidedBy(ParseValue(StringText(cs) + k, d), NoLoneSurrogate(cs), Str(StringMeaning(cs)), k)
  {
    hide ParseString, StringMeaning, NoLoneSurrogate, StringLax, CharsText, ParseArray, ParseObject, ParseNumber;
    StringParses(cs, k);
    assert (StringText(cs) + k)[0] == QUOTE;
  }

  lemma {:induction false} BlankSpace(w: bytes, x: bytes)
    requires Blank(w) && x != [] && x[0] > SPACE
    ensures SkipWhitespace(w + x) == x && SkipWhitespace(x) == x
  {
    SkipBlank(w, x);
  }

  lemma AfterValue(w: bytes, x: bytes)
    requires Blank(w) && EndsNumber(x)
    ensures EndsNumber(w + x)
  {
    if w == [] {
      assert w + x == x;
    }
  }

  /** The first byte of a value. */
  lemma ValueStart(t: Text, k: bytes)
    requires Lax(t)
    ensures var s := Spelled(t) + k; s != [] && s[0] > SPACE && s[0] != RIGHT_BRACKET && s[0] != RIGHT_BRACE
  {
    hide ElementsSpelled, FieldsSpelled, NumText, CharsText, ElementsLax, FieldsLax;
    if t.NumberText? {
      NumBytes(t.n);
    }
  }

  lemma EmptyArrayParses(blank: bytes, k: bytes, d: nat)
    requires Blank(blank)
    ensures DecidedBy(ParseValue([LEFT_BRACKET] + (blank + ([RIGHT_BRACKET] + k)), d), d < NESTING_LIMIT,
              Array(NoItems), k)
  {
    var x := [RIGHT_BRACKET] + k;
    hide ParseItems;
    ConsDrop(LEFT_BRACKET, blank + x);
    BlankSpace(blank, x);
    ConsDrop(RIGHT_BRACKET, k);
  }

  lemma EmptyObjectParses(blank: bytes, k: bytes, d: nat)
    requires Blank(blank)
    ensures DecidedBy(ParseValue([LEFT_BRACE] + (blank + ([RIGHT_BRACE] + k)), d), d < NESTING_LIMIT,
              Object(NoMembers), k)
  {
    var x := [RIGHT_BRACE] + k;
    hide ParseMembers;
    ConsDrop(LEFT_BRACE, blank + x);
    BlankSpace(blank, x);
    ConsDrop(RIGHT_BRACE, k);
  }

  lemma ArrayOpens(before: bytes, s: bytes, good: bool, items: Items, k: bytes, d: nat)
    requires Blank(before) && s != [] && s[0] > SPACE && s[0] != RIGHT_BRACKET
    requires d < NESTING_LIMIT ==> DecidedBy(ParseItems(before + s, d + 1), good, items, k)
    ensures DecidedBy(ParseValue([LEFT_BRACKET] + (before + s), d), d < NESTING_LIMIT && good, Array(items), k)
  {
    hide ParseItems, ParseMembers, ParseString, ParseNumber, SkipWhitespace;
    ConsDrop(LEFT_BRACKET, before + s);
    BlankSpace(before, s);
    BlankItems(before, s, d + 1);
  }

  lemma BlankItems(before: bytes, s: bytes, d: nat)
    requires Blank(before) && s != [] && s[0] > SPACE
    ensures ParseItems(before + s, d) == ParseItems(s, d)
  {
    hide ParseValue;
    BlankSpace(before, s);
  }

  lemma ObjectOpens(before: bytes, s: bytes, good: bool, members: Members, k: bytes, d: nat)
    requires Blank(before) && s != [] && s[0] > SPACE && s[0] != RIGHT_BRACE
    requires d < NESTING_LIMIT ==> DecidedBy(ParseMembers(before + s, d + 1), good, members, k)
    ensures DecidedBy(ParseValue([LEFT_BRACE] + (before + s), d), d < NESTING_LIMIT && good, Object(members), k)
  {
    hide ParseItems, ParseMembers, ParseString, ParseNumber, SkipWhitespace;
    ConsDrop(LEFT_BRACE, before + s);
    BlankSpace(before, s);
    BlankMembers(before, s, d + 1);
  }

  lemma BlankMembers(before: bytes, s: bytes, d: nat)
    requires Blank(before) && s != [] && s[0] > SPACE
    ensures ParseMembers(before + s, d) == ParseMembers(s, d)
  {
    hide ParseValue, ParseString;
    BlankSpace(before, s);
  }

  // ---------- Elements ----------

  lemma LastElementParses(before: bytes, s: bytes, good: bool, v: Json, after: bytes, k: bytes, d: nat)
    requires Blank(before) && Blank(after) && s != [] && s[0] > SPACE
    requires ReadsIff(ParseValue(s, d), good, v, after + ([RIGHT_BRACKET] + k))
    ensures DecidedBy(ParseItems(before + s, d), good, Item(v, NoItems), k)
  {
    hide ParseValue;
    BlankSpace(before, s);
    BlankSpace(after, [RIGHT_BRACKET] + k);
    ConsDrop(RIGHT_BRACKET, k);
  }

  lemma ElementParses(before: bytes, s: bytes, good: bool, v: Json, after: bytes, more: bytes, goodRest: bool,
      tail: Items, k: bytes, d: nat)
    requires Blank(before) && Blank(after) && s != [] && s[0] > SPACE
    requires ReadsIff(ParseValue(s, d), good, v, after + ([COMMA] + more))
    requires DecidedBy(ParseItems(more, d), goodRest, tail, k)
    ensures DecidedBy(ParseItems(before + s, d), good && goodRest, Item(v, tail), k)
  {
    hide ParseValue;
    BlankSpace(before, s);
    BlankSpace(after, [COMMA] + more);
    ConsDrop(COMMA, more);
    if good {
      hide SkipWhitespace;
      ItemsUnfold(before + s, v, after + ([COMMA] + more), d);
    }
  }

  /** The text of the elements in front of a closing bracket. */
  lemma ElementsAre(l: Elements, k: bytes)
    ensures var close := [RIGHT_BRACKET] + k;
            var more := if l.Element? then [COMMA] + (ElementsSpelled(l.rest) + close) else close;
            ElementsSpelled(l) + close == l.before + (Spelled(l.value) + (l.after + more))
  {
    hide Spelled;
    var close := [RIGHT_BRACKET] + k;
    var x := if l.Element? then [COMMA] + ElementsSpelled(l.rest) else [];
    assert x + close == if l.Element? then [COMMA] + (ElementsSpelled(l.rest) + close) else close;
    Assoc(l.before, Spelled(l.value) + (l.after + x), close);
    Assoc(Spelled(l.value), l.after + x, close);
    Assoc(l.after, x, close);
  }

  ghost predicate ElementsGood(l: Elements, d: nat)
    requires ElementsLax(l)
  {
    ElementsRegular(l) && ItemsNesting(ElementsMeaning(l)) + d <= NESTING_LIMIT
  }

  ghost predicate Good(t: Text, d: nat)
    requires Lax(t)
  {
    Regular(t) && Nesting(Meaning(t)) + d <= NESTING_LIMIT
  }

  lemma ElementsSplit(l: Elements, d: nat)
    requires ElementsLax(l) && d <= NESTING_LIMIT
    ensures Lax(l.value) && Blank(l.before) && Blank(l.after) && (l.Element? ==> ElementsLax(l.rest))
    ensures ElementsMeaning(l) == Item(Meaning(l.value), if l.Element? then ElementsMeaning(l.rest) else NoItems)
    ensures ElementsGood(l, d) == (Good(l.value, d) && (l.Element? ==> ElementsGood(l.rest, d)))
  {
    hide Meaning, Nesting, Regular;
    var tail := if l.Element? then ElementsMeaning(l.rest) else NoItems;
    assert ItemsNesting(Item(Meaning(l.value), tail)) == Max(Nesting(Meaning(l.value)), ItemsNesting(tail));
  }

  lemma {:induction false} ElementsParse(l: Elements, k: bytes, d: nat)
    requires ElementsLax(l) && d <= NESTING_LIMIT
    ensures DecidedBy(ParseItems(ElementsSpelled(l) + ([RIGHT_BRACKET] + k), d), ElementsGood(l, d),
              ElementsMeaning(l), k)
    decreases l, 0
  {
    hide *;
    var close := [RIGHT_BRACKET] + k;
    ElementsSplit(l, d);
    ElementsAre(l, k);
    if l.Element? {
      var more := ElementsSpelled(l.rest) + close;
      CommaEnds(more);
      AfterValue(l.after, [COMMA] + more);
      ValueStart(l.value, l.after + ([COMMA] + more));
      ValueParses(l.value, l.after + ([COMMA] + more), d);
      ElementsParse(l.rest, k, d);
      ElementParses(l.before, Spelled(l.value) + (l.after + ([COMMA] + more)), Good(l.value, d), Meaning(l.value),
          l.after, more, ElementsGood(l.rest, d), ElementsMeaning(l.rest), k, d);
    } else {
      BracketEnds(k);
      AfterValue(l.after, close);
      ValueStart(l.value, l.after + close);
      ValueParses(l.value, l.after + close, d);
      LastElementParses(l.before, Spelled(l.value) + (l.after + close), Good(l.value, d), Meaning(l.value), l.after, k,
          d);
    }
  }

  lemma CommaEnds(k: bytes)
    ensures EndsNumber([COMMA] + k)
  {
  }

  lemma BracketEnds(k: bytes)
    ensures EndsNumber([RIGHT_BRACKET] + k) && EndsNumber([RIGHT_BRACE] + k)
  {
  }

  // ---------- Members ----------

  lemma KeyParses(l: Fields, s: bytes)
    requires FieldsLax(l) && s != [] && s[0] > SPACE
    ensures DecidedBy(ParseKey(KeySpelled(l) + s), NoLoneSurrogate(l.key), StringMeaning(l.key), l.beforeValue + s)
    ensures SkipWhitespace(l.beforeValue + s) == s
  {
    hide ParseString, StringMeaning, NoLoneSurrogate, StringLax, CharsText, SkipWhitespace;
    var x := [COLON] + (l.beforeValue + s);
    KeyIs(l, s);
    BlankSpace(l.before, StringText(l.key) + (l.afterKey + x));
    StringParses(l.key, l.afterKey + x);
    BlankSpace(l.afterKey, x);
    ConsDrop(COLON, l.beforeValue + s);
    BlankSpace(l.beforeValue, s);
  }

  lemma KeyIs(l: Fields, s: bytes)
    ensures KeySpelled(l) + s == l.before + (StringText(l.key) + (l.afterKey + ([COLON] + (l.beforeValue + s))))
    ensures var q := StringText(l.key); q != [] && q[0] > SPACE && q[0] != RIGHT_BRACE
  {
    hide CharsText;
    var q, c := StringText(l.key), [COLON] + l.beforeValue;
    Assoc([COLON], l.beforeValue, s);
    Assoc(l.before, q + (l.afterKey + c), s);
    Assoc(q, l.afterKey + c, s);
    Assoc(l.afterKey, c, s);
  }

  lemma KeyStuck(s: bytes, d: nat)
    requires ParseKey(s).Failed?
    ensures ParseMembers(s, d).Failed?
  {
    hide ParseKey, ParseValue;
  }

  lemma LastFieldParses(s: bytes, key: bytes, afterKey: bytes, good: bool, v: Json, after: bytes, k: bytes, d: nat)
    requires ParseKey(s) == Parsed(key, afterKey) && Blank(after)
    requires ReadsIff(ParseValue(SkipWhitespace(afterKey), d), good, v, after + ([RIGHT_BRACE] + k))
    ensures DecidedBy(ParseMembers(s, d), good, Member(key, v, NoMembers), k)
  {
    hide ParseValue, ParseKey;
    BlankSpace(after, [RIGHT_BRACE] + k);
    ConsDrop(RIGHT_BRACE, k);
  }

  lemma FieldParses(s: bytes, key: bytes, afterKey: bytes, good: bool, v: Json, after: bytes, more: bytes,
      goodRest: bool, rest: Members, k: bytes, d: nat)
    requires ParseKey(s) == Parsed(key, afterKey) && Blank(after)
    requires ReadsIff(ParseValue(SkipWhitespace(afterKey), d), good, v, after + ([COMMA] + more))
    requires DecidedBy(ParseMembers(more, d), goodRest, rest, k)
    ensures DecidedBy(ParseMembers(s, d), good && goodRest, Member(key, v, rest), k)
  {
    hide ParseValue, ParseKey;
    BlankSpace(after, [COMMA] + more);
    ConsDrop(COMMA, more);
    if good {
      hide SkipWhitespace;
      MembersUnfold(s, key, afterKey, v, after + ([COMMA] + more), d);
    }
  }

  lemma FieldsAre(l: Fields, k: bytes)
    ensures var close := [RIGHT_BRACE] + k;
            var more := if l.Field? then [COMMA] + (FieldsSpelled(l.rest) + close) else close;
            FieldsSpelled(l) + close == KeySpelled(l) + (Spelled(l.value) + (l.after + more))
  {
    hide Spelled, KeySpelled;
    var close := [RIGHT_BRACE] + k;
    var x := if l.Field? then [COMMA] + FieldsSpelled(l.rest) else [];
    assert x + close == if l.Field? then [COMMA] + (FieldsSpelled(l.rest) + close) else close;
    Assoc(KeySpelled(l), Spelled(l.value) + (l.after + x), close);
    Assoc(Spelled(l.value), l.after + x, close);
    Assoc(l.after, x, close);
  }

  ghost predicate FieldsGood(l: Fields, d: nat)
    requires FieldsLax(l)
  {
    FieldsRegular(l) && MembersNesting(FieldsMeaning(l)) + d <= NESTING_LIMIT
  }

  lemma FieldsSplit(l: Fields, d: nat)
    requires FieldsLax(l) && d <= NESTING_LIMIT
    ensures Lax(l.value) && Blank(l.after) && (l.Field? ==> FieldsLax(l.rest))
    ensures FieldsMeaning(l) ==
            Member(StringMeaning(l.key), Meaning(l.value), if l.Field? then FieldsMeaning(l.rest) else NoMembers)
    ensures FieldsGood(l, d) ==
            (NoLoneSurrogate(l.key) && Good(l.value, d) && (l.Field? ==> FieldsGood(l.rest, d)))
  {
    hide Meaning, Nesting, Regular, StringMeaning, NoLoneSurrogate;
    var tail := if l.Field? then FieldsMeaning(l.rest) else NoMembers;
    assert MembersNesting(Member(StringMeaning(l.key), Meaning(l.value), tail)) ==
           Max(Nesting(Meaning(l.value)), MembersNesting(tail));
  }

  lemma {:induction false} FieldsParse(l: Fields, k: bytes, d: nat)
    requires FieldsLax(l) && d <= NESTING_LIMIT
    ensures DecidedBy(ParseMembers(FieldsSpelled(l) + ([RIGHT_BRACE] + k), d), FieldsGood(l, d), FieldsMeaning(l), k)
    decreases l, 0
  {
    hide *;
    var close := [RIGHT_BRACE] + k;
    FieldsSplit(l, d);
    FieldsAre(l, k);
    var more := if l.Field? then FieldsSpelled(l.rest) + close else close;
    var behind := if l.Field? then [COMMA] + more else more;
    CommaEnds(more);
    BracketEnds(k);
    AfterValue(l.after, behind);
    ValueStart(l.value, l.after + behind);
    var v := Spelled(l.value) + (l.after + behind);
    KeyParses(l, v);
    var s := KeySpelled(l) + v;
    if !NoLoneSurrogate(l.key) {
      FailedBy(ParseKey(s), StringMeaning(l.key), l.beforeValue + v);
      KeyStuck(s, d);
      FailsSo(ParseMembers(s, d), FieldsMeaning(l), k);
    } else {
      ParsedBy(ParseKey(s), StringMeaning(l.key), l.beforeValue + v);
      ValueParses(l.value, l.after + behind, d);
      if l.Field? {
        FieldsParse(l.rest, k, d);
        FieldParses(s, StringMeaning(l.key), l.beforeValue + v, Good(l.value, d), Meaning(l.value), l.after, more,
            FieldsGood(l.rest, d), FieldsMeaning(l.rest), k, d);
      } else {
        LastFieldParses(s, StringMeaning(l.key), l.beforeValue + v, Good(l.value, d), Meaning(l.value), l.after, k, d);
      }
    }
  }

  lemma ParsedBy<T>(r: Outcome<T>, v: T, k: bytes)
    requires DecidedBy(r, true, v, k)
    ensures r == Parsed(v, k)
  {
  }

  lemma FailedBy<T>(r: Outcome<T>, v: T, k: bytes)
    requires DecidedBy(r, false, v, k)
    ensures r.Failed?
  {
  }

  lemma FailsSo<T>(r: Outcome<T>, v: T, k: bytes)
    requires r.Failed?
    ensures DecidedBy(r, false, v, k)
  {
  }

  // ---------- The induction over the text ----------

  lemma DecidedReads<T>(r: Outcome<T>, good: bool, v: T, k: bytes)
    requires DecidedBy(r, good, v, k)
    ensures ReadsIff(r, good, v, k)
  {
  }

  lemma FullArrayIs(l: Elements, k: bytes, d: nat)
    requires ElementsLax(l) && d <= NESTING_LIMIT
    ensures Spelled(FullArray(l)) + k == [LEFT_BRACKET] + (ElementsSpelled(l) + ([RIGHT_BRACKET] + k))
    ensures Lax(FullArray(l)) && Meaning(FullArray(l)) == Array(ElementsMeaning(l))
    ensures Good(FullArray(l), d) == (d < NESTING_LIMIT && ElementsGood(l, d + 1))
  {
    hide ElementsSpelled, ElementsMeaning, ElementsRegular;
    Assoc([LEFT_BRACKET], ElementsSpelled(l) + [RIGHT_BRACKET], k);
    Assoc(ElementsSpelled(l), [RIGHT_BRACKET], k);
  }

  lemma FullObjectIs(l: Fields, k: bytes, d: nat)
    requires FieldsLax(l) && d <= NESTING_LIMIT
    ensures Spelled(FullObject(l)) + k == [LEFT_BRACE] + (FieldsSpelled(l) + ([RIGHT_BRACE] + k))
    ensures Lax(FullObject(l)) && Meaning(FullObject(l)) == Object(FieldsMeaning(l))
    ensures Good(FullObject(l), d) == (d < NESTING_LIMIT && FieldsGood(l, d + 1))
  {
    hide FieldsSpelled, FieldsMeaning, FieldsRegular;
    Assoc([LEFT_BRACE], FieldsSpelled(l) + [RIGHT_BRACE], k);
    Assoc(FieldsSpelled(l), [RIGHT_BRACE], k);
  }

  lemma {:induction false} ArrayParses(l: Elements, k: bytes, d: nat)
    requires ElementsLax(l) && d <= NESTING_LIMIT
    ensures Lax(FullArray(l))
    ensures DecidedBy(ParseValue(Spelled(FullArray(l)) + k, d), Good(FullArray(l), d), Meaning(FullArray(l)), k)
    decreases l, 1
  {
    hide *;
    var close := [RIGHT_BRACKET] + k;
    FullArrayIs(l, k, d);
    ElementsSplit(l, d);
    ElementsAre(l, k);
    var more := if l.Element? then [COMMA] + (ElementsSpelled(l.rest) + close) else close;
    ValueStart(l.value, l.after + more);
    if d < NESTING_LIMIT {
      ElementsParse(l, k, d + 1);
    }
    ArrayOpens(l.before, Spelled(l.value) + (l.after + more), d < NESTING_LIMIT && ElementsGood(l, d + 1),
        ElementsMeaning(l), k, d);
  }

  lemma {:induction false} ObjectParses(l: Fields, k: bytes, d: nat)
    requires FieldsLax(l) && d <= NESTING_LIMIT
    ensures Lax(FullObject(l))
    ensures DecidedBy(ParseValue(Spelled(FullObject(l)) + k, d), Good(FullObject(l), d), Meaning(FullObject(l)), k)
    decreases l, 1
  {
    hide *;
    var close := [RIGHT_BRACE] + k;
    FullObjectIs(l, k, d);
    FieldsSplit(l, d);
    FieldsAre(l, k);
    var more := if l.Field? then [COMMA] + (FieldsSpelled(l.rest) + close) else close;
    var v := Spelled(l.value) + (l.after + more);
    KeyIs(l, v);
    KeyFormed(l);
    if d < NESTING_LIMIT {
      FieldsParse(l, k, d + 1);
    }
    var s := StringText(l.key) + (l.afterKey + ([COLON] + (l.beforeValue + v)));
    assert s[0] == StringText(l.key)[0];
    ObjectOpens(l.before, s, d < NESTING_LIMIT && FieldsGood(l, d + 1), FieldsMeaning(l), k, d);
  }

  lemma KeyFormed(l: Fields)
    requires FieldsLax(l)
    ensures Blank(l.before)
  {
  }

  lemma LeafGood(t: Text, d: nat)
    requires Lax(t) && d <= NESTING_LIMIT
    ensures t.NullWord? || t.FalseWord? || t.TrueWord? ==> Good(t, d)
    ensures t.NumberText? ==> (Good(t, d) <==> |NumText(t.n)| <= COPY_LIMIT) && Meaning(t) == Number(NumValue(t.n))
    ensures t.CharSeq? ==> (Good(t, d) <==> NoLoneSurrogate(t.cs)) && Meaning(t) == Str(StringMeaning(t.cs))
    ensures t.EmptyArray? ==> (Good(t, d) <==> d < NESTING_LIMIT) && Meaning(t) == Array(NoItems)
    ensures t.EmptyObject? ==> (Good(t, d) <==> d < NESTING_LIMIT) && Meaning(t) == Object(NoMembers)
    ensures t.NumberText? ==> NumLax(t.n) && Spelled(t) == NumText(t.n)
    ensures t.CharSeq? ==> StringLax(t.cs) && Spelled(t) == StringText(t.cs)
    ensures t.EmptyArray? ==> Blank(t.blank) && Spelled(t) == [LEFT_BRACKET] + (t.blank + [RIGHT_BRACKET])
    ensures t.EmptyObject? ==> Blank(t.blank) && Spelled(t) == [LEFT_BRACE] + (t.blank + [RIGHT_BRACE])
    ensures t.FullArray? ==> ElementsLax(t.elements)
    ensures t.FullObject? ==> FieldsLax(t.fields)
  {
    hide NumText, NumValue, StringText, StringMeaning, NoLoneSurrogate, NumLax, StringLax;
  }

  /** One value of the grammar in front of anything a number cannot run on into: it is read as what
      it means exactly when it is regular and not nested too deeply. */
  lemma {:induction false} ValueParses(t: Text, k: bytes, d: nat)
    requires Lax(t) && EndsNumber(k) && d <= NESTING_LIMIT
    ensures ReadsIff(ParseValue(Spelled(t) + k, d), Good(t, d), Meaning(t), k)
    decreases t
  {
    hide *;
    LeafGood(t, d);
    var r := ParseValue(Spelled(t) + k, d);
    if t.NumberText? {
      NumberParses(t.n, k, d);
    } else {
      if t.CharSeq? {
        CharSeqParses(t.cs, k, d);
      } else if t.EmptyArray? {
        Assoc([LEFT_BRACKET], t.blank + [RIGHT_BRACKET], k);
        Assoc(t.blank, [RIGHT_BRACKET], k);
        EmptyArrayParses(t.blank, k, d);
      } else if t.EmptyObject? {
        Assoc([LEFT_BRACE], t.blank + [RIGHT_BRACE], k);
        Assoc(t.blank, [RIGHT_BRACE], k);
        EmptyObjectParses(t.blank, k, d);
      } else if t.FullArray? {
        ArrayParses(t.elements, k, d);
      } else if t.FullObject? {
        ObjectParses(t.fields, k, d);
      } else {
        WordParses(t, k, d);
        ParsedSo(r, Meaning(t), k);
      }
      DecidedReads(r, Good(t, d), Meaning(t), k);
    }
  }

  lemma ParsedSo<T>(r: Outcome<T>, v: T, k: bytes)
    requires r == Parsed(v, k)
    ensures DecidedBy(r, true, v, k)
  {
  }

  // ---------- Whole texts ----------

  lemma StuckText(text: bytes)
    requires var r := ParseValue(SkipWhitespace(text + [NUL]), 0); Stuck(r)
    ensures ParseText(text, true).Failed?
  {
    hide ParseValue;
  }

  /** Every lax text, with blanks around it, is accepted with its meaning exactly when it is nested at
      most 1000 deep and regular; otherwise it is rejected. */
  lemma LaxAccepted(before: bytes, t: Text, after: bytes)
    requires Blank(before) && Lax(t) && Blank(after)
    ensures var r := ParseText(before + (Spelled(t) + after), true);
            if Regular(t) && Nesting(Meaning(t)) <= 1000 then r == Parsed(Meaning(t), [NUL]) else r.Failed?
  {
    hide ParseValue, SkipWhitespace, Spelled, Meaning, Regular, Lax;
    var k := after + [NUL];
    var s := Spelled(t) + k;
    assert before + (Spelled(t) + after) + [NUL] == before + s;
    AfterValue(after, [NUL]);
    ValueStart(t, k);
    BlankSpace(before, s);
    ValueParses(t, k, 0);
    if Good(t, 0) {
      SkipBlank(after, [NUL]);
      AtEnd();
    } else {
      StuckText(before + (Spelled(t) + after));
    }
  }

  lemma AtEnd()
    ensures SkipWhitespace([NUL]) == [NUL]
  {
  }

  lemma {:induction false} BlankUpToEnd(k: bytes)
    requires NulFree(k)
    ensures LooksAt(SkipWhitespace(k + [NUL]), NUL) <==> Blank(k)
  {
    if k != [] {
      assert (k + [NUL])[1..] == k[1..] + [NUL];
      BlankUpToEnd(k[1..]);
      if k[0] <= SPACE {
        assert Blank(k[1..]) ==> Blank(k) by {
          assert forall i | 1 <= i < |k| :: k[i] == k[1..][i - 1];
        }
      }
    }
  }

  /** A text with anything behind it that a number cannot run on into: without the demand for the
      terminator it is accepted as it stands and the rest is left alone; with it, only blanks may
      follow. */
  lemma PrefixAccepted(before: bytes, t: Text, k: bytes)
    requires Blank(before) && Lax(t) && EndsNumber(k) && NulFree(k)
    ensures var (text, good) := (before + (Spelled(t) + k), Regular(t) && Nesting(Meaning(t)) <= 1000);
            && (if good then ParseText(text, false) == Parsed(Meaning(t), k + [NUL]) else Stuck(ParseText(text, false)))
            && (ParseText(text, true).Parsed? <==> good && Blank(k))
  {
    hide ParseValue, SkipWhitespace, Spelled, Meaning, Regular, Lax, Blank, NulFree;
    var s := Spelled(t) + (k + [NUL]);
    assert before + (Spelled(t) + k) + [NUL] == before + s;
    assert EndsNumber(k + [NUL]);
    ValueStart(t, k + [NUL]);
    BlankSpace(before, s);
    ValueParses(t, k + [NUL], 0);
    BlankUpToEnd(k);
    if !Good(t, 0) {
      StuckText(before + (Spelled(t) + k));
    }
  }
}
