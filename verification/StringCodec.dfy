/** The bytes between the quotes of a JSON string: writing them (print_string_ptr) and
    reading them back (parse_string, parse_hex4, utf16_literal_to_utf8). */
module StringCodec {
  import opened Bytes
  import Utf8

  // ---------- Writing ----------

  predicate HasShortEscape(b: byte) {
    b == QUOTE || b == BACKSLASH || b == BACKSPACE || b == FORM_FEED || b == LF || b == CR || b == TAB
  }

  function ShortLetter(b: byte): byte
    requires HasShortEscape(b)
  {
    if b == BACKSPACE then LOWER_B
    else if b == FORM_FEED then LOWER_F
    else if b == LF then LOWER_N
    else if b == CR then LOWER_R
    else if b == TAB then LOWER_T
    else b
  }

  function HexDigit(n: byte): byte
    requires n < 16
  {
    if n < 10 then DIGIT_0 + n else 87 + n
  }

  function EscapeByte(b: byte): (e: bytes)
    ensures e != []
  {
    if HasShortEscape(b) then [BACKSLASH, ShortLetter(b)]
    else if b < SPACE then [BACKSLASH, LOWER_U, DIGIT_0, DIGIT_0, HexDigit(b / 16), HexDigit(b % 16)]
    else [b]
  }

  function Escape(s: bytes): bytes {
    if s == [] then [] else EscapeByte(s[0]) + Escape(s[1..])
  }

  function Quoted(s: bytes): bytes {
    [QUOTE] + Escape(s) + [QUOTE]
  }

  /** What the counting pass adds to escape_characters for one byte. */
  function EscapeCost(b: byte): nat {
    if HasShortEscape(b) then 1 else if b < SPACE then 5 else 0
  }

  function EscapeCharacters(s: bytes): nat {
    if s == [] then 0 else EscapeCost(s[0]) + EscapeCharacters(s[1..])
  }

  // ---------- Reading: pass one ----------

  /** Distance to the closing quote of the string whose first body byte is t[0]; None when
      the input ends first. A backslash hides the byte after it. */
  function Scan(t: bytes): (r: Option<nat>)
    ensures r.Some? ==> r.value < |t| && t[r.value] == QUOTE
    decreases |t|
  {
    if t == [] then None
    else if t[0] == QUOTE then Some(0)
    else
      var step := if t[0] == BACKSLASH then 2 else 1;
      if |t| < step then None
      else
        match Scan(t[step..])
        case None => None
        case Some(n) => Some(step + n)
  }

  /** The bytes pass one counts for the body: one per plain byte and one per backslash pair.
      The source computes it as the body's length minus skipped_bytes. */
  function Tokens(b: bytes): nat
    decreases |b|
  {
    if b == [] then 0
    else if b[0] == BACKSLASH && |b| > 1 then 1 + Tokens(b[2..])
    else 1 + Tokens(b[1..])
  }

  // ---------- Reading: pass two ----------

  function HexValue(b: byte): (r: Option<nat>)
    ensures r.Some? ==> r.value < 16
  {
    if DIGIT_0 <= b <= DIGIT_9 then Some((b - DIGIT_0) as nat)
    else if 65 <= b <= 70 then Some((b - 55) as nat)
    else if 97 <= b <= 102 then Some((b - 87) as nat)
    else None
  }

  predicate IsHex4(s: bytes) {
    |s| == 4 && forall i | 0 <= i < 4 :: HexValue(s[i]).Some?
  }

  /** parse_hex4: the value of four hexadecimal digits, and 0 when one of them is not a digit. */
  function Hex4(s: bytes): (h: nat)
    requires |s| == 4
    ensures h < 0x1_0000
    ensures !IsHex4(s) ==> h == 0
  {
    if IsHex4(s) then
      HexValue(s[0]).value * 0x1000 + HexValue(s[1]).value * 0x100 + HexValue(s[2]).value * 0x10 + HexValue(s[3]).value
    else 0
  }

  predicate IsHighSurrogate(u: nat) { 0xD800 <= u <= 0xDBFF }

  predicate IsLowSurrogate(u: nat) { 0xDC00 <= u <= 0xDFFF }

  function JoinSurrogates(high: nat, low: nat): (cp: nat)
    ensures 0x1_0000 <= cp < 0x11_0000
  {
    0x1_0000 + high % 0x400 * 0x400 + low % 0x400
  }

  /** utf16_literal_to_utf8 on the rest of the body, which starts with a backslash and a u:
      the UTF-8 bytes and how many input bytes they stand for. */
  function Utf16Literal(b: bytes): (r: Option<(bytes, nat)>)
    ensures r.Some? ==> r.value.1 <= |b|
    ensures r.Some? ==> (r.value.1 == 6 && 1 <= |r.value.0| <= 3) || (r.value.1 == 12 && |r.value.0| == 4)
  {
    if |b| < 6 then None
    else
      var first := Hex4(b[2..6]);
      if IsLowSurrogate(first) then None
      else if IsHighSurrogate(first) then
        if |b| < 12 || b[6] != BACKSLASH || b[7] != LOWER_U then None
        else
          var second := Hex4(b[8..12]);
          if !IsLowSurrogate(second) then None
          else Some((Utf8.Encode(JoinSurrogates(first, second)), 12))
      else Some((Utf8.Encode(first), 6))
  }

  /** The byte a one-letter escape stands for. */
  function Unescape(letter: byte): Option<byte> {
    if letter == LOWER_B then Some(BACKSPACE)
    else if letter == LOWER_F then Some(FORM_FEED)
    else if letter == LOWER_N then Some(LF)
    else if letter == LOWER_R then Some(CR)
    else if letter == LOWER_T then Some(TAB)
    else if letter == QUOTE || letter == BACKSLASH || letter == SLASH then Some(letter)
    else None
  }

  /** What pass two has written when it stops, and, when it failed, the body bytes it stopped at. */
  datatype Decoding = Done(out: bytes) | Bad(out: bytes, at: bytes)

  function Emit(x: bytes, d: Decoding): Decoding {
    d.(out := x + d.out)
  }

  /** One turn of pass two on a non-empty body: the bytes written and the body bytes consumed.
      The byte behind the last body byte is the closing quote. */
  function DecodeStep(b: bytes): (r: Option<(bytes, nat)>)
    requires b != []
    ensures r.Some? ==> 1 <= r.value.1
  {
    if b[0] != BACKSLASH then Some(([b[0]], 1))
    else
      var letter := if |b| > 1 then b[1] else QUOTE;
      if letter == LOWER_U then Utf16Literal(b)
      else
        match Unescape(letter)
        case None => None
        case Some(c) => Some(([c], 2))
  }

  function Drop(b: bytes, n: nat): (r: bytes)
    ensures |r| == if n <= |b| then |b| - n else 0
  {
    if n <= |b| then b[n..] else []
  }

  function Decode(b: bytes): (d: Decoding)
    ensures d.Bad? ==> 1 <= |d.at| <= |b|
    decreases |b|
  {
    if b == [] then Done([])
    else
      match DecodeStep(b)
      case None => Bad([], b)
      case Some((out, n)) => Emit(out, Decode(Drop(b, n)))
  }

  // ---------- The escape codec ----------

  lemma {:induction false} EscapedLength(s: bytes)
    ensures |Quoted(s)| == |s| + EscapeCharacters(s) + 2
  {
    if s == [] {
    } else {
      EscapedLength(s[1..]);
    }
  }

  lemma EscapeOf(s: bytes)
    ensures Escape(s) == if s == [] then [] else EscapeByte(s[0]) + Escape(s[1..])
  {
  }

  lemma {:induction false} EscapeAppend(a: bytes, b: bytes)
    ensures Escape(a + b) == Escape(a) + Escape(b)
  {
    hide *;
    EscapeOf(a);
    if a == [] {
      assert a + b == b;
      assert [] + Escape(b) == Escape(b);
    } else {
      EscapeOf(a + b);
      assert (a + b)[1..] == a[1..] + b;
      EscapeAppend(a[1..], b);
      Assoc(EscapeByte(a[0]), Escape(a[1..]), Escape(b));
    }
  }

  /** The shortcut for strings without escapes. */
  lemma {:induction false} EscapeNothing(s: bytes)
    requires EscapeCharacters(s) == 0
    ensures Escape(s) == s
  {
    if s != [] {
      EscapeNothing(s[1..]);
    }
  }

  lemma {:induction false} CostAppend(a: bytes, b: byte)
    ensures EscapeCharacters(a + [b]) == EscapeCharacters(a) + EscapeCost(b)
  {
    if a != [] {
      assert (a + [b])[1..] == a[1..] + [b];
      CostAppend(a[1..], b);
    }
  }

  lemma DecodeEscapedByte(b: byte, tail: bytes)
    ensures DecodeStep(EscapeByte(b) + tail) == Some(([b], |EscapeByte(b)|))
  {
    var e := EscapeByte(b) + tail;
    if !HasShortEscape(b) && b < SPACE {
      var h := e[2..6];
      assert h == [DIGIT_0, DIGIT_0, HexDigit(b / 16), HexDigit(b % 16)];
      assert HexValue(h[2]) == Some((b / 16) as nat) && HexValue(h[3]) == Some((b % 16) as nat);
      assert Hex4(h) == b as nat;
    }
  }

  /** Decoding undoes escaping, whatever follows. */
  lemma {:induction false} DecodeBehind(s: bytes, tail: bytes)
    ensures Decode(Escape(s) + tail) == Emit(s, Decode(tail))
  {
    if s == [] {
      assert [] + tail == tail && [] + Decode(tail).out == Decode(tail).out;
    } else {
      var e, rest := EscapeByte(s[0]), Escape(s[1..]) + tail;
      DecodeEscapedByte(s[0], rest);
      AppendDrop(e, rest);
      DecodeBehind(s[1..], tail);
      Assoc(e, Escape(s[1..]), tail);
      Assoc([s[0]], s[1..], Decode(tail).out);
      assert [s[0]] + s[1..] == s;
    }
  }

  /** parse_string undoes print_string_ptr. */
  lemma DecodeEscape(s: bytes)
    ensures Decode(Escape(s)) == Done(s)
  {
    DecodeBehind(s, []);
    assert Escape(s) + [] == Escape(s) && s + [] == s;
  }

  /** A scan that first passes `n` bytes. */
  function Passed(n: nat, r: Option<nat>): Option<nat> {
    if r.Some? then Some(n + r.value) else None
  }

  lemma {:induction false} ScanPlain(x: bytes, tail: bytes)
    requires forall i | 0 <= i < |x| :: x[i] != QUOTE && x[i] != BACKSLASH
    ensures Scan(x + tail) == Passed(|x|, Scan(tail))
  {
    if x == [] {
      assert x + tail == tail;
    } else {
      ScanPlain(x[1..], tail);
      assert (x + tail)[1..] == x[1..] + tail;
    }
  }

  /** Behind the two bytes an escape starts with there is neither a quote nor a backslash. */
  lemma EscapedTail(b: byte)
    requires EscapeByte(b)[0] == BACKSLASH
    ensures |EscapeByte(b)| >= 2
    ensures forall i | 2 <= i < |EscapeByte(b)| :: EscapeByte(b)[i] != QUOTE && EscapeByte(b)[i] != BACKSLASH
  {
  }

  lemma ScanPair(t: bytes, u: bytes)
    requires |t| >= 2 && t[0] == BACKSLASH && t[2..] == u
    ensures Scan(t) == Passed(2, Scan(u))
  {
  }

  lemma ScanEscapedByte(b: byte, tail: bytes)
    ensures Scan(EscapeByte(b) + tail) == Passed(|EscapeByte(b)|, Scan(tail))
  {
    var e := EscapeByte(b);
    hide Scan;
    if e[0] == BACKSLASH {
      hide EscapeByte;
      EscapedTail(b);
      ScanPlain(e[2..], tail);
      ScanPair(e + tail, e[2..] + tail);
    } else {
      ScanPlain(e, tail);
    }
  }

  lemma PassedTwice(m: nat, n: nat, r: Option<nat>)
    ensures Passed(m, Passed(n, r)) == Passed(m + n, r) && Passed(0, r) == r
  {
  }

  /** The scan passes the escaped form of any string. */
  lemma {:induction false} ScanBehind(s: bytes, tail: bytes)
    ensures Scan(Escape(s) + tail) == Passed(|Escape(s)|, Scan(tail))
  {
    hide *;
    EscapeOf(s);
    if s == [] {
      assert [] + tail == tail;
      PassedTwice(0, 0, Scan(tail));
    } else {
      var e, rest := EscapeByte(s[0]), Escape(s[1..]);
      ScanBehind(s[1..], tail);
      ScanEscapedByte(s[0], rest + tail);
      Assoc(e, rest, tail);
      PassedTwice(|e|, |rest|, Scan(tail));
    }
  }

  lemma ScanEscape(s: bytes, tail: bytes)
    ensures Scan(Escape(s) + ([QUOTE] + tail)) == Some(|Escape(s)|)
  {
    ScanBehind(s, [QUOTE] + tail);
  }

  // ---------- Pass two fits what pass one reserved ----------

  /** Pass one ends exactly at the end of `b`: no backslash is left without a partner. */
  ghost predicate Paired(b: bytes)
    decreases |b|
  {
    b == [] || (if b[0] == BACKSLASH then |b| > 1 && Paired(b[2..]) else Paired(b[1..]))
  }

  lemma {:induction false} ScannedIsPaired(t: bytes)
    requires Scan(t).Some?
    ensures Paired(t[..Scan(t).value])
    decreases |t|
  {
    var b := t[..Scan(t).value];
    if t[0] != QUOTE {
      var step := if t[0] == BACKSLASH then 2 else 1;
      ScannedIsPaired(t[step..]);
      assert t[step..][..Scan(t[step..]).value] == b[step..];
    }
  }

  lemma OneToken(x: bytes)
    requires Paired(x) && x != []
    ensures var n := if x[0] == BACKSLASH then 2 else 1;
            n <= |x| && Paired(x[n..]) && Tokens(x) == 1 + Tokens(x[n..])
  {
  }

  /** Where pass one is after the token it reads at `i`. */
  function NextToken(x: bytes, i: nat): nat
    requires i < |x|
  {
    if x[i] == BACKSLASH then i + 2 else i + 1
  }

  lemma OneTokenAt(x: bytes, i: nat)
    requires i < |x| && Paired(x[i..])
    ensures var j := NextToken(x, i); j <= |x| && Paired(x[j..]) && Tokens(x[i..]) == 1 + Tokens(x[j..])
  {
    OneToken(x[i..]);
    assert x[i..][NextToken(x, i) - i..] == x[NextToken(x, i)..];
  }

  /** Four bytes of a paired body: pass one counts at least two tokens in them, and either ends
      with them or is one byte further on. */
  lemma FourBytes(x: bytes)
    requires Paired(x) && |x| >= 4
    ensures (Paired(x[4..]) && Tokens(x) >= 2 + Tokens(x[4..]))
         || (|x| > 4 && Paired(x[5..]) && Tokens(x) >= 3 + Tokens(x[5..]))
  {
    hide Paired, Tokens;
    assert x[0..] == x;
    OneTokenAt(x, 0);
    var i := NextToken(x, 0);
    OneTokenAt(x, i);
    var j := NextToken(x, i);
    if j < 4 {
      OneTokenAt(x, j);
      var k := NextToken(x, j);
      if k < 4 {
        OneTokenAt(x, k);
      }
    }
  }

  /** Four hexadecimal digits are four tokens. */
  lemma FourDigits(x: bytes)
    requires Paired(x) && |x| >= 4 && IsHex4(x[..4])
    ensures Paired(x[4..]) && Tokens(x) == 4 + Tokens(x[4..])
  {
    hide Paired, Tokens;
    assert HexValue(x[..4][0]).Some? && HexValue(x[..4][1]).Some? && HexValue(x[..4][2]).Some?
        && HexValue(x[..4][3]).Some?;
    assert x[0..] == x;
    OneTokenAt(x, 0);
    OneTokenAt(x, 1);
    OneTokenAt(x, 2);
    OneTokenAt(x, 3);
  }

  /** What follows an escape's u: pass two takes four bytes, or ten for a surrogate pair. */
  lemma AfterLiteral(b: bytes)
    requires |b| > 1 && Paired(b[2..]) && Utf16Literal(b).Some?
    ensures var (out, n) := Utf16Literal(b).value;
            || (Paired(b[n..]) && |out| + Tokens(b[n..]) <= 1 + Tokens(b[2..]))
            || (|b| > n && Paired(b[n + 1..]) && |out| + 1 + Tokens(b[n + 1..]) <= Tokens(b[2..]))
  {
    hide Paired, Tokens;
    var (out, n) := Utf16Literal(b).value;
    var x := b[2..];
    assert b[2..6] == x[..4] && x[4..] == b[6..];
    if IsHex4(b[2..6]) {
      FourDigits(x);
      if n == 12 {
        OneTokenAt(x, 4);
        assert x[NextToken(x, 4)..] == b[8..];
        assert b[8..][..4] == b[8..12] && b[8..][4..] == b[12..];
        FourDigits(b[8..]);
      }
    } else {
      assert |out| == 1;
      FourBytes(x);
      if |x| > 4 {
        assert x[5..] == b[7..];
      }
    }
  }

  /** Pass two, started where pass one starts a token, writes at most one byte per token. */
  lemma {:induction false} PairedFits(b: bytes)
    requires Paired(b)
    ensures |Decode(b).out| <= Tokens(b)
    decreases |b|, 0
  {
    if b != [] && DecodeStep(b).Some? {
      var (out, n) := DecodeStep(b).value;
      if b[0] == BACKSLASH && b[1] == LOWER_U {
        AfterLiteral(b);
        if Paired(b[n..]) && |out| + Tokens(b[n..]) <= 1 + Tokens(b[2..]) {
          PairedFits(b[n..]);
        } else {
          assert b[n..][1..] == b[n + 1..];
          SplitFits(b[n..]);
        }
      } else {
        PairedFits(b[n..]);
      }
    }
  }

  /** Pass two, started on the second byte of a pair of pass one, writes at most one byte more. */
  lemma {:induction false} SplitFits(b: bytes)
    requires b != [] && Paired(b[1..])
    ensures |Decode(b).out| <= 1 + Tokens(b[1..])
    decreases |b|, 1
  {
    if DecodeStep(b).Some? {
      var (out, n) := DecodeStep(b).value;
      if b[0] != BACKSLASH {
        PairedFits(b[1..]);
      } else if |b| > 1 {
        OneToken(b[1..]);
        assert b[1..][1..] == b[2..];
        if b[1] == LOWER_U {
          AfterLiteral(b);
          if Paired(b[n..]) && |out| + Tokens(b[n..]) <= 1 + Tokens(b[2..]) {
            PairedFits(b[n..]);
          } else {
            assert b[n..][1..] == b[n + 1..];
            SplitFits(b[n..]);
          }
        } else if b[1] == BACKSLASH {
          assert b[1..][2..] == b[2..][1..];
          SplitFits(b[2..]);
        } else {
          PairedFits(b[2..]);
        }
      }
    }
  }

  /** For every text behind an opening quote that pass one accepts, malformed escapes included,
      pass two (even one that fails half-way) writes at most the bytes pass one counted. */
  lemma DecodeFits(t: bytes)
    requires Scan(t).Some?
    ensures var body := t[..Scan(t).value]; |Decode(body).out| <= Tokens(body) <= |body|
  {
    var body := t[..Scan(t).value];
    ScannedIsPaired(t);
    PairedFits(body);
    TokensBound(body);
  }

  lemma {:induction false} TokensBound(b: bytes)
    ensures Tokens(b) <= |b|
    decreases |b|
  {
    if b != [] {
      if b[0] == BACKSLASH && |b| > 1 {
        TokensBound(b[2..]);
      } else {
        TokensBound(b[1..]);
      }
    }
  }

  // ---------- Code units in hexadecimal ----------

  const LOWER_HEX: string := "0123456789abcdef"
  const UPPER_HEX: string := "0123456789ABCDEF"

  /** `b` is the digit for `d`, in either case. */
  ghost predicate WritesDigit(b: byte, d: nat) {
    d < 16 && (b as char == LOWER_HEX[d] || b as char == UPPER_HEX[d])
  }

  /** The four digits of the code unit `u`. */
  ghost predicate WritesUnit(h: bytes, u: nat) {
    && u < 0x1_0000 && |h| == 4
    && WritesDigit(h[0], u / 0x1000) && WritesDigit(h[1], u / 0x100 % 16)
    && WritesDigit(h[2], u / 0x10 % 16) && WritesDigit(h[3], u % 16)
  }

  lemma DigitReads(b: byte, d: nat)
    ensures WritesDigit(b, d) <==> HexValue(b) == Some(d)
  {
    if d < 16 {
      DigitTables(d);
    }
  }

  lemma DigitTables(d: nat)
    requires d < 16
    ensures LOWER_HEX[d] as nat == (if d < 10 then 48 + d else 87 + d)
    ensures UPPER_HEX[d] as nat == (if d < 10 then 48 + d else 55 + d)
  {
  }

  lemma UnitRead(h: bytes, u: nat)
    requires WritesUnit(h, u)
    ensures IsHex4(h) && Hex4(h) == u
  {
    hide WritesDigit, HexValue;
    DigitReads(h[0], u / 0x1000);
    DigitReads(h[1], u / 0x100 % 16);
    DigitReads(h[2], u / 0x10 % 16);
    DigitReads(h[3], u % 16);
    BackTogether(u);
  }

  lemma UnitWritten(h: bytes)
    requires IsHex4(h)
    ensures WritesUnit(h, Hex4(h))
  {
    hide WritesDigit, HexValue;
    var (a, b, c, d) := (HexValue(h[0]).value, HexValue(h[1]).value, HexValue(h[2]).value, HexValue(h[3]).value);
    HexNibble(h);
    PlaceValues(a, b, c, d);
    DigitReads(h[0], a);
    DigitReads(h[1], b);
    DigitReads(h[2], c);
    DigitReads(h[3], d);
  }

  /** parse_hex4 reads the four digits of a code unit, in any mix of cases, as that unit; and
      what it takes for four digits are the digits of the unit it reads. */
  lemma UnitReads(h: bytes, u: nat)
    ensures WritesUnit(h, u) <==> IsHex4(h) && Hex4(h) == u
  {
    hide WritesUnit, Hex4, IsHex4;
    if IsHex4(h) {
      UnitWritten(h);
    }
    if WritesUnit(h, u) {
      UnitRead(h, u);
    }
  }

  lemma HexNibble(h: bytes)
    requires IsHex4(h)
    ensures forall i | 0 <= i < 4 :: HexValue(h[i]).Some? && HexValue(h[i]).value < 16
  {
  }

  lemma PlaceValues(a: nat, b: nat, c: nat, d: nat)
    requires a < 16 && b < 16 && c < 16 && d < 16
    ensures var u := a * 0x1000 + b * 0x100 + c * 0x10 + d;
            u < 0x1_0000 && u / 0x1000 == a && u / 0x100 % 16 == b && u / 0x10 % 16 == c && u % 16 == d
  {
    var p := a * 16 + b;
    var q := p * 16 + c;
    var u := q * 16 + d;
    Quotient(q, d);
    Quotient(p, c);
    Quotient(a, b);
    QuotientTwice(u);
    QuotientTwice(q);
    assert u / 0x1000 == q / 0x10 / 0x10 by {
      QuotientThrice(u);
    }
  }

  lemma Quotient(q: nat, r: nat)
    requires r < 16
    ensures (q * 16 + r) / 0x10 == q && (q * 16 + r) % 16 == r
  {
  }

  lemma QuotientTwice(u: nat)
    ensures u / 0x10 / 0x10 == u / 0x100
  {
    var q := u / 0x10;
    assert 0 <= u - q / 0x10 * 0x100 < 0x100;
  }

  lemma QuotientThrice(u: nat)
    ensures u / 0x10 / 0x10 / 0x10 == u / 0x1000
  {
    QuotientTwice(u);
    var p := u / 0x100;
    assert 0 <= u - p / 0x10 * 0x1000 < 0x1000;
  }

  lemma BackTogether(u: nat)
    ensures u / 0x1000 * 0x1000 + u / 0x100 % 16 * 0x100 + u / 0x10 % 16 * 0x10 + u % 16 == u
  {
    QuotientTwice(u);
    QuotientThrice(u);
  }

  /** What the code looks at. */
  ghost predicate LooksLikeUnit(text: bytes, u: nat) {
    && |text| >= 6 && text[0] == BACKSLASH && text[1] == LOWER_U && IsHex4(text[2..6]) && Hex4(text[2..6]) == u
  }

  lemma NotMalformed(h: bytes)
    requires |h| == 4 && Hex4(h) != 0
    ensures IsHex4(h)
  {
  }

  /** Every code unit can be written. */
  function UnitDigits(u: nat): (h: bytes)
    requires u < 0x1_0000
    ensures WritesUnit(h, u)
  {
    [LOWER_HEX[u / 0x1000] as byte, LOWER_HEX[u / 0x100 % 16] as byte, LOWER_HEX[u / 0x10 % 16] as byte,
     LOWER_HEX[u % 16] as byte]
  }

  // ---------- UTF-16 escapes ----------

  /** `text` starts with a backslash, a u and the four digits of `u`. */
  ghost predicate StartsWithUnit(text: bytes, u: nat) {
    |text| >= 6 && text[0] == BACKSLASH && text[1] == LOWER_U && WritesUnit(text[2..6], u)
  }

  lemma UnitThere(text: bytes, u: nat)
    ensures StartsWithUnit(text, u) <==> LooksLikeUnit(text, u)
  {
    if |text| >= 6 {
      UnitReads(text[2..6], u);
    }
  }

  /** `text` writes the code points `cps` as escapes, a surrogate pair for each one past U+FFFF. */
  ghost predicate Spells(text: bytes, cps: seq<nat>)
    decreases |cps|
  {
    if cps == [] then text == []
    else if cps[0] < 0x1_0000 then StartsWithUnit(text, cps[0]) && Spells(text[6..], cps[1..])
    else
      var v := cps[0] - 0x1_0000;
      && |text| >= 12
      && StartsWithUnit(text, 0xD800 + v / 0x400)
      && StartsWithUnit(text[6..], 0xDC00 + v % 0x400)
      && Spells(text[12..], cps[1..])
  }

  lemma JoinSplit(cp: nat)
    requires 0x1_0000 <= cp < 0x11_0000
    ensures var v := cp - 0x1_0000;
            && IsHighSurrogate(0xD800 + v / 0x400)
            && IsLowSurrogate(0xDC00 + v % 0x400)
            && JoinSurrogates(0xD800 + v / 0x400, 0xDC00 + v % 0x400) == cp
  {
  }

  lemma PairLiteral(text: bytes, high: nat, low: nat)
    requires |text| >= 12 && StartsWithUnit(text, high) && StartsWithUnit(text[6..], low)
    requires IsHighSurrogate(high) && IsLowSurrogate(low)
    ensures Utf16Literal(text) == Some((Utf8.Encode(JoinSurrogates(high, low)), 12))
  {
    hide WritesUnit, Hex4, IsHex4;
    UnitThere(text, high);
    UnitThere(text[6..], low);
    assert text[6..][2..6] == text[8..12];
    assert text[6..][0] == text[6] && text[6..][1] == text[7];
  }

  lemma LiteralOfScalar(text: bytes, cps: seq<nat>)
    requires cps != [] && Utf8.IsScalar(cps[0]) && Spells(text, cps)
    ensures Utf16Literal(text) == Some((Utf8.Encode(cps[0]), if cps[0] < 0x1_0000 then 6 else 12))
  {
    hide WritesUnit, Hex4, IsHex4;
    var cp := cps[0];
    if cp >= 0x1_0000 {
      var v := cp - 0x1_0000;
      JoinSplit(cp);
      PairLiteral(text, 0xD800 + v / 0x400, 0xDC00 + v % 0x400);
    } else {
      UnitThere(text, cp);
    }
  }

  /** Escaped code points come out as their RFC 3629 encodings, from which they can be recovered. */
  lemma {:induction false} EscapesDecodeToUtf8(text: bytes, cps: seq<nat>)
    requires forall i | 0 <= i < |cps| :: Utf8.IsScalar(cps[i])
    requires Spells(text, cps)
    ensures Decode(text) == Done(Utf8.EncodeAll(cps))
    ensures Utf8.DecodeAll(Decode(text).out) == Some(cps)
    decreases |cps|
  {
    if cps != [] {
      LiteralOfScalar(text, cps);
      EscapesDecodeToUtf8(text[if cps[0] < 0x1_0000 then 6 else 12..], cps[1..]);
    }
    Utf8.DecodeAllEncodeAll(cps);
  }

  /** A well-formed escape stops the decoding exactly when it is a surrogate without its partner. */
  lemma EscapeStops(b: bytes, u: nat)
    requires StartsWithUnit(b, u)
    ensures Decode(b) == Bad([], b) <==>
            || IsLowSurrogate(u)
            || (IsHighSurrogate(u) && !exists v | IsLowSurrogate(v) :: StartsWithUnit(b[6..], v))
  {
    hide WritesUnit, Hex4, IsHex4, Utf8.Encode, JoinSurrogates;
    UnitThere(b, u);
    if IsHighSurrogate(u) {
      forall v
        ensures StartsWithUnit(b[6..], v) <==> LooksLikeUnit(b[6..], v)
      {
        UnitThere(b[6..], v);
      }
      if |b| >= 12 {
        assert b[6..][2..6] == b[8..12] && b[6..][0] == b[6] && b[6..][1] == b[7];
        if b[6] == BACKSLASH && b[7] == LOWER_U && IsLowSurrogate(Hex4(b[8..12])) {
          NotMalformed(b[8..12]);
          assert LooksLikeUnit(b[6..], Hex4(b[8..12]));
        }
      }
    }
  }

  /** `text` writes the UTF-16 code units `units` as escapes, surrogates or not. */
  ghost predicate SpellsUnits(text: bytes, units: seq<nat>)
    decreases |units|
  {
    if units == [] then text == [] else StartsWithUnit(text, units[0]) && SpellsUnits(text[6..], units[1..])
  }

  /** The unit is not a surrogate, or it is a high one in front of a low one, or the low one behind. */
  predicate HasPartner(units: seq<nat>, i: nat)
    requires i < |units|
  {
    && (IsHighSurrogate(units[i]) ==> i + 1 < |units| && IsLowSurrogate(units[i + 1]))
    && (IsLowSurrogate(units[i]) ==> i > 0 && IsHighSurrogate(units[i - 1]))
  }

  ghost predicate Partnered(units: seq<nat>) {
    forall i | 0 <= i < |units| :: HasPartner(units, i)
  }

  /** The code points of the units: a pair of surrogates is one. */
  function CodePoints(units: seq<nat>): seq<nat> {
    if units == [] then []
    else if IsHighSurrogate(units[0]) && |units| > 1 then [JoinSurrogates(units[0], units[1])] + CodePoints(units[2..])
    else [units[0]] + CodePoints(units[1..])
  }

  /** Units behind a unit that stands for itself, or behind a pair. */
  lemma PartneredBehind(units: seq<nat>, k: nat)
    requires k <= |units| && forall i | 0 <= i < k :: HasPartner(units, i)
    requires k == 0 || !IsHighSurrogate(units[k - 1])
    ensures Partnered(units) <==> Partnered(units[k..])
  {
    var rest := units[k..];
    forall i | 0 <= i < |rest|
      ensures HasPartner(rest, i) == HasPartner(units, i + k)
    {
      assert rest[i] == units[i + k];
      assert i + 1 < |rest| ==> rest[i + 1] == units[i + k + 1];
    }
    if Partnered(rest) {
      forall i | 0 <= i < |units|
        ensures HasPartner(units, i)
      {
        assert i >= k ==> HasPartner(rest, i - k);
      }
    }
  }

  /** The units decode to their code points. */
  ghost predicate DecodesTo(text: bytes, units: seq<nat>) {
    && (forall cp | cp in CodePoints(units) :: Utf8.IsScalar(cp))
    && Decode(text) == Done(Utf8.EncodeAll(CodePoints(units)))
  }

  lemma UnitStops(text: bytes, units: seq<nat>)
    requires SpellsUnits(text, units) && units != []
    requires IsLowSurrogate(units[0]) || (IsHighSurrogate(units[0]) && (|units| == 1 || !IsLowSurrogate(units[1])))
    ensures Decode(text).Bad? && !Partnered(units)
  {
    hide WritesUnit, Decode, Hex4, IsHex4;
    EscapeStops(text, units[0]);
    forall v | StartsWithUnit(text[6..], v)
      ensures |units| > 1 && v == units[1]
    {
      OneUnit(text[6..], v, units[1]);
    }
    assert !HasPartner(units, 0);
  }

  lemma OneUnit(text: bytes, u: nat, v: nat)
    requires StartsWithUnit(text, u) && StartsWithUnit(text, v)
    ensures u == v
  {
    hide WritesUnit;
    UnitThere(text, u);
    UnitThere(text, v);
  }

  lemma PairDecodes(text: bytes, units: seq<nat>)
    requires SpellsUnits(text, units) && |units| > 1 && IsHighSurrogate(units[0]) && IsLowSurrogate(units[1])
    ensures |text| >= 12 && SpellsUnits(text[12..], units[2..])
    ensures Decode(text).Done? <==> Decode(text[12..]).Done?
    ensures DecodesTo(text[12..], units[2..]) ==> DecodesTo(text, units)
  {
    hide WritesUnit, Hex4, IsHex4;
    assert text[6..][6..] == text[12..] && units[1..][1..] == units[2..];
    PairLiteral(text, units[0], units[1]);
    hide Utf16Literal, Utf8.Encode;
    var cp := JoinSurrogates(units[0], units[1]);
    assert Decode(text) == Emit(Utf8.Encode(cp), Decode(text[12..]));
    ConsCodePoint(cp, CodePoints(units[2..]));
  }

  lemma UnitDecodes(text: bytes, units: seq<nat>)
    requires SpellsUnits(text, units) && units != [] && !IsHighSurrogate(units[0]) && !IsLowSurrogate(units[0])
    ensures |text| >= 6 && SpellsUnits(text[6..], units[1..])
    ensures Decode(text).Done? <==> Decode(text[6..]).Done?
    ensures DecodesTo(text[6..], units[1..]) ==> DecodesTo(text, units)
  {
    hide WritesUnit, Hex4, IsHex4, Utf8.Encode;
    UnitThere(text, units[0]);
    assert Utf16Literal(text) == Some((Utf8.Encode(units[0]), 6));
    hide Utf16Literal;
    assert Decode(text) == Emit(Utf8.Encode(units[0]), Decode(text[6..]));
    ConsCodePoint(units[0], CodePoints(units[1..]));
  }

  lemma ConsCodePoint(cp: nat, cps: seq<nat>)
    requires Utf8.IsScalar(cp)
    ensures (forall c | c in cps :: Utf8.IsScalar(c)) ==>
              && (forall c | c in [cp] + cps :: Utf8.IsScalar(c))
              && Utf8.EncodeAll([cp] + cps) == Utf8.Encode(cp) + Utf8.EncodeAll(cps)
  {
    assert ([cp] + cps)[1..] == cps;
  }

  /** Escapes for any code units are accepted exactly when every surrogate has its partner, and
      then they come out as the encodings of their code points. */
  lemma {:induction false} LoneSurrogateRejected(text: bytes, units: seq<nat>)
    requires SpellsUnits(text, units)
    ensures Decode(text).Done? <==> Partnered(units)
    ensures Partnered(units) ==>
              && (forall cp | cp in CodePoints(units) :: Utf8.IsScalar(cp))
              && Decode(text) == Done(Utf8.EncodeAll(CodePoints(units)))
    decreases |units|
  {
    hide Decode, SpellsUnits, Partnered, CodePoints, HasPartner, Utf8.EncodeAll;
    if units == [] {
      NoUnits(text);
    } else if IsLowSurrogate(units[0]) || (IsHighSurrogate(units[0]) && (|units| == 1 || !IsLowSurrogate(units[1]))) {
      UnitStops(text, units);
    } else if IsHighSurrogate(units[0]) {
      PairDecodes(text, units);
      PairPartnered(units);
      LoneSurrogateRejected(text[12..], units[2..]);
    } else {
      UnitDecodes(text, units);
      PairPartnered(units);
      LoneSurrogateRejected(text[6..], units[1..]);
    }
  }

  lemma NoUnits(text: bytes)
    requires SpellsUnits(text, [])
    ensures Partnered([]) && CodePoints([]) == [] && Decode(text) == Done(Utf8.EncodeAll([]))
  {
  }

  lemma PairPartnered(units: seq<nat>)
    requires units != [] && !IsLowSurrogate(units[0])
    requires IsHighSurrogate(units[0]) ==> |units| > 1 && IsLowSurrogate(units[1])
    ensures Partnered(units) <==> Partnered(units[if IsHighSurrogate(units[0]) then 2 else 1..])
  {
    PartneredBehind(units, if IsHighSurrogate(units[0]) then 2 else 1);
  }

  /** Section 7 of RFC 8259 asks for four hexadecimal digits after a u. The code does not: an
      escape whose four bytes are not all digits is read as U+0000, and only that spelling or
      four zeros is. */
  lemma MalformedEscapeReadsAsNul(b: bytes)
    requires |b| >= 6 && b[0] == BACKSLASH && b[1] == LOWER_U
    ensures DecodeStep(b) == Some(([NUL], 6)) <==> (!IsHex4(b[2..6]) || StartsWithUnit(b, 0))
  {
    hide WritesUnit;
    UnitThere(b, 0);
    if IsHex4(b[2..6]) && Hex4(b[2..6]) != 0 && DecodeStep(b).Some? {
      var first := Hex4(b[2..6]);
      assert !IsHighSurrogate(first) ==> Utf8.DecodeFirst(Utf8.Encode(first) + []) == Some((first,
          |Utf8.Encode(first)|)) by {
        if !IsHighSurrogate(first) {
          Utf8.DecodeFirstEncode(first, []);
        }
      }
    }
  }
}
