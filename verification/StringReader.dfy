/** The loops that decode a string literal: parse_hex4, utf16_literal_to_utf8 and pass two of
    parse_string, over the input and an output block. */
module StringReader {
  import opened Bytes
  import opened StringCodec
  import Utf8

  /** parse_hex4 on the four bytes at `at`. */
  method ParseHex4(content: bytes, at: nat) returns (h: nat)
    requires at + 4 <= |content|
    ensures h == Hex4(content[at..at + 4])
  {
    ghost var s := content[at..at + 4];
    h := 0;
    for i := 0 to 4
      invariant forall j | 0 <= j < i :: HexValue(s[j]).Some?
      invariant i == 1 ==> h == 0x10 * HexValue(s[0]).value
      invariant i == 2 ==> h == 0x100 * HexValue(s[0]).value + 0x10 * HexValue(s[1]).value
      invariant i == 3 ==>
                  h == 0x1000 * HexValue(s[0]).value + 0x100 * HexValue(s[1]).value + 0x10 * HexValue(s[2]).value
      invariant i == 4 ==> h == Hex4(s)
      invariant i == 0 ==> h == 0
    {
      var b := content[at + i];
      assert b == s[i];
      if DIGIT_0 <= b <= DIGIT_9 {
        h := h + (b - DIGIT_0) as nat;
      } else if 65 <= b <= 70 {
        h := h + 10 + (b - 65) as nat;
      } else if 97 <= b <= 102 {
        h := h + 10 + (b - 97) as nat;
      } else {
        assert !IsHex4(s);
        return 0;
      }
      if i < 3 {
        h := 16 * h;
      }
    }
  }

  /** The number of UTF-8 bytes and the mark of the first one. */
  method Utf8Plan(codepoint: nat) returns (length: nat, mark: nat)
    requires Utf8.IsScalar(codepoint)
    ensures length == |Utf8.Encode(codepoint)|
    ensures mark == [0, 0xC0, 0xE0, 0xF0][length - 1]
  {
    if codepoint < 0x80 {
      length, mark := 1, 0;
    } else if codepoint < 0x800 {
      length, mark := 2, 0xC0;
    } else if codepoint < 0x1_0000 {
      length, mark := 3, 0xE0;
    } else {
      length, mark := 4, 0xF0;
    }
  }

  /** The encoding loop: the continuation bytes from the last one back, then the first byte.
      Shifting right by 6 is dividing by 64, and the or and the and of the code keep the low 6
      bits under the mark 0x80. */
  method EncodeBackwards(codepoint: nat, output: array<byte>, at: nat) returns (length: nat)
    requires Utf8.IsScalar(codepoint) && at + |Utf8.Encode(codepoint)| <= output.Length
    modifies output
    ensures length == |Utf8.Encode(codepoint)|
    ensures forall i | 0 <= i < length :: output[at + i] == Utf8.Encode(codepoint)[i]
    ensures forall i | 0 <= i < output.Length && (i < at || at + length <= i) :: output[i] == old(output[i])
  {
    var mark;
    length, mark := Utf8Plan(codepoint);
    var rest, position := codepoint, length - 1;
    ghost var e := Utf8.Encode(codepoint);
    while position > 0
      invariant 0 <= position < length
      invariant rest == if position == length - 1 then codepoint
                        else if position == length - 2 then codepoint / 0x40
                        else if position == length - 3 then codepoint / 0x1000
                        else codepoint / 0x4_0000
      invariant forall i | position < i < length :: output[at + i] == e[i]
      invariant forall i | 0 <= i < output.Length && (i < at || at + length <= i) :: output[i] == old(output[i])
      decreases position
    {
      output[at + position] := (0x80 + rest % 0x40) as byte;
      rest := rest / 0x40;
      position := position - 1;
    }
    assert length > 1 ==> rest + mark == e[0] as nat;
    output[at] := if length > 1 then (rest + mark) as byte else (rest % 0x80) as byte;
  }

  /** The encoding of the code point is written at `at`, and nothing else. */
  method StoreUtf8(codepoint: nat, output: array<byte>, at: nat) returns (next: nat)
    requires Utf8.IsScalar(codepoint) && at + |Utf8.Encode(codepoint)| <= output.Length
    modifies output
    ensures next == at + |Utf8.Encode(codepoint)|
    ensures output[..next] == old(output[..at]) + Utf8.Encode(codepoint)
    ensures output[next..] == old(output[next..])
  {
    hide Utf8.Encode;
    var length := EncodeBackwards(codepoint, output, at);
    next := at + length;
  }

  lemma SliceOfSlice(s: bytes, p: nat, end: nat, i: nat, j: nat)
    requires i <= j && p + j <= end <= |s|
    ensures s[p..end][i..j] == s[p + i..p + j]
  {
    assert forall k | 0 <= k < j - i :: s[p..end][i..j][k] == s[p + i..p + j][k];
  }

  /** The code point of an escape or a surrogate pair; a length of 0 is a failure. */
  method Utf16CodePoint(content: bytes, p: nat, end: nat) returns (length: nat, codepoint: nat)
    requires p <= end <= |content|
    ensures var r := Utf16Literal(content[p..end]);
            && (length == 0 <==> r.None?)
            && (r.Some? ==> Utf8.IsScalar(codepoint) && r.value == (Utf8.Encode(codepoint), length))
  {
    hide Utf8.Encode, Hex4, IsHex4;
    ghost var b := content[p..end];
    codepoint := 0;
    if end - p < 6 {
      return 0, codepoint;
    }
    SliceOfSlice(content, p, end, 2, 6);
    var first := ParseHex4(content, p + 2);
    if 0xDC00 <= first <= 0xDFFF {
      return 0, codepoint;
    }
    codepoint := first;
    length := 6;
    if 0xD800 <= first <= 0xDBFF {
      if end - (p + 6) < 6 {
        return 0, codepoint;
      }
      assert b[6] == content[p + 6] && b[7] == content[p + 7];
      if content[p + 6] != BACKSLASH || content[p + 7] != LOWER_U {
        return 0, codepoint;
      }
      SliceOfSlice(content, p, end, 8, 12);
      var second := ParseHex4(content, p + 8);
      if second < 0xDC00 || second > 0xDFFF {
        return 0, codepoint;
      }
      codepoint := 0x1_0000 + (first % 0x400 * 0x400 + second % 0x400);
      length := 12;
    }
  }

  /** utf16_literal_to_utf8 on the body that ends at `end`; a length of 0 is a failure. */
  method Utf16LiteralToUtf8(content: bytes, p: nat, end: nat, output: array<byte>, at: nat)
    returns (length: nat, next: nat)
    requires p <= end <= |content|
    requires at <= output.Length
    requires var r := Utf16Literal(content[p..end]); r.Some? ==> at + |r.value.0| <= output.Length
    modifies output
    ensures var r := Utf16Literal(content[p..end]);
            && (length == 0 <==> r.None?)
            && (r.None? ==> next == at && output[..] == old(output[..]))
            && (r.Some? ==>
                    length == r.value.1 && next == at + |r.value.0| && output[..next] == old(output[..at]) + r.value.0)
    ensures next <= output.Length && output[next..] == old(output[next..])
  {
    hide Utf16Literal, Utf8.Encode;
    var codepoint;
    length, codepoint := Utf16CodePoint(content, p, end);
    next := at;
    if length > 0 {
      next := StoreUtf8(codepoint, output, at);
    }
  }

  // ---------- Pass one ----------

  lemma {:induction false} TokensAppend(a: bytes, b: bytes)
    requires Paired(a)
    ensures Tokens(a + b) == Tokens(a) + Tokens(b) && (Paired(a + b) <==> Paired(b))
    decreases |a|
  {
    if a == [] {
      assert a + b == b;
    } else {
      var n := if a[0] == BACKSLASH then 2 else 1;
      assert (a + b)[n..] == a[n..] + b;
      TokensAppend(a[n..], b);
    }
  }

  lemma NextIsToken(content: bytes, start: nat, i: nat)
    requires start <= i < |content| && Paired(content[start..i]) && NextToken(content, i) <= |content|
    ensures var j := NextToken(content, i);
            && Paired(content[start..j]) && Tokens(content[start..j]) == Tokens(content[start..i]) + 1
            && content[i..][j - i..] == content[j..]
  {
    var j := NextToken(content, i);
    var token := content[i..j];
    assert content[start..j] == content[start..i] + token;
    TokensAppend(content[start..i], token);
    assert token[0] == content[i];
    assert |token| == 2 ==> token[2..] == [];
    assert |token| == 1 ==> token[1..] == [];
  }

  /** Pass one has read the body bytes up to `i`. */
  ghost predicate Scanned(content: bytes, start: nat, i: nat, skipped: nat) {
    && start <= i <= |content|
    && Paired(content[start..i]) && i - start - skipped == Tokens(content[start..i])
    && Scan(content[start..]) == match Scan(content[i..]) case None => None case Some(n) => Some(i - start + n)
  }

  lemma ScanStart(content: bytes, start: nat)
    requires start <= |content|
    ensures Scanned(content, start, start, 0)
  {
    assert content[start..start] == [];
  }

  lemma ScanAdvance(content: bytes, start: nat, i: nat, skipped: nat)
    requires Scanned(content, start, i, skipped) && i < |content| && content[i] != QUOTE
    ensures var j := NextToken(content, i);
            if j > |content| then Scan(content[start..]).None? else Scanned(content, start, j, skipped + j - i - 1)
  {
    hide Tokens, Paired;
    var j := NextToken(content, i);
    assert content[i..][0] == content[i];
    if j <= |content| {
      NextIsToken(content, start, i);
    }
  }

  lemma ScanEnd(content: bytes, start: nat, i: nat, skipped: nat)
    requires Scanned(content, start, i, skipped) && (i < |content| ==> content[i] == QUOTE)
    ensures Scan(content[start..]) == if i < |content| then Some(i - start) else None
    ensures i - start - skipped == Tokens(content[start..i])
  {
    if i < |content| {
      assert content[i..][0] == QUOTE;
    }
  }

  /** The scan for the closing quote, counting the bytes that are skipped for backslashes. */
  method ScanString(content: bytes, start: nat) returns (found: bool, end: nat, skipped: nat)
    requires start <= |content|
    ensures found <==> Scan(content[start..]).Some?
    ensures found ==> start <= end < |content| && end - start == Scan(content[start..]).value
    ensures found ==> end - start - skipped == Tokens(content[start..end])
  {
    hide Scan, Tokens, Paired, Scanned;
    end, skipped := start, 0;
    ScanStart(content, start);
    while end < |content| && content[end] != QUOTE
      invariant start <= end <= |content| && Scanned(content, start, end, skipped)
      decreases |content| - end
    {
      ScanAdvance(content, start, end, skipped);
      if content[end] == BACKSLASH {
        if end + 1 >= |content| {
          return false, end, skipped;
        }
        skipped := skipped + 1;
        end := end + 1;
      }
      end := end + 1;
    }
    found := end < |content|;
    ScanEnd(content, start, end, skipped);
  }

  // ---------- Pass two ----------

  /** The switch over the byte behind a backslash. */
  method UnescapeByte(letter: byte) returns (found: bool, b: byte)
    ensures found <==> Unescape(letter).Some?
    ensures found ==> b == Unescape(letter).value
  {
    b := letter;
    found := true;
    if letter == LOWER_B {
      b := BACKSPACE;
    } else if letter == LOWER_F {
      b := FORM_FEED;
    } else if letter == LOWER_N {
      b := LF;
    } else if letter == LOWER_R {
      b := CR;
    } else if letter == LOWER_T {
      b := TAB;
    } else if !(letter == QUOTE || letter == BACKSLASH || letter == SLASH) {
      found := false;
    }
  }

  /** One turn of pass two, at the body byte `p`; the closing quote is at `end`. */
  method DecodeTurn(content: bytes, p: nat, end: nat, output: array<byte>, at: nat)
    returns (ok: bool, p': nat, at': nat)
    requires p < end < |content| && content[end] == QUOTE && at <= output.Length
    requires var r := DecodeStep(content[p..end]); r.Some? ==> at + |r.value.0| <= output.Length
    modifies output
    ensures var r := DecodeStep(content[p..end]);
            && (ok <==> r.Some?)
            && (ok ==> p' == p + r.value.1 && at' == at + |r.value.0| && output[..at'] == old(output[..at]) + r.value.0)
            && (!ok ==> p' == p && at' == at && output[..] == old(output[..]))
    ensures at' <= output.Length && output[at'..] == old(output[at'..])
  {
    ghost var b := content[p..end];
    assert b[0] == content[p];
    assert content[p + 1] == if |b| > 1 then b[1] else QUOTE;
    ok, p', at' := true, p, at;
    if content[p] != BACKSLASH {
      output[at] := content[p];
      p', at' := p + 1, at + 1;
      assert output[..at'] == old(output[..at]) + [content[p]];
    } else if content[p + 1] == LOWER_U {
      var length;
      length, at' := Utf16LiteralToUtf8(content, p, end, output, at);
      ok := length != 0;
      p' := p + length;
    } else {
      var c;
      ok, c := UnescapeByte(content[p + 1]);
      if ok {
        output[at] := c;
        p', at' := p + 2, at + 1;
        assert output[..at'] == old(output[..at]) + [c];
      }
    }
  }

  /** Pass two has turned the first `n` body bytes into `out`. */
  ghost predicate Decoded(b: bytes, n: nat, out: bytes) {
    Decode(b) == Emit(out, Decode(Drop(b, n)))
  }

  lemma DecodeStart(b: bytes)
    ensures Decoded(b, 0, [])
  {
    assert Drop(b, 0) == b && [] + Decode(b).out == Decode(b).out;
  }

  lemma DecodeAdvance(b: bytes, n: nat, out: bytes)
    requires Decoded(b, n, out) && n < |b|
    ensures var r := DecodeStep(b[n..]);
            && (r.Some? ==> Decoded(b, n + r.value.1, out + r.value.0))
            && (r.Some? ==> |out| + |r.value.0| <= |Decode(b).out|)
            && (r.None? ==> Decode(b).Bad? && Decode(b).at == b[n..])
  {
    var rest := b[n..];
    var r := DecodeStep(rest);
    if r.Some? {
      var (x, m) := r.value;
      assert Drop(rest, m) == Drop(b, n + m);
      Assoc(out, x, Decode(Drop(b, n + m)).out);
    }
  }

  lemma DecodeEnd(b: bytes, n: nat, out: bytes)
    requires Decoded(b, n, out) && n >= |b|
    ensures Decode(b) == Done(out)
  {
    assert out + [] == out;
  }

  /** The loop of pass two; `p` is where it stops. */
  method DecodeInto(content: bytes, start: nat, end: nat, output: array<byte>) returns (ok: bool, p: nat, at: nat)
    requires start <= end < |content| && content[end] == QUOTE
    requires |Decode(content[start..end]).out| <= output.Length
    modifies output
    ensures var d := Decode(content[start..end]);
            && (ok <==> d.Done?)
            && (ok ==> at == |d.out| && output[..at] == d.out)
            && (!ok ==> start <= p < end && content[p..end] == d.at)
    ensures ok ==> output[at..] == old(output[at..])
  {
    hide Decode, DecodeStep, Decoded;
    ghost var b := content[start..end];
    p, at := start, 0;
    ok := true;
    DecodeStart(b);
    assert output[..0] == [];
    while p < end
      invariant start <= p && at <= output.Length && Decoded(b, p - start, output[..at])
      invariant output[at..] == old(output[at..])
      decreases end - p
    {
      DecodeAdvance(b, p - start, output[..at]);
      assert b[p - start..] == content[p..end];
      ok, p, at := DecodeTurn(content, p, end, output, at);
      if !ok {
        return;
      }
    }
    DecodeEnd(b, p - start, output[..at]);
  }
}
