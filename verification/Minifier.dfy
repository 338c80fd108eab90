/** cJSON_Minify: what it leaves of a text, and that this changes neither what an accepted text
    means nor, of a formatted print, anything but its whitespace. */
module Minifier {
  import opened Bytes
  import opened StringCodec
  import opened Parser

  predicate IsDropped(b: byte) {
    b == SPACE || b == TAB || b == CR || b == LF
  }

  /** The text from the end of a // comment on. */
  function SkipLine(s: bytes): (r: bytes)
    ensures |r| <= |s|
    ensures s != [] && s[0] != NUL && s[0] != LF ==> |r| < |s|
  {
    if s == [] || s[0] == NUL || s[0] == LF then s else SkipLine(s[1..])
  }

  /** The text behind the comment end; None when the terminator comes first. */
  function SkipComment(s: bytes): (r: Option<bytes>)
    ensures r.Some? ==> |r.value| < |s|
  {
    if s == [] || s[0] == NUL then None
    else if s[0] == STAR && |s| > 1 && s[1] == SLASH then Some(s[2..])
    else SkipComment(s[1..])
  }

  /** Distance to the closing quote; None when the terminator comes first. */
  function StringEnd(t: bytes): (r: Option<nat>)
    ensures r.Some? ==> r.value < |t| && t[r.value] == QUOTE && NulFree(t[..r.value])
    decreases |t|
  {
    if t == [] || t[0] == NUL then None
    else if t[0] == QUOTE then Some(0)
    else
      var step := if t[0] == BACKSLASH then 2 else 1;
      if |t| < step || t[step - 1] == NUL then None
      else
        match StringEnd(t[step..])
        case None => None
        case Some(n) =>
          assert t[..step + n] == t[..step] + t[step..][..n];
          Some(step + n)
  }

  function Prepend(x: bytes, r: Option<bytes>): Option<bytes> {
    match r
    case None => None
    case Some(s) => Some(x + s)
  }

  /** What is left of the text `s`, terminator included; None when the code would read past
      the terminator (a comment or a string that does not end). */
  function Minify(s: bytes): (r: Option<bytes>)
    ensures r.Some? ==> r.value != []
    decreases |s|
  {
    if s == [] then None
    else if s[0] == NUL then Some([NUL])
    else if IsDropped(s[0]) then Minify(s[1..])
    else if s[0] == SLASH && |s| > 1 && s[1] == SLASH then Minify(SkipLine(s))
    else if s[0] == SLASH && |s| > 1 && s[1] == STAR then
      match SkipComment(s)
      case None => None
      case Some(rest) => Minify(rest)
    else if s[0] == QUOTE then
      match StringEnd(s[1..])
      case None => None
      case Some(n) => Prepend(s[..n + 2], Minify(s[n + 2..]))
    else Prepend([s[0]], Minify(s[1..]))
  }

  lemma {:induction false} MinifyTerminated(s: bytes)
    requires Minify(s).Some?
    ensures Terminated(Minify(s).value) && |Minify(s).value| <= |s|
    decreases |s|
  {
    if s[0] == NUL {
    } else if IsDropped(s[0]) {
      MinifyTerminated(s[1..]);
    } else if s[0] == SLASH && |s| > 1 && s[1] == SLASH {
      MinifyTerminated(SkipLine(s));
    } else if s[0] == SLASH && |s| > 1 && s[1] == STAR {
      MinifyTerminated(SkipComment(s).value);
    } else {
      var n := if s[0] == QUOTE then StringEnd(s[1..]).value + 2 else 1;
      CopiedNulFree(s, n);
      MinifyTerminated(s[n..]);
      PrefixTerminated(s[..n], Minify(s[n..]).value);
      assert s[..1] == [s[0]];
    }
  }

  lemma CopiedNulFree(s: bytes, n: nat)
    requires s != [] && s[0] != NUL
    requires n == 1 || (s[0] == QUOTE && StringEnd(s[1..]).Some? && n == StringEnd(s[1..]).value + 2)
    ensures n <= |s| && NulFree(s[..n])
  {
    if n > 1 {
      var t := s[1..];
      assert t[n - 2] == QUOTE;
      assert forall i | 1 <= i < n - 1 :: s[i] == t[..n - 2][i - 1];
    }
  }

  lemma PrefixTerminated(x: bytes, m: bytes)
    requires NulFree(x) && Terminated(m)
    ensures Terminated(x + m)
  {
    assert (x + m)[..|x + m| - 1] == x + m[..|m| - 1];
  }

  // ---------- What minifying does to the pieces of a text ----------

  /** Bytes that are copied one by one. */
  predicate IsPlainByte(b: byte) {
    b != NUL && !IsDropped(b) && b != SLASH && b != QUOTE
  }

  lemma {:induction false} CopyPlain(x: bytes, tail: bytes)
    requires forall i | 0 <= i < |x| :: IsPlainByte(x[i])
    ensures Minify(x + tail) == Prepend(x, Minify(tail))
  {
    if x == [] {
      assert x + tail == tail;
      assert Minify(tail).Some? ==> [] + Minify(tail).value == Minify(tail).value;
    } else {
      assert (x + tail)[1..] == x[1..] + tail;
      CopyPlain(x[1..], tail);
      if Minify(tail).Some? {
        Assoc([x[0]], x[1..], Minify(tail).value);
        assert [x[0]] + x[1..] == x;
      }
    }
  }

  lemma CopyByte(b: byte, tail: bytes)
    requires IsPlainByte(b)
    ensures Minify([b] + tail) == Prepend([b], Minify(tail))
  {
    CopyPlain([b], tail);
  }

  lemma {:induction false} DropBlank(w: bytes, tail: bytes)
    requires forall i | 0 <= i < |w| :: IsDropped(w[i])
    ensures Minify(w + tail) == Minify(tail)
  {
    if w == [] {
      assert w + tail == tail;
    } else {
      assert (w + tail)[1..] == w[1..] + tail;
      DropBlank(w[1..], tail);
    }
  }

  /** Both scans find the same closing quote when no terminator is in the way. */
  lemma {:induction false} StringEndIsScan(t: bytes)
    requires Scan(t).Some? && NulFree(t[..Scan(t).value])
    ensures StringEnd(t) == Scan(t)
    decreases |t|
  {
    if t[0] != QUOTE {
      var step := if t[0] == BACKSLASH then 2 else 1;
      var n := Scan(t).value;
      assert t[..n][0] != NUL && t[..n][step - 1] != NUL;
      assert t[step..][..n - step] == t[..n][step..];
      StringEndIsScan(t[step..]);
    }
  }

  lemma CopyString(s: bytes)
    requires LooksAt(s, QUOTE) && Scan(s[1..]).Some? && NulFree(s[1..][..Scan(s[1..]).value])
    ensures var n := Scan(s[1..]).value + 2; Minify(s) == Prepend(s[..n], Minify(s[n..]))
  {
    StringEndIsScan(s[1..]);
  }

  // ---------- Whitespace ----------

  /** Minifying commutes with skipping whitespace in front of anything but a comment. */
  lemma {:induction false} SkipMinified(s: bytes)
    requires Terminated(s)
    requires SkipWhitespace(s)[0] != SLASH && Minify(SkipWhitespace(s)).Some?
    ensures Minify(s).Some? && SkipWhitespace(Minify(s).value) == Minify(SkipWhitespace(s)).value
    ensures Terminated(SkipWhitespace(s))
    ensures Minify(s).value[0] <= SPACE || Minify(s).value[0] == SkipWhitespace(s)[0]
    decreases |s|
  {
    if |s| > 1 && s[0] <= SPACE {
      TerminatedSuffix(s, 0);
      TerminatedSuffix(s, 1);
      SkipMinified(s[1..]);
      MinifyTerminated(s[1..]);
      if !IsDropped(s[0]) {
        ConsDrop(s[0], Minify(s[1..]).value);
      }
    } else {
      HeadKept(s);
    }
  }

  lemma HeadKept(s: bytes)
    requires Terminated(s) && s[0] != SLASH && (s[0] > SPACE || |s| == 1) && Minify(s).Some?
    ensures Minify(s).value[0] == s[0] && SkipWhitespace(Minify(s).value) == Minify(s).value
  {
    TerminatedSuffix(s, 0);
    if s[0] == QUOTE {
      assert s[..StringEnd(s[1..]).value + 2][0] == s[0];
    }
  }

  // ---------- Accepted input stays terminated ----------

  lemma StringRest(s: bytes)
    requires Terminated(s) && ParseString(s).Parsed?
    ensures Terminated(ParseString(s).rest)
    ensures NulFree(s[1..][..Scan(s[1..]).value])
  {
    hide Decode, CString, Scan;
    var n := Scan(s[1..]).value;
    assert s[1..][n] == QUOTE && s[n + 1] == QUOTE;
    TerminatedSuffix(s, n + 1);
    TerminatedSuffix(s, n + 2);
    assert forall i | 0 <= i < n :: s[1..][..n][i] == s[..|s| - 1][i + 1];
  }

  lemma {:induction false} SkipRest(s: bytes)
    requires Terminated(s)
    ensures Terminated(SkipWhitespace(s))
  {
    if |s| > 1 && s[0] <= SPACE {
      TerminatedSuffix(s, 1);
      SkipRest(s[1..]);
    }
  }

  lemma ByteRest(s: bytes, b: byte)
    requires Terminated(s) && LooksAt(s, b) && b != NUL
    ensures Terminated(s[1..])
  {
    TerminatedSuffix(s, 0);
    TerminatedSuffix(s, 1);
  }

  lemma PlainRest(s: bytes, n: nat)
    requires Terminated(s) && 0 < n <= |s| && s[n - 1] != NUL
    ensures Terminated(s[n..])
  {
    TerminatedSuffix(s, n - 1);
    TerminatedSuffix(s, n);
  }
}
