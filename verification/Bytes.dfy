/** Bytes, the ASCII constants the JSON text is made of, and C strings. */
module Bytes {
  newtype byte = b: int | 0 <= b < 0x100

  type bytes = seq<byte>

  datatype Option<+T> = None | Some(value: T)

  const NUL: byte := 0
  const BACKSPACE: byte := 8
  const TAB: byte := 9
  const LF: byte := 10
  const FORM_FEED: byte := 12
  const CR: byte := 13
  const SPACE: byte := 32
  const QUOTE: byte := 34
  const STAR: byte := 42
  const PLUS: byte := 43
  const COMMA: byte := 44
  const MINUS: byte := 45
  const DOT: byte := 46
  const SLASH: byte := 47
  const DIGIT_0: byte := 48
  const DIGIT_9: byte := 57
  const COLON: byte := 58
  const UPPER_E: byte := 69
  const LEFT_BRACKET: byte := 91
  const BACKSLASH: byte := 92
  const RIGHT_BRACKET: byte := 93
  const LOWER_B: byte := 98
  const LOWER_E: byte := 101
  const LOWER_F: byte := 102
  const LOWER_N: byte := 110
  const LOWER_R: byte := 114
  const LOWER_T: byte := 116
  const LOWER_U: byte := 117
  const LEFT_BRACE: byte := 123
  const RIGHT_BRACE: byte := 125

  /** The letters of the three JSON literals. */
  const NULL_TEXT: bytes := [110, 117, 108, 108]
  const FALSE_TEXT: bytes := [102, 97, 108, 115, 101]
  const TRUE_TEXT: bytes := [116, 114, 117, 101]

  /** No byte of `s` is the terminator, so `s` is what strlen measures. */
  ghost predicate NulFree(s: bytes) {
    forall i | 0 <= i < |s| :: s[i] != NUL
  }

  /** The C string that starts at the first byte of `s`: what is in front of the first terminator. */
  function CString(s: bytes): (r: bytes)
    ensures NulFree(r) && r <= s
  {
    if s == [] || s[0] == NUL then [] else [s[0]] + CString(s[1..])
  }

  lemma {:induction false} CStringPrefix(s: bytes, k: bytes)
    ensures CString(s + [NUL] + k) == CString(s)
    ensures NulFree(s) ==> CString(s) == s
  {
    if s == [] {
      assert ([NUL] + k)[0] == NUL;
    } else {
      assert (s + [NUL] + k)[1..] == s[1..] + [NUL] + k;
      CStringPrefix(s[1..], k);
    }
  }

  /** `s` is a C string together with its terminator. */
  ghost predicate Terminated(s: bytes) {
    && |s| > 0
    && s[|s| - 1] == NUL
    && NulFree(s[..|s| - 1])
  }

  lemma TerminatedSuffix(s: bytes, k: nat)
    requires Terminated(s) && k < |s|
    ensures Terminated(s[k..])
    ensures s[k] == NUL <==> k == |s| - 1
  {
    var t := s[k..];
    assert t[..|t| - 1] == s[..|s| - 1][k..];
    if k < |s| - 1 {
      assert s[..|s| - 1][k] != NUL;
    }
  }

  lemma AppendDrop(a: bytes, b: bytes)
    ensures (a + b)[|a|..] == b
    ensures (a + b)[..|a|] == a
  {
  }

  lemma Assoc(a: bytes, b: bytes, c: bytes)
    ensures a + b + c == a + (b + c)
  {
  }

  lemma ConsDrop(x: byte, s: bytes)
    ensures ([x] + s)[0] == x && ([x] + s)[1..] == s
  {
  }
}
