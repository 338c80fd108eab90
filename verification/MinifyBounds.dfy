/** Exactly when cJSON_Minify stays inside its buffer. */
module MinifyBounds {
  import opened Bytes
  import opened Minifier

  /** What a left-to-right reader of a text is in. Slash is behind a slash that may start a
      comment, Escaped behind a backslash in a string, BlockStar behind a star in a block comment. */
  datatype Mode = Code | Slash | Literal | Escaped | Line | Block | BlockStar

  function Step(m: Mode, b: byte): Mode {
    match m
    case Code => if b == QUOTE then Literal else if b == SLASH then Slash else Code
    case Slash =>
      if b == SLASH then Line else if b == STAR then BlockStar else if b == QUOTE then Literal else Code
    case Literal => if b == QUOTE then Code else if b == BACKSLASH then Escaped else Literal
    case Escaped => Literal
    case Line => if b == LF then Code else Line
    case Block => if b == STAR then BlockStar else Block
    case BlockStar => if b == SLASH then Code else if b == STAR then BlockStar else Block
  }

  /** The mode at the first terminator; None when there is none. */
  function ModeAtEnd(s: bytes, m: Mode): Option<Mode> {
    if s == [] then None
    else if s[0] == NUL then Some(m)
    else ModeAtEnd(s[1..], Step(m, s[0]))
  }

  predicate Open(m: Mode) {
    m.Literal? || m.Escaped? || m.Block? || m.BlockStar?
  }

  predicate Closes(end: Option<Mode>) {
    end.Some? && !Open(end.value)
  }

  /** The text has a terminator, and no string and no block comment is open there. */
  predicate EndsClosed(s: bytes) {
    Closes(ModeAtEnd(s, Code))
  }

  /** A string: to behind its closing quote, or open at the end. */
  lemma {:induction false} LiteralMode(t: bytes)
    ensures match StringEnd(t)
            case Some(n) => ModeAtEnd(t, Literal) == ModeAtEnd(t[n + 1..], Code)
            case None => !Closes(ModeAtEnd(t, Literal))
    decreases |t|
  {
    if t != [] && t[0] != NUL && t[0] != QUOTE {
      if t[0] != BACKSLASH {
        LiteralMode(t[1..]);
      } else if |t| > 1 && t[1] != NUL {
        assert t[1..][0] == t[1] && t[1..][1..] == t[2..];
        LiteralMode(t[2..]);
      } else {
        assert |t| > 1 ==> t[1..][0] == NUL;
      }
    }
  }

  /** A line comment: to the end of the line, or closed at the end of the text. */
  lemma {:induction false} LineMode(s: bytes)
    ensures Closes(ModeAtEnd(s, Line)) == Closes(ModeAtEnd(SkipLine(s), Code))
  {
    if s != [] && s[0] != NUL && s[0] != LF {
      LineMode(s[1..]);
    }
  }

  /** A block comment: to behind its end, or open at the end. */
  lemma {:induction false} BlockMode(s: bytes)
    ensures match SkipComment(s)
            case Some(rest) => Closes(ModeAtEnd(s, Block)) == Closes(ModeAtEnd(rest, Code))
            case None => !Closes(ModeAtEnd(s, Block))
    ensures s == [] || s[0] != SLASH ==> Closes(ModeAtEnd(s, BlockStar)) == Closes(ModeAtEnd(s, Block))
  {
    if s != [] && s[0] != NUL {
      BlockMode(s[1..]);
      assert |s| > 1 ==> s[1..][0] == s[1] && s[1..][1..] == s[2..];
    }
  }

  /** A slash: a comment of either kind, or a byte like any other. */
  lemma SlashMode(s: bytes)
    requires s != [] && s[0] == SLASH
    ensures var line, block := |s| > 1 && s[1] == SLASH, |s| > 1 && s[1] == STAR;
            EndsClosed(s) == (if line then EndsClosed(SkipLine(s))
                              else if block then SkipComment(s).Some? && EndsClosed(SkipComment(s).value)
                              else EndsClosed(s[1..]))
  {
    assert ModeAtEnd(s, Code) == ModeAtEnd(s[1..], Slash);
    if |s| > 1 {
      assert s[1..][0] == s[1] && s[1..][1..] == s[2..];
      if s[1] == SLASH {
        LineMode(s[2..]);
        assert SkipLine(s) == SkipLine(s[1..]) == SkipLine(s[2..]);
      } else if s[1] == STAR {
        BlockMode(s[1..]);
        assert SkipComment(s) == SkipComment(s[1..]);
        assert ModeAtEnd(s[1..], Slash) == ModeAtEnd(s[1..], Block);
      } else {
        assert Closes(ModeAtEnd(s[1..], Slash)) == Closes(ModeAtEnd(s[1..], Code));
      }
    }
  }

  lemma QuoteMode(s: bytes)
    requires s != [] && s[0] == QUOTE
    ensures EndsClosed(s) == match StringEnd(s[1..]) case None => false case Some(n) => EndsClosed(s[n + 2..])
  {
    LiteralMode(s[1..]);
    if StringEnd(s[1..]).Some? {
      var n := StringEnd(s[1..]).value;
      assert s[1..][n + 1..] == s[n + 2..];
    }
  }

  lemma ByteMode(s: bytes)
    ensures s == [] ==> !EndsClosed(s)
    ensures s != [] && s[0] == NUL ==> EndsClosed(s)
    ensures s != [] && s[0] != NUL && s[0] != QUOTE && s[0] != SLASH ==> EndsClosed(s) == EndsClosed(s[1..])
  {
  }

  /** cJSON_Minify stays inside its buffer exactly when the text ends outside strings and block
      comments: every way its loop goes on leaves the mode Code. */
  lemma {:induction false} StaysIffClosed(s: bytes)
    ensures Minify(s).Some? <==> EndsClosed(s)
    decreases |s|
  {
    hide EndsClosed, StringEnd, SkipLine, SkipComment;
    ByteMode(s);
    if s == [] || s[0] == NUL {
    } else if s[0] == QUOTE {
      QuoteMode(s);
      if StringEnd(s[1..]).Some? {
        StaysIffClosed(s[StringEnd(s[1..]).value + 2..]);
      }
    } else if s[0] == SLASH {
      SlashMode(s);
      if |s| > 1 && s[1] == SLASH {
        StaysIffClosed(SkipLine(s));
      } else if |s| > 1 && s[1] == STAR {
        if SkipComment(s).Some? {
          StaysIffClosed(SkipComment(s).value);
        }
      } else {
        StaysIffClosed(s[1..]);
      }
    } else {
      StaysIffClosed(s[1..]);
    }
  }

  // ---------- The texts that are left open ----------

  /** The mode behind `x`. */
  function ModeBehind(x: bytes, m: Mode): Mode {
    if x == [] then m else ModeBehind(x[1..], Step(m, x[0]))
  }

  lemma {:induction false} ModeSplits(x: bytes, y: bytes, m: Mode)
    requires NulFree(x)
    ensures ModeAtEnd(x + y, m) == ModeAtEnd(y, ModeBehind(x, m))
  {
    if x == [] {
      assert x + y == y;
    } else {
      assert (x + y)[1..] == x[1..] + y;
      ModeSplits(x[1..], y, Step(m, x[0]));
    }
  }

  /** A string that starts outside strings and comments, behind any text, and does not end. */
  lemma UnclosedStringReadsOn(x: bytes, t: bytes)
    requires NulFree(x) && (ModeBehind(x, Code).Code? || ModeBehind(x, Code).Slash?)
    requires StringEnd(t + [NUL]).None?
    ensures Minify(x + ([QUOTE] + (t + [NUL]))).None?
  {
    var s := [QUOTE] + (t + [NUL]);
    StaysIffClosed(x + s);
    ModeSplits(x, s, Code);
    LiteralMode(t + [NUL]);
    assert s[1..] == t + [NUL];
  }

  /** A block comment that starts outside strings and comments, behind any text, and does not end. */
  lemma UnclosedCommentReadsOn(x: bytes, t: bytes)
    requires NulFree(x) && ModeBehind(x, Code).Code?
    requires SkipComment([STAR] + (t + [NUL])).None?
    ensures Minify(x + ([SLASH] + ([STAR] + (t + [NUL])))).None?
  {
    var c := [STAR] + (t + [NUL]);
    var s := [SLASH] + c;
    StaysIffClosed(x + s);
    ModeSplits(x, s, Code);
    BlockMode(c);
    assert s[1..] == c;
    assert ModeAtEnd(s, Code) == ModeAtEnd(c, Slash) == ModeAtEnd(c, Block);
  }
}
