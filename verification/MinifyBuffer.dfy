/** cJSON_Minify as the code runs it: in place, with a read and a write position. */
module MinifyBuffer {
  import opened Bytes
  import opened MinifyBounds
  import opened Minifier

  /** Behind the first `into` bytes, the write position, the buffer is still as it was; the
      write position has not passed the read position `json`; and what has been written, with
      what minifying the rest will give, is the whole result. */
  ghost predicate Underway(block: array<byte>, was: bytes, into: nat, json: nat)
    reads block
  {
    && |was| == block.Length
    && into <= json <= |was|
    && block[into..] == was[into..]
    && Minify(was).Some?
    && Minify(was) == Prepend(block[..into], Minify(was[json..]))
  }

  lemma StillThere(block: array<byte>, was: bytes, into: nat, json: nat, i: nat)
    requires Underway(block, was, into, json) && json <= i < |was|
    ensures block[i] == was[i]
  {
    assert block[into..][i - into] == was[into..][i - into];
  }

  lemma NotAtEnd(block: array<byte>, was: bytes, into: nat, json: nat)
    requires Underway(block, was, into, json)
    ensures json < |was| && block[json] == was[json] == was[json..][0]
  {
    StillThere(block, was, into, json, json);
  }

  /** There is a byte behind one that is not the terminator. */
  lemma NotLast(s: bytes)
    requires Minify(s).Some? && s[0] != NUL
    ensures |s| > 1
  {
  }

  /** A double-slash comment, up to the end of its line. */
  method SkipLineAt(block: array<byte>, json: nat, ghost was: bytes, ghost into: nat) returns (next: nat)
    requires Underway(block, was, into, json)
    requires json + 1 < |was| && was[json] == SLASH && was[json + 1] == SLASH
    ensures Underway(block, was, into, next) && json < next
  {
    next := json;
    NotAtEnd(block, was, into, json);
    assert was[json..][1] == SLASH;
    while next < block.Length && block[next] != NUL && block[next] != LF
      invariant json <= next <= |was|
      invariant SkipLine(was[next..]) == SkipLine(was[json..])
    {
      StillThere(block, was, into, json, next);
      assert was[next..][1..] == was[next + 1..];
      next := next + 1;
    }
    if next < block.Length {
      StillThere(block, was, into, json, next);
    }
  }

  /** A multiline comment. */
  method SkipCommentAt(block: array<byte>, json: nat, ghost was: bytes, ghost into: nat) returns (next: nat)
    requires Underway(block, was, into, json)
    requires json + 1 < |was| && was[json] == SLASH && was[json + 1] == STAR
    ensures Underway(block, was, into, next) && json < next
  {
    next := json;
    NotAtEnd(block, was, into, json);
    assert was[json..][1] == STAR;
    assert SkipComment(was[json..]).Some?;
    StillThere(block, was, into, json, next);
    while block[next] != NUL && !(block[next] == STAR && block[next + 1] == SLASH)
      invariant json <= next < |was| && block[next] == was[next]
      invariant SkipComment(was[next..]) == SkipComment(was[json..])
      invariant was[next..][0] == was[next]
      invariant was[next] == STAR ==> next + 1 < |was|
      decreases |was| - next
    {
      if next + 1 < |was| {
        StillThere(block, was, into, json, next + 1);
        assert was[next..][1] == was[next + 1];
      }
      assert was[next..][1..] == was[next + 1..];
      next := next + 1;
      StillThere(block, was, into, json, next);
      assert was[next..][1..] == was[next + 1..];
    }
    StillThere(block, was, into, json, next + 1);
    assert was[next..][2..] == was[next + 2..];
    next := next + 2;
  }

  /** `block` with `x` copied down to `into` and all behind it as it was. */
  ghost predicate Copied(block: array<byte>, was: bytes, start: bytes, into: nat, from: nat, json: nat)
    reads block
  {
    && |was| == block.Length
    && from <= json <= |was| && into <= json
    && block[into..] == was[into..]
    && block[..into] == start + was[from..json]
  }

  lemma NothingCopied(block: array<byte>, was: bytes, into: nat, json: nat)
    requires |was| == block.Length && into <= json <= |was| && block[into..] == was[into..]
    ensures Copied(block, was, block[..into], into, json, json)
  {
  }

  /** `*into++ = *json++` */
  method CopyByteAt(block: array<byte>, into: nat, json: nat, ghost was: bytes, ghost start: bytes, ghost from: nat)
    requires Copied(block, was, start, into, from, json) && json < |was|
    modifies block
    ensures Copied(block, was, start, into + 1, from, json + 1)
  {
    assert block[into..][json - into] == was[into..][json - into];
    block[into] := block[json];
    assert block[..into + 1] == old(block[..into]) + [was[json]];
    assert was[from..json + 1] == was[from..json] + [was[json]];
    Assoc(start, was[from..json], [was[json]]);
    assert block[into + 1..] == old(block[into..])[1..];
  }

  /** One byte of a string literal, with the backslash in front of it. */
  method CopyCharAt(block: array<byte>, into: nat, json: nat, ghost was: bytes, ghost start: bytes, ghost from: nat)
    returns (into': nat, json': nat)
    requires Copied(block, was, start, into, from, json)
    requires json < |was| == block.Length && block[json] == was[json] != QUOTE && StringEnd(was[json..]).Some?
    modifies block
    ensures Copied(block, was, start, into', from, json')
    ensures json < json' < |was| == block.Length && block[json'] == was[json'] == was[json'..][0]
    ensures into' - into == json' - json
    ensures StringEnd(was[json'..]).Some?
        && StringEnd(was[json..]) == Some(json' - json + StringEnd(was[json'..]).value)
  {
    hide Copied, StringEnd;
    StringEndStep(was, json);
    into', json' := into, json;
    if block[json'] == BACKSLASH {
      CopyByteAt(block, into', json', was, start, from);
      into', json' := into' + 1, json' + 1;
    }
    CopyByteAt(block, into', json', was, start, from);
    into', json' := into' + 1, json' + 1;
    Visible(block, was, start, into', from, json');
  }

  /** A string literal with its quotes. */
  method CopyStringAt(block: array<byte>, into: nat, json: nat, ghost was: bytes) returns (into': nat, json': nat)
    requires json < |was| && was[json] == QUOTE && StringEnd(was[json + 1..]).Some?
    requires |was| == block.Length && into <= json && block[into..] == was[into..]
    modifies block
    ensures json' == json + StringEnd(was[json + 1..]).value + 2
    ensures Copied(block, was, old(block[..into]), into', json, json')
    ensures into' - into == json' - json
  {
    hide Copied, StringEnd;
    ghost var start := block[..into];
    NothingCopied(block, was, into, json);
    CopyByteAt(block, into, json, was, start, json);
    into', json' := into + 1, json + 1;
    ghost var n := StringEnd(was[json + 1..]).value;
    Visible(block, was, start, into', json, json');
    while block[json'] != NUL && block[json'] != QUOTE
      invariant Copied(block, was, start, into', json, json') && into' - into == json' - json
      invariant json < json' < |was| && block[json'] == was[json'] == was[json'..][0]
      invariant StringEnd(was[json'..]) == Some(n - (json' - json - 1))
      decreases |was| - json'
    {
      into', json' := CopyCharAt(block, into', json', was, start, json);
    }
    StringEndHere(was[json'..]);
    CopyByteAt(block, into', json', was, start, json);
    into', json' := into' + 1, json' + 1;
  }

  lemma StringEndHere(s: bytes)
    requires StringEnd(s).Some?
    ensures s[0] != NUL && (s[0] == QUOTE ==> StringEnd(s) == Some(0))
  {
  }

  lemma StringEndStep(was: bytes, i: nat)
    requires i < |was| && was[i] != QUOTE && StringEnd(was[i..]).Some?
    ensures var step := if was[i] == BACKSLASH then 2 else 1;
            && i + step < |was|
            && StringEnd(was[i..]) == Some(step + StringEnd(was[i + step..]).value)
            && StringEnd(was[i + step..]).Some?
  {
    var step := if was[i] == BACKSLASH then 2 else 1;
    assert was[i..][step..] == was[i + step..];
  }

  lemma Visible(block: array<byte>, was: bytes, start: bytes, into: nat, from: nat, json: nat)
    requires Copied(block, was, start, into, from, json) && json < |was|
    ensures block[json] == was[json] == was[json..][0]
  {
    assert block[into..][json - into] == was[into..][json - into];
  }

  lemma Progress(block: array<byte>, was: bytes, start: bytes, into: nat, from: nat, json: nat)
    requires Copied(block, was, start, into, from, json) && Minify(was).Some?
    requires Minify(was) == Prepend(start, Minify(was[from..]))
    requires Minify(was[from..]) == Prepend(was[from..json], Minify(was[json..]))
    ensures Underway(block, was, into, json)
  {
    if Minify(was[json..]).Some? {
      Assoc(start, was[from..json], Minify(was[json..]).value);
    }
  }

  /** The minified text replaces the text in the buffer, for every text that is not left in the
      middle of a string or a block comment; the rest of the buffer is left alone. */
  method MinifyInPlace(block: array<byte>)
    requires EndsClosed(block[..])
    modifies block
    ensures Minify(old(block[..])).Some?
    ensures var m := Minify(old(block[..])).value;
            && |m| <= block.Length
            && block[..|m|] == m
            && block[|m|..] == old(block[|m|..])
  {
    hide Minify, Copied, EndsClosed;
    ghost var was := block[..];
    StaysIffClosed(was);
    var into: nat, json: nat := 0, 0;
    Start(block, was);
    NotAtEnd(block, was, into, json);
    while block[json] != NUL
      invariant Underway(block, was, into, json)
      invariant json < |was| && block[json] == was[json] == was[json..][0]
      decreases |was| - json
    {
      NotLast(was[json..]);
      StillThere(block, was, into, json, json + 1);
      assert was[json..][1] == was[json + 1];
      if block[json] == SPACE || block[json] == TAB || block[json] == CR || block[json] == LF {
        Dropped(block, was, into, json);
        json := json + 1;
      } else if block[json] == SLASH && block[json + 1] == SLASH {
        json := SkipLineAt(block, json, was, into);
      } else if block[json] == SLASH && block[json + 1] == STAR {
        json := SkipCommentAt(block, json, was, into);
      } else {
        into, json := CopyTokenAt(block, into, json, was);
      }
      NotAtEnd(block, was, into, json);
    }
    Finish(block, was, into, json);
    block[into] := NUL;
    assert block[..into + 1] == Minify(was).value;
    assert block[into + 1..] == was[into + 1..];
  }

  lemma Start(block: array<byte>, was: bytes)
    requires was == block[..] && Minify(was).Some?
    ensures Underway(block, was, 0, 0)
  {
    assert was[0..] == was && block[..0] == [] && [] + Minify(was).value == Minify(was).value;
  }

  lemma Dropped(block: array<byte>, was: bytes, into: nat, json: nat)
    requires Underway(block, was, into, json) && json < |was| && IsDropped(was[json])
    ensures Underway(block, was, into, json + 1)
  {
    assert was[json..][0] == was[json] && was[json..][1..] == was[json + 1..];
  }

  lemma Finish(block: array<byte>, was: bytes, into: nat, json: nat)
    requires Underway(block, was, into, json) && json < |was| && was[json] == NUL
    ensures Minify(was) == Some(block[..into] + [NUL])
  {
    assert was[json..][0] == NUL;
  }

  lemma TokenMinified(was: bytes, json: nat)
    requires json + 1 < |was| && was[json] != NUL && !IsDropped(was[json]) && Minify(was[json..]).Some?
    requires !(was[json] == SLASH && (was[json + 1] == SLASH || was[json + 1] == STAR))
    ensures was[json] == QUOTE ==>
              && StringEnd(was[json + 1..]).Some?
              && var next := json + StringEnd(was[json + 1..]).value + 2;
                 next <= |was| && Minify(was[json..]) == Prepend(was[json..next], Minify(was[next..]))
    ensures was[json] != QUOTE ==> Minify(was[json..]) == Prepend(was[json..json + 1], Minify(was[json + 1..]))
  {
    var rest := was[json..];
    assert rest[0] == was[json] && rest[1] == was[json + 1] && rest[1..] == was[json + 1..];
    if was[json] == QUOTE {
      var n := StringEnd(rest[1..]).value + 2;
      assert rest[..n] == was[json..json + n] && rest[n..] == was[json + n..];
    } else {
      assert [rest[0]] == was[json..json + 1];
    }
  }

  /** A string literal or any other byte that is copied. */
  method CopyTokenAt(block: array<byte>, into: nat, json: nat, ghost was: bytes) returns (into': nat, json': nat)
    requires Underway(block, was, into, json)
    requires json + 1 < |was| && block[json] == was[json] != NUL && !IsDropped(was[json])
    requires !(was[json] == SLASH && (was[json + 1] == SLASH || was[json + 1] == STAR))
    modifies block
    ensures Underway(block, was, into', json') && into' <= json' && json < json'
  {
    hide StringEnd, Copied, Minify;
    ghost var start := block[..into];
    TokenMinified(was, json);
    assert Minify(was) == Prepend(start, Minify(was[json..]));
    if block[json] == QUOTE {
      into', json' := CopyStringAt(block, into, json, was);
      Progress(block, was, start, into', json, json');
    } else {
      NothingCopied(block, was, into, json);
      CopyByteAt(block, into, json, was, start, json);
      into', json' := into + 1, json + 1;
      Progress(block, was, start, into', json, json');
    }
  }
}
