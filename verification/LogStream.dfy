/** What a reader of the log finds: the bytes of the stream, without the entries behind them. */
module LogStream {
  import opened Bytes
  import opened LogAccounting
  import opened LogSystem
  import NumberCodec

  function Literal(s: string): bytes
    requires forall i | 0 <= i < |s| :: s[i] as int < 0x100
  {
    seq(|s|, i requires 0 <= i < |s| => s[i] as byte)
  }

  /** Decimal digits for `n`, without a leading zero. */
  ghost predicate SpellsNumber(d: bytes, n: nat) {
    && d != [] && (forall i | 0 <= i < |d| :: NumberCodec.IsDigit(d[i]))
    && NumberCodec.NatOf(d) == n && (d[0] == DIGIT_0 ==> |d| == 1)
  }

  /** What stands in front of a line behind `k` lost ones. */
  ghost predicate Announces(b: bytes, k: nat) {
    if k == 0 then b == []
    else exists d :: SpellsNumber(d, k) && b == Literal("...Lost ") + d + Literal(" lines here...\n")
  }

  /** How many pushes have been rejected since the last accepted one. */
  function LostSince(pushes: seq<Outcome>): nat {
    if pushes == [] || pushes[|pushes| - 1].Accepted? then 0 else 1 + LostSince(pushes[..|pushes| - 1])
  }

  /** `b` is the stream of the pushes: each accepted line, behind the number of the ones that were
      lost since the line in front of it, if there are any. */
  ghost predicate StreamOf(b: bytes, pushes: seq<Outcome>)
    decreases |pushes|
  {
    if pushes == [] then b == []
    else
      var front, last := pushes[..|pushes| - 1], pushes[|pushes| - 1];
      match last
      case Rejected => StreamOf(b, front)
      case Accepted(msg) =>
        exists before, marker :: StreamOf(before, front) && Announces(marker, LostSince(front))
          && b == before + marker + msg
  }

  lemma HeadAndTail()
    ensures Literal("...Lost ") == LOST_HEAD && Literal(" lines here...\n") == LOST_TAIL
  {
  }

  /** The marker for `k` lost lines is the text of the code with the number `k` in it. */
  lemma MarkerAnnounces(k: nat)
    ensures Announces(PendingMarker(k), k)
  {
    if k > 0 {
      NumberCodec.DigitsAreDigits(k);
      NumberCodec.NoLeadingZero(k);
      HeadAndTail();
      hide Literal, NumberCodec.Digits, NumberCodec.NatOf;
      assert SpellsNumber(NumberCodec.Digits(k), k);
    }
  }

  lemma {:induction false} LostIsPending(pushes: seq<Outcome>)
    ensures LostSince(pushes) == Replay(pushes).pending
  {
    if pushes != [] {
      LostIsPending(pushes[..|pushes| - 1]);
    }
  }

  /** The lines and markers of any pushes are their stream. */
  lemma {:induction false} RenderIsStream(pushes: seq<Outcome>)
    ensures StreamOf(Render(Replay(pushes).entries), pushes)
  {
    hide Announces, Render, Replay, PendingMarker;
    if pushes == [] {
      NothingRendered();
    } else {
      var front, last := pushes[..|pushes| - 1], pushes[|pushes| - 1];
      assert pushes == front + [last];
      RenderIsStream(front);
      ReplayPush(front, last);
      LostIsPending(front);
      var before, marker := Render(Replay(front).entries), PendingMarker(Replay(front).pending);
      if last.Accepted? {
        MarkerAnnounces(Replay(front).pending);
        Assoc(before, marker, last.msg);
        assert StreamOf(before, front) && Announces(marker, LostSince(front));
      } else {
        assert before + [] == before;
      }
    }
  }

  lemma NothingRendered()
    ensures Render(Replay([]).entries) == []
  {
  }

  // ---------- There is only one such stream ----------

  lemma {:induction false} SameDigits(d: bytes, e: bytes)
    requires |d| == |e| && (forall i | 0 <= i < |d| :: NumberCodec.IsDigit(d[i]) && NumberCodec.IsDigit(e[i]))
    requires NumberCodec.NatOf(d) == NumberCodec.NatOf(e)
    ensures d == e
  {
    if d != [] {
      var k := |d| - 1;
      assert NumberCodec.IsDigit(d[k]) && NumberCodec.IsDigit(e[k]);
      SameDigits(d[..k], e[..k]);
      assert d == d[..k] + [d[k]] && e == e[..k] + [e[k]];
    }
  }

  lemma {:induction false} MoreDigits(d: bytes)
    requires d != [] && (forall i | 0 <= i < |d| :: NumberCodec.IsDigit(d[i])) && d[0] != DIGIT_0
    ensures NumberCodec.PowerOfTen(|d| - 1) <= NumberCodec.NatOf(d) < NumberCodec.PowerOfTen(|d|)
  {
    assert NumberCodec.IsDigit(d[|d| - 1]);
    if |d| > 1 {
      MoreDigits(d[..|d| - 1]);
    } else {
      assert d[..0] == [];
    }
  }

  lemma {:induction false} PowersGrow(a: nat, b: nat)
    requires a <= b
    ensures NumberCodec.PowerOfTen(a) <= NumberCodec.PowerOfTen(b)
  {
    if a < b {
      PowersGrow(a, b - 1);
    }
  }

  /** A number is spelled in one way only. */
  lemma OneSpelling(d: bytes, e: bytes, n: nat)
    requires SpellsNumber(d, n) && SpellsNumber(e, n) && n > 0
    ensures d == e
  {
    ZeroIsZero(d, n);
    ZeroIsZero(e, n);
    MoreDigits(d);
    MoreDigits(e);
    if |d| < |e| {
      PowersGrow(|d|, |e| - 1);
    } else if |e| < |d| {
      PowersGrow(|e|, |d| - 1);
    } else {
      SameDigits(d, e);
    }
  }

  lemma OneDigit(d: bytes)
    requires |d| == 1 && NumberCodec.IsDigit(d[0])
    ensures NumberCodec.NatOf(d) == (d[0] - DIGIT_0) as nat
  {
    assert d[..0] == [];
    assert NumberCodec.NatOf([]) == 0;
  }

  lemma ZeroIsZero(d: bytes, n: nat)
    requires SpellsNumber(d, n) && n > 0
    ensures d[0] != DIGIT_0
  {
    if |d| == 1 {
      OneDigit(d);
    }
  }

  lemma OneAnnouncement(b: bytes, c: bytes, k: nat)
    requires Announces(b, k) && Announces(c, k)
    ensures b == c
  {
    if k > 0 {
      hide SpellsNumber;
      var d :| SpellsNumber(d, k) && b == Literal("...Lost ") + d + Literal(" lines here...\n");
      var e :| SpellsNumber(e, k) && c == Literal("...Lost ") + e + Literal(" lines here...\n");
      OneSpelling(d, e, k);
    }
  }

  /** The pushes determine the stream. */
  lemma {:induction false} OneStream(b: bytes, c: bytes, pushes: seq<Outcome>)
    requires StreamOf(b, pushes) && StreamOf(c, pushes)
    ensures b == c
    decreases |pushes|
  {
    hide Announces;
    if pushes != [] {
      var front, last := pushes[..|pushes| - 1], pushes[|pushes| - 1];
      if last.Accepted? {
        var x, m :| StreamOf(x, front) && Announces(m, LostSince(front)) && b == x + m + last.msg;
        var y, n :| StreamOf(y, front) && Announces(n, LostSince(front)) && c == y + n + last.msg;
        OneStream(x, y, front);
        OneAnnouncement(m, n, LostSince(front));
      } else {
        OneStream(b, c, front);
      }
    }
  }

  // ---------- The stream of the log system ----------

  /** In every interleaving, the bytes that were written, then the rest of the ring, then what the
      holder of the mutex is about to store, are the stream of the pushes. */
  lemma LogIsStream(buffer: bytes, events: seq<Event>)
    requires |buffer| >= 10
    ensures var s := Run(buffer, events);
            && InBounds(s) && InFlight(s.phase) <= |Contents(s)|
            && StreamOf(s.written + Contents(s)[InFlight(s.phase)..] + InHand(s), s.pushes)
  {
    hide *;
    NothingLostOrReordered(buffer, events);
    RenderIsStream(Run(buffer, events).pushes);
  }

  /** At rest with an empty ring, the log is the stream. */
  lemma LogAtRest(buffer: bytes, events: seq<Event>)
    requires |buffer| >= 10
    ensures var s := Run(buffer, events);
            s.job.None? && s.phase.Sleeping? && s.start == s.end ==>
              StreamOf(s.written, s.pushes) && s.lostLine == LostSince(s.pushes)
  {
    hide *;
    AllWritten(buffer, events);
    RenderIsStream(Run(buffer, events).pushes);
    LostIsPending(Run(buffer, events).pushes);
  }
}
