/** The writing thread left to itself: what one poll does as a whole, and that everything in the
    buffer gets written. */
module LogDrain {
  import opened Bytes
  import opened LogCadence
  import opened LogRing
  import opened LogSystem
  import opened LogStream

  /** `k` steps of the writing thread. */
  function Consumed(s: State, k: nat): State {
    if k == 0 then s else Next(Consumed(s, k - 1), Consume)
  }

  /** The writing thread alone leads from one state to the other. */
  ghost predicate Alone(s: State, t: State) {
    exists k: nat :: Consumed(s, k) == t
  }

  lemma {:induction false} ConsumedMore(s: State, j: nat, k: nat)
    ensures Consumed(Consumed(s, j), k) == Consumed(s, j + k)
  {
    hide Next;
    if k > 0 {
      ConsumedMore(s, j, k - 1);
    }
  }

  lemma Here(s: State)
    ensures Alone(s, s)
  {
    assert Consumed(s, 0) == s;
  }

  lemma Further(s: State, t: State)
    requires Alone(s, t)
    ensures Alone(s, Next(t, Consume))
  {
    var k: nat :| Consumed(s, k) == t;
    assert Consumed(s, k + 1) == Next(t, Consume);
  }

  lemma Onward(s: State, t: State, u: State)
    requires Alone(s, t) && Alone(t, u)
    ensures Alone(s, u)
  {
    var j: nat :| Consumed(s, j) == t;
    var k: nat :| Consumed(t, k) == u;
    ConsumedMore(s, j, k);
    assert Consumed(s, j + k) == u;
  }

  // ---------- One poll ----------

  /** The interval once `size` of `n` bytes have been written: 5 ms slower behind less than a tenth,
      the fastest behind more than a third, 5 ms faster behind more than a quarter. */
  function NewInterval(interval: nat, size: nat, n: nat): nat {
    if size < n / 10 then (if interval < 25 then interval + 5 else interval)
    else if size > n / 3 then 5
    else if size > n / 4 && interval > 5 then interval - 5
    else interval
  }

  /** What a whole poll does: an empty buffer slows it down to 25 ms; less than a tenth may wait for
      less than a second; everything else is written, and the buffer is empty. */
  ghost predicate PollDone(s: State, t: State)
    requires InBounds(s)
  {
    var (n, size, c) := (|s.buffer|, Used(s.start, s.end, |s.buffer|), s.cadence);
    if size == 0 then t == s.(cadence := Cadence(25, c.lastDuration))
    else if size < n / 10 && c.lastDuration + c.interval < 1000 then
      t == s.(cadence := Cadence(c.interval, c.lastDuration + c.interval), deferred := s.deferred + 1)
    else
      t == s.(start := s.end, written := s.written + Contents(s), deferred := 0,
          cadence := Cadence(NewInterval(c.interval, size, n), 0))
  }

  /** The two positions are read. */
  lemma ReadPositions(s: State) returns (b: State)
    requires InBounds(s) && s.phase.Sleeping?
    ensures Alone(s, b) && b == s.(phase := PollBoth(s.start, s.end))
  {
    hide Alone;
    Here(s);
    Further(s, s);
    var a := Next(s, Consume);
    Further(s, a);
    b := Next(a, Consume);
  }

  /** The bytes are written one by one. */
  lemma {:induction false} WriteAll(s: State) returns (t: State)
    requires InBounds(s) && s.phase.Writing?
    requires var (size, done) := (Used(s.start, s.end, |s.buffer|), s.phase.done);
             s.phase == Writing(s.start, s.end, size, done) && done <= size
    ensures Alone(s, t)
    ensures t == s.(written := s.written + Contents(s)[s.phase.done..], phase := s.phase.(done := s.phase.size))
    decreases s.phase.size - s.phase.done
  {
    hide Alone;
    Here(s);
    var k, size := s.phase.done, s.phase.size;
    if k == size {
      assert s.written + Contents(s)[k..] == s.written;
      t := s;
    } else {
      WriteSlotIs(s.start, s.end, k, |s.buffer|);
      Further(s, s);
      var u := Next(s, Consume);
      OneWritten(s, u);
      t := WriteAll(u);
      Onward(s, u, t);
    }
  }

  lemma OneWritten(s: State, u: State)
    requires InBounds(s) && s.phase.Writing? && u == Next(s, Consume)
    requires var (size, done) := (Used(s.start, s.end, |s.buffer|), s.phase.done);
             s.phase == Writing(s.start, s.end, size, done) && done < size
    ensures var c := Contents(s);
            && u == s.(written := s.written + [c[s.phase.done]], phase := s.phase.(done := s.phase.done + 1))
            && Contents(u) == c
            && s.written + c[s.phase.done..] == u.written + c[s.phase.done + 1..]
  {
    var k := s.phase.done;
    WriteSlotIs(s.start, s.end, k, |s.buffer|);
    var c := Contents(s);
    assert c[k..] == [c[k]] + c[k + 1..];
    Assoc(s.written, [c[k]], c[k + 1..]);
  }

  /** buffStart moves, nothing has come in between, and the thread sleeps again. */
  lemma EndPoll(s: State) returns (t: State)
    requires InBounds(s)
    requires var size := Used(s.start, s.end, |s.buffer|); s.phase == Writing(s.start, s.end, size, size)
    ensures Alone(s, t)
    ensures t == s.(start := s.end, phase := Sleeping,
                cadence := AfterWrite(s.cadence, Used(s.start, s.end, |s.buffer|), |s.buffer|))
  {
    hide Alone, AfterWrite;
    var n, size := |s.buffer|, Used(s.start, s.end, |s.buffer|);
    Here(s);
    Further(s, s);
    var a := Next(s, Consume);
    assert a == s.(phase := Wrote(size), cadence := AfterWrite(s.cadence, size, n));
    Further(s, a);
    var b := Next(a, Consume);
    WrapIsRemainder(s.start + size, n);
    assert b == a.(start := s.end, phase := Again);
    Further(s, b);
    var c := Next(b, Consume);
    assert c == b.(phase := AgainStart(s.end));
    Further(s, c);
    t := Next(c, Consume);
  }

  lemma NewIntervalIs(c: Cadence, size: nat, n: nat)
    ensures AfterWrite(c, size, n) == Cadence(NewInterval(c.interval, size, n), c.lastDuration)
  {
  }

  lemma PollDecides(s: State, b: State)
    requires InBounds(s) && s.phase.Sleeping? && b == s.(phase := PollBoth(s.start, s.end))
    ensures var (n, size, c) := (|s.buffer|, Used(s.start, s.end, |s.buffer|), s.cadence);
            Next(b, Consume) ==
              if size == 0 then s.(cadence := Cadence(25, c.lastDuration))
              else if size < n / 10 && c.lastDuration + c.interval < 1000 then
                s.(cadence := Cadence(c.interval, c.lastDuration + c.interval), deferred := s.deferred + 1)
              else s.(phase := Writing(s.start, s.end, size, 0), cadence := Cadence(c.interval, 0), deferred := 0)
  {
    hide Used;
  }

  /** One poll while nobody pushes, from sleep to sleep. */
  lemma Poll(s: State) returns (t: State)
    requires InBounds(s) && s.phase.Sleeping?
    ensures Alone(s, t) && PollDone(s, t)
  {
    hide Alone, Next, Used, NewInterval;
    var b := ReadPositions(s);
    PollDecides(s, b);
    Further(s, b);
    var c := Next(b, Consume);
    var n, size := |s.buffer|, Used(s.start, s.end, |s.buffer|);
    t := c;
    if size > 0 && !(size < n / 10 && s.cadence.lastDuration + s.cadence.interval < 1000) {
      assert Contents(c)[0..] == Contents(s);
      var d := WriteAll(c);
      var e := EndPoll(d);
      NewIntervalIs(d.cadence, size, n);
      Onward(s, c, d);
      Onward(s, d, e);
      t := e;
    }
  }

  // ---------- Everything gets written ----------

  /** From any pace the writing thread, left to itself, writes what is in the buffer. */
  lemma {:induction false} Drains(s: State) returns (t: State)
    requires InBounds(s) && s.phase.Sleeping? && Paced(s.cadence)
    ensures Alone(s, t) && t.phase.Sleeping? && t.start == t.end == s.end
    ensures t.written == s.written + Contents(s) && t.pushes == s.pushes && t.job == s.job
    decreases 1000 - s.cadence.lastDuration
  {
    hide Alone;
    var u := Poll(s);
    t := u;
    if s.start == s.end {
      assert Contents(s) == [];
      assert s.written + [] == s.written;
    } else if u.start != u.end {
      t := Drains(u);
      Onward(s, u, t);
    }
  }

  /** Whenever nobody pushes and the writing thread sleeps, it will, without any further push, have
      written the whole stream of the pushes. */
  lemma EverythingGetsOut(buffer: bytes, events: seq<Event>)
    requires |buffer| >= 10
    ensures var s := Run(buffer, events);
            s.job.None? && s.phase.Sleeping? ==>
              exists k: nat ::
                var t := Consumed(s, k);
                t.phase.Sleeping? && t.start == t.end && t.pushes == s.pushes && StreamOf(t.written, s.pushes)
  {
    var s := Run(buffer, events);
    RunKeeps(buffer, events);
    LogIsStream(buffer, events);
    hide Run, Inv, StreamOf, Contents;
    if s.job.None? && s.phase.Sleeping? {
      PacedInBounds(s);
      assert s.written + Contents(s)[0..] + [] == s.written + Contents(s);
      var t := Drains(s);
      var k: nat :| Consumed(s, k) == t;
    }
  }

  lemma PacedInBounds(s: State)
    requires Inv(s)
    ensures InBounds(s) && Paced(s.cadence)
  {
  }

  // ---------- The pace ----------

  /** `k` polls in a row, each behind a load of `size` bytes that it writes. */
  function Paces(interval: nat, size: nat, n: nat, k: nat): nat {
    if k == 0 then interval else NewInterval(Paces(interval, size, n, k - 1), size, n)
  }

  /** From any of the five intervals, small loads lead to the slowest one and large ones to the
      fastest, four polls later at the latest; one load of more than a third is enough. */
  lemma LoadSetsPace(interval: nat, size: nat, n: nat)
    requires interval in {5, 10, 15, 20, 25}
    ensures size < n / 10 ==> Paces(interval, size, n, 4) == 25
    ensures n / 10 <= size && n / 4 < size ==> Paces(interval, size, n, 4) == 5
    ensures n / 10 <= size && n / 3 < size ==> Paces(interval, size, n, 1) == 5
    ensures n / 10 <= size <= n / 4 ==> Paces(interval, size, n, 1) == interval
  {
    hide Paces;
    PacesUp(interval, size, n);
  }

  lemma PacesUp(interval: nat, size: nat, n: nat)
    ensures Paces(interval, size, n, 1) == NewInterval(interval, size, n)
    ensures Paces(interval, size, n, 4) ==
            NewInterval(NewInterval(NewInterval(NewInterval(interval, size, n), size, n), size, n), size, n)
  {
    hide NewInterval;
    assert Paces(interval, size, n, 0) == interval;
    assert Paces(interval, size, n, 1) == NewInterval(interval, size, n);
    assert Paces(interval, size, n, 2) == NewInterval(NewInterval(interval, size, n), size, n);
  }
}
