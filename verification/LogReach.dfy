/** The bound on postponed polls is met by an interleaving of the log system. */
module LogReach {
  import opened Bytes
  import opened LogAccounting
  import opened LogCadence
  import opened LogRing
  import opened LogSystem

  /** Some interleaving leads to the state. */
  ghost predicate Reached(buffer: bytes, s: State) {
    exists events :: Run(buffer, events) == s
  }

  lemma Advance(buffer: bytes, s: State, e: Event)
    requires Reached(buffer, s)
    ensures Reached(buffer, Next(s, e))
  {
    var events :| Run(buffer, events) == s;
    assert (events + [e])[..|events|] == events;
    assert Run(buffer, events + [e]) == Next(s, e);
  }

  /** The copying of a line, byte by byte. */
  lemma {:induction false} CopyLineOut(buffer: bytes, s: State, job: Job, copied: nat) returns (t: State)
    requires Reached(buffer, s) && InBounds(s) && s.job == Some(job)
    requires job.stage.CopyLine? && job.stage == CopyLine(job.stage.start, s.end, copied) && copied <= |job.msg|
    ensures Reached(buffer, t) && |t.buffer| == |s.buffer|
    ensures t == At(s.(buffer := t.buffer), job, CopyLine(job.stage.start, s.end, |job.msg|))
    decreases |job.msg| - copied
  {
    if copied == |job.msg| {
      t := s;
    } else {
      Advance(buffer, s, Produce);
      var u := Next(s, Produce);
      t := CopyLineOut(buffer, u, u.job.value, copied + 1);
    }
  }

  /** The copying of a marker. */
  lemma {:induction false} CopyMarkerOut(buffer: bytes, s: State, job: Job, text: bytes, copied: nat) returns (t: State)
    requires Reached(buffer, s) && InBounds(s) && s.job == Some(job)
    requires job.stage.CopyMarker? && job.stage == CopyMarker(job.stage.start, s.end, text, copied) && copied <= |text|
    ensures Reached(buffer, t) && |t.buffer| == |s.buffer|
    ensures t == At(s.(buffer := t.buffer), job, CopyMarker(job.stage.start, s.end, text, |text|))
    decreases |text| - copied
  {
    hide Reached;
    if copied == |text| {
      t := s;
    } else {
      Advance(buffer, s, Produce);
      var u := Next(s, Produce);
      t := CopyMarkerOut(buffer, u, u.job.value, text, copied + 1);
    }
  }

  /** The condition of pushLogBuffer: the marker and the line leave more than one byte free. */
  predicate Fits(s: State, msg: bytes)
    requires InBounds(s)
  {
    Used(s.start, s.end, |s.buffer|) + |PendingMarker(s.lostLine)| + |msg| < |s.buffer| - 1
  }

  /** The first half of a push: the lock, the two positions and the decision. */
  lemma DecideToPush(buffer: bytes, s: State, producer: nat, msg: bytes) returns (t: State)
    requires Reached(buffer, s) && InBounds(s) && s.job.None?
    ensures Reached(buffer, t)
    ensures Fits(s, msg) ==>
              var marker := PendingMarker(s.lostLine);
              var stage := if s.lostLine > 0 then CopyMarker(s.start, s.end, marker, 0) else LineNext;
              t == s.(job := Some(Job(producer, msg, stage)), pushes := s.pushes + [Accepted(msg)])
    ensures !Fits(s, msg) ==>
              t == s.(job := Some(Job(producer, msg, Leaving)), pushes := s.pushes + [Rejected],
                  lostLine := s.lostLine + 1)
  {
    hide Reached, PendingMarker, Used;
    var a := Next(s, Lock(producer, msg));
    Advance(buffer, s, Lock(producer, msg));
    Advance(buffer, a, Produce);
    var b := Next(a, Produce);
    Advance(buffer, b, Produce);
    var c := Next(b, Produce);
    assert c.job == Some(Job(producer, msg, BothRead(s.start, s.end)));
    Advance(buffer, c, Produce);
    t := Next(c, Produce);
    NoMarker();
  }

  lemma NoMarker()
    ensures PendingMarker(0) == []
  {
  }

  /** The marker is stored and lostLine reset. */
  lemma StoreMarker(buffer: bytes, s: State, job: Job, start: nat, marker: bytes) returns (t: State)
    requires Reached(buffer, s) && InBounds(s) && s.job == Some(job) && job.stage == CopyMarker(start, s.end, marker, 0)
    ensures Reached(buffer, t) && |t.buffer| == |s.buffer| && InBounds(t)
    ensures t == At(s.(buffer := t.buffer, end := (s.end + |marker|) % |s.buffer|, accepted := s.accepted + marker,
                    lostLine := 0), job, LineNext)
  {
    hide Reached;
    var g := CopyMarkerOut(buffer, s, job, marker, 0);
    Advance(buffer, g, Produce);
    var h := Next(g, Produce);
    assert h.job == Some(job.(stage := MarkerStored));
    Advance(buffer, h, Produce);
    t := Next(h, Produce);
  }

  /** The line is stored and the mutex released. */
  lemma StoreLine(buffer: bytes, s: State, job: Job) returns (t: State)
    requires Reached(buffer, s) && InBounds(s) && s.job == Some(job) && job.stage == LineNext
    ensures Reached(buffer, t) && |t.buffer| == |s.buffer| && InBounds(t)
    ensures t == s.(buffer := t.buffer, end := (s.end + |job.msg|) % |s.buffer|, accepted := s.accepted + job.msg,
                job := None)
  {
    hide Reached;
    Advance(buffer, s, Produce);
    var e := Next(s, Produce);
    Advance(buffer, e, Produce);
    var f := Next(e, Produce);
    assert f.job == Some(job.(stage := CopyLine(s.start, s.end, 0)));
    var g := CopyLineOut(buffer, f, f.job.value, 0);
    Advance(buffer, g, Produce);
    var h := Next(g, Produce);
    assert h.job == Some(job.(stage := Leaving));
    Advance(buffer, h, Produce);
    t := Next(h, Produce);
  }

  /** A push of a line that fits behind the marker for the lost ones, from the lock to the release:
      both are stored, and nothing counts as lost any more. */
  lemma PushFits(buffer: bytes, s: State, producer: nat, msg: bytes) returns (t: State)
    requires Reached(buffer, s) && InBounds(s) && s.job.None? && Fits(s, msg)
    ensures Reached(buffer, t) && |t.buffer| == |s.buffer|
    ensures var (n, marker) := (|s.buffer|, PendingMarker(s.lostLine));
            t == s.(buffer := t.buffer, end := ((s.end + |marker|) % n + |msg|) % n, lostLine := 0,
                accepted := s.accepted + marker + msg, pushes := s.pushes + [Accepted(msg)])
  {
    hide Reached, Used, PendingMarker, Next;
    NoMarker();
    var d := DecideToPush(buffer, s, producer, msg);
    var e := FirstTheMarker(buffer, s, d, d.job.value);
    t := StoreLine(buffer, e, e.job.value);
  }

  lemma FirstTheMarker(buffer: bytes, s: State, d: State, job: Job) returns (e: State)
    requires Reached(buffer, d) && InBounds(s) && d == s.(job := Some(job), pushes := d.pushes)
    requires var marker := PendingMarker(s.lostLine);
             job.stage == if s.lostLine > 0 then CopyMarker(s.start, s.end, marker, 0) else LineNext
    ensures var (n, marker) := (|s.buffer|, PendingMarker(s.lostLine));
            && Reached(buffer, e) && |e.buffer| == n && InBounds(e)
            && e == s.(buffer := e.buffer, end := (s.end + |marker|) % n, accepted := s.accepted + marker,
                   lostLine := 0, job := Some(job.(stage := LineNext)), pushes := d.pushes)
  {
    hide Reached, Used, PendingMarker, Next;
    if s.lostLine > 0 {
      e := StoreMarker(buffer, d, job, s.start, PendingMarker(s.lostLine));
    } else {
      NoMarker();
      WrapIsRemainder(s.end, |s.buffer|);
      assert s.accepted + [] == s.accepted;
      e := d;
    }
  }

  /** A push of a line that does not fit: it is counted, and nothing else changes. */
  lemma PushLost(buffer: bytes, s: State, producer: nat, msg: bytes) returns (t: State)
    requires Reached(buffer, s) && InBounds(s) && s.job.None? && !Fits(s, msg)
    ensures Reached(buffer, t) && t == s.(lostLine := s.lostLine + 1, pushes := s.pushes + [Rejected])
  {
    hide Reached, Used, PendingMarker;
    var d := DecideToPush(buffer, s, producer, msg);
    Advance(buffer, d, Produce);
    t := Next(d, Produce);
  }

  /** In every interleaving: the holder of the mutex that has read the positions accepts its line
      exactly when the marker for the lost ones and the line leave more than one byte free between
      them, and then goes on with the marker or the line; otherwise the line is counted as lost. */
  lemma DecidesByRoom(buffer: bytes, events: seq<Event>)
    requires |buffer| >= 10
    ensures var s := Run(buffer, events);
            s.job.Some? && s.job.value.stage.BothRead? ==>
              var BothRead(start, end) := s.job.value.stage;
              var (n, msg, t) := (|buffer|, s.job.value.msg, Run(buffer, events + [Produce]));
              && start < n && end == s.end < n && |s.buffer| == n
              && if Used(start, end, n) + |PendingMarker(s.lostLine)| + |msg| < n - 1 then
                   && t.pushes == s.pushes + [Accepted(msg)] && t.lostLine == s.lostLine && t.job.Some?
                   && t.job.value.stage ==
                        if s.lostLine > 0 then CopyMarker(start, end, PendingMarker(s.lostLine), 0) else LineNext
                 else
                   && t.pushes == s.pushes + [Rejected] && t.lostLine == s.lostLine + 1 && t.job.Some?
                   && t.job.value.stage == Leaving
  {
    var s := Run(buffer, events);
    assert (events + [Produce])[..|events|] == events;
    assert Run(buffer, events + [Produce]) == Next(s, Produce);
    RunKeeps(buffer, events);
    hide Run, Inv;
    InvParts(s);
    if s.job.Some? && s.job.value.stage.BothRead? {
      hide PendingMarker;
      NoMarker();
    }
  }

  /** The writing of what a poll has found, byte by byte. */
  lemma {:induction false} WriteOut(buffer: bytes, s: State) returns (t: State)
    requires Reached(buffer, s) && InBounds(s) && s.phase.Writing?
    requires var (start, end, size, done) := (s.phase.start, s.phase.end, s.phase.size, s.phase.done);
             start < |s.buffer| && end < |s.buffer| && size == Used(start, end, |s.buffer|) && done <= size
    ensures Reached(buffer, t)
    ensures t == s.(written := t.written, phase := s.phase.(done := s.phase.size))
    decreases s.phase.size - s.phase.done
  {
    if s.phase.done == s.phase.size {
      t := s;
    } else {
      WriteSlotIs(s.phase.start, s.phase.end, s.phase.done, |s.buffer|);
      Advance(buffer, s, Consume);
      t := WriteOut(buffer, Next(s, Consume));
    }
  }

  /** A poll that finds at least a tenth of the buffer decides to write. */
  lemma PollToWrite(buffer: bytes, s: State) returns (t: State)
    requires Reached(buffer, s) && InBounds(s) && s.phase.Sleeping?
    requires Used(s.start, s.end, |s.buffer|) >= |s.buffer| / 10 > 0
    ensures Reached(buffer, t)
    ensures t == s.(phase := Writing(s.start, s.end, Used(s.start, s.end, |s.buffer|), 0),
                cadence := s.cadence.(lastDuration := 0), deferred := 0)
  {
    hide Reached, Used;
    Advance(buffer, s, Consume);
    var a := Next(s, Consume);
    Advance(buffer, a, Consume);
    var b := Next(a, Consume);
    assert b == s.(phase := PollBoth(s.start, s.end));
    Advance(buffer, b, Consume);
    t := Next(b, Consume);
  }

  /** Everything is written: buffStart moves, and the poll ends. */
  lemma EndOfWrite(buffer: bytes, s: State) returns (t: State)
    requires Reached(buffer, s) && InBounds(s)
    requires var size := Used(s.start, s.end, |s.buffer|);
             s.phase == Writing(s.start, s.end, size, size) && size > |s.buffer| / 3
    ensures Reached(buffer, t)
    ensures t == s.(start := s.end, phase := Sleeping, cadence := s.cadence.(interval := MIN_INTERVAL))
  {
    hide Reached;
    var n, size := |s.buffer|, Used(s.start, s.end, |s.buffer|);
    Advance(buffer, s, Consume);
    var a := Next(s, Consume);
    assert a == s.(phase := Wrote(size), cadence := s.cadence.(interval := MIN_INTERVAL));
    Advance(buffer, a, Consume);
    var b := Next(a, Consume);
    WrapIsRemainder(s.start + size, n);
    assert b == a.(start := s.end, phase := Again);
    Advance(buffer, b, Consume);
    var c := Next(b, Consume);
    assert c == b.(phase := AgainStart(s.end));
    Advance(buffer, c, Consume);
    t := Next(c, Consume);
  }

  /** A poll that finds more than a third of the buffer writes it all and polls often from then on. */
  lemma FlushLarge(buffer: bytes, s: State) returns (t: State)
    requires Reached(buffer, s) && InBounds(s) && s.phase.Sleeping?
    requires Used(s.start, s.end, |s.buffer|) > |s.buffer| / 3
    ensures Reached(buffer, t)
    ensures t == s.(start := s.end, written := t.written, cadence := Cadence(MIN_INTERVAL, 0), deferred := 0)
  {
    hide Reached, Used;
    var c := PollToWrite(buffer, s);
    var d := WriteOut(buffer, c);
    t := EndOfWrite(buffer, d);
  }

  /** `k` more polls that find one byte and put off writing it. */
  lemma {:induction false} PutOff(buffer: bytes, s: State, k: nat) returns (t: State)
    requires Reached(buffer, s) && InBounds(s) && s.phase.Sleeping? && |s.buffer| >= 20
    requires Used(s.start, s.end, |s.buffer|) == 1
    requires s.cadence == Cadence(MIN_INTERVAL, MIN_INTERVAL * s.deferred) && s.deferred + k <= 199
    ensures Reached(buffer, t) && t.deferred == s.deferred + k
    decreases k
  {
    if k == 0 {
      t := s;
    } else {
      Advance(buffer, s, Consume);
      var a := Next(s, Consume);
      Advance(buffer, a, Consume);
      var b := Next(a, Consume);
      Advance(buffer, b, Consume);
      t := PutOff(buffer, Next(b, Consume), k - 1);
    }
  }

  lemma Beginning(buffer: bytes)
    ensures Reached(buffer, Init(buffer))
  {
    assert Run(buffer, []) == Init(buffer);
  }

  /** For any buffer of at least 20 bytes some interleaving postpones 199 times in a row. */
  lemma DeferralReached(buffer: bytes)
    requires |buffer| >= 20
    ensures exists events :: Run(buffer, events).deferred == 199
  {
    var d := DeferredState(buffer);
    var events :| Run(buffer, events) == d;
    hide Run;
    assert Run(buffer, events).deferred == 199;
  }

  lemma DeferredState(buffer: bytes) returns (d: State)
    requires |buffer| >= 20
    ensures Reached(buffer, d) && d.deferred == 199
  {
    hide Reached;
    Beginning(buffer);
    var n := |buffer|;
    var msg := seq(n - 2, _ => LF);
    var a := PushFits(buffer, Init(buffer), 0, msg);
    WrapIsRemainder(n - 2, n);
    assert a.start == 0 && a.end == n - 2;
    var b := FlushLarge(buffer, a);
    assert b.start == b.end == n - 2;
    var c := PushFits(buffer, b, 0, [LF]);
    WrapIsRemainder(n - 2 + 1, n);
    assert c.start == n - 2 && c.end == n - 1;
    d := PutOff(buffer, c, 199);
  }

  /** Below that no poll is ever put off: a tenth of the buffer is one byte. */
  lemma {:induction false} NeverDeferred(buffer: bytes, events: seq<Event>)
    requires 10 <= |buffer| < 20
    ensures Run(buffer, events).deferred == 0 && |Run(buffer, events).buffer| == |buffer|
  {
    if events != [] {
      NeverDeferred(buffer, events[..|events| - 1]);
      DeferNeedsTenth(Run(buffer, events[..|events| - 1]), events[|events| - 1]);
    }
  }

  lemma DeferNeedsTenth(s: State, e: Event)
    ensures |Next(s, e).buffer| == |s.buffer|
    ensures |s.buffer| < 20 && s.deferred == 0 ==> Next(s, e).deferred == 0
  {
    if InBounds(s) && e.Produce? && s.job.Some? {
      hide Render, Replay, Marker, Ring, CopySlot;
    } else {
      hide ProduceStep, Ring;
    }
  }
}
