/** Producers and the writing thread, one shared access at a time. The producers are serialised by
    the mutex; the writing thread takes no lock. Copies and writes move single bytes. */
module LogSystem {
  import opened Bytes
  import opened LogAccounting
  import opened LogCadence
  import opened LogRing

  /** Where the producer that holds the mutex is in pushLogBuffer. */
  datatype Stage =
    | Locked
    | StartRead(start: nat)
    | BothRead(start: nat, end: nat)
    | CopyMarker(start: nat, end: nat, text: bytes, copied: nat)
    | MarkerStored
    | LineNext
    | LineStartRead(start: nat)
    | CopyLine(start: nat, end: nat, copied: nat)
    | Leaving

  datatype Job = Job(producer: nat, msg: bytes, stage: Stage)

  /** Where the writing thread is in doWriteLog. */
  datatype Phase =
    | Sleeping
    | PollStart(start: nat)
    | PollBoth(start: nat, end: nat)
    | Writing(start: nat, end: nat, size: nat, done: nat)
    | Wrote(size: nat)
    | Again
    | AgainStart(start: nat)

  /** The memory the threads share, where they are, and what has happened: the bytes m_write was
      given, the bytes that were put in front of buffEnd, the outcomes of the pushes, and how many
      polls have put off writing since the last flush. */
  datatype State = State(
    buffer: bytes, start: nat, end: nat, lostLine: nat, job: Option<Job>,
    phase: Phase, cadence: Cadence,
    written: bytes, accepted: bytes, pushes: seq<Outcome>, deferred: nat)

  function Init(buffer: bytes): State {
    State(buffer, 0, 0, 0, None, Sleeping, LogCadence.Start(), [], [], [], 0)
  }

  /** A lock is taken by a producer with a message, or the holder or the writing thread moves on. */
  datatype Event = Lock(producer: nat, msg: bytes) | Produce | Consume

  /** The slot copyLogBuffer puts byte `k` of `length` bytes into. */
  function CopySlot(start: nat, end: nat, length: nat, k: nat, n: nat): nat
    requires end < n
  {
    if start > end then end + k
    else if n - end < length then (if k < n - end then end + k else k - (n - end))
    else end + k
  }

  /** The slot m_write takes byte `k` from. */
  function WriteSlot(start: nat, end: nat, k: nat, n: nat): nat
    requires start < n
  {
    if start < end then start + k else if k < n - start then start + k else k - (n - start)
  }

  function Put(b: bytes, slot: nat, x: byte): (r: bytes)
    ensures |r| == |b|
  {
    if slot < |b| then b[slot := x] else b
  }

  function At(s: State, job: Job, stage: Stage): State { s.(job := Some(job.(stage := stage))) }

  predicate InBounds(s: State) {
    10 <= |s.buffer| && s.start < |s.buffer| && s.end < |s.buffer|
  }

  /** One step of pushLogBuffer. */
  function ProduceStep(s: State, job: Job): State
    requires InBounds(s)
  {
    var n := |s.buffer|;
    match job.stage
    case Locked => At(s, job, StartRead(s.start))
    case StartRead(start) => At(s, job, BothRead(start, s.end))
    case BothRead(start, end) =>
      if start < n && end < n then
        var remainSize := Free(start, end, n);
        var marker := PendingMarker(s.lostLine);
        if remainSize <= |job.msg| || (s.lostLine > 0 && remainSize <= |job.msg| + |marker|) then
          At(s.(lostLine := s.lostLine + 1, pushes := s.pushes + [Rejected]), job, Leaving)
        else
          At(s.(pushes := s.pushes + [Accepted(job.msg)]), job, if s.lostLine > 0 then CopyMarker(start, end, marker,
              0) else LineNext)
      else s
    case CopyMarker(start, end, text, copied) =>
      if copied < |text| && end < n then
        At(s.(buffer := Put(s.buffer, CopySlot(start, end, |text|, copied, n), text[copied])), job, CopyMarker(start,
            end, text, copied + 1))
      else
        At(s.(end := (s.end + |text|) % n, accepted := s.accepted + text), job, MarkerStored)
    case MarkerStored => At(s.(lostLine := 0), job, LineNext)
    case LineNext => At(s, job, LineStartRead(s.start))
    case LineStartRead(start) => At(s, job, CopyLine(start, s.end, 0))
    case CopyLine(start, end, copied) =>
      if copied < |job.msg| && end < n then
        At(s.(buffer := Put(s.buffer, CopySlot(start, end, |job.msg|, copied, n), job.msg[copied])), job,
            CopyLine(start, end, copied + 1))
      else
        At(s.(end := (s.end + |job.msg|) % n, accepted := s.accepted + job.msg), job, Leaving)
    case Leaving => s.(job := None)
  }

  /** One step of doWriteLog. */
  function ConsumeStep(s: State): State
    requires InBounds(s)
  {
    var n := |s.buffer|;
    match s.phase
    case Sleeping => s.(phase := PollStart(s.start))
    case PollStart(start) => s.(phase := PollBoth(start, s.end))
    case PollBoth(start, end) =>
      if start < n && end < n then
        var size := Used(start, end, n);
        var t := s.(cadence := Decided(s.cadence, size, n));
        match Decide(s.cadence, size, n)
        case Empty => t.(phase := Sleeping)
        case Postpone => t.(phase := Sleeping, deferred := s.deferred + 1)
        case Flush => t.(phase := Writing(start, end, size, 0), deferred := 0)
      else s
    case Writing(start, end, size, done) =>
      if start < n && done < size && WriteSlot(start, end, done, n) < n then
        s.(written := s.written + [s.buffer[WriteSlot(start, end, done, n)]], phase := Writing(start, end, size,
            done + 1))
      else
        s.(phase := Wrote(size), cadence := AfterWrite(s.cadence, size, n))
    case Wrote(size) => s.(start := (s.start + size) % n, phase := Again)
    case Again => s.(phase := AgainStart(s.start))
    case AgainStart(start) =>
      if start < n then
        var size := Used(start, s.end, n);
        if size < n / 10 then s.(phase := Sleeping)
        else s.(phase := Writing(start, s.end, size, 0), cadence := NextRound(s.cadence))
      else s
  }

  function Step(s: State, e: Event): State
    requires InBounds(s)
  {
    match e
    case Lock(producer, msg) => if s.job.None? then s.(job := Some(Job(producer, msg, Locked))) else s
    case Produce => if s.job.None? then s else ProduceStep(s, s.job.value)
    case Consume => ConsumeStep(s)
  }

  // ---------- The invariant ----------

  /** How many bytes behind buffStart have been written. */
  function InFlight(phase: Phase): nat {
    match phase
    case Writing(_, _, _, done) => done
    case Wrote(size) => size
    case _ => 0
  }

  function Contents(s: State): bytes
    requires InBounds(s)
  {
    Ring(s.buffer, s.start, Used(s.start, s.end, |s.buffer|))
  }

  /** What the holder of the mutex has decided to put into the buffer and has not put there yet. */
  function InHand(s: State): bytes {
    match s.job
    case None => []
    case Some(job) =>
      match job.stage
      case CopyMarker(_, _, text, _) => text + job.msg
      case MarkerStored => job.msg
      case LineNext => job.msg
      case LineStartRead(_) => job.msg
      case CopyLine(_, _, _) => job.msg
      case _ => []
  }

  /** What the writing thread has read is at most what lies between the positions now. */
  ghost predicate Reading(s: State)
    requires InBounds(s)
  {
    var n, used := |s.buffer|, Used(s.start, s.end, |s.buffer|);
    match s.phase
    case PollStart(start) => start == s.start
    case PollBoth(start, end) => start == s.start && end < n && Used(start, end, n) <= used
    case Writing(start, end, size, done) => start == s.start && end < n
        && done <= size == Used(start, end, n) <= used && size > 0
    case Wrote(size) => size <= used
    case AgainStart(start) => start == s.start
    case _ => true
  }

  /** A start position that may be old, and room behind the end for `length` bytes and one more. */
  ghost predicate Room(s: State, start: nat, length: nat)
    requires InBounds(s)
  {
    var n := |s.buffer|;
    start < n && Used(s.start, s.end, n) <= Used(start, s.end, n) && Used(start, s.end, n) + length < n - 1
  }

  /** The first `copied` bytes of `text` are behind the end. */
  ghost predicate Copied(b: bytes, end: nat, text: bytes, copied: nat)
    requires end < |b|
  {
    copied <= |text| < |b| && forall k | 0 <= k < copied :: b[Wrap(end + k, |b|)] == text[k]
  }

  ghost predicate Pushing(s: State)
    requires InBounds(s)
  {
    var n, used := |s.buffer|, Used(s.start, s.end, |s.buffer|);
    s.job.None? ||
    match s.job.value.stage
    case StartRead(start) => start < n && used <= Used(start, s.end, n)
    case BothRead(start, end) => start < n && end == s.end && used <= Used(start, end, n)
    case CopyMarker(start, end, text, copied) => end == s.end && Room(s, start, |text| + |s.job.value.msg|)
        && Copied(s.buffer, s.end, text, copied)
    case MarkerStored => used + |s.job.value.msg| < n - 1
    case LineNext => used + |s.job.value.msg| < n - 1
    case LineStartRead(start) => Room(s, start, |s.job.value.msg|)
    case CopyLine(start, end, copied) => end == s.end && Room(s, start, |s.job.value.msg|)
        && Copied(s.buffer, s.end, s.job.value.msg, copied)
    case _ => true
  }

  /** The bytes written and the rest of the contents are what has been accepted. */
  ghost predicate Drained(s: State)
    requires InBounds(s)
  {
    InFlight(s.phase) <= |Contents(s)| && s.written + Contents(s)[InFlight(s.phase)..] == s.accepted
  }

  /** With what is in hand, that is the lines of the pushes. */
  ghost predicate InOrder(s: State) {
    s.accepted + InHand(s) == Render(Replay(s.pushes).entries)
  }

  /** lostLine is the number of the pushes lost since the last line; it is reset once their marker
      is stored. */
  ghost predicate Counted(s: State) {
    var pending := Replay(s.pushes).pending;
    if s.job.Some? && (s.job.value.stage.CopyMarker? || s.job.value.stage.MarkerStored?) then pending == 0
        && s.lostLine > 0
    else pending == s.lostLine
  }

  ghost predicate Waiting(s: State) {
    Paced(s.cadence) && MIN_INTERVAL * s.deferred <= s.cadence.lastDuration
  }

  ghost predicate Inv(s: State) {
    InBounds(s) && Reading(s) && Pushing(s) && Drained(s) && InOrder(s) && Counted(s) && Waiting(s)
  }

  // ---------- Single accesses ----------

  lemma CopySlotIs(start: nat, end: nat, length: nat, k: nat, n: nat)
    requires start < n && end < n && Used(start, end, n) + length < n && k < length
    ensures CopySlot(start, end, length, k, n) == Wrap(end + k, n) < n
  {
  }

  lemma WriteSlotIs(start: nat, end: nat, k: nat, n: nat)
    requires start < n && end < n && k < Used(start, end, n)
    ensures WriteSlot(start, end, k, n) == Wrap(start + k, n) < n
  {
  }

  lemma SlotsApart(start: nat, end: nat, i: nat, k: nat, n: nat)
    requires start < n && end < n && i < Used(start, end, n) + k && Used(start, end, n) + k < n
    ensures Wrap(start + i, n) != Wrap(end + k, n)
  {
  }

  /** A byte behind the end: the contents stay, and one more byte of the text is there. */
  lemma CopyByte(s: State, start: nat, length: nat, text: bytes, k: nat)
    requires InBounds(s) && Room(s, start, length) && |text| <= length && k < |text| && Copied(s.buffer, s.end, text, k)
    ensures var t := s.(buffer := Put(s.buffer, CopySlot(start, s.end, |text|, k, |s.buffer|), text[k]));
            Contents(t) == Contents(s) && Copied(t.buffer, t.end, text, k + 1)
  {
    var n, used := |s.buffer|, Used(s.start, s.end, |s.buffer|);
    CopySlotIs(start, s.end, |text|, k, n);
    var slot := Wrap(s.end + k, n);
    var t := s.(buffer := s.buffer[slot := text[k]]);
    forall i | 0 <= i < used
      ensures Contents(t)[i] == Contents(s)[i]
    {
      SlotsApart(s.start, s.end, i, k, n);
    }
    forall i | 0 <= i < k + 1
      ensures t.buffer[Wrap(s.end + i, n)] == text[i]
    {
    }
  }

  /** buffEnd moves behind the text. */
  lemma Commit(s: State, text: bytes)
    requires InBounds(s) && Copied(s.buffer, s.end, text, |text|)
        && Used(s.start, s.end, |s.buffer|) + |text| < |s.buffer|
    ensures var t := s.(end := (s.end + |text|) % |s.buffer|);
            && InBounds(t) && Contents(t) == Contents(s) + text
            && Used(t.start, t.end, |t.buffer|) == Used(s.start, s.end, |s.buffer|) + |text|
  {
    var n, used := |s.buffer|, Used(s.start, s.end, |s.buffer|);
    WrapIsRemainder(s.end + |text|, n);
    assert Wrap(s.end + |text|, n) == Wrap(s.start + (used + |text|), n);
    UsedIs(s.start, used + |text|, n);
    var r := Ring(s.buffer, s.start, used + |text|);
    forall i | 0 <= i < used + |text|
      ensures r[i] == (Contents(s) + text)[i]
    {
      if i >= used {
        assert Wrap(s.start + i, n) == Wrap(s.end + (i - used), n);
      }
    }
  }

  /** buffStart moves past `size` bytes. */
  lemma Release(s: State, size: nat)
    requires InBounds(s) && size <= Used(s.start, s.end, |s.buffer|)
    ensures var t := s.(start := (s.start + size) % |s.buffer|);
            && InBounds(t) && Contents(t) == Contents(s)[size..]
            && Used(t.start, t.end, |t.buffer|) == Used(s.start, s.end, |s.buffer|) - size
  {
    var n, used := |s.buffer|, Used(s.start, s.end, |s.buffer|);
    WrapIsRemainder(s.start + size, n);
    RingDrop(s.buffer, s.start, used, size);
    UsedIs(Wrap(s.start + size, n), used - size, n);
  }

  // ---------- What a step of the other side leaves alone ----------

  lemma WriterUnmoved(s: State, t: State)
    requires Inv(s) && InBounds(t) && |t.buffer| == |s.buffer| && t.start == s.start && t.end == s.end
        && Contents(t) == Contents(s)
    requires t.phase == s.phase && t.cadence == s.cadence && t.written == s.written && t.accepted == s.accepted
        && t.deferred == s.deferred
    ensures Reading(t) && Drained(t) && Waiting(t)
  {
  }

  lemma ProducersUnmoved(s: State, t: State)
    requires Inv(s) && InBounds(t) && t.buffer == s.buffer && t.end == s.end && t.job == s.job
        && t.lostLine == s.lostLine
    requires t.accepted == s.accepted && t.pushes == s.pushes
    requires Used(t.start, t.end, |t.buffer|) <= Used(s.start, s.end, |s.buffer|)
    ensures Pushing(t) && InOrder(t) && Counted(t)
  {
    hide Render, Replay;
  }

  // ---------- Every step keeps the invariant ----------

  lemma DecideKeeps(s: State, job: Job, start: nat, end: nat)
    requires Inv(s) && s.job == Some(job) && job.stage == BothRead(start, end)
    ensures Inv(ProduceStep(s, job))
  {
    hide Replay, Render, Marker, Ring, Reading, Drained, Waiting;
    var t := ProduceStep(s, job);
    var n := |s.buffer|;
    var marker := PendingMarker(s.lostLine);
    var o := if |marker| + |job.msg| < Free(start, end, n) then Accepted(job.msg) else Rejected;
    ReplayPush(s.pushes, o);
    assert t.pushes == s.pushes + [o];
    WriterUnmoved(s, t);
    assert InHand(s) == [] && InHand(t) == if o.Accepted? then marker + job.msg else [];
    Assoc(s.accepted, [], InHand(t));
  }

  lemma CopyKeeps(s: State, job: Job, start: nat, end: nat, text: bytes, copied: nat)
    requires Inv(s) && s.job == Some(job) && copied < |text|
    requires job.stage == CopyMarker(start, end, text, copied) || (job.stage == CopyLine(start, end, copied)
        && text == job.msg)
    ensures Inv(ProduceStep(s, job))
  {
    hide Replay, Render, Marker, Ring, Reading, Drained, Waiting, Copied, CopySlot, Put;
    CopyByte(s, start, if job.stage.CopyMarker? then |text| + |job.msg| else |text|, text, copied);
    var t := ProduceStep(s, job);
    WriterUnmoved(s, t);
  }

  /** What the writing thread has read stays behind the end that has moved. */
  lemma ReadingStays(s: State, t: State)
    requires Inv(s) && InBounds(t) && |t.buffer| == |s.buffer| && t.start == s.start && t.phase == s.phase
    requires Used(s.start, s.end, |s.buffer|) <= Used(t.start, t.end, |t.buffer|)
    ensures Reading(t)
  {
  }

  lemma DrainedMore(s: State, t: State, text: bytes)
    requires Inv(s) && InBounds(t) && Contents(t) == Contents(s) + text && t.phase == s.phase
    requires t.written == s.written && t.accepted == s.accepted + text
    ensures Drained(t)
  {
    var k := InFlight(s.phase);
    hide Contents;
    assert Contents(t)[k..] == Contents(s)[k..] + text;
    Assoc(s.written, Contents(s)[k..], text);
  }

  lemma CommitKeeps(s: State, job: Job, start: nat, end: nat, text: bytes)
    requires Inv(s) && s.job == Some(job)
    requires job.stage == CopyMarker(start, end, text, |text|) || (job.stage == CopyLine(start, end, |text|)
        && text == job.msg)
    ensures Inv(ProduceStep(s, job))
  {
    hide Replay, Render, Marker, Ring, Reading, Drained;
    Commit(s, text);
    var t := ProduceStep(s, job);
    ReadingStays(s, t);
    DrainedMore(s, t, text);
    Assoc(s.accepted, text, InHand(t));
    assert InHand(s) == text + InHand(t);
  }

  /** The steps that only read, reset lostLine or release the mutex. */
  lemma QuietKeeps(s: State, job: Job)
    requires Inv(s) && s.job == Some(job) && !job.stage.BothRead? && !job.stage.CopyMarker? && !job.stage.CopyLine?
    ensures Inv(ProduceStep(s, job))
  {
    hide Replay, Render, Marker, Ring, Reading, Drained, Waiting;
    WriterUnmoved(s, ProduceStep(s, job));
  }

  lemma ProduceKeeps(s: State, job: Job)
    requires Inv(s) && s.job == Some(job)
    ensures Inv(ProduceStep(s, job))
  {
    hide Inv, ProduceStep;
    match job.stage
    case BothRead(start, end) => DecideKeeps(s, job, start, end);
    case CopyMarker(start, end, text, copied) =>
      CopiedAtMost(s, job, text, copied);
      if copied < |text| {
        CopyKeeps(s, job, start, end, text, copied);
      } else {
        CommitKeeps(s, job, start, end, text);
      }
    case CopyLine(start, end, copied) =>
      CopiedAtMost(s, job, job.msg, copied);
      if copied < |job.msg| {
        CopyKeeps(s, job, start, end, job.msg, copied);
      } else {
        CommitKeeps(s, job, start, end, job.msg);
      }
    case Locked => QuietKeeps(s, job);
    case StartRead(_) => QuietKeeps(s, job);
    case MarkerStored => QuietKeeps(s, job);
    case LineNext => QuietKeeps(s, job);
    case LineStartRead(_) => QuietKeeps(s, job);
    case Leaving => QuietKeeps(s, job);
  }

  lemma CopiedAtMost(s: State, job: Job, text: bytes, copied: nat)
    requires Inv(s) && s.job == Some(job)
    requires (job.stage.CopyMarker? && job.stage.text == text
        && job.stage.copied == copied) || (job.stage.CopyLine? && text == job.msg && job.stage.copied == copied)
    ensures copied <= |text|
  {
  }

  lemma WriteKeeps(s: State)
    requires Inv(s) && s.phase.Writing?
    ensures Inv(ConsumeStep(s))
  {
    hide Replay, Render, Marker, Pushing, InOrder, Counted;
    var n := |s.buffer|;
    var (start, end, k) := (s.phase.start, s.phase.end, s.phase.done);
    StepsArePaced(s.cadence, s.phase.size, n);
    var t := ConsumeStep(s);
    if k < s.phase.size {
      WriteSlotIs(start, end, k, n);
      var c := Contents(s);
      assert s.buffer[WriteSlot(start, end, k, n)] == c[k];
      assert c[k..] == [c[k]] + c[k + 1..];
      Assoc(s.written, [c[k]], c[k + 1..]);
      assert Contents(t) == c;
    }
    ProducersUnmoved(s, t);
  }

  lemma ReleaseKeeps(s: State)
    requires Inv(s) && s.phase.Wrote?
    ensures Inv(ConsumeStep(s))
  {
    hide Replay, Render, Marker, Ring, Pushing, InOrder, Counted;
    Release(s, s.phase.size);
    assert Contents(s)[s.phase.size..][0..] == Contents(s)[s.phase.size..];
    ProducersUnmoved(s, ConsumeStep(s));
  }

  lemma PollKeeps(s: State)
    requires Inv(s) && !s.phase.Writing? && !s.phase.Wrote?
    ensures Inv(ConsumeStep(s))
  {
    hide Replay, Render, Marker, Ring, Pushing, InOrder, Counted, Decided;
    var n := |s.buffer|;
    var t := ConsumeStep(s);
    if s.phase.PollBoth? {
      StepsArePaced(s.cadence, Used(s.phase.start, s.phase.end, n), n);
      DecidedWaits(s.cadence, Used(s.phase.start, s.phase.end, n), n);
    } else {
      StepsArePaced(s.cadence, 0, n);
    }
    assert Contents(t) == Contents(s);
    ProducersUnmoved(s, t);
  }

  lemma DecidedWaits(c: Cadence, size: nat, capacity: nat)
    ensures Decide(c, size, capacity) == Empty ==>
            Decided(c, size, capacity).lastDuration == c.lastDuration && size == 0
    ensures Decide(c, size, capacity) == Flush ==> size > 0
  {
  }

  lemma LockKeeps(s: State, producer: nat, msg: bytes)
    requires Inv(s)
    ensures Inv(Step(s, Lock(producer, msg)))
  {
    hide Replay, Render, Marker, Ring, Reading, Drained, Waiting;
    WriterUnmoved(s, Step(s, Lock(producer, msg)));
  }

  lemma StepKeeps(s: State, e: Event)
    requires Inv(s)
    ensures Inv(Step(s, e)) && |Step(s, e).buffer| == |s.buffer|
  {
    assert |Step(s, e).buffer| == |s.buffer|;
    hide Inv, ProduceStep, ConsumeStep;
    match e
    case Lock(producer, msg) => LockKeeps(s, producer, msg);
    case Produce =>
      if s.job.Some? {
        ProduceKeeps(s, s.job.value);
      }
    case Consume =>
      if s.phase.Writing? {
        WriteKeeps(s);
      } else if s.phase.Wrote? {
        ReleaseKeeps(s);
      } else {
        PollKeeps(s);
      }
  }

  // ---------- Runs ----------

  function Next(s: State, e: Event): State {
    if InBounds(s) then Step(s, e) else s
  }

  /** Any interleaving, from an empty buffer. */
  function Run(buffer: bytes, events: seq<Event>): State {
    if events == [] then Init(buffer) else Next(Run(buffer, events[..|events| - 1]), events[|events| - 1])
  }

  lemma {:induction false} RunKeeps(buffer: bytes, events: seq<Event>)
    requires |buffer| >= 10
    ensures Inv(Run(buffer, events)) && |Run(buffer, events).buffer| == |buffer|
  {
    if events != [] {
      hide Inv, Step;
      RunKeeps(buffer, events[..|events| - 1]);
      BoundsKept(Run(buffer, events[..|events| - 1]));
      StepKeeps(Run(buffer, events[..|events| - 1]), events[|events| - 1]);
    }
  }

  lemma BoundsKept(s: State)
    requires Inv(s)
    ensures InBounds(s)
  {
  }

  /** The lock-free drain: in every interleaving the bytes m_write was given, then the rest of the
      ring, then what the holder of the mutex is about to store, are the lines of the accepted
      pushes in order, with one marker for each maximal run of lost ones. */
  lemma NothingLostOrReordered(buffer: bytes, events: seq<Event>)
    requires |buffer| >= 10
    ensures var s := Run(buffer, events);
            && InBounds(s) && InFlight(s.phase) <= |Contents(s)|
            && s.written + Contents(s)[InFlight(s.phase)..] == s.accepted
            && s.accepted + InHand(s) == Render(Replay(s.pushes).entries)
            && Compressed(Replay(s.pushes).entries) && Accounted(Replay(s.pushes)) == s.pushes
  {
    hide Run;
    RunKeeps(buffer, events);
    ReplayAccounts(Run(buffer, events).pushes);
  }

  /** When nobody is at work and the ring is empty, all the lines are out, and lostLine counts the
      pushes since the last of them. */
  lemma AllWritten(buffer: bytes, events: seq<Event>)
    requires |buffer| >= 10
    ensures var s := Run(buffer, events);
            s.job.None? && s.phase.Sleeping? && s.start == s.end ==>
              s.written == Render(Replay(s.pushes).entries) && s.lostLine == Replay(s.pushes).pending
  {
    var s := Run(buffer, events);
    RunKeeps(buffer, events);
    hide Run;
    if s.job.None? && s.phase.Sleeping? && s.start == s.end {
      assert Contents(s) == [];
      assert s.written + [] == s.written;
      assert s.accepted + [] == s.accepted;
    }
  }

  lemma InvParts(s: State)
    requires Inv(s)
    ensures InBounds(s) && Reading(s) && Pushing(s)
  {
  }

  lemma ProducedBehind(s: State, job: Job)
    requires InBounds(s) && Pushing(s) && s.job == Some(job)
    ensures var (t, used) := (ProduceStep(s, job), Used(s.start, s.end, |s.buffer|));
            |t.buffer| == |s.buffer| && Ring(t.buffer, s.start, used) == Contents(s)
  {
    if job.stage.CopyMarker? && job.stage.copied < |job.stage.text| {
      hide Ring, Put, CopySlot, Copied;
      CopyByte(s, job.stage.start, |job.stage.text| + |job.msg|, job.stage.text, job.stage.copied);
    } else if job.stage.CopyLine? && job.stage.copied < |job.msg| {
      hide Ring, Put, CopySlot, Copied;
      CopyByte(s, job.stage.start, |job.msg|, job.msg, job.stage.copied);
    }
  }

  lemma SteppedBehind(s: State, e: Event)
    requires InBounds(s) && Pushing(s)
    ensures var (t, used) := (Next(s, e), Used(s.start, s.end, |s.buffer|));
            |t.buffer| == |s.buffer| && Ring(t.buffer, s.start, used) == Contents(s)
  {
    if e.Produce? && s.job.Some? {
      hide ProduceStep, Ring;
      ProducedBehind(s, s.job.value);
    }
  }

  /** No step overwrites a byte that lies between the positions, and so none between buffStart and
      the end the writing thread has read. */
  lemma NoOverwrite(buffer: bytes, events: seq<Event>, e: Event)
    requires |buffer| >= 10
    ensures var (s, t) := (Run(buffer, events), Run(buffer, events + [e]));
            && InBounds(s) && |t.buffer| == |s.buffer|
            && Ring(t.buffer, s.start, Used(s.start, s.end, |s.buffer|)) == Contents(s)
            && (s.phase.Writing? ==>
                  && s.phase.start == s.start && s.phase.end < |s.buffer|
                  && Used(s.phase.start, s.phase.end, |s.buffer|) <= Used(s.start, s.end, |s.buffer|))
  {
    var s := Run(buffer, events);
    RunKeeps(buffer, events);
    assert (events + [e])[..|events|] == events;
    assert Run(buffer, events + [e]) == Next(s, e);
    hide Run, Inv, Next, Ring;
    InvParts(s);
    SteppedBehind(s, e);
  }

  /** Every slot that is written to or read from is inside the buffer. */
  lemma SlotsInside(buffer: bytes, events: seq<Event>)
    requires |buffer| >= 10
    ensures var s := Run(buffer, events);
            && (s.job.Some? ==>
                  match s.job.value.stage
                  case CopyMarker(start, end, text, copied) =>
                    end < |buffer| && (copied < |text| ==> CopySlot(start, end, |text|, copied, |buffer|) < |buffer|)
                  case CopyLine(start, end, copied) =>
                    end < |buffer| && (copied < |s.job.value.msg| ==>
                            CopySlot(start, end, |s.job.value.msg|, copied, |buffer|) < |buffer|)
                  case _ => true)
            && (s.phase.Writing? && s.phase.done < s.phase.size ==>
                  s.phase.start < |buffer| && WriteSlot(s.phase.start, s.phase.end, s.phase.done, |buffer|) < |buffer|)
  {
    var s := Run(buffer, events);
    RunKeeps(buffer, events);
    hide Run, Inv;
    InvParts(s);
    if s.job.Some? {
      var job := s.job.value;
      if job.stage.CopyMarker? && job.stage.copied < |job.stage.text| {
        CopySlotIs(job.stage.start, job.stage.end, |job.stage.text|, job.stage.copied, |buffer|);
      } else if job.stage.CopyLine? && job.stage.copied < |job.msg| {
        CopySlotIs(job.stage.start, job.stage.end, |job.msg|, job.stage.copied, |buffer|);
      }
    }
    if s.phase.Writing? && s.phase.done < s.phase.size {
      WriteSlotIs(s.phase.start, s.phase.end, s.phase.done, |buffer|);
    }
  }

  /** writeInterval is one of five values, and at most 199 polls between two flushes put off writing. */
  lemma BoundedDeferral(buffer: bytes, events: seq<Event>)
    requires |buffer| >= 10
    ensures var s := Run(buffer, events); s.cadence.interval in {5, 10, 15, 20, 25} && s.deferred <= 199
  {
    RunKeeps(buffer, events);
  }

  lemma StepGrows(s: State, e: Event)
    ensures s.written <= Next(s, e).written && s.accepted <= Next(s, e).accepted
  {
    if InBounds(s) && e.Produce? && s.job.Some? {
      hide Render, Replay, Marker, Ring, Put, CopySlot;
    } else {
      hide ProduceStep, Ring;
    }
  }

  /** What has been written is never taken back. */
  lemma OutputGrows(buffer: bytes, events: seq<Event>, e: Event)
    ensures Run(buffer, events).written <= Run(buffer, events + [e]).written
    ensures Run(buffer, events).accepted <= Run(buffer, events + [e]).accepted
  {
    hide Next;
    assert (events + [e])[..|events|] == events;
    StepGrows(Run(buffer, events), e);
  }
}
