/** How long the writing thread sleeps, and how long it may put off writing what it has found. */
module LogCadence {
  const DEFAULT_INTERVAL: nat := 25
  const INTERVAL_STEP: nat := 5
  const MIN_INTERVAL: nat := 5
  const MAX_INTERVAL: nat := 25
  const MAX_WAIT: nat := 1000

  /** writeInterval, in milliseconds, and the static lastDuration of doWriteLog. */
  datatype Cadence = Cadence(interval: nat, lastDuration: nat)

  function Start(): Cadence { Cadence(DEFAULT_INTERVAL, 0) }

  datatype Decision = Empty | Postpone | Flush

  /** What a poll does when it finds `size` bytes in a buffer of `capacity`. */
  function Decide(c: Cadence, size: nat, capacity: nat): Decision {
    if size == 0 then Empty
    else if size < capacity / 10 && c.lastDuration + c.interval < MAX_WAIT then Postpone
    else Flush
  }

  function Decided(c: Cadence, size: nat, capacity: nat): Cadence {
    match Decide(c, size, capacity)
    case Empty => c.(interval := MAX_INTERVAL)
    case Postpone => c.(lastDuration := c.lastDuration + c.interval)
    case Flush => c.(lastDuration := 0)
  }

  /** The interval once `size` bytes have been written. */
  function AfterWrite(c: Cadence, size: nat, capacity: nat): Cadence {
    if size < capacity / 10 then
      if c.interval < MAX_INTERVAL then c.(interval := c.interval + INTERVAL_STEP) else c
    else if size > capacity / 3 then c.(interval := MIN_INTERVAL)
    else if size > capacity / 4 && c.interval > MIN_INTERVAL then c.(interval := c.interval - INTERVAL_STEP)
    else c
  }

  /** The interval when the next round follows at once. */
  function NextRound(c: Cadence): Cadence { c.(interval := MIN_INTERVAL) }

  /** The five intervals, and the wait is not over. */
  predicate Paced(c: Cadence) {
    c.interval in {5, 10, 15, 20, 25} && c.lastDuration < MAX_WAIT
  }

  lemma StepsArePaced(c: Cadence, size: nat, capacity: nat)
    requires Paced(c)
    ensures Paced(Decided(c, size, capacity)) && Paced(AfterWrite(c, size, capacity)) && Paced(NextRound(c))
    ensures Decide(c, size, capacity) == Postpone ==>
            Decided(c, size, capacity).lastDuration >= c.lastDuration + MIN_INTERVAL
  {
  }

  // ---------- Runs of polls ----------

  /** The bytes a poll finds, and what it finds in the rounds after it has written. */
  datatype Poll = Poll(found: nat, rounds: seq<nat>)

  function Rounds(c: Cadence, size: nat, rounds: seq<nat>, capacity: nat): Cadence {
    if rounds == [] then AfterWrite(c, size, capacity)
    else AfterWrite(NextRound(Rounds(c, size, rounds[..|rounds| - 1], capacity)), rounds[|rounds| - 1], capacity)
  }

  function AfterPoll(c: Cadence, poll: Poll, capacity: nat): Cadence {
    var next := Decided(c, poll.found, capacity);
    if Decide(c, poll.found, capacity) == Flush then Rounds(next, poll.found, poll.rounds, capacity) else next
  }

  function After(c: Cadence, polls: seq<Poll>, capacity: nat): Cadence {
    if polls == [] then c else AfterPoll(After(c, polls[..|polls| - 1], capacity), polls[|polls| - 1], capacity)
  }

  /** None of the polls writes. */
  predicate Quiet(c: Cadence, polls: seq<Poll>, capacity: nat) {
    forall i | 0 <= i < |polls| :: Decide(After(c, polls[..i], capacity), polls[i].found, capacity) != Flush
  }

  /** How many of the polls find data. */
  function Postponed(polls: seq<Poll>): nat {
    if polls == [] then 0 else Postponed(polls[..|polls| - 1]) + if polls[|polls| - 1].found > 0 then 1 else 0
  }

  lemma {:induction false} RoundsArePaced(c: Cadence, size: nat, rounds: seq<nat>, capacity: nat)
    requires Paced(c)
    ensures Paced(Rounds(c, size, rounds, capacity))
  {
    StepsArePaced(c, size, capacity);
    if rounds != [] {
      var before := Rounds(c, size, rounds[..|rounds| - 1], capacity);
      RoundsArePaced(c, size, rounds[..|rounds| - 1], capacity);
      StepsArePaced(before, size, capacity);
      StepsArePaced(NextRound(before), rounds[|rounds| - 1], capacity);
    }
  }

  /** writeInterval is one of the five intervals in every run. */
  lemma {:induction false} RunsArePaced(c: Cadence, polls: seq<Poll>, capacity: nat)
    requires Paced(c)
    ensures Paced(After(c, polls, capacity))
  {
    if polls != [] {
      var front, last := After(c, polls[..|polls| - 1], capacity), polls[|polls| - 1];
      RunsArePaced(c, polls[..|polls| - 1], capacity);
      StepsArePaced(front, last.found, capacity);
      if Decide(front, last.found, capacity) == Flush {
        RoundsArePaced(Decided(front, last.found, capacity), last.found, last.rounds, capacity);
      }
    }
  }

  lemma {:induction false} QuietWaits(c: Cadence, polls: seq<Poll>, capacity: nat)
    requires Paced(c) && Quiet(c, polls, capacity)
    ensures c.lastDuration + MIN_INTERVAL * Postponed(polls) <= After(c, polls, capacity).lastDuration
  {
    if polls != [] {
      var front, last := polls[..|polls| - 1], polls[|polls| - 1];
      assert forall i | 0 <= i < |front| :: front[..i] == polls[..i];
      QuietWaits(c, front, capacity);
      RunsArePaced(c, front, capacity);
      StepsArePaced(After(c, front, capacity), last.found, capacity);
    }
  }

  /** Wherever a run has got to, at most 199 polls in a row find data and put off writing it. */
  lemma AtMost199(history: seq<Poll>, polls: seq<Poll>, capacity: nat)
    requires Quiet(After(Start(), history, capacity), polls, capacity)
    ensures Postponed(polls) <= 199
  {
    var c := After(Start(), history, capacity);
    RunsArePaced(Start(), history, capacity);
    RunsArePaced(c, polls, capacity);
    QuietWaits(c, polls, capacity);
  }

  function Trickle(n: nat): (polls: seq<Poll>)
    ensures |polls| == n && forall i | 0 <= i < n :: polls[i] == Poll(1, [])
  {
    seq(n, _ => Poll(1, []))
  }

  lemma {:induction false} TrickleWaits(n: nat, capacity: nat)
    requires n <= 199 && capacity >= 20
    ensures After(Cadence(5, 0), Trickle(n), capacity) == Cadence(5, 5 * n)
    ensures Quiet(Cadence(5, 0), Trickle(n), capacity) && Postponed(Trickle(n)) == n
  {
    if n > 0 {
      TrickleWaits(n - 1, capacity);
      var polls := Trickle(n);
      assert polls[..n - 1] == Trickle(n - 1);
      assert forall i | 0 <= i < n - 1 :: polls[..i] == Trickle(n - 1)[..i];
    }
  }

  /** The bound is reached: after a large write, a trickle of bytes waits through 199 polls. */
  lemma Reached199(capacity: nat)
    requires capacity >= 20
    ensures var history := [Poll(capacity - 2, [])];
            Quiet(After(Start(), history, capacity), Trickle(199), capacity) && Postponed(Trickle(199)) == 199
  {
    var history := [Poll(capacity - 2, [])];
    assert history[..0] == [];
    assert After(Start(), history[..0], capacity) == Start();
    assert After(Start(), history, capacity) == Cadence(5, 0);
    TrickleWaits(199, capacity);
  }
}
