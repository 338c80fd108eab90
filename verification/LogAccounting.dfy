/** What the lines of the log say about the pushes: an accepted push is a line of its own, and the
    rejected ones in front of it are one marker that carries their number. */
module LogAccounting {
  import opened Bytes
  import NumberCodec

  datatype Outcome = Accepted(msg: bytes) | Rejected

  datatype Entry = Line(msg: bytes) | Lost(count: nat)

  /** The entries that went into the buffer, and lostLine. */
  datatype Account = Account(entries: seq<Entry>, pending: nat)

  const LOST_HEAD: bytes := [46, 46, 46, 76, 111, 115, 116, 32]
  const LOST_TAIL: bytes := [32, 108, 105, 110, 101, 115, 32, 104, 101, 114, 101, 46, 46, 46, 10]

  /** "...Lost %PRId64 lines here...\n" */
  function Marker(count: nat): bytes {
    LOST_HEAD + NumberCodec.Digits(count) + LOST_TAIL
  }

  /** The marker that goes in front of the next line. */
  function PendingMarker(lostLine: nat): bytes {
    if lostLine > 0 then Marker(lostLine) else []
  }

  function Rendered(e: Entry): bytes {
    match e
    case Line(msg) => msg
    case Lost(count) => Marker(count)
  }

  function Render(entries: seq<Entry>): bytes {
    if entries == [] then [] else Render(entries[..|entries| - 1]) + Rendered(entries[|entries| - 1])
  }

  function Start(): Account { Account([], 0) }

  /** One push. */
  function Record(a: Account, o: Outcome): Account {
    match o
    case Rejected => a.(pending := a.pending + 1)
    case Accepted(msg) => Account(a.entries + (if a.pending > 0 then [Lost(a.pending)] else []) + [Line(msg)], 0)
  }

  function Replay(pushes: seq<Outcome>): Account {
    if pushes == [] then Start() else Record(Replay(pushes[..|pushes| - 1]), pushes[|pushes| - 1])
  }

  // ---------- What an account stands for ----------

  function Rejections(n: nat): (r: seq<Outcome>)
    ensures |r| == n && forall i | 0 <= i < n :: r[i] == Rejected
  {
    seq(n, _ => Rejected)
  }

  /** The pushes an entry stands for. */
  function Covered(e: Entry): seq<Outcome> {
    match e
    case Line(msg) => [Accepted(msg)]
    case Lost(count) => Rejections(count)
  }

  function Expand(entries: seq<Entry>): seq<Outcome> {
    if entries == [] then []
    else
      Expand(entries[..|entries| - 1]) + Covered(entries[|entries| - 1])
  }

  function Accounted(a: Account): seq<Outcome> {
    Expand(a.entries) + Rejections(a.pending)
  }

  /** A marker stands for at least one push, and a line follows it: so it carries a maximal run. */
  ghost predicate Compressed(entries: seq<Entry>) {
    forall i | 0 <= i < |entries| && entries[i].Lost? :: entries[i].count > 0 && i + 1 < |entries|
        && entries[i + 1].Line?
  }

  lemma Appended(entries: seq<Entry>, e: Entry)
    ensures Render(entries + [e]) == Render(entries) + Rendered(e)
    ensures Expand(entries + [e]) == Expand(entries) + Covered(e)
    ensures Covered(e) == if e.Line? then [Accepted(e.msg)] else Rejections(e.count)
  {
    assert (entries + [e])[..|entries|] == entries;
  }

  lemma RecordLine(a: Account, msg: bytes)
    ensures Render(Record(a, Accepted(msg)).entries) == Render(a.entries) + PendingMarker(a.pending) + msg
    ensures Accounted(Record(a, Accepted(msg))) == Accounted(a) + [Accepted(msg)]
  {
    hide Render, Expand, Marker;
    assert Rejections(0) == [];
    if a.pending > 0 {
      Appended(a.entries, Lost(a.pending));
      Appended(a.entries + [Lost(a.pending)], Line(msg));
    } else {
      assert a.entries + [] == a.entries;
      Appended(a.entries, Line(msg));
    }
  }

  lemma RecordKeeps(a: Account, o: Outcome)
    requires Compressed(a.entries)
    ensures Compressed(Record(a, o).entries)
    ensures Accounted(Record(a, o)) == Accounted(a) + [o]
  {
    match o
    case Rejected =>
      assert Rejections(a.pending + 1) == Rejections(a.pending) + [Rejected];
    case Accepted(msg) =>
      RecordLine(a, msg);
  }

  lemma NothingReplayed()
    ensures Replay([]) == Account([], 0) && Expand([]) == [] && Accounted(Replay([])) == [] && Compressed([])
  {
  }

  lemma ReplayOne(pushes: seq<Outcome>, o: Outcome)
    ensures Replay(pushes + [o]) == Record(Replay(pushes), o)
  {
    assert (pushes + [o])[..|pushes|] == pushes;
  }

  /** The account of any pushes says what they were, with one marker for each maximal run. */
  lemma {:induction false} ReplayAccounts(pushes: seq<Outcome>)
    ensures Accounted(Replay(pushes)) == pushes && Compressed(Replay(pushes).entries)
  {
    hide *;
    if pushes == [] {
      NothingReplayed();
    } else {
      var front, last := pushes[..|pushes| - 1], pushes[|pushes| - 1];
      assert pushes == front + [last];
      ReplayAccounts(front);
      ReplayOne(front, last);
      RecordKeeps(Replay(front), last);
    }
  }

  /** What one more push adds to the lines. */
  lemma ReplayPush(pushes: seq<Outcome>, o: Outcome)
    ensures var (before, after) := (Replay(pushes), Replay(pushes + [o]));
            && after.pending == (if o.Accepted? then 0 else before.pending + 1)
            && Render(after.entries) == Render(before.entries) +
                 if o.Accepted? then PendingMarker(before.pending) + o.msg else []
  {
    ReplayOne(pushes, o);
    if o.Accepted? {
      RecordLine(Replay(pushes), o.msg);
      Assoc(Render(Replay(pushes).entries), PendingMarker(Replay(pushes).pending), o.msg);
    } else {
      assert Render(Replay(pushes).entries) + [] == Render(Replay(pushes).entries);
    }
  }

  // ---------- There is only one such account ----------

  lemma {:induction false} ReplayRejections(pushes: seq<Outcome>, n: nat)
    ensures Replay(pushes + Rejections(n)) == Replay(pushes).(pending := Replay(pushes).pending + n)
  {
    if n == 0 {
      assert pushes + Rejections(0) == pushes;
    } else {
      var all := pushes + Rejections(n);
      assert all[..|all| - 1] == pushes + Rejections(n - 1) && all[|all| - 1] == Rejected;
      ReplayRejections(pushes, n - 1);
    }
  }

  lemma CompressedFront(entries: seq<Entry>)
    requires Compressed(entries) && entries != []
    ensures var (n, front) := (|entries|, entries[..|entries| - 1]);
            && entries[n - 1].Line?
            && if n > 1 && entries[n - 2].Lost? then Compressed(entries[..n - 2])
                && entries[n - 2].count > 0 else Compressed(front)
  {
  }

  lemma {:induction false} ReplayExpand(entries: seq<Entry>)
    requires Compressed(entries)
    ensures Replay(Expand(entries)) == Account(entries, 0)
  {
    hide *;
    NothingReplayed();
    if entries != [] {
      CompressedFront(entries);
      var n := |entries|;
      var front, msg := entries[..n - 1], entries[n - 1].msg;
      assert entries == front + [Line(msg)];
      Appended(front, Line(msg));
      ReplayOne(Expand(front), Accepted(msg));
      if n > 1 && entries[n - 2].Lost? {
        ReplayMarked(entries[..n - 2], entries[n - 2].count, msg);
        assert front == entries[..n - 2] + [Lost(entries[n - 2].count)];
        Appended(entries[..n - 2], Lost(entries[n - 2].count));
        ReplayExpand(entries[..n - 2]);
      } else {
        ReplayExpand(front);
        Recorded(Account(front, 0), msg);
      }
    }
  }

  lemma Recorded(a: Account, msg: bytes)
    requires a.pending == 0
    ensures Record(a, Accepted(msg)) == Account(a.entries + [Line(msg)], 0)
  {
    assert a.entries + [] == a.entries;
  }

  lemma ReplayMarked(inner: seq<Entry>, count: nat, msg: bytes)
    requires count > 0
    ensures Replay(Expand(inner)) == Account(inner, 0) ==>
              Record(Replay(Expand(inner) + Rejections(count)),
                  Accepted(msg)) == Account(inner + [Lost(count)] + [Line(msg)], 0)
  {
    hide Replay, Expand;
    ReplayRejections(Expand(inner), count);
  }

  lemma OnlyAccount(a: Account, pushes: seq<Outcome>)
    requires Compressed(a.entries) && Accounted(a) == pushes
    ensures a == Replay(pushes)
  {
    ReplayExpand(a.entries);
    ReplayRejections(Expand(a.entries), a.pending);
  }

  // ---------- Counting ----------

  function Lines(entries: seq<Entry>): nat {
    if entries == [] then 0 else Lines(entries[..|entries| - 1]) + (if entries[|entries| - 1].Line? then 1 else 0)
  }

  function Marked(entries: seq<Entry>): nat {
    if entries == [] then 0
    else
      var last := entries[|entries| - 1];
      Marked(entries[..|entries| - 1]) + (if last.Lost? then last.count else 0)
  }

  lemma {:induction false} ExpandCounts(entries: seq<Entry>)
    ensures |Expand(entries)| == Lines(entries) + Marked(entries)
  {
    if entries != [] {
      ExpandCounts(entries[..|entries| - 1]);
    }
  }

  /** pushes = accepted + sum of the marker counts + lostLine */
  lemma PushesCounted(pushes: seq<Outcome>)
    ensures var a := Replay(pushes); |pushes| == Lines(a.entries) + Marked(a.entries) + a.pending
  {
    ReplayAccounts(pushes);
    ExpandCounts(Replay(pushes).entries);
  }
}
