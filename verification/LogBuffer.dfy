/** The circular log buffer with its producer and consumer sides, one call at a time. */
module LogBuffers {
  import opened Bytes
  import opened LogAccounting
  import opened LogCadence
  import opened LogRing

  class LogBuffer {
    const buffer: array<byte>
    var start: nat
    var end: nat
    var stop: bool
    var lostLine: nat
    var writeInterval: nat
    var lastDuration: nat

    /** Every byte m_write has been given. */
    ghost var written: bytes
    /** How many of the bytes in the buffer have been written, while buffStart has not moved yet. */
    ghost var inFlight: nat
    /** Every push that has taken the lock, and what became of it. */
    ghost var pushes: seq<Outcome>

    /** logBuffNew */
    constructor (size: nat)
      requires size >= 10
      ensures Valid() && fresh(buffer) && buffer.Length == size && !stop
      ensures Contents() == [] && inFlight == 0 && written == [] && pushes == []
    {
      buffer := new byte[size];
      start, end, lostLine, stop := 0, 0, 0, false;
      writeInterval, lastDuration := DEFAULT_INTERVAL, 0;
      written, pushes, inFlight := [], [], 0;
    }

    ghost predicate InBounds()
      reads this
    {
      10 <= buffer.Length && start < buffer.Length && end < buffer.Length
    }

    ghost function Pace(): Cadence
      reads this
    {
      Cadence(writeInterval, lastDuration)
    }

    /** What has been accepted and not yet written. */
    ghost function Contents(): bytes
      requires InBounds()
      reads this, buffer
    {
      Ring(buffer[..], start, Used(start, end, buffer.Length))
    }

    /** The bytes written so far and the rest of the contents are the lines of the accepted pushes, in order,
        with one marker for each maximal run of rejected ones. */
    ghost predicate Valid()
      reads this, buffer
    {
      && InBounds()
      && Paced(Pace())
      && lostLine == Replay(pushes).pending
      && inFlight <= |Contents()|
      && written + Contents()[inFlight..] == Render(Replay(pushes).entries)
    }

    /** The copying of copyLogBuffer: in one piece, or in two around the end of the buffer. */
    method CopyBytes(start: nat, end: nat, msg: bytes)
      requires start < buffer.Length && end < buffer.Length && Used(start, end, buffer.Length) + |msg| < buffer.Length
      modifies buffer
      ensures buffer[..] == Stored(old(buffer[..]), end, msg)
    {
      if start <= end && buffer.Length - end < |msg| {
        var first := buffer.Length - end;
        forall i | 0 <= i < first {
          buffer[end + i] := msg[i];
        }
        forall i | 0 <= i < |msg| - first {
          buffer[i] := msg[first + i];
        }
      } else {
        forall i | 0 <= i < |msg| {
          buffer[end + i] := msg[i];
        }
      }
    }

    /** copyLogBuffer. The two positions are the ones the caller has read; the start may be one
        that the writing thread has left behind since. */
    method CopyLogBuffer(start: nat, end: nat, msg: bytes)
      requires InBounds() && start < buffer.Length && end == this.end
      requires |Contents()| <= Used(start, end, buffer.Length)
          && Used(start, end, buffer.Length) + |msg| < buffer.Length
      modifies this`end, buffer
      ensures InBounds() && Contents() == old(Contents()) + msg
    {
      hide Ring, Stored;
      var size := buffer.Length;
      ghost var used := Used(this.start, end, size);
      RingStored(buffer[..], this.start, used, msg);
      CopyBytes(start, end, msg);
      WrapIsRemainder(end + |msg|, size);
      this.end := (this.end + |msg|) % size;
      assert Wrap(end + |msg|, size) == Wrap(this.start + (used + |msg|), size);
      UsedIs(this.start, used + |msg|, size);
    }

    /** The outcome of a push that gets the lock now. */
    ghost function Verdict(msg: bytes): Outcome
      requires InBounds()
      reads this, buffer
    {
      if |Contents()| + |PendingMarker(lostLine)| + |msg| < buffer.Length - 1 then Accepted(msg) else Rejected
    }

    /** pushLogBuffer: 0 when the line went into the buffer, behind the marker for the lost ones. */
    method Push(msg: bytes) returns (r: int)
      requires Valid()
      modifies this`end, this`lostLine, this`pushes, buffer
      ensures Valid()
      ensures old(stop) ==> r == -1 && unchanged(this) && unchanged(buffer)
      ensures !old(stop) ==> pushes == old(pushes) + [old(Verdict(msg))]
      ensures !old(stop) ==>
                (r == 0 <==> |old(Contents())| + |PendingMarker(old(lostLine))| + |msg| < buffer.Length - 1)
      ensures r == 0 || r == -1
      ensures !old(stop) ==> lostLine == if r == 0 then 0 else old(lostLine) + 1
      ensures Contents() == if r == 0 then old(Contents()) + (PendingMarker(old(lostLine)) + msg) else old(Contents())
    {
      hide Ring, Replay, Render, Marker;
      if stop {
        return -1;
      }
      ghost var contents, lines := Contents(), Render(Replay(pushes).entries);
      ReplayPush(pushes, Verdict(msg));
      pushes := pushes + [Verdict(msg)];
      var remainSize := if start > end then start - end - 1 else start + buffer.Length - end - 1;
      var marker := [];
      if lostLine > 0 {
        marker := Marker(lostLine);
      }
      if remainSize <= |msg| || (lostLine > 0 && remainSize <= |msg| + |marker|) {
        lostLine := lostLine + 1;
        assert lines + [] == lines;
        return -1;
      }
      if lostLine > 0 {
        CopyLogBuffer(start, end, marker);
        lostLine := 0;
      }
      assert Contents() == contents + marker;
      CopyLogBuffer(start, end, msg);
      Assoc(contents, marker, msg);
      assert Contents()[inFlight..] == contents[inFlight..] + (marker + msg);
      Assoc(written, contents[inFlight..], marker + msg);
      r := 0;
    }

    /** m_write */
    method Write(from: nat, count: nat)
      requires from + count <= buffer.Length
      modifies this`written
      ensures written == old(written) + buffer[from..from + count]
    {
      written := written + buffer[from..from + count];
    }

    /** What lies between the two positions is written, in one piece or in two. */
    method WriteBetween(start: nat, end: nat, pollSize: nat)
      requires Valid() && inFlight == 0 && start == this.start && end == this.end && start != end
          && pollSize == |Contents()|
      modifies this`written, this`inFlight
      ensures Valid() && inFlight == pollSize && written == old(written) + Contents()
    {
      hide Ring, Replay, Render, Marker;
      ghost var before, contents := written, Contents();
      Pieces(buffer[..], start, end);
      if start < end {
        Write(start, pollSize);
        assert buffer[start..start + pollSize] == buffer[..][start..end];
      } else {
        Write(start, buffer.Length - start);
        Write(0, end);
        Assoc(before, buffer[start..start + (buffer.Length - start)], buffer[0..0 + end]);
        assert contents == buffer[start..start + (buffer.Length - start)] + buffer[0..0 + end];
      }
      inFlight := pollSize;
      assert contents[0..] == contents && contents[pollSize..] == [];
      assert written == written + [];
    }

    /** The pushes of other threads, one after the other. */
    method Arrive(arrivals: seq<bytes>)
      requires Valid()
      modifies this`end, this`lostLine, this`pushes, buffer
      ensures Valid() && old(Contents()) <= Contents() && old(pushes) <= pushes
      ensures arrivals == [] ==> Contents() == old(Contents()) && pushes == old(pushes)
    {
      ghost var contents, outcomes := Contents(), pushes;
      hide *;
      for i := 0 to |arrivals|
        invariant Valid() && InBounds() && contents <= Contents() && outcomes <= pushes
        invariant arrivals == [] ==> Contents() == contents && pushes == outcomes
      {
        var r := Push(arrivals[i]);
      }
    }

    /** buffStart moves past what has been written. */
    method AdvanceStart(pollSize: nat)
      requires Valid() && inFlight == pollSize
      modifies this`start, this`inFlight
      ensures Valid() && inFlight == 0 && Contents() == old(Contents()[pollSize..])
    {
      hide Ring, Replay, Render, Marker;
      ghost var used := |Contents()|;
      RingDrop(buffer[..], start, used, pollSize);
      WrapIsRemainder(start + pollSize, buffer.Length);
      start := (start + pollSize) % buffer.Length;
      UsedIs(start, used - pollSize, buffer.Length);
      inFlight := 0;
      assert Contents()[0..] == Contents();
    }

    method AdjustInterval(pollSize: nat)
      modifies this`writeInterval
      ensures Pace() == AfterWrite(old(Pace()), pollSize, buffer.Length)
    {
      if pollSize < buffer.Length / 10 {
        if writeInterval < MAX_INTERVAL {
          writeInterval := writeInterval + INTERVAL_STEP;
        }
      } else if pollSize > buffer.Length / 3 {
        writeInterval := MIN_INTERVAL;
      } else if pollSize > buffer.Length / 4 {
        if writeInterval > MIN_INTERVAL {
          writeInterval := writeInterval - INTERVAL_STEP;
        }
      }
    }

    /** One round of doWriteLog, behind the decision to write. */
    method WriteRound(start: nat, end: nat, pollSize: nat, arrivals: seq<bytes>)
      requires Valid() && inFlight == 0 && start == this.start && end == this.end && start != end
          && pollSize == |Contents()|
      modifies this`start, this`end, this`lostLine, this`writeInterval, this`lastDuration, this`written, this`pushes,
          this`inFlight, buffer
      ensures Valid() && inFlight == 0
      ensures written == old(written) + old(Contents())
      ensures Pace() == AfterWrite(old(Pace()), pollSize, buffer.Length)
      ensures old(pushes) <= pushes && (arrivals == [] ==> pushes == old(pushes) && Contents() == [])
    {
      hide Ring, Replay, Render, Marker;
      WriteBetween(start, end, pollSize);
      Arrive(arrivals);
      StepsArePaced(Pace(), pollSize, buffer.Length);
      AdjustInterval(pollSize);
      AdvanceStart(pollSize);
    }

    /** The rounds of doWriteLog behind the first one, for as long as a tenth of the buffer is in
        use. `flushed` is the pace when the poll decided to write. */
    method MoreRounds(arrivals: seq<seq<bytes>>, ghost flushed: Cadence, ghost found: nat)
      returns (ghost rounds: seq<nat>)
      requires Valid() && inFlight == 0 && Pace() == Rounds(flushed, found, [], buffer.Length)
      requires arrivals != [] || Contents() == []
      modifies this`start, this`end, this`lostLine, this`writeInterval, this`lastDuration, this`written, this`pushes,
          this`inFlight, buffer
      ensures Valid() && inFlight == 0 && Pace() == Rounds(flushed, found, rounds, buffer.Length)
      ensures old(pushes) <= pushes && old(written) <= written && |Contents()| < buffer.Length / 10
    {
      hide Ring, Replay, Render, Marker;
      rounds := [];
      var r := 1;
      var pollSize: nat := Used(this.start, this.end, buffer.Length);
      while pollSize >= buffer.Length / 10
        invariant Valid() && inFlight == 0 && pollSize == |Contents()|
        invariant r <= |arrivals| || pollSize == 0
        invariant old(pushes) <= pushes && old(written) <= written
        invariant Pace() == Rounds(flushed, found, rounds, buffer.Length)
        decreases |arrivals| + 1 - r
      {
        StepsArePaced(Pace(), pollSize, buffer.Length);
        writeInterval := MIN_INTERVAL;
        rounds := rounds + [pollSize];
        WriteRound(this.start, this.end, pollSize, if r < |arrivals| then arrivals[r] else []);
        r := r + 1;
        pollSize := Used(this.start, this.end, buffer.Length);
      }
    }

    /** doWriteLog. `arrivals` are the pushes of other threads during each round; `poll` is what
        the readings of the two positions found. */
    method DoWriteLog(arrivals: seq<seq<bytes>>) returns (ghost poll: Poll)
      requires Valid() && inFlight == 0
      modifies this`start, this`end, this`lostLine, this`writeInterval, this`lastDuration, this`written, this`pushes,
          this`inFlight, buffer
      ensures Valid() && inFlight == 0
      ensures poll.found == |old(Contents())| && Pace() == AfterPoll(old(Pace()), poll, buffer.Length)
      ensures old(pushes) <= pushes
      ensures if Decide(old(Pace()), poll.found, buffer.Length) == Flush
              then old(written) + old(Contents()) <= written && |Contents()| < buffer.Length / 10
              else written == old(written) && Contents() == old(Contents()) && pushes == old(pushes)
    {
      hide Ring, Replay, Render, Marker;
      var start, end := this.start, this.end;
      var pollSize: nat := Used(start, end, buffer.Length);
      poll := Poll(pollSize, []);
      StepsArePaced(Pace(), pollSize, buffer.Length);
      if start == end {
        writeInterval := MAX_INTERVAL;
        return;
      }
      if pollSize < buffer.Length / 10 {
        lastDuration := lastDuration + writeInterval;
        if lastDuration < MAX_WAIT {
          return;
        }
      }
      lastDuration := 0;
      ghost var flushed := Pace();
      WriteRound(start, end, pollSize, if arrivals == [] then [] else arrivals[0]);
      ghost var rounds := MoreRounds(arrivals, flushed, pollSize);
      poll := Poll(pollSize, rounds);
    }
  }
}
