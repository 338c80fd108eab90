/** The arithmetic of the circular log buffer. */
module LogRing {
  import opened Bytes

  /** `k % n`, for the sums that occur. */
  function Wrap(k: nat, n: nat): (r: nat)
    requires k < 2 * n
    ensures r < n
  {
    if k < n then k else k - n
  }

  lemma WrapIsRemainder(k: nat, n: nat)
    requires k < 2 * n
    ensures k % n == Wrap(k, n)
  {
    if k >= n {
      assert (k - n) % n == k - n;
    }
  }

  /** getLogRemainSize: the bytes between the two positions. */
  function Used(start: nat, end: nat, n: nat): (r: nat)
    requires start < n && end < n
    ensures r < n && end == Wrap(start + r, n)
  {
    if end >= start then end - start else n + end - start
  }

  lemma UsedIs(start: nat, used: nat, n: nat)
    requires start < n && used < n
    ensures Used(start, Wrap(start + used, n), n) == used
  {
  }

  /** remainSize of pushLogBuffer. */
  function Free(start: nat, end: nat, n: nat): (r: nat)
    requires start < n && end < n
    ensures r == n - 1 - Used(start, end, n)
  {
    if start > end then start - end - 1 else start + n - end - 1
  }

  /** `count` bytes from `start` on. */
  function Ring(b: bytes, start: nat, count: nat): (r: bytes)
    requires start < |b| && count <= |b|
    ensures |r| == count
    ensures forall i | 0 <= i < count :: r[i] == b[Wrap(start + i, |b|)]
  {
    seq(count, i requires 0 <= i < count => b[Wrap(start + i, |b|)])
  }

  /** How far slot `j` is behind slot `at`. */
  function Distance(at: nat, j: nat, n: nat): nat
    requires at < n && j < n
  {
    if j >= at then j - at else j + n - at
  }

  /** The buffer once `msg` has been stored from slot `at` on. */
  function Stored(b: bytes, at: nat, msg: bytes): (r: bytes)
    requires at < |b|
    ensures |r| == |b|
    ensures forall j | 0 <= j < |b| :: r[j] == if Distance(at, j, |b|) < |msg| then msg[Distance(at, j, |b|)] else b[j]
  {
    seq(|b|, j requires 0 <= j < |b| => if Distance(at, j, |b|) < |msg| then msg[Distance(at, j, |b|)] else b[j])
  }

  /** Storing behind the last byte leaves the bytes in front of it alone. */
  lemma RingStored(b: bytes, start: nat, used: nat, msg: bytes)
    requires start < |b| && used < |b| && used + |msg| <= |b|
    ensures Ring(Stored(b, Wrap(start + used, |b|), msg), start, used + |msg|) == Ring(b, start, used) + msg
    ensures Ring(Stored(b, Wrap(start + used, |b|), msg), start, used) == Ring(b, start, used)
  {
    var n, at := |b|, Wrap(start + used, |b|);
    var r := Ring(Stored(b, at, msg), start, used + |msg|);
    forall i | 0 <= i < used + |msg|
      ensures r[i] == (Ring(b, start, used) + msg)[i]
    {
      assert Distance(at, Wrap(start + i, n), n) == if i < used then i + n - used else i - used;
    }
    assert Ring(Stored(b, at, msg), start, used) == r[..used];
  }

  lemma RingDrop(b: bytes, start: nat, count: nat, k: nat)
    requires start < |b| && k <= count < |b|
    ensures Ring(b, start, count)[k..] == Ring(b, Wrap(start + k, |b|), count - k)
    ensures Ring(b, start, count)[..k] == Ring(b, start, k)
  {
  }

  /** The one or two pieces a drain consists of. */
  lemma Pieces(b: bytes, start: nat, end: nat)
    requires start < |b| && end < |b| && start != end
    ensures Ring(b, start, Used(start, end, |b|)) == if start < end then b[start..end] else b[start..] + b[..end]
  {
  }
}
