/** The bounded message queue: a linked list with a head, a tail and a count, and the drain that
    stops at the first message its callback refuses. */
module MessageQueue {
  import opened Bytes

  // ---------- What the operations do to the sequence of messages ----------

  /** The callback of a drain: the bytes it writes for a message into a buffer of the given size,
      or a refusal. The first argument counts the calls, so the answer may change from call to call. */
  type Dump<!T> = (nat, T, nat) -> Option<bytes>

  ghost predicate Fits<T(!new)>(dump: Dump<T>) {
    forall call, msg, size | dump(call, msg, size).Some? :: |dump(call, msg, size).value| <= size
  }

  datatype Operation<!T> = Send(msg: T) | Recv | DumpLimit(dump: Dump<T>, max: nat)

  /** The messages that are left, the ones that went in and the ones that came out. */
  datatype Effect<T> = Effect(left: seq<T>, added: seq<T>, removed: seq<T>)

  function AfterSend<T>(msgs: seq<T>, itemMax: int, msg: T): Effect<T> {
    if |msgs| + 1 > itemMax then Effect(msgs, [], []) else Effect(msgs + [msg], [msg], [])
  }

  function AfterRecv<T>(msgs: seq<T>): Effect<T>
    requires msgs != []
  {
    Effect(msgs[1..], [], msgs[..1])
  }

  /** How many messages a drain takes from call `call` on, and the bytes it writes. */
  function Drained<T>(msgs: seq<T>, dump: Dump<T>, max: nat, call: nat): (r: (nat, bytes))
    ensures r.0 <= |msgs|
    decreases |msgs|
  {
    if msgs == [] then (0, [])
    else
      match dump(call, msgs[0], max)
      case None => (0, [])
      case Some(x) =>
        if |x| > max then (0, [])
        else
          var (n, out) := Drained(msgs[1..], dump, max - |x|, call + 1);
          (n + 1, x + out)
  }

  function AfterDump<T>(msgs: seq<T>, dump: Dump<T>, max: nat): Effect<T> {
    var n := Drained(msgs, dump, max, 0).0;
    Effect(msgs[n..], [], msgs[..n])
  }

  /** A receive on an empty queue would wait; it is not part of a run. */
  function Apply<T>(msgs: seq<T>, itemMax: int, op: Operation<T>): Effect<T> {
    match op
    case Send(msg) => AfterSend(msgs, itemMax, msg)
    case Recv => if msgs == [] then Effect(msgs, [], []) else AfterRecv(msgs)
    case DumpLimit(dump, max) => AfterDump(msgs, dump, max)
  }

  function Run<T>(ops: seq<Operation<T>>, itemMax: int): Effect<T> {
    if ops == [] then Effect([], [], [])
    else
      var before := Run(ops[..|ops| - 1], itemMax);
      var e := Apply(before.left, itemMax, ops[|ops| - 1]);
      Effect(e.left, before.added + e.added, before.removed + e.removed)
  }

  lemma ApplyConserves<T>(msgs: seq<T>, itemMax: int, op: Operation<T>)
    ensures var e := Apply(msgs, itemMax, op);
            && msgs + e.added == e.removed + e.left
            && (|msgs| <= itemMax || msgs == [] ==> |e.left| <= itemMax || e.left == [])
  {
  }

  lemma Regroup<T>(added: seq<T>, removed: seq<T>, msgs: seq<T>, a: seq<T>, r: seq<T>, left: seq<T>)
    requires added == removed + msgs && msgs + a == r + left
    ensures added + a == (removed + r) + left
  {
    assert (removed + msgs) + a == removed + (msgs + a);
    assert removed + (r + left) == (removed + r) + left;
  }

  /** First in, first out: what came out, then what is left, is what went in, in order; and the
      queue never holds more than `itemMax` messages. */
  lemma {:induction false} FirstInFirstOut<T>(ops: seq<Operation<T>>, itemMax: int)
    ensures var e := Run(ops, itemMax); e.added == e.removed + e.left && (|e.left| <= itemMax || e.left == [])
  {
    if ops != [] {
      hide Apply;
      var before := Run(ops[..|ops| - 1], itemMax);
      var e := Apply(before.left, itemMax, ops[|ops| - 1]);
      FirstInFirstOut(ops[..|ops| - 1], itemMax);
      ApplyConserves(before.left, itemMax, ops[|ops| - 1]);
      Regroup(before.added, before.removed, before.left, e.added, e.removed, e.left);
    }
  }

  /** The messages of the sends in front of which fewer than `itemMax` were waiting. */
  function Taken<T>(ops: seq<Operation<T>>, itemMax: int): seq<T> {
    if ops == [] then []
    else
      var front, last := ops[..|ops| - 1], ops[|ops| - 1];
      var waiting := |Run(front, itemMax).left|;
      Taken(front, itemMax) + (if last.Send? && waiting < itemMax then [last.msg] else [])
  }

  /** A send is refused only by a full queue. */
  lemma {:induction false} AddedWhenRoom<T>(ops: seq<Operation<T>>, itemMax: int)
    ensures Run(ops, itemMax).added == Taken(ops, itemMax)
  {
    if ops != [] {
      AddedWhenRoom(ops[..|ops| - 1], itemMax);
    }
  }

  /** What each operation of a run does to the messages that are waiting. */
  lemma RunOne<T>(ops: seq<Operation<T>>, op: Operation<T>, itemMax: int)
    ensures var (before, after) := (Run(ops, itemMax), Run(ops + [op], itemMax));
            match op
            case Send(msg) =>
              if |before.left| < itemMax then
                after == Effect(before.left + [msg], before.added + [msg], before.removed)
              else after == before
            case Recv =>
              if before.left == [] then after == before
              else after == Effect(before.left[1..], before.added, before.removed + [before.left[0]])
            case DumpLimit(dump, max) =>
              var n := Drained(before.left, dump, max, 0).0;
              after == Effect(before.left[n..], before.added, before.removed + before.left[..n])
  {
    assert (ops + [op])[..|ops|] == ops;
    var before := Run(ops, itemMax);
    assert before.added + [] == before.added && before.removed + [] == before.removed;
  }

  // ---------- What a drain takes ----------

  /** The bytes of the first `n` messages, each written into what is left of `max`. */
  function Written<T>(msgs: seq<T>, dump: Dump<T>, max: nat, n: nat): Option<bytes>
    requires n <= |msgs|
  {
    if n == 0 then Some([])
    else
      match Written(msgs, dump, max, n - 1)
      case None => None
      case Some(out) =>
        if |out| > max then None
        else
          match dump(n - 1, msgs[n - 1], max - |out|)
          case None => None
          case Some(x) => Some(out + x)
  }

  /** The first `n` messages are accepted and fill `out`. */
  ghost predicate Accepts<T>(msgs: seq<T>, dump: Dump<T>, max: nat, n: nat, out: bytes) {
    n <= |msgs| && |out| <= max && Written(msgs, dump, max, n) == Some(out)
  }

  /** The first `n` messages are accepted and fill `out`, and the next one is refused. */
  ghost predicate Stops<T>(msgs: seq<T>, dump: Dump<T>, max: nat, n: nat, out: bytes) {
    Accepts(msgs, dump, max, n, out) && (n < |msgs| ==> dump(n, msgs[n], max - |out|).None?)
  }

  /** Where a drain ends that has taken `k` messages and written `out`. */
  function Onward<T>(msgs: seq<T>, dump: Dump<T>, max: nat, k: nat, out: bytes): (nat, bytes)
    requires k <= |msgs| && |out| <= max
  {
    var (n, rest) := Drained(msgs[k..], dump, max - |out|, k);
    (k + n, out + rest)
  }

  lemma OnwardEnds<T(!new)>(msgs: seq<T>, dump: Dump<T>, max: nat, k: nat, out: bytes)
    requires k <= |msgs| && |out| <= max
    requires k < |msgs| ==> dump(k, msgs[k], max - |out|).None?
    ensures Onward(msgs, dump, max, k, out) == (k, out)
  {
    assert out + [] == out;
    assert k < |msgs| ==> msgs[k..][0] == msgs[k];
  }

  lemma OnwardStep<T(!new)>(msgs: seq<T>, dump: Dump<T>, max: nat, k: nat, out: bytes, x: bytes)
    requires Fits(dump) && k < |msgs| && |out| <= max && dump(k, msgs[k], max - |out|) == Some(x)
    ensures |out + x| <= max && Onward(msgs, dump, max, k, out) == Onward(msgs, dump, max, k + 1, out + x)
  {
    assert msgs[k..][0] == msgs[k] && msgs[k..][1..] == msgs[k + 1..];
    Assoc(out, x, Drained(msgs[k + 1..], dump, max - |out + x|, k + 1).1);
  }

  lemma AcceptsMore<T(!new)>(msgs: seq<T>, dump: Dump<T>, max: nat, k: nat, out: bytes)
    requires Fits(dump) && Accepts(msgs, dump, max, k, out) && k < |msgs|
    ensures var r := dump(k, msgs[k], max - |out|); r.Some? ==> Accepts(msgs, dump, max, k + 1, out + r.value)
  {
  }

  lemma {:induction false} DrainedFrom<T(!new)>(msgs: seq<T>, dump: Dump<T>, max: nat, k: nat, out: bytes)
    requires Fits(dump) && Accepts(msgs, dump, max, k, out) && k <= |msgs| && |out| <= max
    ensures var (n, all) := Onward(msgs, dump, max, k, out); Stops(msgs, dump, max, n, all)
    decreases |msgs| - k
  {
    hide Accepts, Drained, Fits, Onward;
    if k < |msgs| && dump(k, msgs[k], max - |out|).Some? {
      var x := dump(k, msgs[k], max - |out|).value;
      AcceptsMore(msgs, dump, max, k, out);
      OnwardStep(msgs, dump, max, k, out, x);
      DrainedFrom(msgs, dump, max, k + 1, out + x);
    } else {
      OnwardEnds(msgs, dump, max, k, out);
    }
  }

  /** A drain takes the longest prefix whose messages are all accepted, writes their bytes one
      behind the other within `max`, and stops at the first refusal. */
  lemma DrainTakesPrefix<T(!new)>(msgs: seq<T>, dump: Dump<T>, max: nat)
    requires Fits(dump)
    ensures var (n, out) := Drained(msgs, dump, max, 0);
            && n <= |msgs| && |out| <= max && Written(msgs, dump, max, n) == Some(out)
            && (n < |msgs| ==> dump(n, msgs[n], max - |out|).None?)
  {
    assert msgs[0..] == msgs;
    DrainedFrom(msgs, dump, max, 0, []);
    var (n, out) := Drained(msgs, dump, max, 0);
    assert [] + out == out;
  }

  /** After `n` calls a drain has written `out`. */
  ghost predicate Underway<T>(msgs: seq<T>, dump: Dump<T>, max: nat, n: nat, out: bytes) {
    n <= |msgs| && |out| <= max && Drained(msgs, dump, max, 0) == Onward(msgs, dump, max, n, out)
  }

  lemma DrainStarts<T>(msgs: seq<T>, dump: Dump<T>, max: nat)
    ensures Underway(msgs, dump, max, 0, []) && msgs[0..] == msgs
  {
    assert msgs[0..] == msgs;
    assert [] + Drained(msgs, dump, max, 0).1 == Drained(msgs, dump, max, 0).1;
  }

  lemma DrainStep<T(!new)>(msgs: seq<T>, dump: Dump<T>, max: nat, n: nat, out: bytes)
    requires Underway(msgs, dump, max, n, out) && Fits(dump)
    ensures n == |msgs| ==> Drained(msgs, dump, max, 0) == (n, out)
    ensures n < |msgs| ==>
              var r := dump(n, msgs[n], max - |out|);
              if r.Some? then |r.value| <= max - |out| && Underway(msgs, dump, max, n + 1, out + r.value)
              else Drained(msgs, dump, max, 0) == (n, out)
  {
    hide Drained, Onward;
    if n < |msgs| && dump(n, msgs[n], max - |out|).Some? {
      OnwardStep(msgs, dump, max, n, out, dump(n, msgs[n], max - |out|).value);
    } else {
      OnwardEnds(msgs, dump, max, n, out);
    }
  }

  /** The buffer `was` with `out` written at `off`; `at` is behind it. */
  ghost predicate Filled(b: bytes, was: bytes, off: nat, at: nat, out: bytes) {
    at == off + |out| && at <= |was| == |b| && b == was[..off] + out + was[at..]
  }

  lemma NothingFilled(was: bytes, off: nat)
    requires off <= |was|
    ensures Filled(was, was, off, off, [])
  {
  }

  lemma AfterDumpIs<T>(msgs: seq<T>, dump: Dump<T>, max: nat, n: nat, out: bytes)
    requires Drained(msgs, dump, max, 0) == (n, out)
    ensures n <= |msgs| && AfterDump(msgs, dump, max) == Effect(msgs[n..], [], msgs[..n])
  {
  }

  lemma FilledIs(b: bytes, was: bytes, off: nat, at: nat, out: bytes)
    requires Filled(b, was, off, at, out)
    ensures at == off + |out| <= |was| == |b| && b == was[..off] + out + was[at..]
  {
  }

  /** The callback writes its bytes. */
  method WriteAt(buf: array<byte>, ghost off: nat, at: nat, x: bytes, ghost was: bytes, ghost out: bytes)
    requires at + |x| <= buf.Length && Filled(buf[..], was, off, at, out)
    modifies buf
    ensures Filled(buf[..], was, off, at + |x|, out + x)
  {
    forall i | 0 <= i < |x| {
      buf[at + i] := x[i];
    }
    assert buf[..at] == was[..off] + out;
  }

  // ---------- The linked list ----------

  class Item<T> {
    var msg: T
    var next: Item?<T>

    constructor (msg: T)
      ensures this.msg == msg && next == null
    {
      this.msg, next := msg, null;
    }
  }

  const ERROR_FULL: int := 1

  /** What the item at `i` leads to. */
  function After<T>(items: seq<Item<T>>, i: nat): Item?<T>
    requires i < |items|
  {
    if i + 1 < |items| then items[i + 1] else null
  }

  class Queue<T(!new)> {
    var head: Item?<T>
    var tail: Item?<T>
    var itemNum: int
    const itemMax: int

    /** The chain from head to tail. */
    ghost var items: seq<Item<T>>

    /** MBT_mqCreate */
    constructor (maxItem: int)
      ensures Valid() && Messages() == [] && itemMax == maxItem && fresh(items)
    {
      head, tail, itemNum, itemMax, items := null, null, 0, maxItem, [];
    }

    /** next leads from head through all the items to null, and no item comes twice. */
    ghost predicate Chained()
      reads this, items
    {
      && head == (if items == [] then null else items[0])
      && (forall i | 0 <= i < |items| :: items[i].next == After(items, i))
      && (forall i, j | 0 <= i < j < |items| :: items[i] != items[j])
      && itemNum == |items|
    }

    ghost predicate Valid()
      reads this, items
    {
      && Chained()
      && tail == (if items == [] then null else items[|items| - 1])
      && (items == [] || itemNum <= itemMax)
    }

    ghost function Messages(): (r: seq<T>)
      reads this, items
      ensures |r| == |items| && forall i | 0 <= i < |r| :: r[i] == items[i].msg
    {
      seq(|items|, i requires 0 <= i < |items| reads this, items => items[i].msg)
    }

    /** The item goes behind the tail. */
    method Append(item: Item<T>)
      requires Valid() && itemNum < itemMax && item.next == null && item !in items
      modifies this`head, this`tail, this`itemNum, this`items, items`next
      ensures Chained() && tail == item && items == old(items) + [item]
    {
      if tail != null {
        tail.next := item;
        tail := item;
      } else {
        tail := item;
        head := tail;
      }
      itemNum := itemNum + 1;
      items := items + [item];
      forall i | 0 <= i < |items|
        ensures items[i].next == After(items, i)
      {
        assert i < |items| - 1 ==> items[i] == old(items)[i];
      }
    }

    /** MBT_mqSend */
    method Send(msg: T) returns (rc: int)
      requires Valid()
      modifies this, items
      ensures Valid()
      ensures items == old(items) || (items != [] && items[..|items| - 1] == old(items) && fresh(items[|items| - 1]))
      ensures rc == 0 <==> |old(Messages())| < itemMax
      ensures Messages() == if rc == 0 then old(Messages()) + [msg] else old(Messages())
      ensures Messages() == AfterSend(old(Messages()), itemMax, msg).left
      ensures rc == if AfterSend(old(Messages()), itemMax, msg).added == [] then -ERROR_FULL else 0
    {
      hide Chained;
      HeadOfChain();
      if itemNum + 1 > itemMax {
        return -ERROR_FULL;
      }
      var item := new Item(msg);
      Append(item);
      HeadOfChain();
      rc := 0;
    }

    lemma HeadOfChain()
      requires Chained()
      ensures itemNum == |items| && (items == [] ==> head == null)
      ensures items != [] ==> head != null && |Messages()| == |items| && head.msg == Messages()[0]
    {
    }

    /** The head item leaves the chain. */
    method DropHead()
      requires Chained() && items != [] && (tail == null || tail == items[|items| - 1])
      modifies this`head, this`itemNum, this`items
      ensures Chained() && items == old(items)[1..] && Messages() == old(Messages())[1..]
    {
      head := head.next;
      itemNum := itemNum - 1;
      items := items[1..];
      forall i | 0 <= i < |items|
        ensures items[i].next == After(items, i)
      {
        assert items[i] == old(items)[i + 1];
      }
    }

    /** MBT_mqRecv, once there is a message. */
    method Recv() returns (rc: int, msg: T)
      requires Valid() && Messages() != []
      modifies this
      ensures Valid() && Messages() == AfterRecv(old(Messages())).left && items == old(items)[1..]
      ensures rc == 0 && old(Messages()) == [msg] + Messages()
      ensures [msg] == AfterRecv(old(Messages())).removed
    {
      msg := head.msg;
      if tail == head {
        tail := null;
        assert itemNum == 1;
      }
      DropHead();
      rc := 0;
    }

    /** A drain has taken `calls` of the messages. */
    ghost predicate Draining(msgs: seq<T>, calls: nat)
      reads this, items
    {
      && Chained() && calls <= |msgs| && Messages() == msgs[calls..]
      && (items != [] ==> tail == items[|items| - 1] && itemNum <= itemMax)
    }

    lemma DrainingEnds(msgs: seq<T>, calls: nat)
      requires Draining(msgs, calls)
      ensures itemNum == |msgs| - calls == |items| && (items == [] ==> head == null) && Chained()
      ensures items != [] ==> tail == items[|items| - 1] && itemNum <= itemMax
      ensures itemNum != 0 ==> head != null && head.msg == msgs[calls] && Valid() && Messages() == msgs[calls..]
    {
      HeadOfChain();
    }

    lemma DrainedOneMore(msgs: seq<T>, calls: nat)
      requires Chained() && calls <= |msgs| && Messages() == msgs[calls..]
      requires items != [] ==> tail == items[|items| - 1] && itemNum <= itemMax
      ensures Draining(msgs, calls)
    {
    }

    lemma NothingDrained(msgs: seq<T>)
      requires Valid() && msgs == Messages()
      ensures Draining(msgs, 0) && Chained()
    {
    }

    lemma Emptied()
      requires tail == null && head == null && itemNum == 0 && items == []
      ensures Valid() && Messages() == []
    {
    }

    /** One turn of the loop of a drain. */
    method DumpNext(dump: Dump<T>, buf: array<byte>, at: nat, size: nat, calls: nat, ghost off: nat, ghost max: nat,
        ghost msgs: seq<T>, ghost was: bytes, ghost out: bytes)
      returns (written: Option<bytes>, ghost shown: T)
      requires Draining(msgs, calls) && calls < |msgs| && Fits(dump) && Filled(buf[..], was, off, at, out)
          && at + size <= |was|
      requires Underway(msgs, dump, max, calls, out) && |out| <= max && size == max - |out|
      modifies this`head, this`itemNum, this`items, buf
      ensures shown == msgs[calls] && written == dump(calls, shown, size)
      ensures written.None? ==> buf[..] == old(buf[..]) && Draining(msgs, calls) && items == old(items)
      ensures written.None? ==> Drained(msgs, dump, max, 0) == (calls, out)
      ensures written.Some? ==> |written.value| <= size && Draining(msgs, calls + 1)
      ensures written.Some? ==> Underway(msgs, dump, max, calls + 1, out + written.value)
      ensures written.Some? ==> old(items) != [] && items == old(items)[1..]
      ensures written.Some? ==> Filled(buf[..], was, off, at + |written.value|, out + written.value)
    {
      hide *;
      DrainStep(msgs, dump, max, calls, out);
      DrainingEnds(msgs, calls);
      FilledIs(buf[..], was, off, at, out);
      shown := head.msg;
      written := dump(calls, head.msg, size);
      if written.Some? {
        WriteAt(buf, off, at, written.value, was, out);
        DropHead();
        DrainedOneMore(msgs, calls + 1);
      }
    }

    /** MBT_mqDumpLimit. `taken` are the messages the callback was shown and accepted. */
    method DumpLimit(dump: Dump<T>, buf: array<byte>, off: nat, max: nat) returns (total: nat, ghost taken: seq<T>)
      requires Valid() && Fits(dump) && off + max <= buf.Length
      modifies this, buf
      ensures Valid() && Messages() == AfterDump(old(Messages()), dump, max).left
      ensures taken == AfterDump(old(Messages()), dump, max).removed
      ensures var n := Drained(old(Messages()), dump, max, 0).0; n <= |old(items)| && items == old(items)[n..]
      ensures var out := Drained(old(Messages()), dump, max, 0).1;
              && total == |out| <= max && buf[..] == old(buf[..])[..off] + out + old(buf[..])[off + |out|..]
    {
      hide *;
      ghost var msgs, was, out: bytes := Messages(), buf[..], [];
      ghost var chain := items;
      DrainStarts(msgs, dump, max);
      NothingDrained(msgs);
      NothingFilled(was, off);
      var at := off;
      var calls := 0;
      total, taken := 0, [];
      DrainingEnds(msgs, 0);
      while itemNum != 0
        invariant calls <= |msgs| == |chain| && Draining(msgs, calls) && itemNum == |msgs| - calls
        invariant items == chain[calls..] && taken == msgs[..calls]
        invariant at == off + total && total == |out| <= max && Underway(msgs, dump, max, calls, out)
        invariant Filled(buf[..], was, off, at, out)
        decreases itemNum
      {
        var rc;
        ghost var shown;
        rc, shown := DumpNext(dump, buf, at, max - total, calls, off, max, msgs, was, out);
        if rc.None? {
          DrainingEnds(msgs, calls);
          FilledIs(buf[..], was, off, at, out);
          AfterDumpIs(msgs, dump, max, calls, out);
          return;
        }
        taken := taken + [shown];
        out := out + rc.value;
        at := at + |rc.value|;
        total := total + |rc.value|;
        calls := calls + 1;
        DrainingEnds(msgs, calls);
      }
      DrainStep(msgs, dump, max, calls, out);
      FilledIs(buf[..], was, off, at, out);
      AfterDumpIs(msgs, dump, max, calls, out);
      DrainingEnds(msgs, calls);
      assert head == null;
      tail := null;
      Emptied();
    }

    lemma InChain()
      requires Valid()
      ensures itemNum == |items| == |Messages()|
    {
    }

    /** One operation of a run, and the messages it hands out; a receive on an empty queue is passed
        over. */
    method Perform(op: Operation<T>) returns (rc: int, ghost handed: seq<T>)
      requires Valid() && (op.DumpLimit? ==> Fits(op.dump))
      modifies this, items
      ensures Valid() && Messages() == Apply(old(Messages()), itemMax, op).left
      ensures handed == Apply(old(Messages()), itemMax, op).removed
      ensures op.Send? ==> (rc == 0 <==> Apply(old(Messages()), itemMax, op).added == [op.msg])
      ensures op.Send? && rc != 0 ==> Apply(old(Messages()), itemMax, op).added == []
      ensures forall i | 0 <= i < |items| :: items[i] in old(items) || fresh(items[i])
    {
      hide Apply, AfterSend, AfterRecv, AfterDump, Drained, Chained, Valid, Messages, Fits;
      InChain();
      ApplyIs(Messages(), itemMax, op);
      rc, handed := 0, [];
      match op
      case Send(msg) =>
        rc := Send(msg);
      case Recv =>
        if itemNum > 0 {
          var msg;
          rc, msg := Recv();
          handed := [msg];
        }
      case DumpLimit(dump, max) =>
        var buf := new byte[max];
        rc, handed := DumpLimit(dump, buf, 0, max);
    }
  }

  /** Over every run of the linked list, first in is first out: the messages that were handed out,
      then the ones on the list from its head, are the ones that were accepted, in order. */
  method Drive<T(!new)>(ops: seq<Operation<T>>, itemMax: int)
    returns (q: Queue<T>, accepted: seq<T>, ghost handed: seq<T>)
    requires forall op | op in ops && op.DumpLimit? :: Fits(op.dump)
    ensures fresh(q) && q.Valid() && q.itemMax == itemMax
    ensures q.Messages() == Run(ops, itemMax).left && accepted == Run(ops, itemMax).added
    ensures handed == Run(ops, itemMax).removed && accepted == handed + q.Messages()
  {
    hide *;
    q := new Queue(itemMax);
    accepted, handed := [], [];
    RunNothing<T>(itemMax);
    assert ops[..0] == [];
    for i := 0 to |ops|
      invariant fresh(q) && q.Valid() && q.itemMax == itemMax && fresh(q.items)
      invariant q.Messages() == Run(ops[..i], itemMax).left && accepted == Run(ops[..i], itemMax).added
      invariant handed == Run(ops[..i], itemMax).removed
    {
      RunStep(ops[..i], ops[i], itemMax);
      assert ops[..i + 1] == ops[..i] + [ops[i]];
      var rc;
      ghost var out;
      rc, out := q.Perform(ops[i]);
      handed := handed + out;
      if ops[i].Send? && rc == 0 {
        accepted := accepted + [ops[i].msg];
      }
    }
    assert ops[..|ops|] == ops;
    FirstInFirstOut(ops, itemMax);
  }

  lemma ApplyIs<T>(msgs: seq<T>, itemMax: int, op: Operation<T>)
    ensures match op
            case Send(msg) =>
              && Apply(msgs, itemMax, op) == AfterSend(msgs, itemMax, msg) && Apply(msgs, itemMax, op).removed == []
              && (Apply(msgs, itemMax, op).added == [msg] || Apply(msgs, itemMax, op).added == [])
            case Recv =>
              Apply(msgs, itemMax, op) == if msgs == [] then Effect(msgs, [], []) else AfterRecv(msgs)
            case DumpLimit(dump, max) => Apply(msgs, itemMax, op) == AfterDump(msgs, dump, max)
  {
  }

  lemma RunNothing<T>(itemMax: int)
    ensures Run<T>([], itemMax) == Effect([], [], [])
  {
  }

  lemma RunStep<T>(ops: seq<Operation<T>>, op: Operation<T>, itemMax: int)
    ensures var (before, after) := (Run(ops, itemMax), Run(ops + [op], itemMax));
            var e := Apply(before.left, itemMax, op);
            && after.left == e.left && after.added == before.added + e.added
            && after.removed == before.removed + e.removed
            && (!op.Send? ==> e.added == [])
  {
    assert (ops + [op])[..|ops|] == ops;
  }
}
