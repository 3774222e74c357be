/** The kernel's message queue (queue.rs): items copied by value into a ring of slots, found by absolute addresses. */
module Queue {
  import opened Arith
  import opened Bytes

  const SEND_TO_FRONT: int := 0
  const SEND_TO_BACK: int := 1
  const OVERWRITE: int := 2

  // ---- the ring as a value

  /** Slot number j of the storage. */
  ghost function Slot(bytes: seq<byte>, size: nat, j: nat): seq<byte> {
    if size * j + size <= |bytes| then bytes[size * j..size * j + size] else []
  }

  /** The slot that is read i + 1 slots after slot r. */
  ghost function After(r: nat, i: nat, length: nat): nat
    requires length > 0
  {
    (r + 1 + i) % length
  }

  /** The n items that follow slot r. */
  ghost function Items(bytes: seq<byte>, size: nat, length: nat, r: nat, n: nat): (s: seq<seq<byte>>)
    requires length > 0
    ensures |s| == n && forall i | 0 <= i < n :: s[i] == Slot(bytes, size, After(r, i, length))
  {
    seq(n, i requires 0 <= i < n => Slot(bytes, size, After(r, i, length)))
  }

  /** x copied into slot j. */
  ghost predicate Stored(was: seq<byte>, now: seq<byte>, size: nat, length: nat, j: nat, x: seq<byte>)
  {
    && |was| == |now| == size * length && j < length && |x| == size
    && (forall i | 0 <= i < |now| :: now[i] == if size * j <= i < size * j + size then x[i - size * j] else was[i])
  }

  lemma CopiedAt(was: seq<byte>, now: seq<byte>, a: nat, b: nat, size: nat, x: seq<byte>)
    requires |was| == |now| && |x| == size && a + size <= |now| && b + size <= |now|
    requires forall i | 0 <= i < |now| :: now[i] == if a <= i < a + size then x[i - a] else was[i]
    requires a == b || a + size <= b || b + size <= a
    ensures now[b..b + size] == if a == b then x else was[b..b + size]
  {
  }

  lemma SlotsAfter(was: seq<byte>, now: seq<byte>, size: nat, length: nat, j: nat, x: seq<byte>, k: nat)
    requires Stored(was, now, size, length, j, x) && k < length
    ensures Slot(now, size, k) == if k == j then x else Slot(was, size, k)
  {
    var a, b, all := size * j, size * k, size * length;
    SlotFits(size, length, j);
    SlotFits(size, length, k);
    SlotsApart(size, j, k);
    CopiedAt(was, now, a, b, size, x);
    if k != j && size == 0 { assert Slot(now, size, k) == []; }
  }

  lemma SlotFits(size: nat, length: nat, j: nat)
    requires j < length
    ensures 0 <= size * j && size * j + size <= size * length
  {
    MulLe(size, 0, j);
    MulLe(size, j + 1, length);
    MulStep(size, j);
  }

  lemma SlotsApart(size: nat, j: nat, k: nat)
    ensures j < k ==> size * j + size <= size * k
    ensures k < j ==> size * k + size <= size * j
    ensures size > 0 && j != k ==> size * j != size * k
  {
    if j < k { SlotFits(size, k, j); } else if k < j { SlotFits(size, j, k); }
  }

  /** The slot before slot r. */
  ghost function Before(r: nat, length: nat): nat
    requires length > 0
  {
    if r == 0 then length - 1 else r - 1
  }

  lemma AfterIs(r: nat, i: nat, length: nat)
    requires r < length && i <= length
    ensures After(r, i, length) == if r + 1 + i < length then r + 1 + i else if r + 1 + i < 2 * length then r + 1 + i - length else 0
  {
    ModUnique(r + 1 + i, length, if r + 1 + i < length then 0 else if r + 1 + i < 2 * length then 1 else 2,
              if r + 1 + i < length then r + 1 + i else if r + 1 + i < 2 * length then r + 1 + i - length else 0);
  }

  /** Going on from one slot later, or from one slot earlier. */
  lemma Shifted(r: nat, i: nat, length: nat)
    requires r < length && i < length
    ensures After(After(r, 0, length), i, length) == After(r, i + 1, length)
    ensures After(Before(r, length), i + 1, length) == After(r, i, length)
    ensures After(r, 0, length) < length && Before(r, length) < length && After(Before(r, length), 0, length) == r
    ensures After(r, i, length) < length
  {
    AfterIs(r, 0, length);
    AfterIs(r, i, length);
    AfterIs(r, i + 1, length);
    AfterIs(After(r, 0, length), i, length);
    AfterIs(Before(r, length), i + 1, length);
    AfterIs(Before(r, length), 0, length);
  }

  /** The items and the free slot behind them are in different slots. */
  lemma AfterApart(r: nat, i: nat, j: nat, length: nat)
    requires r < length && i < j < length
    ensures After(r, i, length) != After(r, j, length) && After(r, i, length) != r
  {
    AfterIs(r, i, length);
    AfterIs(r, j, length);
  }

  /** Storing behind the last item. */
  lemma StoredAtBack(was: seq<byte>, now: seq<byte>, size: nat, length: nat, r: nat, n: nat, x: seq<byte>)
    requires length > 0 && r < length && n < length && Stored(was, now, size, length, After(r, n, length), x)
    ensures Items(now, size, length, r, n + 1) == Items(was, size, length, r, n) + [x]
    ensures After(r, n + 1, length) == After(After(r, n, length), 0, length)
  {
    hide Slot, Stored;
    forall i | 0 <= i <= n ensures Slot(now, size, After(r, i, length)) == if i == n then x else Slot(was, size, After(r, i, length)) {
      Shifted(r, i, length);
      SlotsAfter(was, now, size, length, After(r, n, length), x, After(r, i, length));
      if i < n { AfterApart(r, i, n, length); }
    }
    AfterIs(r, n, length);
    AfterIs(r, n + 1, length);
    AfterIs(After(r, n, length), 0, length);
  }

  /** Storing in front of the first item, in slot r itself. */
  lemma StoredAtFront(was: seq<byte>, now: seq<byte>, size: nat, length: nat, r: nat, n: nat, x: seq<byte>)
    requires length > 0 && r < length && n < length && Stored(was, now, size, length, r, x)
    ensures Items(now, size, length, Before(r, length), n + 1) == [x] + Items(was, size, length, r, n)
    ensures After(Before(r, length), n + 1, length) == After(r, n, length)
  {
    hide Slot, Stored, After, Before;
    Shifted(r, n, length);
    forall i | 0 <= i <= n
      ensures Slot(now, size, After(Before(r, length), i, length)) == if i == 0 then x else Slot(was, size, After(r, i - 1, length))
    {
      if i == 0 {
        SlotsAfter(was, now, size, length, r, x, r);
      } else {
        Shifted(r, i - 1, length);
        SlotsAfter(was, now, size, length, r, x, After(r, i - 1, length));
        AfterApart(r, i - 1, i, length);
      }
    }
  }

  lemma TakenFromFront(bytes: seq<byte>, size: nat, length: nat, r: nat, n: nat)
    requires length > 0 && r < length && 0 < n <= length
    ensures Items(bytes, size, length, r, n)[0] == Slot(bytes, size, After(r, 0, length))
    ensures Items(bytes, size, length, After(r, 0, length), n - 1) == Items(bytes, size, length, r, n)[1..]
    ensures After(After(r, 0, length), n - 1, length) == After(r, n, length)
  {
    hide Slot, After;
    forall i | 0 <= i < n ensures After(After(r, 0, length), i, length) == After(r, i + 1, length) {
      Shifted(r, i, length);
    }
  }

  /** Overwriting slot r of a queue that holds something: read on from the slot before. */
  lemma StoredOver(was: seq<byte>, now: seq<byte>, size: nat, length: nat, r: nat, n: nat, x: seq<byte>)
    requires length > 0 && r < length && 0 < n <= length && Stored(was, now, size, length, r, x)
    ensures Items(now, size, length, Before(r, length), n) == [x] + Items(was, size, length, r, n)[..n - 1]
    ensures After(Before(r, length), n, length) == After(r, n, length) <==> length == 1
  {
    hide Items, Slot, Stored;
    StoredAtFront(was, now, size, length, r, n - 1, x);
    AfterIs(r, n - 1, length);
    AfterIs(r, n, length);
    assert Items(was, size, length, r, n)[..n - 1] == Items(was, size, length, r, n - 1);
  }

  // ---- the queue

  class Ring {
    const storage: array<byte>
    const head: nat       // the address of its first byte
    const length: nat
    const itemSize: nat
    var tail: nat
    var writeTo: nat
    var readFrom: nat
    var waiting: nat
    ghost var w: nat      // the slots that the addresses stand for
    ghost var r: nat

    /** prvInitialiseNewQueue, for items of at least a byte. The storage is not in the first bytes of memory. */
    constructor (storage: array<byte>, head: nat, length: nat, itemSize: nat)
      requires length > 0 && 0 < itemSize <= head && storage.Length == itemSize * length
      ensures Valid() && Contents() == [] && this.length == length && this.itemSize == itemSize && this.storage == storage
    {
      this.storage, this.head, this.length, this.itemSize := storage, head, length, itemSize;
      new;
      Reset();
    }

    ghost predicate Laid()
      reads this
    {
      && length > 0 && 0 < itemSize <= head && storage.Length == itemSize * length && tail == head + itemSize * length
      && w < length && r < length && writeTo == head + itemSize * w && readFrom == head + itemSize * r
    }

    /** The write address stands behind the last of the waiting items, the read address before the first. */
    ghost predicate Valid()
      reads this
    {
      Laid() && waiting <= length && w == After(r, waiting, length)
    }

    /** The items that reads will give. */
    ghost function Contents(): (s: seq<seq<byte>>)
      requires length > 0
      reads this, storage
      ensures |s| == waiting
    {
      Items(storage[..], itemSize, length, r, waiting)
    }

    /** xQueueGenericReset. */
    method Reset()
      requires length > 0 && 0 < itemSize <= head && storage.Length == itemSize * length
      modifies this
      ensures Valid() && Contents() == []
    {
      tail := head + length * itemSize;
      waiting := 0;
      writeTo := head;
      readFrom := head + (length - 1) * itemSize;
      w, r := 0, length - 1;
      AfterIs(r, 0, length);
    }

    /** memcpy into the storage, at an address that stands for slot j. */
    method CopyIn(at: nat, ghost j: nat, x: seq<byte>)
      requires Laid() && j < length && at == head + itemSize * j && |x| == itemSize
      modifies storage
      ensures Stored(old(storage[..]), storage[..], itemSize, length, j, x)
    {
      MulLe(itemSize, j + 1, length);
      MulLe(itemSize, 0, j);
      MulStep(itemSize, j);
      forall i | 0 <= i < |x| {
        storage[at - head + i] := x[i];
      }
    }

    /** memcpy out of the storage. */
    method CopyOut(at: nat, ghost j: nat) returns (x: seq<byte>)
      requires Laid() && j < length && at == head + itemSize * j
      ensures x == Slot(storage[..], itemSize, j) && |x| == itemSize
    {
      MulLe(itemSize, j + 1, length);
      MulLe(itemSize, 0, j);
      MulStep(itemSize, j);
      x := storage[at - head..at - head + itemSize];
    }

    /** The next slot, over the end of the storage. */
    method Advance(at: nat, ghost j: nat) returns (next: nat)
      requires Laid() && j < length && at == head + itemSize * j
      ensures After(j, 0, length) < length && next == head + itemSize * After(j, 0, length)
    {
      MulStep(itemSize, j);
      MulLe(itemSize, j + 1, length);
      AfterIs(j, 0, length);
      if j + 1 < length { MulLe(itemSize, j + 2, length); MulStep(itemSize, j + 1); }
      next := at + itemSize;
      if next >= tail {
        next := head;
      }
    }

    /** The slot before, over the start of the storage. */
    method Retreat(at: nat, ghost j: nat) returns (next: nat)
      requires Laid() && j < length && at == head + itemSize * j
      ensures Before(j, length) < length && next == head + itemSize * Before(j, length)
    {
      MulLe(itemSize, 0, j);
      if j > 0 { MulStep(itemSize, j - 1); MulLe(itemSize, 0, j - 1); }
      MulStep(itemSize, length - 1);
      next := at - itemSize;
      if next < head {
        next := tail - itemSize;
      }
    }

    /** prvCopyDataToQueue: the item goes behind the last one, or in front of the first one. Overwriting replaces the item of a
        queue for one item; a longer queue that holds something loses its last item, and its write address is a slot too far. */
    method CopyDataToQueue(x: seq<byte>, position: int)
      requires Valid() && |x| == itemSize && (position != OVERWRITE ==> waiting < length)
      modifies this, storage
      ensures position == SEND_TO_BACK ==> Contents() == old(Contents()) + [x]
      ensures position != SEND_TO_BACK && (position != OVERWRITE || old(waiting) == 0) ==> Contents() == [x] + old(Contents())
      ensures position == OVERWRITE && old(waiting) > 0 ==> Contents() == [x] + old(Contents())[..old(waiting) - 1]
      ensures Valid() <==> position != OVERWRITE || length == 1 || old(waiting) == 0
    {
      hide Stored, Items, After, Before;
      var n := waiting;
      ghost var was := storage[..];
      if position == SEND_TO_BACK {
        CopyIn(writeTo, w, x);
        StoredAtBack(was, storage[..], itemSize, length, r, n, x);
        writeTo := Advance(writeTo, w);
        w := After(w, 0, length);
      } else {
        CopyIn(readFrom, r, x);
        if n < length { StoredAtFront(was, storage[..], itemSize, length, r, n, x); }
        if n > 0 { StoredOver(was, storage[..], itemSize, length, r, n, x); }
        readFrom := Retreat(readFrom, r);
        r := Before(r, length);
        if position == OVERWRITE {
          if n > 0 {
            n := n - 1;
          }
        }
      }
      waiting := n + 1;
    }

    /** prvCopyDataFromQueue: reads the slot after the read address, which moves there. */
    method CopyDataFromQueue() returns (x: seq<byte>)
      requires Valid()
      modifies `readFrom, `r
      ensures Laid() && r == After(old(r), 0, length) && x == Slot(storage[..], itemSize, r) && |x| == itemSize
    {
      hide After, Slot;
      readFrom := Advance(readFrom, r);
      r := After(r, 0, length);
      x := CopyOut(readFrom, r);
    }

    /** xQueueGenericSend without waiting: refused only when the queue is full and not to be overwritten. */
    method Send(x: seq<byte>, position: int) returns (ok: bool)
      requires Valid() && |x| == itemSize
      modifies this, storage
      ensures Valid() <==> position != OVERWRITE || length == 1 || old(waiting) == 0
      ensures ok <==> old(waiting) < length || position == OVERWRITE
      ensures !ok ==> Contents() == old(Contents())
      ensures ok && position == SEND_TO_BACK ==> Contents() == old(Contents()) + [x]
      ensures position == OVERWRITE && (length == 1 || old(waiting) == 0) ==> Contents() == [x]
      ensures position == OVERWRITE && old(waiting) > 0 ==> Contents() == [x] + old(Contents())[..old(waiting) - 1]
      ensures ok && position != SEND_TO_BACK && position != OVERWRITE ==> Contents() == [x] + old(Contents())
    {
      ok := waiting < length || position == OVERWRITE;
      if ok {
        CopyDataToQueue(x, position);
      }
    }

    /** xQueueReceive without waiting: the first item, unless there is none. */
    method Receive() returns (ok: bool, x: seq<byte>)
      requires Valid()
      modifies this
      ensures Valid() && (ok <==> old(waiting) > 0)
      ensures ok ==> x == old(Contents())[0] && Contents() == old(Contents())[1..]
      ensures !ok ==> x == [] && Contents() == old(Contents()) == []
    {
      hide Items, After, Slot;
      var n := waiting;
      ok, x := n > 0, [];
      if ok {
        TakenFromFront(storage[..], itemSize, length, r, n);
        x := CopyDataFromQueue();
        waiting := n - 1;
      }
    }

    /** xQueuePeek without waiting: the first item, which stays. */
    method Peek() returns (ok: bool, x: seq<byte>)
      requires Valid()
      modifies `readFrom, `r
      ensures Valid() && Contents() == old(Contents()) && readFrom == old(readFrom) && (ok <==> waiting > 0)
      ensures x == if ok then Contents()[0] else []
    {
      hide Items, After, Slot;
      ok, x := waiting > 0, [];
      if ok {
        TakenFromFront(storage[..], itemSize, length, r, waiting);
        ghost var r0 := r;
        var original := readFrom;
        x := CopyDataFromQueue();
        readFrom := original;
        r := r0;
      }
    }
  }

  /** A queue for two items of one byte that holds one: overwriting leaves the write address a slot too far. */
  method OverwrittenPair(storage: array<byte>) returns (q: Ring)
    requires storage.Length == 2
    modifies storage
    ensures fresh(q) && q.length == 2 && q.Contents() == [[9]] && q.waiting == 1 && !q.Valid()
  {
    q := new Ring(storage, 100, 2, 1);
    var ok := q.Send([5], SEND_TO_BACK);
    ok := q.Send([9], OVERWRITE);
  }

  // ---- runs

  datatype Op = SendBack(x: seq<byte>) | SendFront(x: seq<byte>) | Overwrite(x: seq<byte>) | Take | Look | Clear

  datatype Reply = Sent(ok: bool) | Got(ok: bool, x: seq<byte>) | Cleared

  /** What one operation does to a deque that holds at most length items. */
  function Step(s: seq<seq<byte>>, length: nat, op: Op): (seq<seq<byte>>, Reply) {
    match op
    case SendBack(x) => if |s| < length then (s + [x], Sent(true)) else (s, Sent(false))
    case SendFront(x) => if |s| < length then ([x] + s, Sent(true)) else (s, Sent(false))
    case Overwrite(x) => ([x], Sent(true))
    case Take => if s == [] then (s, Got(false, [])) else (s[1..], Got(true, s[0]))
    case Look => if s == [] then (s, Got(false, [])) else (s, Got(true, s[0]))
    case Clear => ([], Cleared)
  }

  function Steps(s: seq<seq<byte>>, length: nat, ops: seq<Op>): (seq<seq<byte>>, seq<Reply>)
    decreases |ops|
  {
    if ops == [] then (s, [])
    else
      var (s1, replies) := Steps(s, length, ops[..|ops| - 1]);
      var (s2, reply) := Step(s1, length, ops[|ops| - 1]);
      (s2, replies + [reply])
  }

  /** Items are of the size of the slots, and only a queue for one item is overwritten. */
  predicate Proper(q: Ring, op: Op) {
    match op
    case SendBack(x) => |x| == q.itemSize
    case SendFront(x) => |x| == q.itemSize
    case Overwrite(x) => |x| == q.itemSize && q.length == 1
    case _ => true
  }

  method Do(q: Ring, op: Op) returns (reply: Reply)
    requires q.Valid() && Proper(q, op)
    modifies q, q.storage
    ensures q.Valid() && (q.Contents(), reply) == Step(old(q.Contents()), q.length, op)
  {
    hide Items, After;
    match op
    case SendBack(x) =>
      var ok := q.Send(x, SEND_TO_BACK);
      reply := Sent(ok);
    case SendFront(x) =>
      var ok := q.Send(x, SEND_TO_FRONT);
      reply := Sent(ok);
    case Overwrite(x) =>
      var ok := q.Send(x, OVERWRITE);
      reply := Sent(ok);
    case Take =>
      var ok, x := q.Receive();
      reply := Got(ok, x);
    case Look =>
      var ok, x := q.Peek();
      reply := Got(ok, x);
    case Clear =>
      q.Reset();
      reply := Cleared;
  }

  /** Over every run the ring of slots answers as a bounded deque does. */
  method Run(q: Ring, ops: seq<Op>) returns (replies: seq<Reply>)
    requires q.Valid() && forall op | op in ops :: Proper(q, op)
    modifies q, q.storage
    ensures q.Valid() && (q.Contents(), replies) == Steps(old(q.Contents()), q.length, ops)
  {
    assert q.length > 0;
    hide Ring.Valid, Ring.Contents, Step, Proper;
    ghost var s := q.Contents();
    replies := [];
    for i := 0 to |ops|
      invariant q.Valid() && q.length > 0 && (q.Contents(), replies) == Steps(s, q.length, ops[..i])
    {
      assert ops[..i + 1][..i] == ops[..i];
      var reply := Do(q, ops[i]);
      replies := replies + [reply];
    }
    assert ops[..|ops|] == ops;
  }

  /** A deque never holds more than it may. */
  lemma {:induction false} Bounded(s: seq<seq<byte>>, length: nat, ops: seq<Op>)
    requires |s| <= length && length > 0
    ensures |Steps(s, length, ops).0| <= length
    decreases |ops|
  {
    if ops != [] {
      Bounded(s, length, ops[..|ops| - 1]);
    }
  }

  /** The items that a run of back-sends puts in, and that its receives take out. */
  function PutIn(ops: seq<Op>, replies: seq<Reply>): seq<seq<byte>>
    requires |ops| == |replies|
  {
    if ops == [] then []
    else
      var n := |ops| - 1;
      var before := PutIn(ops[..n], replies[..n]);
      if ops[n].SendBack? && replies[n] == Sent(true) then before + [ops[n].x] else before
  }

  function TakenOut(ops: seq<Op>, replies: seq<Reply>): seq<seq<byte>>
    requires |ops| == |replies|
  {
    if ops == [] then []
    else
      var n := |ops| - 1;
      var before := TakenOut(ops[..n], replies[..n]);
      if ops[n] == Take && replies[n].Got? && replies[n].ok then before + [replies[n].x] else before
  }

  /** First in, first out: what was there and what was put in is what was taken out and what is there, in the same order. */
  lemma {:induction false} Fifo(s: seq<seq<byte>>, length: nat, ops: seq<Op>)
    requires forall op | op in ops :: op.SendBack? || op == Take || op == Look
    ensures var (s2, replies) := Steps(s, length, ops); |replies| == |ops| && s + PutIn(ops, replies) == TakenOut(ops, replies) + s2
    decreases |ops|
  {
    if ops != [] {
      var n := |ops| - 1;
      Fifo(s, length, ops[..n]);
      assert ops[n] in ops;
      var (s1, replies1) := Steps(s, length, ops[..n]);
      var (s2, replies) := Steps(s, length, ops);
      assert replies[..n] == replies1;
      if ops[n].SendBack? {
        assert (s + PutIn(ops[..n], replies1)) + [ops[n].x] == s + (PutIn(ops[..n], replies1) + [ops[n].x]);
      } else if ops[n] == Take && s1 != [] {
        assert TakenOut(ops[..n], replies1) + s1 == (TakenOut(ops[..n], replies1) + [s1[0]]) + s1[1..];
      }
    }
  }
}
