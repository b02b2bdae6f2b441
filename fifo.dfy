/**
 * The fixed-capacity byte queue of Cube/Inc/fifo.h: a circular buffer of
 * `size` slots with a head index and an element count (both uint16_t).
 * The macros become the methods of a class; `Contents` is the queue as the
 * sequence of queued bytes, oldest first.
 */
module Fifo {
  import opened CString

  class Fifo {
    /** FIFO_SIZE: the capacity fixed by the declaration. */
    const size: nat
    const buffer: array<byte>
    var head: nat
    var count: nat
    ghost var Contents: seq<byte>

    ghost predicate Valid()
      reads this, buffer
    {
      && buffer.Length == size
      && 0 < size < 0x1_0000
      && head < size
      && count <= size
      && |Contents| == count
      && forall i :: 0 <= i < count ==> Contents[i] == buffer[Slot(i)]
    }

    /** The buffer slot holding the i-th queued byte. */
    function Slot(i: nat): nat
      reads this
    {
      if head + i < size then head + i else head + i - size
    }

    /** The declaration: static storage starts zeroed, so the queue starts empty. */
    constructor (size: nat)
      requires 0 < size < 0x1_0000
      ensures Valid() && fresh(buffer)
      ensures this.size == size && head == 0 && count == 0 && Contents == []
    {
      this.size := size;
      buffer := new byte[size](_ => 0);
      head := 0;
      count := 0;
      Contents := [];
    }

    /** FIFO_INIT: empties the queue, leaving the storage as it is. */
    method Init()
      requires Valid()
      modifies this
      ensures Valid() && head == 0 && count == 0 && Contents == []
    {
      head := 0;
      count := 0;
      Contents := [];
    }

    /** FIFO_EMPTY */
    function IsEmpty(): (r: bool)
      reads this, buffer
      requires Valid()
      ensures r <==> Contents == []
    {
      count == 0
    }

    /** FIFO_FULL */
    function IsFull(): (r: bool)
      reads this, buffer
      requires Valid()
      ensures r <==> |Contents| == size
    {
      count == size
    }

    /** FIFO_COUNT */
    function Count(): (n: nat)
      reads this, buffer
      requires Valid()
      ensures n == |Contents| && n <= size
    {
      count
    }

    /** FIFO_HEAD: the oldest byte, or 0 when the queue is empty. */
    function Head(): (b: byte)
      reads this, buffer
      requires Valid()
      ensures Contents != [] ==> b == Contents[0]
      ensures Contents == [] ==> b == 0
    {
      if count > 0 then buffer[head] else 0
    }

    /**
     * FIFO_PUSH: appends `b` unless the queue is full, when `b` is dropped.
     * The slot is computed in a uint16_t (PushSlot), which gives the slot
     * after the queued bytes as long as head + count fits 16 bits; beyond
     * that the byte lands in another slot and the queue no longer holds
     * what was pushed (PushSlotWraps).
     */
    method Push(b: byte)
      requires Valid()
      modifies this, buffer
      ensures head == old(head)
      ensures old(count) == size || old(head) + old(count) < 0x1_0000 ==> Valid()
      ensures old(count) < size ==>
        count == old(count) + 1 && buffer[..] == old(buffer[..])[PushSlot(old(head), old(count), size) := b]
      ensures old(count) < size && old(head) + old(count) < 0x1_0000 ==>
        Contents == old(Contents) + [b] && PushSlot(old(head), old(count), size) == old(Slot(count))
      ensures old(count) == size ==>
        count == old(count) && Contents == old(Contents) && buffer[..] == old(buffer[..])
    {
      if count != size {
        var tail := (head + count) % 0x1_0000;
        if tail >= size {
          tail := tail - size;
        }
        buffer[tail] := b;
        count := count + 1;
        Contents := Contents + [b];
      }
    }

    /**
     * FIFO_POP: removes the oldest byte and returns it; on an empty queue the
     * destination variable keeps its value `b0`.
     */
    method Pop(b0: byte) returns (b: byte)
      requires Valid()
      modifies this
      ensures Valid()
      ensures old(count) > 0 ==>
        b == old(Contents[0]) && Contents == old(Contents[1..]) && count == old(count) - 1
        && head == (if old(head) + 1 == size then 0 else old(head) + 1)
      ensures old(count) == 0 ==> b == b0 && Contents == [] && count == 0 && head == old(head)
    {
      if count > 0 {
        b := buffer[head];
        head := head + 1;
        if head == size {
          head := 0;
        }
        count := count - 1;
        Contents := Contents[1..];
      } else {
        b := b0;
      }
    }
  }

  /**
   * The slot FIFO_PUSH writes: head + count truncated to a uint16_t, less
   * the size when that reaches it.
   */
  function PushSlot(head: nat, count: nat, size: nat): (t: nat)
    requires head < size && count < size && size < 0x1_0000
    ensures t < size
    ensures head + count < 0x1_0000 ==> t == if head + count < size then head + count else head + count - size
  {
    var tail := (head + count) % 0x1_0000;
    if tail >= size then tail - size else tail
  }

  /** Every queue of at most 0x8000 slots keeps head + count within 16 bits, so the push slot is the one after the queued bytes. */
  lemma PushSlotWithinHalf(head: nat, count: nat, size: nat)
    requires head < size && count < size && size <= 0x8000
    ensures head + count < 0x1_0000
    ensures PushSlot(head, count, size) == if head + count < size then head + count else head + count - size
  {
  }

  /**
   * Past 0x8000 slots the uint16_t sum wraps: in a queue of 0xC000 slots
   * with its head at the last slot and 0x4001 bytes queued, the next byte
   * belongs in slot 0x4000 but is written to slot 0.
   */
  lemma PushSlotWraps()
    ensures (0xBFFF + 0x4001) % 0xC000 == 0x4000
    ensures PushSlot(0xBFFF, 0x4001, 0xC000) == 0
  {
  }

  /** A call of FIFO_PUSH or FIFO_POP. */
  datatype Op = PushOp(b: byte) | PopOp

  /** What a run of FIFO operations produces. */
  datatype Trace = Trace(popped: seq<byte>, accepted: seq<byte>, final: seq<byte>)

  /**
   * The effect of a sequence of FIFO_PUSH/FIFO_POP calls on a queue of
   * capacity `cap` that holds `q`, one step at a time as Push and Pop above
   * specify it: the bytes the pops return, the pushes that were accepted,
   * and the final contents.
   */
  function Replay(cap: nat, q: seq<byte>, ops: seq<Op>): Trace
    decreases |ops|
  {
    if ops == [] then Trace([], [], q)
    else match ops[0]
      case PushOp(b) =>
        if |q| < cap then
          var t := Replay(cap, q + [b], ops[1..]);
          Trace(t.popped, [b] + t.accepted, t.final)
        else Replay(cap, q, ops[1..])
      case PopOp =>
        if |q| > 0 then
          var t := Replay(cap, q[1..], ops[1..]);
          Trace([q[0]] + t.popped, t.accepted, t.final)
        else Replay(cap, q, ops[1..])
  }

  /**
   * First in, first out: whatever the interleaving, the bytes popped followed
   * by the bytes still queued are exactly the bytes queued at the start
   * followed by the accepted pushes, in order; nothing is lost, duplicated
   * or reordered, and the queue never exceeds its capacity.
   */
  lemma {:induction false} FifoOrder(cap: nat, q: seq<byte>, ops: seq<Op>)
    requires |q| <= cap
    ensures Replay(cap, q, ops).popped + Replay(cap, q, ops).final == q + Replay(cap, q, ops).accepted
    ensures |Replay(cap, q, ops).final| <= cap
    decreases |ops|
  {
    if ops != [] {
      match ops[0]
      case PushOp(b) =>
        if |q| < cap {
          FifoOrder(cap, q + [b], ops[1..]);
          var t := Replay(cap, q + [b], ops[1..]);
          assert t.popped + t.final == q + ([b] + t.accepted);
        } else {
          FifoOrder(cap, q, ops[1..]);
        }
      case PopOp =>
        if |q| > 0 {
          FifoOrder(cap, q[1..], ops[1..]);
          var t := Replay(cap, q[1..], ops[1..]);
          assert ([q[0]] + t.popped) + t.final == [q[0]] + (t.popped + t.final);
          assert q == [q[0]] + q[1..];
        } else {
          FifoOrder(cap, q, ops[1..]);
        }
    }
  }

  /** A push is dropped exactly when the queue is full. */
  lemma PushDroppedOnlyWhenFull(cap: nat, q: seq<byte>, b: byte, rest: seq<Op>)
    ensures |q| < cap ==> Replay(cap, q, [PushOp(b)] + rest).accepted == [b] + Replay(cap, q + [b], rest).accepted
    ensures |q| >= cap ==> Replay(cap, q, [PushOp(b)] + rest) == Replay(cap, q, rest)
  {
    assert ([PushOp(b)] + rest)[1..] == rest;
  }
}
