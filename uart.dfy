/**
 * The interrupt-driven serial port of Cube/App/UART.cc: a receive FIFO
 * filled by the receive interrupt and drained by the task, a transmit FIFO
 * filled by the task and drained by the transmit-empty interrupt, and the
 * blocking helpers built on top (serWriteString, serReadLine and the
 * TextUART line reader).
 *
 * Interrupt handlers are atomic method calls. A `vTaskDelay(10)` is the one
 * point where a task method lets interrupts in: the caller supplies, for the
 * k-th delay, the bytes the receiver delivers (`arrivals[k]`) or the number
 * of transmit-empty interrupts taken (`drains[k]`). Elapsed time is counted
 * in milliseconds.
 */
module Uart {
  import opened CString
  import opened Fifo

  const RX_FIFO_SIZE: nat := 128
  const TX_FIFO_SIZE: nat := 128
  /** The length of one vTaskDelay(10), in milliseconds. */
  const DELAY_MS: nat := 10
  /** The retry budget of serWriteString and serReadLine. */
  const SER_RETRIES: nat := 100
  /** The polls TextUART allows for each byte. */
  const TEXT_POLLS: nat := 200

  /** The transmit-empty interrupts taken during the k-th delay. */
  function DrainAt(drains: seq<nat>, k: nat): nat
  {
    if k < |drains| then drains[k] else 0
  }

  /**
   * The bytes the receiver queues during the delays `lo .. hi - 1` when
   * each of them starts on an empty RXFIFO: every batch, cut to what fits.
   */
  function Accepted(arrivals: seq<seq<byte>>, lo: nat, hi: nat): (r: seq<byte>)
    ensures lo >= hi ==> r == []
    decreases hi
  {
    if hi <= lo then [] else Accepted(arrivals, lo, hi - 1) + Fit(BatchAt(arrivals, hi - 1))
  }

  /** The part of a batch an empty RXFIFO takes in. */
  function Fit(batch: seq<byte>): seq<byte>
  {
    batch[..Min(|batch|, RX_FIFO_SIZE)]
  }

  /** The delays of one wait followed by those of the next are the delays of both. */
  lemma {:induction false} AcceptedSplit(arrivals: seq<seq<byte>>, lo: nat, mid: nat, hi: nat)
    requires lo <= mid <= hi
    ensures Accepted(arrivals, lo, mid) + Accepted(arrivals, mid, hi) == Accepted(arrivals, lo, hi)
    decreases hi
  {
    if mid < hi {
      AcceptedSplit(arrivals, lo, mid, hi - 1);
    }
  }

  /** What one wait queued after what the earlier waits queued. */
  lemma AcceptedJoin(before: seq<byte>, arrivals: seq<seq<byte>>, lo: nat, mid: nat, hi: nat)
    requires lo <= mid <= hi
    ensures before + Accepted(arrivals, lo, mid) + Accepted(arrivals, mid, hi) == before + Accepted(arrivals, lo, hi)
  {
    AcceptedSplit(arrivals, lo, mid, hi);
  }

  /** One more delay appends its fitted batch to what the earlier ones queued. */
  lemma AcceptedStep(before: seq<byte>, arrivals: seq<seq<byte>>, lo: nat, hi: nat)
    requires lo <= hi
    ensures before + Accepted(arrivals, lo, hi) + Fit(BatchAt(arrivals, hi)) == before + Accepted(arrivals, lo, hi + 1)
  {
  }

  /** Nothing arrives during the delays `lo .. hi - 1`. */
  ghost predicate Quiet(arrivals: seq<seq<byte>>, lo: nat, hi: nat)
  {
    forall j: nat :: lo <= j < hi ==> BatchAt(arrivals, j) == []
  }

  /** A quiet run of delays followed by a delay that left the empty FIFO empty is quiet. */
  lemma QuietStep(arrivals: seq<seq<byte>>, lo: nat, hi: nat)
    requires lo <= hi && Quiet(arrivals, lo, hi) && Fit(BatchAt(arrivals, hi)) == []
    ensures Quiet(arrivals, lo, hi + 1)
  {
    var b := BatchAt(arrivals, hi);
    assert |b| == 0 by {
      assert |Fit(b)| == Min(|b|, RX_FIFO_SIZE);
    }
  }

  /** What the task took, followed by what is still queued, cut after what it had taken before. */
  lemma StreamAfter(before: seq<byte>, got: seq<byte>, q0: seq<byte>, q: seq<byte>, delivered: seq<byte>)
    requires before + got + q == before + q0 + delivered
    ensures got + q == q0 + delivered
  {
    assert got + q == (before + got + q)[|before|..];
    assert q0 + delivered == (before + q0 + delivered)[|before|..];
  }

  class SerialPort {
    /** RXFIFO */
    const rx: Fifo
    /** TXFIFO */
    const tx: Fifo
    /** The receive-not-empty interrupt is enabled. */
    var rxneEnabled: bool
    /** The transmit-empty interrupt is enabled. */
    var txeEnabled: bool
    /** The bytes written to the transmit data register, in order. */
    var wire: seq<byte>
    /** Every byte pushed into RXFIFO since the last serInit. */
    ghost var received: seq<byte>
    /** Every byte the task side has taken out of RXFIFO since the last serInit. */
    ghost var taken: seq<byte>
    /** Every byte pushed into TXFIFO since the last serInit, and before it what reached the wire. */
    ghost var queued: seq<byte>

    ghost predicate Valid()
      reads this, rx, rx.buffer, tx, tx.buffer
    {
      && rx != tx && rx.buffer != tx.buffer
      && rx.Valid() && tx.Valid()
      && rx.size == RX_FIFO_SIZE && tx.size == TX_FIFO_SIZE
      && taken + rx.Contents == received
      && wire + tx.Contents == queued
    }

    /** The two FIFOs in static storage, interrupts not yet enabled. */
    constructor ()
      ensures Valid() && fresh(rx) && fresh(tx) && fresh(rx.buffer) && fresh(tx.buffer)
      ensures rx.Contents == [] && tx.Contents == [] && wire == []
      ensures !rxneEnabled && !txeEnabled
    {
      rx := new Fifo(RX_FIFO_SIZE);
      tx := new Fifo(TX_FIFO_SIZE);
      rxneEnabled := false;
      txeEnabled := false;
      wire := [];
      received := [];
      taken := [];
      queued := [];
    }

    /** serInit (and UART::init): both FIFOs emptied, receive interrupt enabled. */
    method Init()
      requires Valid()
      modifies this, rx, tx
      ensures Valid() && rx.Contents == [] && tx.Contents == []
      ensures rxneEnabled && txeEnabled == old(txeEnabled) && wire == old(wire)
    {
      rx.Init();
      tx.Init();
      rxneEnabled := true;
      received := taken;
      queued := wire;
    }

    /** serReadCount (and UART::available) */
    function ReadCount(): (n: uint16)
      reads this, rx, rx.buffer, tx, tx.buffer
      requires Valid()
      ensures n == |rx.Contents|
    {
      rx.Count()
    }

    /** serWriteCount */
    function WriteCount(): (n: uint16)
      reads this, rx, rx.buffer, tx, tx.buffer
      requires Valid()
      ensures n == |tx.Contents|
    {
      tx.Count()
    }

    /** serOnReceive: the received byte `b` is queued, or dropped (-1) when RXFIFO is full. */
    method OnReceive(b: byte) returns (rc: int)
      requires Valid()
      modifies this, rx, rx.buffer
      ensures Valid()
      ensures rc == (if |old(rx.Contents)| == RX_FIFO_SIZE then -1 else 0)
      ensures rc == 0 ==> rx.Contents == old(rx.Contents) + [b] && received == old(received) + [b]
      ensures rc == -1 ==> rx.Contents == old(rx.Contents) && received == old(received)
      ensures taken == old(taken) && wire == old(wire) && queued == old(queued)
      ensures txeEnabled == old(txeEnabled) && rxneEnabled == old(rxneEnabled)
    {
      if rx.IsFull() {
        return -1;
      }
      rx.Push(b);
      received := received + [b];
      rc := 0;
    }

    /**
     * serOnTransmitEmpty: the oldest queued byte goes to the wire; with
     * nothing queued the interrupt is switched off and -1 returned.
     */
    method OnTransmitEmpty() returns (rc: int)
      requires Valid()
      modifies this, tx
      ensures Valid()
      ensures rc == (if old(tx.Contents) == [] then -1 else 0)
      ensures rc == -1 ==> !txeEnabled && wire == old(wire) && tx.Contents == old(tx.Contents)
      ensures rc == 0 ==>
        wire == old(wire) + [old(tx.Contents)[0]] && tx.Contents == old(tx.Contents)[1..]
        && txeEnabled == old(txeEnabled)
      ensures queued == old(queued) && received == old(received) && taken == old(taken)
      ensures rxneEnabled == old(rxneEnabled)
    {
      if tx.IsEmpty() {
        txeEnabled := false;
        return -1;
      }
      var b := tx.Pop(0);
      wire := wire + [b];
      rc := 0;
    }

    /** serRead: takes the oldest received byte; on an empty FIFO returns -1 and leaves `*b` as `b0`. */
    method Read(b0: byte) returns (rc: int, b: byte)
      requires Valid()
      modifies this, rx
      ensures Valid()
      ensures rc == (if old(rx.Contents) == [] then -1 else 0)
      ensures rc == -1 ==> b == b0 && rx.Contents == old(rx.Contents) && taken == old(taken)
      ensures rc == 0 ==>
        b == old(rx.Contents)[0] && rx.Contents == old(rx.Contents)[1..] && taken == old(taken) + [b]
      ensures received == old(received) && wire == old(wire) && queued == old(queued)
      ensures txeEnabled == old(txeEnabled) && rxneEnabled == old(rxneEnabled)
    {
      if rx.IsEmpty() {
        return -1, b0;
      }
      b := rx.Pop(b0);
      taken := taken + [b];
      rc := 0;
    }

    /** UART::read: the oldest received byte, or 0 when nothing was received. */
    method Receive() returns (b: byte)
      requires Valid()
      modifies this, rx
      ensures Valid()
      ensures old(rx.Contents) == [] ==> b == 0 && rx.Contents == [] && taken == old(taken)
      ensures old(rx.Contents) != [] ==>
        b == old(rx.Contents)[0] && rx.Contents == old(rx.Contents)[1..] && taken == old(taken) + [b]
      ensures received == old(received) && wire == old(wire) && queued == old(queued)
      ensures txeEnabled == old(txeEnabled) && rxneEnabled == old(rxneEnabled)
    {
      var _, r := Read(0);
      b := r;
    }

    /** serWrite (and UART::write): queues `b` and enables the transmit interrupt, or returns -1 when TXFIFO is full. */
    method Write(b: byte) returns (rc: int)
      requires Valid()
      modifies this, tx, tx.buffer
      ensures Valid()
      ensures rc == (if |old(tx.Contents)| == TX_FIFO_SIZE then -1 else 0)
      ensures rc == 0 ==> tx.Contents == old(tx.Contents) + [b] && queued == old(queued) + [b] && txeEnabled
      ensures rc == -1 ==> tx.Contents == old(tx.Contents) && queued == old(queued) && txeEnabled == old(txeEnabled)
      ensures received == old(received) && taken == old(taken) && wire == old(wire)
      ensures rxneEnabled == old(rxneEnabled)
    {
      if tx.IsFull() {
        return -1;
      }
      tx.Push(b);
      queued := queued + [b];
      txeEnabled := true;
      rc := 0;
    }

    /** A delay during which the receive interrupt fires once for each byte of `batch`. */
    method ReceiveDuring(batch: seq<byte>)
      requires Valid()
      modifies this, rx, rx.buffer
      ensures Valid()
      ensures var k := Min(|batch|, RX_FIFO_SIZE - |old(rx.Contents)|);
        rx.Contents == old(rx.Contents) + batch[..k] && received == old(received) + batch[..k]
      ensures taken == old(taken) && wire == old(wire) && queued == old(queued)
      ensures txeEnabled == old(txeEnabled) && rxneEnabled == old(rxneEnabled)
    {
      var i := 0;
      while i < |batch|
        invariant 0 <= i <= |batch|
        invariant Valid()
        invariant var k := Min(i, RX_FIFO_SIZE - |old(rx.Contents)|);
          rx.Contents == old(rx.Contents) + batch[..k] && received == old(received) + batch[..k]
        invariant taken == old(taken) && wire == old(wire) && queued == old(queued)
        invariant txeEnabled == old(txeEnabled) && rxneEnabled == old(rxneEnabled)
      {
        var _ := OnReceive(batch[i]);
        assert batch[..i + 1] == batch[..i] + [batch[i]];
        i := i + 1;
      }
    }

    /** A delay on an empty RXFIFO, during which the batch `k` of `arrivals` comes in. */
    method IdleDelay(arrivals: seq<seq<byte>>, k: nat)
      requires Valid() && rx.Contents == []
      modifies this, rx, rx.buffer
      ensures Valid()
      ensures rx.Contents == Fit(BatchAt(arrivals, k)) && received == old(received) + Fit(BatchAt(arrivals, k))
      ensures taken == old(taken) && wire == old(wire) && queued == old(queued)
    {
      ReceiveDuring(BatchAt(arrivals, k));
    }

    /** A delay during which the transmit-empty interrupt would fire `n` times while it is enabled. */
    method TransmitDuring(n: nat)
      requires Valid()
      modifies this, tx
      ensures Valid()
      ensures queued == old(queued) && old(wire) <= wire
      ensures received == old(received) && taken == old(taken) && rx.Contents == old(rx.Contents)
      ensures rxneEnabled == old(rxneEnabled)
    {
      var i := 0;
      while i < n
        invariant 0 <= i <= n
        invariant Valid()
        invariant queued == old(queued) && old(wire) <= wire
        invariant received == old(received) && taken == old(taken) && rx.Contents == old(rx.Contents)
        invariant rxneEnabled == old(rxneEnabled)
      {
        if txeEnabled {
          var _ := OnTransmitEmpty();
        }
        i := i + 1;
      }
    }

    /**
     * serWriteString: queues the characters of `str` in order. A full TXFIFO
     * costs a delay and one of 100 retries shared by the whole string; when
     * the retries are used up it returns -1 with the characters before the
     * failing one already queued.
     */
    method WriteString(str: seq<byte>, drains: seq<nat>) returns (rc: int, elapsed: nat)
      requires Valid() && 0 !in str
      modifies this, tx, tx.buffer
      ensures Valid()
      ensures rc == 0 || rc == -1
      ensures rc == 0 ==> queued == old(queued) + str && elapsed <= SER_RETRIES * DELAY_MS
      ensures rc == -1 ==>
        |old(queued)| <= |queued| < |old(queued)| + |str|
        && queued == old(queued) + str[..|queued| - |old(queued)|]
        && elapsed == SER_RETRIES * DELAY_MS
      ensures old(wire) <= wire
      ensures received == old(received) && taken == old(taken) && rx.Contents == old(rx.Contents)
    {
      var nRetries := SER_RETRIES;
      var i := 0;
      elapsed := 0;
      while i < |str|
        invariant 0 <= i <= |str| && 0 <= nRetries <= SER_RETRIES
        invariant elapsed == (SER_RETRIES - nRetries) * DELAY_MS
        invariant Valid()
        invariant queued == old(queued) + str[..i]
        invariant old(wire) <= wire
        invariant received == old(received) && taken == old(taken) && rx.Contents == old(rx.Contents)
        decreases |str| - i, nRetries
      {
        var r := Write(str[i]);
        if r != 0 {
          if nRetries == 0 {
            return -1, elapsed;
          }
          TransmitDuring(DrainAt(drains, SER_RETRIES - nRetries));
          elapsed := elapsed + DELAY_MS;
          nRetries := nRetries - 1;
        } else {
          assert str[..i + 1] == str[..i] + [str[i]];
          i := i + 1;
        }
      }
      assert str[..i] == str;
      rc := 0;
    }

    /**
     * serReadLine: copies received bytes into `str` until it has stored
     * `maxSize` of them, meets a CR or LF, or has used up 100 retries of
     * waiting. A CR or LF is written into the next slot but not counted and
     * not stored past; no terminator is written. Returns the count and the
     * number of delays. The bytes taken, then those still queued, are the
     * bytes queued before followed by those that arrived. A line cut short
     * without a CR or LF means the retries ran out on an empty RXFIFO, so
     * every byte queued or arrived was stored.
     */
    method ReadLine(str: array<byte>, maxSize: uint16, arrivals: seq<seq<byte>>) returns (n: nat, delays: nat)
      requires Valid() && maxSize <= str.Length
      requires str != rx.buffer && str != tx.buffer
      modifies this, rx, rx.buffer, str
      ensures Valid()
      ensures n <= maxSize && delays <= SER_RETRIES
      ensures forall j :: 0 <= j < n ==> str[j] != 13 && str[j] != 10
      ensures taken == old(taken) + str[..n]
        || (n < maxSize && (str[n] == 13 || str[n] == 10) && taken == old(taken) + str[..n + 1])
      ensures taken == old(taken) + str[..n] && n < str.Length ==> str[n] == old(str[n])
      ensures n < maxSize && taken == old(taken) + str[..n] ==>
        delays == SER_RETRIES && rx.Contents == []
      ensures received == old(received) + Accepted(arrivals, 0, delays)
      ensures taken == old(taken) + str[..n] ==>
        str[..n] + rx.Contents == old(rx.Contents) + Accepted(arrivals, 0, delays)
      ensures taken != old(taken) + str[..n] ==>
        str[..n + 1] + rx.Contents == old(rx.Contents) + Accepted(arrivals, 0, delays)
      ensures forall j :: n < j < str.Length ==> str[j] == old(str[j])
      ensures wire == old(wire) && queued == old(queued)
    {
      n, delays := CopyLine(str, maxSize, arrivals);
      if taken == old(taken) + str[..n] {
        StreamAfter(old(taken), str[..n], old(rx.Contents), rx.Contents, Accepted(arrivals, 0, delays));
      } else {
        StreamAfter(old(taken), str[..n + 1], old(rx.Contents), rx.Contents, Accepted(arrivals, 0, delays));
      }
    }

    /** The loop of serReadLine, with what it does to the streams of bytes taken and received. */
    method CopyLine(str: array<byte>, maxSize: uint16, arrivals: seq<seq<byte>>) returns (n: nat, delays: nat)
      requires Valid() && maxSize <= str.Length
      requires str != rx.buffer && str != tx.buffer
      modifies this, rx, rx.buffer, str
      ensures Valid()
      ensures n <= maxSize && delays <= SER_RETRIES
      ensures forall j :: 0 <= j < n ==> str[j] != 13 && str[j] != 10
      ensures taken == old(taken) + str[..n]
        || (n < maxSize && (str[n] == 13 || str[n] == 10) && taken == old(taken) + str[..n + 1])
      ensures taken == old(taken) + str[..n] && n < str.Length ==> str[n] == old(str[n])
      ensures n < maxSize && taken == old(taken) + str[..n] ==>
        delays == SER_RETRIES && rx.Contents == []
      ensures received == old(received) + Accepted(arrivals, 0, delays)
      ensures forall j :: n < j < str.Length ==> str[j] == old(str[j])
      ensures wire == old(wire) && queued == old(queued)
    {
      var nRetries := SER_RETRIES;
      var left: nat := maxSize;
      n := 0;
      delays := 0;
      while left > 0
        invariant n + left == maxSize && 0 <= nRetries <= SER_RETRIES
        invariant delays == SER_RETRIES - nRetries
        invariant Valid()
        invariant received == old(received) + Accepted(arrivals, 0, delays)
        invariant forall j :: 0 <= j < n ==> str[j] != 13 && str[j] != 10
        invariant taken == old(taken) + str[..n]
        invariant forall j :: n <= j < str.Length ==> str[j] == old(str[j])
        invariant wire == old(wire) && queued == old(queued)
        decreases left, nRetries
      {
        var r, b := Read(str[n]);
        if r != 0 {
          if nRetries == 0 {
            break;
          }
          AcceptedStep(old(received), arrivals, 0, delays);
          IdleDelay(arrivals, delays);
          delays := delays + 1;
          nRetries := nRetries - 1;
        } else {
          str[n] := b;
          assert str[..n + 1] == str[..n] + [b];
          if b == 13 || b == 10 {
            break;
          }
          n := n + 1;
          left := left - 1;
        }
      }
    }

    /**
     * The wait of TextUART::read and readLine for one byte: up to 200
     * polls of serReadCount, each poll that finds nothing followed by a
     * delay in which the batch `k` of `arrivals` comes in. `ready` says a
     * byte came; the wait gives up after 199 delays that brought nothing.
     */
    method AwaitText(arrivals: seq<seq<byte>>, k0: nat) returns (ready: bool, k: nat)
      requires Valid()
      modifies this, rx, rx.buffer
      ensures Valid() && (ready <==> rx.Contents != [])
      ensures taken == old(taken) && wire == old(wire) && queued == old(queued)
      ensures received == old(received) + Accepted(arrivals, k0, k)
      ensures k0 <= k < k0 + TEXT_POLLS
      ensures k == k0 ==> rx.Contents == old(rx.Contents)
      ensures k > k0 ==> old(rx.Contents) == [] && Quiet(arrivals, k0, k - 1)
      ensures ready && k > k0 ==> rx.Contents == Fit(BatchAt(arrivals, k - 1))
      ensures !ready ==>
        k == k0 + TEXT_POLLS - 1 && old(rx.Contents) == [] && Quiet(arrivals, k0, k)
    {
      var nRetries := TEXT_POLLS;
      k, ready := k0, true;
      while ReadCount() == 0
        invariant 0 < nRetries <= TEXT_POLLS && k - k0 == TEXT_POLLS - nRetries
        invariant Valid()
        invariant taken == old(taken) && wire == old(wire) && queued == old(queued)
        invariant received == old(received) + Accepted(arrivals, k0, k)
        invariant k == k0 ==> rx.Contents == old(rx.Contents)
        invariant k > k0 ==> old(rx.Contents) == [] && Quiet(arrivals, k0, k - 1)
        invariant k > k0 ==> rx.Contents == Fit(BatchAt(arrivals, k - 1))
        decreases nRetries
      {
        // Nothing is waiting, so the last delay (if any) brought nothing.
        if k > k0 {
          QuietStep(arrivals, k0, k - 1);
        }
        assert Quiet(arrivals, k0, k);
        nRetries := nRetries - 1;
        if nRetries == 0 {
          ready := false;
          return;
        }
        AcceptedStep(old(received), arrivals, k0, k);
        IdleDelay(arrivals, k);
        k := k + 1;
      }
    }

    /** One byte of TextUART::read and readLine: the oldest byte of RXFIFO is stored at `buf[i]`. */
    method TakeInto(buf: array<byte>, i: nat, ghost before: seq<byte>) returns (b: byte)
      requires Valid() && rx.Contents != [] && i < buf.Length
      requires buf != rx.buffer && buf != tx.buffer && taken == before + buf[..i]
      modifies this, rx, buf
      ensures Valid() && buf[i] == b && taken == before + buf[..i + 1] && received == old(received)
      ensures forall j :: 0 <= j < buf.Length && j != i ==> buf[j] == old(buf[j])
      ensures wire == old(wire) && queued == old(queued)
    {
      b := Receive();
      buf[i] := b;
      assert buf[..i + 1] == old(buf[..i]) + [b];
    }

    /**
     * TextUART::read: reads `nChars` bytes into `buf`, waiting up to 200
     * polls for each; when a byte does not come it writes a NUL in the next
     * slot and returns the count so far. `delays` is the number of
     * vTaskDelay calls made, the batches `0 .. delays - 1` of `arrivals`.
     * The bytes read, then those still queued, are the bytes queued before
     * followed by those that arrived.
     */
    method TextRead(buf: array<byte>, nChars: int, arrivals: seq<seq<byte>>) returns (nRead: nat, delays: nat)
      requires Valid() && nChars <= buf.Length
      requires buf != rx.buffer && buf != tx.buffer
      modifies this, rx, rx.buffer, buf
      ensures Valid()
      ensures nChars <= 0 ==> nRead == 0
      ensures nChars > 0 ==> nRead <= nChars
      ensures taken == old(taken) + buf[..nRead]
      ensures received == old(received) + Accepted(arrivals, 0, delays)
      ensures buf[..nRead] + rx.Contents == old(rx.Contents) + Accepted(arrivals, 0, delays)
      ensures nRead < nChars ==> buf[nRead] == 0
      ensures nRead < nChars ==>
        rx.Contents == [] && TEXT_POLLS - 1 <= delays
        && Quiet(arrivals, delays - (TEXT_POLLS - 1), delays)
      ensures forall j :: nRead < j < buf.Length ==> buf[j] == old(buf[j])
      ensures nChars <= nRead ==> forall j :: nRead <= j < buf.Length ==> buf[j] == old(buf[j])
      ensures wire == old(wire) && queued == old(queued)
    {
      nRead := 0;
      delays := 0;
      var left := nChars;
      while left > 0
        invariant left > 0 ==> nRead + left == nChars
        invariant nChars > 0 ==> nRead <= nChars
        invariant nChars <= 0 ==> nRead == 0
        invariant left <= 0 ==> nRead >= nChars
        invariant Valid()
        invariant taken == old(taken) + buf[..nRead]
        invariant received == old(received) + Accepted(arrivals, 0, delays)
        invariant forall j :: nRead <= j < buf.Length ==> buf[j] == old(buf[j])
        invariant wire == old(wire) && queued == old(queued)
        decreases left
      {
        var ready, d := AwaitText(arrivals, delays);
        AcceptedJoin(old(received), arrivals, 0, delays, d);
        delays := d;
        if !ready {
          buf[nRead] := 0;
          StreamAfter(old(taken), buf[..nRead], old(rx.Contents), rx.Contents, Accepted(arrivals, 0, delays));
          return;
        }
        var b := TakeInto(buf, nRead, old(taken));
        nRead := nRead + 1;
        left := left - 1;
      }
      StreamAfter(old(taken), buf[..nRead], old(rx.Contents), rx.Contents, Accepted(arrivals, 0, delays));
    }

    /**
     * TextUART::readLine: reads into `buf` until the byte `delim` (kept)
     * or until `nChars - 1` bytes are stored, then writes a NUL. When a byte
     * does not come within 200 polls it returns the count so far WITHOUT
     * writing a NUL (`timedOut`). `delays` counts the vTaskDelay calls.
     * The bytes read, then those still queued, are the bytes queued before
     * followed by those that arrived.
     */
    method TextReadLine(buf: array<byte>, nChars: int, delim: byte, arrivals: seq<seq<byte>>)
      returns (nRead: nat, delays: nat, ghost timedOut: bool)
      requires Valid() && 0 < buf.Length && nChars <= buf.Length
      requires buf != rx.buffer && buf != tx.buffer
      modifies this, rx, rx.buffer, buf
      ensures Valid()
      ensures nChars <= 1 ==> nRead == 0
      ensures nChars > 1 ==> nRead <= nChars - 1
      ensures taken == old(taken) + buf[..nRead]
      ensures received == old(received) + Accepted(arrivals, 0, delays)
      ensures buf[..nRead] + rx.Contents == old(rx.Contents) + Accepted(arrivals, 0, delays)
      ensures forall j :: 0 <= j < nRead - 1 ==> buf[j] != delim
      ensures timedOut ==> nChars > 1 && (nRead == 0 || buf[nRead - 1] != delim)
      ensures timedOut ==>
        rx.Contents == [] && TEXT_POLLS - 1 <= delays
        && Quiet(arrivals, delays - (TEXT_POLLS - 1), delays)
      ensures timedOut ==> forall j :: nRead <= j < buf.Length ==> buf[j] == old(buf[j])
      ensures !timedOut ==> buf[nRead] == 0
      ensures !timedOut && nChars > 1 ==> nRead == nChars - 1 || (nRead > 0 && buf[nRead - 1] == delim)
      ensures forall j :: nRead < j < buf.Length ==> buf[j] == old(buf[j])
      ensures wire == old(wire) && queued == old(queued)
    {
      nRead := 0;
      delays := 0;
      timedOut := false;
      var left := nChars;
      while left > 1
        invariant left > 1 ==> nRead + left == nChars
        invariant nChars <= 1 ==> nRead == 0
        invariant nChars > 1 ==> nRead <= nChars - 1
        invariant nChars > 1 && left <= 1 ==> nRead == nChars - 1
        invariant Valid()
        invariant taken == old(taken) + buf[..nRead]
        invariant received == old(received) + Accepted(arrivals, 0, delays)
        invariant forall j :: 0 <= j < nRead ==> buf[j] != delim
        invariant forall j :: nRead <= j < buf.Length ==> buf[j] == old(buf[j])
        invariant wire == old(wire) && queued == old(queued)
        decreases left
      {
        var ready, d := AwaitText(arrivals, delays);
        AcceptedJoin(old(received), arrivals, 0, delays, d);
        delays := d;
        if !ready {
          timedOut := true;
          StreamAfter(old(taken), buf[..nRead], old(rx.Contents), rx.Contents, Accepted(arrivals, 0, delays));
          return;
        }
        var b := TakeInto(buf, nRead, old(taken));
        nRead := nRead + 1;
        left := left - 1;
        if b == delim {
          break;
        }
      }
      ghost var read := buf[..nRead];
      buf[nRead] := 0;
      assert buf[..nRead] == read;
      StreamAfter(old(taken), buf[..nRead], old(rx.Contents), rx.Contents, Accepted(arrivals, 0, delays));
    }

    /** TextUART::write: each character goes to serWrite; those that find TXFIFO full are dropped. */
    method TextWrite(s: seq<byte>)
      requires Valid() && 0 !in s
      modifies this, tx, tx.buffer
      ensures Valid()
      ensures var k := Min(|s|, TX_FIFO_SIZE - |old(tx.Contents)|);
        tx.Contents == old(tx.Contents) + s[..k] && queued == old(queued) + s[..k]
      ensures wire == old(wire) && received == old(received) && taken == old(taken)
      ensures rx.Contents == old(rx.Contents)
    {
      var i := 0;
      while i < |s|
        invariant 0 <= i <= |s|
        invariant Valid()
        invariant var k := Min(i, TX_FIFO_SIZE - |old(tx.Contents)|);
          tx.Contents == old(tx.Contents) + s[..k] && queued == old(queued) + s[..k]
        invariant wire == old(wire) && received == old(received) && taken == old(taken)
        invariant rx.Contents == old(rx.Contents)
      {
        var _ := Write(s[i]);
        assert s[..i + 1] == s[..i] + [s[i]];
        i := i + 1;
      }
    }
  }
}
