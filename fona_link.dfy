/**
 * The receive path of the Adafruit FONA driver
 * (mbed/Adafruit_FONA_Library): a ring of RX_BUFFER_SIZE slots with in/out
 * indices taken modulo 255, filled by the serial interrupt handler
 * onSerialDataReceived (which also watches the incoming lines for the
 * unsolicited "RING" and "NO CARRIER" result codes) and drained by _getc;
 * and the two blocking readers built on it, readline and readRaw.
 *
 * The interrupt handler and the task code are atomic method calls.
 * `serialIn` is what the serial peripheral holds and has not yet handed to
 * the handler. A `wait_ms(1)` in readline is the point where interrupts
 * come in: the caller supplies, for the k-th wait, the bytes that arrive
 * (`arrivals[k]`), and the handler runs once over everything pending.
 */
module FonaLink {
  import opened CString

  /** RX_BUFFER_SIZE: the modulus of the ring indices and the length of currentReceivedLine. */
  const RX_BUFFER_SIZE: nat := 255
  /** The replies readline and readRaw assemble are bounded by sizeof(replybuffer) - 1. */
  const REPLY_LIMIT: nat := 254

  /** A callback of the event listener. */
  datatype Event = Ring | NoCarrier

  /** incrementRxBufferInIndex / incrementRxBufferOutIndex: the next ring index. */
  function Next(i: nat): (j: nat)
    requires i < RX_BUFFER_SIZE
    ensures j < RX_BUFFER_SIZE
    ensures j == i + 1 || (i == RX_BUFFER_SIZE - 1 && j == 0)
  {
    (i + 1) % RX_BUFFER_SIZE
  }

  /**
   * What the line watcher of onSerialDataReceived does with one received
   * byte: the new current line and the callbacks made. Bytes other than
   * CR and LF are kept while the line is shorter than RX_BUFFER_SIZE; an LF
   * completes the line, which is compared as a C string with the two
   * result codes when a listener is registered, and starts a new one.
   */
  function WatchStep(line: string, data: byte, listening: bool): (r: (string, seq<Event>))
  {
    var c := data as char;
    if c != LF then
      (if |line| < RX_BUFFER_SIZE && c != CR then line + [c] else line, [])
    else if listening && CStr(line) == "RING" then ([], [Ring])
    else if listening && CStr(line) == "NO CARRIER" then ([], [NoCarrier])
    else ([], [])
  }

  /** The line watcher over a run of received bytes, oldest first. */
  function Watch(line: string, bytes: seq<byte>, listening: bool): (r: (string, seq<Event>))
    ensures |line| <= RX_BUFFER_SIZE ==> |r.0| <= RX_BUFFER_SIZE
    decreases |bytes|
  {
    if bytes == [] then (line, [])
    else
      var before := Watch(line, bytes[..|bytes| - 1], listening);
      var step := WatchStep(before.0, bytes[|bytes| - 1], listening);
      (step.0, before.1 + step.1)
  }

  /** The watcher over one more byte. */
  lemma WatchSnoc(line: string, bytes: seq<byte>, b: byte, listening: bool)
    ensures var before := Watch(line, bytes, listening);
      var step := WatchStep(before.0, b, listening);
      Watch(line, bytes + [b], listening) == (step.0, before.1 + step.1)
  {
    assert (bytes + [b])[..|bytes|] == bytes;
  }

  /** Without a listener the watcher never calls back, whatever arrives. */
  lemma {:induction false} WatchSilent(line: string, bytes: seq<byte>)
    ensures Watch(line, bytes, false).1 == []
    decreases |bytes|
  {
    if bytes != [] {
      WatchSilent(line, bytes[..|bytes| - 1]);
    }
  }

  /** Bytes other than CR and LF extend the current line while it has room, and call nothing. */
  lemma {:induction false} WatchText(line: string, text: seq<byte>, listening: bool)
    requires forall i :: 0 <= i < |text| ==> text[i] as char != CR && text[i] as char != LF
    requires |line| + |text| <= RX_BUFFER_SIZE
    ensures Watch(line, text, listening) == (line + Chars(text), [])
    decreases |text|
  {
    if text == [] {
      assert line + Chars(text) == line;
    } else {
      var n := |text|;
      WatchText(line, text[..n - 1], listening);
      var before := Watch(line, text[..n - 1], listening);
      var c := text[n - 1] as char;
      assert c != LF && c != CR && |before.0| < RX_BUFFER_SIZE;
      assert WatchStep(before.0, text[n - 1], listening) == (before.0 + [c], []);
      assert Chars(text) == Chars(text[..n - 1]) + [c];
      assert line + Chars(text) == before.0 + [c];
      assert Watch(line, text, listening) == (before.0 + [c], before.1 + []);
      assert before.1 + [] == [];
    }
  }

  /**
   * A complete line "text\r\n" received from the start of a line: the
   * current line starts over, and the listener hears of it exactly when it
   * spells one of the two result codes.
   */
  lemma WatchLine(text: seq<byte>, listening: bool)
    requires forall i :: 0 <= i < |text| ==> text[i] as char != CR && text[i] as char != LF
    requires |text| <= RX_BUFFER_SIZE
    ensures var w := Watch([], text + [13, 10], listening);
      && w.0 == []
      && w.1 == (if listening && CStr(Chars(text)) == "RING" then [Ring]
                 else if listening && CStr(Chars(text)) == "NO CARRIER" then [NoCarrier]
                 else [])
  {
    var line, cr := Chars(text), text + [13];
    assert cr + [10] == text + [13, 10];
    WatchText([], text, listening);
    assert [] + line == line;
    WatchCR(text, line, listening);
    WatchLF(cr, line, listening);
  }

  /** A CR after a silent run leaves the current line as it is and calls nothing. */
  lemma WatchCR(bytes: seq<byte>, line: string, listening: bool)
    requires Watch([], bytes, listening) == (line, [])
    ensures Watch([], bytes + [13], listening) == (line, [])
  {
    WatchSnoc([], bytes, 13, listening);
    assert WatchStep(line, 13, listening) == (line, []);
    var none: seq<Event> := [];
    assert none + none == none;
  }

  /** An LF after a silent run starts a new line; the calls are those the completed line makes. */
  lemma WatchLF(bytes: seq<byte>, line: string, listening: bool)
    requires Watch([], bytes, listening) == (line, [])
    ensures Watch([], bytes + [10], listening) == ([], WatchStep(line, 10, listening).1)
  {
    WatchSnoc([], bytes, 10, listening);
    assert [] + WatchStep(line, 10, listening).1 == WatchStep(line, 10, listening).1;
  }

  /** A line of bytes spelling "RING" or "NO CARRIER" reaches the listener as that result code. */
  lemma WatchResultCodes(text: seq<byte>)
    requires Chars(text) == "RING" || Chars(text) == "NO CARRIER"
    ensures Watch([], text + [13, 10], true) == ([], if Chars(text) == "RING" then [Ring] else [NoCarrier])
  {
    var s := Chars(text);
    assert forall i :: 0 <= i < |text| ==> text[i] as char == s[i];
    CStrOfText(s);
    WatchLine(text, true);
  }

  /**
   * What readline does with one byte it takes from the ring, given the
   * reply stored so far: a CR is dropped, an LF is dropped while nothing is
   * stored, and in single-line mode every LF is left out of the reply.
   */
  function KeepStep(reply: string, b: byte, multiline: bool): string
  {
    var c := b as char;
    if c == CR || (c == LF && (reply == [] || !multiline)) then reply else reply + [c]
  }

  /** The reply readline assembles from the bytes it takes, oldest first. */
  function Keep(bytes: seq<byte>, multiline: bool): (reply: string)
    ensures |reply| <= |bytes|
    decreases |bytes|
  {
    if bytes == [] then []
    else KeepStep(Keep(bytes[..|bytes| - 1], multiline), bytes[|bytes| - 1], multiline)
  }

  /** In single-line mode, byte `b` ends the line when something is already stored. */
  predicate EndsLine(reply: string, b: byte)
  {
    b as char == LF && reply != []
  }

  /** The last byte of `bytes` ends a single-line read. */
  predicate EndsWithLineEnd(bytes: seq<byte>)
  {
    |bytes| > 0 && EndsLine(Keep(bytes[..|bytes| - 1], false), bytes[|bytes| - 1])
  }

  /** In single-line mode, no byte of `bytes` ends the line. */
  predicate NoLineEnd(bytes: seq<byte>)
    decreases |bytes|
  {
    bytes == [] || (NoLineEnd(bytes[..|bytes| - 1]) && !EndsWithLineEnd(bytes))
  }

  /** NoLineEnd, byte by byte: no byte ends the line given the reply kept before it. */
  lemma {:induction false} NoLineEndAt(bytes: seq<byte>, j: nat)
    requires NoLineEnd(bytes) && j < |bytes|
    ensures !EndsLine(Keep(bytes[..j], false), bytes[j])
    decreases |bytes|
  {
    var n := |bytes|;
    if j < n - 1 {
      NoLineEndAt(bytes[..n - 1], j);
      assert bytes[..n - 1][..j] == bytes[..j];
    }
  }

  /** Taking one more byte: how the reply and the line-end conditions extend. */
  lemma ReadStep(bytes: seq<byte>, b: byte, multiline: bool)
    ensures (bytes + [b])[..|bytes|] == bytes
    ensures Keep(bytes + [b], multiline) == KeepStep(Keep(bytes, multiline), b, multiline)
    ensures EndsWithLineEnd(bytes + [b]) <==> EndsLine(Keep(bytes, false), b)
    ensures NoLineEnd(bytes + [b]) <==> NoLineEnd(bytes) && !EndsLine(Keep(bytes, false), b)
  {
    assert (bytes + [b])[..|bytes|] == bytes;
  }

  /** A run with no line end has none in any prefix. */
  lemma {:induction false} NoLineEndPrefix(bytes: seq<byte>, k: nat)
    requires NoLineEnd(bytes) && k <= |bytes|
    ensures NoLineEnd(bytes[..k])
    decreases |bytes|
  {
    if k < |bytes| {
      NoLineEndPrefix(bytes[..|bytes| - 1], k);
      assert bytes[..|bytes| - 1][..k] == bytes[..k];
    } else {
      assert bytes[..k] == bytes;
    }
  }

  /** The largest reply readline can store: a round starts below REPLY_LIMIT and a drain takes at most a full ring. */
  const MAX_REPLY: nat := REPLY_LIMIT - 1 + (RX_BUFFER_SIZE - 1)

  /** The reply is what the bytes taken give, and in single-line mode none of them ended the line. */
  ghost predicate Kept(read: seq<byte>, reply: string, multiline: bool)
  {
    reply == Keep(read, multiline) && (!multiline ==> NoLineEnd(read))
  }

  /** A single-line read that the last byte taken has ended, and no byte before it. */
  ghost predicate LineEnded(read: seq<byte>, reply: string)
  {
    |read| > 0 && reply == Keep(read, false) && EndsWithLineEnd(read) && NoLineEnd(read[..|read| - 1])
  }

  /** Between rounds of readline: as Kept, with the reply within its bound. */
  ghost predicate Reading(consumed: seq<byte>, reply: string, multiline: bool)
  {
    Kept(consumed, reply, multiline) && |reply| <= MAX_REPLY
  }

  /** When readline returns: as Reading, except that the last byte taken may have ended the line. */
  ghost predicate Done(consumed: seq<byte>, reply: string, multiline: bool)
  {
    && reply == Keep(consumed, multiline)
    && (!multiline && consumed != [] ==> NoLineEnd(consumed[..|consumed| - 1]))
    && |reply| <= MAX_REPLY
  }

  lemma ReadingDone(consumed: seq<byte>, reply: string, multiline: bool)
    requires Reading(consumed, reply, multiline)
    ensures Done(consumed, reply, multiline)
  {
    if !multiline && consumed != [] {
      NoLineEndPrefix(consumed, |consumed| - 1);
    }
  }

  lemma Assoc<T>(a: seq<T>, b: seq<T>, c: seq<T>)
    ensures a + (b + c) == (a + b) + c
  {
  }

  /** Taking element `n` of `s` next: the prefix grows by it and the rest shrinks by it. */
  lemma TakeNext<T>(s: seq<T>, n: nat)
    requires n < |s|
    ensures s[..n + 1] == s[..n] + [s[n]] && s[n + 1..] == s[n..][1..] && s[n..][0] == s[n]
  {
  }

  /** Everything delivered by the first `n` waits, in order. */
  function Delivered(arrivals: seq<seq<byte>>, n: nat): seq<byte>
  {
    if n == 0 then [] else Delivered(arrivals, n - 1) + BatchAt(arrivals, n - 1)
  }

  /** Text free of CR and LF is kept as it is. */
  lemma {:induction false} KeepText(prefix: seq<byte>, text: seq<byte>, multiline: bool)
    requires forall i :: 0 <= i < |text| ==> text[i] as char != CR && text[i] as char != LF
    ensures Keep(prefix + text, multiline) == Keep(prefix, multiline) + Chars(text)
    decreases |text|
  {
    if text == [] {
      assert prefix + text == prefix;
    } else {
      var whole, init, b := prefix + text, text[..|text| - 1], text[|text| - 1];
      assert whole[..|whole| - 1] == prefix + init && whole[|whole| - 1] == b;
      assert b as char != CR && b as char != LF;
      KeepText(prefix, init, multiline);
      assert Keep(whole, multiline) == Keep(prefix + init, multiline) + [b as char];
      assert Chars(text) == Chars(init) + [b as char];
    }
  }

  /**
   * A modem response line "\r\n" + text + "\r\n" read in single-line mode:
   * no byte before the final LF ends the line, that LF does, and the reply
   * is exactly the text.
   */
  lemma ReadlineOfResponse(text: seq<byte>)
    requires |text| > 0
    requires forall i :: 0 <= i < |text| ==> text[i] as char != CR && text[i] as char != LF
    ensures var s := [13, 10] + text + [13, 10];
      && Keep(s[..|s| - 1], false) == Chars(text)
      && EndsWithLineEnd(s)
      && forall j :: 0 <= j < |s| - 1 ==> !EndsLine(Keep(s[..j], false), s[j])
  {
    var s: seq<byte> := [13, 10] + text + [13, 10];
    var head: seq<byte> := [13, 10];
    assert Keep(head, false) == [] by {
      assert head[..1] == [13];
      assert Keep(head[..1], false) == [];
    }
    forall j | 0 <= j < |s| - 1
      ensures !EndsLine(Keep(s[..j], false), s[j])
    {
      if j == 1 {
        assert s[..1] == [13];
        assert Keep(s[..1], false) == [];
      } else if 2 <= j < |s| - 2 {
        assert s[j] == text[j - 2];
      }
    }
    KeepText(head, text, false);
    assert s[..|s| - 2] == head + text;
    assert s[..|s| - 1] == (head + text) + [13];
    assert (s[..|s| - 1])[..|s| - 2] == head + text;
  }

  /** The number of unread bytes between the in and out indices. */
  function Used(inIndex: nat, outIndex: nat): nat
    requires outIndex < RX_BUFFER_SIZE
  {
    if inIndex >= outIndex then inIndex - outIndex else inIndex + RX_BUFFER_SIZE - outIndex
  }

  /** The slot of the i-th unread byte. */
  function Slot(outIndex: nat, i: nat): nat
  {
    if outIndex + i < RX_BUFFER_SIZE then outIndex + i else outIndex + i - RX_BUFFER_SIZE
  }

  /** Storing at the in index and advancing it appends one byte after the unread ones. */
  lemma RingAdvance(inIndex: nat, outIndex: nat)
    requires inIndex < RX_BUFFER_SIZE && outIndex < RX_BUFFER_SIZE
    requires Used(inIndex, outIndex) < RX_BUFFER_SIZE - 1
    ensures Slot(outIndex, Used(inIndex, outIndex)) == inIndex
    ensures forall i :: 0 <= i < Used(inIndex, outIndex) ==> Slot(outIndex, i) != inIndex
    ensures Used(Next(inIndex), outIndex) == Used(inIndex, outIndex) + 1
  {
  }

  /** Advancing the out index drops the oldest unread byte. */
  lemma RingTake(inIndex: nat, outIndex: nat)
    requires inIndex < RX_BUFFER_SIZE && outIndex < RX_BUFFER_SIZE
    requires Used(inIndex, outIndex) > 0
    ensures Used(inIndex, Next(outIndex)) == Used(inIndex, outIndex) - 1
    ensures forall i :: 0 <= i < Used(inIndex, outIndex) - 1 ==> Slot(Next(outIndex), i) == Slot(outIndex, i + 1)
  {
  }

  class FonaLink {
    /** rxBuffer: RX_BUFFER_SIZE + 1 slots, of which the indices reach 0 .. RX_BUFFER_SIZE - 1. */
    const rxBuffer: array<byte>
    var rxBufferInIndex: nat
    var rxBufferOutIndex: nat
    /** currentReceivedLine[..currentReceivedLineSize] */
    var currentReceivedLine: string
    /** An event listener is registered (eventListener != NULL). */
    var listening: bool
    /** The listener callbacks made so far, in order. */
    var events: seq<Event>
    /** The bytes the serial peripheral holds for the interrupt handler. */
    var serialIn: seq<byte>
    /** The unread bytes in the ring, oldest first. */
    ghost var Contents: seq<byte>

    ghost predicate Valid()
      reads this, rxBuffer
    {
      && rxBuffer.Length == RX_BUFFER_SIZE + 1
      && rxBufferInIndex < RX_BUFFER_SIZE
      && rxBufferOutIndex < RX_BUFFER_SIZE
      && |Contents| == Used(rxBufferInIndex, rxBufferOutIndex) < RX_BUFFER_SIZE
      && (forall i :: 0 <= i < |Contents| ==> Contents[i] == rxBuffer[Slot(rxBufferOutIndex, i)])
      && |currentReceivedLine| <= RX_BUFFER_SIZE
    }

    /** Everything not yet taken by the task: the ring, then the peripheral. */
    ghost function Stream(): seq<byte>
      reads this
    {
      Contents + serialIn
    }

    /** The constructor: an empty ring, an empty current line, no listener. */
    constructor ()
      ensures Valid() && fresh(rxBuffer)
      ensures rxBufferInIndex == 0 && rxBufferOutIndex == 0 && Contents == []
      ensures currentReceivedLine == [] && !listening && events == [] && serialIn == []
    {
      rxBuffer := new byte[RX_BUFFER_SIZE + 1](_ => 0);
      rxBufferInIndex := 0;
      rxBufferOutIndex := 0;
      currentReceivedLine := [];
      listening := false;
      events := [];
      serialIn := [];
      Contents := [];
    }

    /** setEventListener */
    method SetEventListener()
      modifies this
      ensures listening
      ensures rxBufferInIndex == old(rxBufferInIndex) && rxBufferOutIndex == old(rxBufferOutIndex)
      ensures Contents == old(Contents) && currentReceivedLine == old(currentReceivedLine)
      ensures events == old(events) && serialIn == old(serialIn)
    {
      listening := true;
    }

    /** isRxBufferFull: one slot is always left free, so at most 254 bytes wait. */
    function IsRxBufferFull(): (r: bool)
      reads this, rxBuffer
      requires Valid()
      ensures r <==> |Contents| == RX_BUFFER_SIZE - 1
    {
      Next(rxBufferInIndex) == rxBufferOutIndex
    }

    /** isRxBufferEmpty */
    function IsRxBufferEmpty(): (r: bool)
      reads this, rxBuffer
      requires Valid()
      ensures r <==> Contents == []
    {
      rxBufferInIndex == rxBufferOutIndex
    }

    /** readable */
    function Readable(): (r: bool)
      reads this, rxBuffer
      requires Valid()
      ensures r <==> Contents != []
    {
      !IsRxBufferEmpty()
    }

    /**
     * onSerialDataReceived: moves bytes from the peripheral into the ring
     * until the peripheral is empty or the ring is full, feeding each byte
     * to the line watcher. Bytes that do not fit stay in the peripheral.
     */
    method OnSerialDataReceived()
      requires Valid()
      modifies this, rxBuffer
      ensures Valid()
      ensures var k := Min(|old(serialIn)|, RX_BUFFER_SIZE - 1 - |old(Contents)|);
        && Contents == old(Contents) + old(serialIn)[..k]
        && serialIn == old(serialIn)[k..]
        && var w := Watch(old(currentReceivedLine), old(serialIn)[..k], old(listening));
        && currentReceivedLine == w.0
        && events == old(events) + w.1
      ensures Stream() == old(Stream())
      ensures listening == old(listening) && rxBufferOutIndex == old(rxBufferOutIndex)
    {
      ghost var moved: seq<byte> := [];
      ghost var line0, events0 := currentReceivedLine, events;
      ghost var w := Watch(line0, moved, listening);
      while serialIn != [] && !IsRxBufferFull()
        invariant Valid() && listening == old(listening)
        invariant rxBufferOutIndex == old(rxBufferOutIndex)
        invariant |moved| <= |old(serialIn)|
        invariant moved == old(serialIn)[..|moved|] && serialIn == old(serialIn)[|moved|..]
        invariant Contents == old(Contents) + moved
        invariant w == Watch(line0, moved, listening)
        invariant currentReceivedLine == w.0 && events == events0 + w.1
        decreases |serialIn|
      {
        TakeNext(old(serialIn), |moved|);
        var data := ReceiveByte(line0, moved, events0);
        moved := moved + [data];
        w := Watch(line0, moved, listening);
      }
      assert |moved| == Min(|old(serialIn)|, RX_BUFFER_SIZE - 1 - |old(Contents)|);
      assert old(serialIn)[..|moved|] == moved && old(serialIn)[|moved|..] == serialIn;
    }

    /** One pass of the loop of onSerialDataReceived: the peripheral's next byte goes into the ring and past the line watcher. */
    method ReceiveByte(ghost line0: string, ghost moved: seq<byte>, ghost events0: seq<Event>) returns (data: byte)
      requires Valid() && serialIn != [] && |Contents| < RX_BUFFER_SIZE - 1
      requires currentReceivedLine == Watch(line0, moved, listening).0
      requires events == events0 + Watch(line0, moved, listening).1
      modifies this, rxBuffer
      ensures Valid() && listening == old(listening) && rxBufferOutIndex == old(rxBufferOutIndex)
      ensures data == old(serialIn)[0] && serialIn == old(serialIn)[1..]
      ensures Contents == old(Contents) + [data]
      ensures currentReceivedLine == Watch(line0, moved + [data], listening).0
      ensures events == events0 + Watch(line0, moved + [data], listening).1
    {
      data := serialIn[0];
      WatchSnoc(line0, moved, data, listening);
      serialIn := serialIn[1..];
      StoreByte(data);
      AnalyzeByte(data);
      Assoc(events0, Watch(line0, moved, listening).1, WatchStep(Watch(line0, moved, listening).0, data, listening).1);
    }

    /** The ring's part of onSerialDataReceived: store at the in index, then advance it. */
    method StoreByte(data: byte)
      requires Valid() && |Contents| < RX_BUFFER_SIZE - 1
      modifies this, rxBuffer
      ensures Valid() && Contents == old(Contents) + [data]
      ensures rxBufferOutIndex == old(rxBufferOutIndex) && serialIn == old(serialIn)
      ensures currentReceivedLine == old(currentReceivedLine)
      ensures listening == old(listening) && events == old(events)
    {
      RingAdvance(rxBufferInIndex, rxBufferOutIndex);
      rxBuffer[rxBufferInIndex] := data;
      rxBufferInIndex := Next(rxBufferInIndex);
      Contents := Contents + [data];
    }

    /** The line watcher's part of onSerialDataReceived, for one received byte. */
    method AnalyzeByte(data: byte)
      requires Valid()
      modifies this
      ensures Valid()
      ensures var step := WatchStep(old(currentReceivedLine), data, listening);
        currentReceivedLine == step.0 && events == old(events) + step.1
      ensures rxBufferInIndex == old(rxBufferInIndex) && rxBufferOutIndex == old(rxBufferOutIndex)
      ensures Contents == old(Contents) && serialIn == old(serialIn) && listening == old(listening)
    {
      var c := data as char;
      if |currentReceivedLine| < RX_BUFFER_SIZE && c != CR && c != LF {
        currentReceivedLine := currentReceivedLine + [c];
      }
      if c == LF {
        if listening {
          if CStr(currentReceivedLine) == "RING" {
            events := events + [Ring];
          } else if CStr(currentReceivedLine) == "NO CARRIER" {
            events := events + [NoCarrier];
          }
        }
        currentReceivedLine := [];
      }
    }

    /**
     * _getc on a ring that holds data: the oldest byte. (The busy-wait on an
     * empty ring is not modelled; every reader checks readable() first.)
     */
    method Getc() returns (data: byte)
      requires Valid() && Contents != []
      modifies this
      ensures Valid()
      ensures data == old(Contents)[0] && Contents == old(Contents)[1..]
      ensures rxBufferInIndex == old(rxBufferInIndex) && serialIn == old(serialIn)
      ensures currentReceivedLine == old(currentReceivedLine)
      ensures listening == old(listening) && events == old(events)
    {
      RingTake(rxBufferInIndex, rxBufferOutIndex);
      data := rxBuffer[rxBufferOutIndex];
      rxBufferOutIndex := Next(rxBufferOutIndex);
      Contents := Contents[1..];
    }

    /**
     * readline(timeout, multiline): up to `timeout` rounds, each draining the
     * ring and, except the last, followed by a 1 ms wait. It returns the
     * stored length as a uint8_t.
     *
     * `consumed` is the run of bytes it took from the ring and `waits` the
     * number of waits made. The reply is Keep(consumed); in single-line mode
     * no byte before the last one ends the line. It stops when the rounds
     * run out with the ring drained, when a line ends, or when 254 or more
     * characters are stored at the start of a round; a single drain has no
     * length bound, so the reply can run past 254 characters.
     */
    method Readline(timeout: uint16, multiline: bool, arrivals: seq<seq<byte>>)
      returns (len: byte, reply: string, ghost consumed: seq<byte>, waits: nat)
      requires Valid()
      modifies this, rxBuffer
      ensures Valid() && listening == old(listening)
      ensures consumed + Stream() == old(Stream()) + Delivered(arrivals, waits)
      ensures Done(consumed, reply, multiline)
      ensures len == ToU8(|reply|)
      ensures timeout == 0 ==> consumed == [] && reply == [] && waits == 0
      ensures timeout > 0 ==> waits < timeout
      ensures timeout > 0 ==>
        || (Contents == [] && waits == timeout - 1)
        || (!multiline && EndsWithLineEnd(consumed))
        || |reply| >= REPLY_LIMIT
    {
      reply := [];
      consumed := [];
      waits := 0;
      var t: int := timeout;
      ghost var stopped := false;
      while t > 0 && |reply| < REPLY_LIMIT
        invariant Valid() && listening == old(listening)
        invariant 0 <= t <= timeout && waits + t == timeout
        invariant t > 0 || timeout == 0
        invariant t == timeout ==> consumed == [] && reply == []
        invariant consumed + Stream() == old(Stream()) + Delivered(arrivals, waits)
        invariant Reading(consumed, reply, multiline) && !stopped
        decreases t
      {
        t := t - 1;
        var stop;
        reply, stop, consumed := Round(reply, multiline, consumed, t == 0, old(Stream()) + Delivered(arrivals, waits));
        if stop {
          stopped := true;
          break;
        }
        WaitRound(arrivals, waits, consumed, old(Stream()));
        waits := waits + 1;
      }
      if !stopped {
        ReadingDone(consumed, reply, multiline);
      }
      len := ToU8(|reply|);
    }

    /**
     * The draining part of one round of readline, and whether the loop ends
     * after it: when the line ended, or when this is the `last` round.
     */
    method Round(reply0: string, multiline: bool, ghost consumed0: seq<byte>, last: bool, ghost total: seq<byte>)
      returns (reply: string, stop: bool, ghost consumed: seq<byte>)
      requires Valid() && consumed0 + Stream() == total
      requires Reading(consumed0, reply0, multiline) && |reply0| < REPLY_LIMIT
      modifies this
      ensures Valid() && listening == old(listening)
      ensures consumed + Stream() == total
      ensures !stop ==> !last && Reading(consumed, reply, multiline)
      ensures stop ==> Done(consumed, reply, multiline)
      ensures stop && !last ==> !multiline && EndsWithLineEnd(consumed)
      ensures stop ==> (!multiline && EndsWithLineEnd(consumed)) || Contents == []
    {
      var ended;
      ghost var taken;
      reply, ended, taken := DrainRound(reply0, multiline, consumed0, total);
      consumed := consumed0 + taken;
      stop := ended || last;
      if !ended {
        ReadingDone(consumed, reply, multiline);
      }
    }

    /** The wait that ends a round of readline: the next batch of arrivals comes in. */
    method WaitRound(arrivals: seq<seq<byte>>, waits: nat, ghost consumed: seq<byte>, ghost stream0: seq<byte>)
      requires Valid() && consumed + Stream() == stream0 + Delivered(arrivals, waits)
      modifies this, rxBuffer
      ensures Valid() && listening == old(listening)
      ensures consumed + Stream() == stream0 + Delivered(arrivals, waits + 1)
    {
      var batch := BatchAt(arrivals, waits);
      ghost var stream1 := Stream();
      Wait(batch);
      Assoc(consumed, stream1, batch);
      Assoc(stream0, Delivered(arrivals, waits), batch);
    }

    /** A wait_ms(1) inside readline, during which `batch` arrives and the interrupt handler runs. */
    method Wait(batch: seq<byte>)
      requires Valid()
      modifies this, rxBuffer
      ensures Valid() && listening == old(listening)
      ensures Stream() == old(Stream()) + batch
    {
      serialIn := serialIn + batch;
      Assoc(Contents, old(serialIn), batch);
      OnSerialDataReceived();
    }

    /**
     * The inner loop of readline: takes bytes while the ring is readable,
     * and in single-line mode stops at the byte that ends the line.
     * `consumed0` is what readline has taken before, `taken` what this
     * round takes.
     */
    method DrainRound(reply0: string, multiline: bool, ghost consumed0: seq<byte>, ghost total: seq<byte>)
      returns (reply: string, ended: bool, ghost taken: seq<byte>)
      requires Valid() && consumed0 + Stream() == total
      requires Kept(consumed0, reply0, multiline)
      modifies this
      ensures Valid() && listening == old(listening) && serialIn == old(serialIn)
      ensures |taken| + |Contents| == |old(Contents)| && consumed0 + taken + Stream() == total
      ensures |reply| <= |reply0| + |taken|
      ensures ended ==> !multiline && LineEnded(consumed0 + taken, reply)
      ensures !ended ==> Contents == [] && Kept(consumed0 + taken, reply, multiline)
    {
      reply := reply0;
      ended := false;
      taken := [];
      ghost var read := consumed0;
      assert consumed0 + taken == consumed0;
      while !ended && Readable()
        invariant Valid() && listening == old(listening) && serialIn == old(serialIn)
        invariant |taken| + |Contents| == |old(Contents)| && read == consumed0 + taken
        invariant read + Stream() == total && |reply| <= |reply0| + |taken|
        invariant !ended ==> Kept(read, reply, multiline)
        invariant ended ==> !multiline && LineEnded(read, reply)
        decreases |Contents|
      {
        var d;
        reply, ended, d := TakeByte(reply, multiline, read);
        Assoc(read, [d], Stream());
        Assoc(consumed0, taken, [d]);
        taken, read := taken + [d], read + [d];
      }
    }

    /**
     * One pass of the inner loop of readline: take the oldest byte, drop a CR,
     * drop an LF while nothing is stored, stop at an LF in single-line mode,
     * and store anything else. `read0` is what was taken before.
     */
    method TakeByte(reply0: string, multiline: bool, ghost read0: seq<byte>) returns (reply: string, ended: bool, d: byte)
      requires Valid() && Contents != [] && Kept(read0, reply0, multiline)
      modifies this
      ensures Valid() && listening == old(listening) && serialIn == old(serialIn)
      ensures old(Contents) == [d] + Contents && old(Stream()) == [d] + Stream()
      ensures |reply| <= |reply0| + 1
      ensures ended ==> !multiline && LineEnded(read0 + [d], reply)
      ensures !ended ==> Kept(read0 + [d], reply, multiline)
    {
      ghost var ring := Contents;
      d := Getc();
      assert ring == [d] + Contents;
      Assoc([d], Contents, serialIn);
      ReadStep(read0, d, multiline);
      reply, ended := reply0, false;
      var c := d as char;
      if c == CR {
      } else if c == LF && |reply| == 0 {
      } else if c == LF && !multiline {
        ended := true;
      } else {
        reply := reply + [c];
      }
    }

    /** One byte of readRaw: the next byte of the ring joins the copied data. */
    method RawByte(data0: string, ghost consumed0: seq<byte>, ghost total: seq<byte>)
      returns (data: string, ghost consumed: seq<byte>)
      requires Valid() && Contents != []
      requires data0 == Chars(consumed0) && total == consumed0 + Stream()
      modifies this
      ensures Valid() && listening == old(listening)
      ensures data == Chars(consumed) && |consumed| == |consumed0| + 1
      ensures total == consumed + Stream() && |Stream()| + 1 == |old(Stream())|
    {
      var d := Getc();
      data := data0 + [d as char];
      consumed := consumed0 + [d];
      Assoc(consumed0, [d], Stream());
    }

    /**
     * readRaw(b): takes min(b, 254) bytes from the ring, spinning while it is
     * empty; the interrupt handler moves pending bytes in meanwhile. The
     * caller must ask only for bytes that are on their way: otherwise the
     * loop never ends.
     */
    method ReadRaw(b: uint16) returns (idx: nat, data: string)
      requires Valid()
      requires Min(b, REPLY_LIMIT) <= |Stream()|
      modifies this, rxBuffer
      ensures Valid() && listening == old(listening)
      ensures idx == |data| == Min(b, REPLY_LIMIT)
      ensures data == Chars(old(Stream())[..idx])
      ensures Stream() == old(Stream())[idx..]
    {
      idx := 0;
      data := [];
      var left: int := b;
      ghost var consumed: seq<byte> := [];
      while left > 0 && idx < REPLY_LIMIT
        invariant Valid() && listening == old(listening)
        invariant 0 <= left && idx + left == b && idx <= REPLY_LIMIT
        invariant idx == |data| == |consumed| && data == Chars(consumed)
        invariant old(Stream()) == consumed + Stream()
        invariant Min(left, REPLY_LIMIT - idx) <= |Stream()|
        decreases left, |serialIn|
      {
        if Readable() {
          data, consumed := RawByte(data, consumed, old(Stream()));
          idx := idx + 1;
          left := left - 1;
        } else {
          OnSerialDataReceived();
        }
      }
      assert old(Stream())[..idx] == consumed;
    }
  }
}
