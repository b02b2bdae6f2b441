/**
 * The MS5607 barometer driver of the mbed tracker (mbed/baro.cpp): the
 * I2C address and command bytes, the big-endian assembly of the replies,
 * the loading of the calibration PROM and the compensated temperature and
 * pressure of `update`.
 *
 * The I2C bus is an oracle: a script of outcomes, one per transfer, each
 * either acknowledged (with the bytes a read returns) or not; the bus
 * keeps the log of the frames it was asked to send. The command values
 * are those of the MS5607 command set (reset 0x1E, convert 0x40, ADC read
 * 0x00, PROM read 0xA0), and the conversion type and oversampling rate are
 * the field values of the convert command (D1 pressure = 0, D2
 * temperature = 1; OSR 256 .. 4096 = 0 .. 4).
 */
module Baro {
  import opened CString

  const CmdReset: byte := 0x1E
  const CmdReadADC: byte := 0x00
  const CmdConvert: byte := 0x40
  const CmdReadPROM: byte := 0xA0

  datatype ConversionType = Pressure | Temperature
  datatype OversamplingRate = OSR256 | OSR512 | OSR1024 | OSR2048 | OSR4096

  function TypeCode(t: ConversionType): nat
  {
    match t
      case Pressure => 0
      case Temperature => 1
  }

  function OsrCode(osr: OversamplingRate): nat
  {
    match osr
      case OSR256 => 0
      case OSR512 => 1
      case OSR1024 => 2
      case OSR2048 => 3
      case OSR4096 => 4
  }

  // ---------------------------------------------------------------------
  // Address and command bytes

  /**
   * The 8-bit bus address: the 7-bit address 0x76, with the low bit of the
   * sub-address (the CSB pin) as its last bit, shifted left once. 0x76 is
   * even, so or-ing in that bit adds it.
   */
  function Address(subAddress: byte): (a: byte)
    ensures a == 0xEC || a == 0xEE
    ensures a == 0xEE <==> subAddress % 2 == 1
  {
    (0x76 + subAddress % 2) * 2
  }

  /** The PROM read command: only the low three bits of the PROM address count, one place up. */
  function PromCommand(address: byte): (c: byte)
    ensures CmdReadPROM <= c <= CmdReadPROM + 14 && c % 2 == 0
    ensures (c - CmdReadPROM) / 2 == address % 8
  {
    CmdReadPROM + 2 * (address % 8)
  }

  lemma PromCommandInjective(a: byte, b: byte)
    requires a < 8 && b < 8
    ensures PromCommand(a) == PromCommand(b) <==> a == b
  {
  }

  /** The convert command: the conversion type in bit 4, the oversampling rate from bit 1. */
  function ConvertCommand(t: ConversionType, osr: OversamplingRate): (c: byte)
    ensures t == Pressure ==> 0x40 <= c <= 0x48
    ensures t == Temperature ==> 0x50 <= c <= 0x58
    ensures c % 2 == 0
  {
    CmdConvert + 16 * TypeCode(t) + 2 * OsrCode(osr)
  }

  /** Reads a convert command back into its conversion type and oversampling rate. */
  function DecodeConvert(c: byte): Option<(ConversionType, OversamplingRate)>
  {
    var t := if c / 16 == 4 then Some(Pressure) else if c / 16 == 5 then Some(Temperature) else None;
    var f := c % 16;
    var osr := if f == 0 then Some(OSR256) else if f == 2 then Some(OSR512) else if f == 4 then Some(OSR1024)
               else if f == 6 then Some(OSR2048) else if f == 8 then Some(OSR4096) else None;
    if t.Some? && osr.Some? then Some((t.value, osr.value)) else None
  }

  /** Every convert command names its conversion and rate, so no two coincide. */
  lemma DecodeConvertCommand(t: ConversionType, osr: OversamplingRate)
    ensures DecodeConvert(ConvertCommand(t, osr)) == Some((t, osr))
  {
    var c := ConvertCommand(t, osr);
    assert c / 16 == 4 + TypeCode(t) && c % 16 == 2 * OsrCode(osr);
  }

  // ---------------------------------------------------------------------
  // Big-endian assembly

  function Pow256(n: nat): (p: nat)
    ensures p > 0
  {
    if n == 0 then 1 else 256 * Pow256(n - 1)
  }

  /** The reply bytes read as one unsigned number, most significant byte first. */
  function BigEndian(bs: seq<byte>): (x: nat)
    ensures x < Pow256(|bs|)
    decreases |bs|
  {
    if |bs| == 0 then 0 else BigEndian(bs[..|bs| - 1]) * 256 + bs[|bs| - 1]
  }

  /** The `n` bytes of `x`, most significant first. */
  function ToBytes(x: nat, n: nat): (bs: seq<byte>)
    ensures |bs| == n
  {
    if n == 0 then [] else ToBytes(x / 256, n - 1) + [x % 256]
  }

  lemma {:induction false} BigEndianToBytes(x: nat, n: nat)
    requires x < Pow256(n)
    ensures BigEndian(ToBytes(x, n)) == x
  {
    if n > 0 {
      var bs := ToBytes(x, n);
      assert bs[..n - 1] == ToBytes(x / 256, n - 1);
      BigEndianToBytes(x / 256, n - 1);
    }
  }

  lemma {:induction false} ToBytesBigEndian(bs: seq<byte>)
    ensures ToBytes(BigEndian(bs), |bs|) == bs
    decreases |bs|
  {
    if |bs| > 0 {
      var init := bs[..|bs| - 1];
      var x := BigEndian(bs);
      assert x / 256 == BigEndian(init) && x % 256 == bs[|bs| - 1];
      ToBytesBigEndian(init);
      assert bs == init + [bs[|bs| - 1]];
    }
  }

  /** readPROM and readResult16: the first byte shifted up by 8, or-ed with the second. */
  lemma BigEndianWord(b0: byte, b1: byte)
    ensures BigEndian([b0, b1]) == b0 * 0x100 + b1 < 0x1_0000
  {
    assert [b0, b1][..1] == [b0];
    assert [b0][..0] == [];
  }

  /** readResult24: the first byte shifted up by 16, the second by 8, or-ed with the third. */
  lemma BigEndianTriple(b0: byte, b1: byte, b2: byte)
    ensures BigEndian([b0, b1, b2]) == b0 * 0x1_0000 + b1 * 0x100 + b2 < 0x100_0000
  {
    assert [b0, b1, b2][..2] == [b0, b1];
    BigEndianWord(b0, b1);
  }

  // ---------------------------------------------------------------------
  // The I2C bus

  /** What the device does with one transfer. */
  datatype Transfer = Ack(data: seq<byte>) | Nak

  /** A transfer the driver asked for: a write of bytes, or a read of a count of bytes. */
  datatype Frame = Sent(address: byte, bytes: seq<byte>) | Received(address: byte, count: nat)

  /** The outcome of the next transfer; an exhausted script does not acknowledge. */
  function Head(script: seq<Transfer>): Transfer
  {
    if |script| == 0 then Nak else script[0]
  }

  function Tail(script: seq<Transfer>): (rest: seq<Transfer>)
    ensures |rest| == if |script| == 0 then 0 else |script| - 1
  {
    if |script| == 0 then [] else script[1..]
  }

  /** The `n` bytes a read fills: the device's bytes, padded with zeros when it sent fewer. */
  function Fit(data: seq<byte>, n: nat): (r: seq<byte>)
    ensures |r| == n
    ensures forall i :: 0 <= i < n ==> r[i] == if i < |data| then data[i] else 0
  {
    if |data| >= n then data[..n] else data + Zeros(n - |data|)
  }

  function Zeros(n: nat): (z: seq<byte>)
    ensures |z| == n && forall i :: 0 <= i < n ==> z[i] == 0
  {
    if n == 0 then [] else Zeros(n - 1) + [0]
  }

  /** The I2C bus of mbed: write and read return 0 when the device acknowledges. */
  class Bus {
    var script: seq<Transfer>
    var log: seq<Frame>

    constructor (script: seq<Transfer>)
      ensures this.script == script && log == []
    {
      this.script := script;
      log := [];
    }

    method Write(address: byte, data: seq<byte>) returns (rc: int)
      modifies this
      ensures rc == 0 <==> Head(old(script)).Ack?
      ensures script == Tail(old(script)) && log == old(log) + [Sent(address, data)]
    {
      rc := if Head(script).Ack? then 0 else 1;
      script := Tail(script);
      log := log + [Sent(address, data)];
    }

    method Read(address: byte, n: nat) returns (rc: int, data: seq<byte>)
      modifies this
      ensures rc == 0 <==> Head(old(script)).Ack?
      ensures rc == 0 ==> data == Fit(Head(old(script)).data, n)
      ensures script == Tail(old(script)) && log == old(log) + [Received(address, n)]
    {
      var t := Head(script);
      rc := if t.Ack? then 0 else 1;
      data := if t.Ack? then Fit(t.data, n) else Zeros(n);
      script := Tail(script);
      log := log + [Received(address, n)];
    }
  }

  /** The outcome of the transfers of one driver step, and the bus left after them. */
  datatype Exchange = Exchange(ok: bool, bytes: seq<byte>, rest: seq<Transfer>, frames: seq<Frame>)

  /** A one-byte command write (reset, startConversion). */
  function Command(script: seq<Transfer>, address: byte, cmd: byte): (e: Exchange)
    ensures e.ok <==> Head(script).Ack?
    ensures e.frames == [Sent(address, [cmd])] && e.rest == Tail(script)
  {
    Exchange(Head(script).Ack?, [], Tail(script), [Sent(address, [cmd])])
  }

  /** A one-byte command write followed, when acknowledged, by a read of `n` bytes. */
  function Query(script: seq<Transfer>, address: byte, cmd: byte, n: nat): (e: Exchange)
    ensures e.ok <==> Head(script).Ack? && Head(Tail(script)).Ack?
    ensures e.ok ==> e.bytes == Fit(Head(Tail(script)).data, n)
    ensures 1 <= |e.frames| <= 2 && e.frames[0] == Sent(address, [cmd])
    ensures e.ok ==> e.frames == [Sent(address, [cmd]), Received(address, n)] && e.rest == Tail(Tail(script))
  {
    var w := Command(script, address, cmd);
    if !w.ok then w
    else
      var r := Head(w.rest);
      Exchange(r.Ack?, if r.Ack? then Fit(r.data, n) else [], Tail(w.rest), w.frames + [Received(address, n)])
  }

  // ---------------------------------------------------------------------
  // PROM loading

  datatype Loaded = Loaded(ok: bool, values: seq<uint16>, rest: seq<Transfer>, frames: seq<Frame>)

  /** initialize from PROM word `idx` on: each word in turn, stopping at the first failed transfer. */
  function Load(script: seq<Transfer>, address: byte, idx: nat): (l: Loaded)
    requires idx <= 7
    ensures |l.values| <= 7 - idx
    ensures l.ok ==> |l.values| == 7 - idx
    ensures l.ok ==> |l.frames| == 2 * |l.values|
    ensures !l.ok ==> 2 * |l.values| < |l.frames| <= 2 * |l.values| + 2
    decreases 7 - idx
  {
    if idx == 7 then Loaded(true, [], script, [])
    else
      var e := Query(script, address, PromCommand(idx), 2);
      if !e.ok then Loaded(false, [], e.rest, e.frames)
      else
        var l := Load(e.rest, address, idx + 1);
        Loaded(l.ok, [BigEndian(e.bytes)] + l.values, l.rest, e.frames + l.frames)
  }

  /** The frames of reading PROM words `from` up to `to`: each command, then its two-byte read. */
  function PromFrames(address: byte, from: nat, to: nat): seq<Frame>
    requires from <= to <= 7
    decreases 7 - from
  {
    if from == to then [] else [Sent(address, [PromCommand(from)]), Received(address, 2)] + PromFrames(address, from + 1, to)
  }

  /** The frames of the words a load got are the PROM frames of those words, in order. */
  ghost predicate PromPrefix(l: Loaded, address: byte, idx: nat)
  {
    idx + |l.values| <= 7 && 2 * |l.values| <= |l.frames| &&
    l.frames[..2 * |l.values|] == PromFrames(address, idx, idx + |l.values|)
  }

  lemma {:induction false} LoadPrefix(script: seq<Transfer>, address: byte, idx: nat)
    requires idx <= 7
    ensures PromPrefix(Load(script, address, idx), address, idx)
    decreases 7 - idx
  {
    if idx == 7 {
      PrefixNone(Load(script, address, idx), address, idx);
    } else {
      var e := Query(script, address, PromCommand(idx), 2);
      if !e.ok {
        LoadFails(script, address, idx, e);
        PrefixNone(Load(script, address, idx), address, idx);
      } else {
        LoadPrefix(e.rest, address, idx + 1);
        LoadUnfold(script, address, idx, e);
        PrefixStep(Load(script, address, idx), Load(e.rest, address, idx + 1), address, idx, BigEndian(e.bytes), e.frames);
      }
    }
  }

  lemma PrefixNone(l: Loaded, address: byte, idx: nat)
    requires idx <= 7 && |l.values| == 0
    ensures PromPrefix(l, address, idx)
  {
    assert l.frames[..0] == [];
  }

  /** One word more in front: its two frames go in front of the PROM frames of the rest. */
  lemma PrefixStep(m: Loaded, l: Loaded, address: byte, idx: nat, w: uint16, first: seq<Frame>)
    requires PromPrefix(l, address, idx + 1)
    requires first == [Sent(address, [PromCommand(idx)]), Received(address, 2)]
    requires m == Loaded(l.ok, [w] + l.values, l.rest, first + l.frames)
    ensures PromPrefix(m, address, idx)
  {
    PrefixOfAppend(first, l.frames, 2 * |l.values|);
  }

  /** A failed load stops at the command for the first word it did not get. */
  ghost predicate StopsAt(l: Loaded, address: byte, idx: nat)
  {
    !l.ok ==> idx + |l.values| < 7 && 2 * |l.values| < |l.frames| &&
              l.frames[2 * |l.values|] == Sent(address, [PromCommand(idx + |l.values|)])
  }

  lemma {:induction false} LoadStop(script: seq<Transfer>, address: byte, idx: nat)
    requires idx <= 7
    ensures StopsAt(Load(script, address, idx), address, idx)
    decreases 7 - idx
  {
    if idx < 7 {
      var e := Query(script, address, PromCommand(idx), 2);
      if !e.ok {
        LoadFails(script, address, idx, e);
      } else {
        LoadStop(e.rest, address, idx + 1);
        LoadUnfold(script, address, idx, e);
        StopStep(Load(script, address, idx), Load(e.rest, address, idx + 1), address, idx, BigEndian(e.bytes), e.frames);
      }
    }
  }

  /** One word more in front: the failing command moves two frames on. */
  lemma StopStep(m: Loaded, l: Loaded, address: byte, idx: nat, w: uint16, first: seq<Frame>)
    requires |first| == 2 && StopsAt(l, address, idx + 1)
    requires m == Loaded(l.ok, [w] + l.values, l.rest, first + l.frames)
    ensures StopsAt(m, address, idx)
  {
    if !l.ok {
      IndexOfAppend(first, l.frames, 2 * |l.values|);
    }
  }

  /**
   * The words are read in order from `idx`: the frames of a load are those
   * of the words it got, then, on failure, the command of the next word and
   * perhaps its read.
   */
  ghost predicate InOrder(l: Loaded, address: byte, idx: nat)
  {
    idx + |l.values| <= 7 && 2 * |l.values| <= |l.frames| &&
    l.frames[..2 * |l.values|] == PromFrames(address, idx, idx + |l.values|) &&
    (l.ok ==> l.frames == PromFrames(address, idx, 7)) &&
    (!l.ok ==> idx + |l.values| < 7 && 2 * |l.values| < |l.frames| &&
               l.frames[2 * |l.values|] == Sent(address, [PromCommand(idx + |l.values|)]))
  }

  lemma LoadOrder(script: seq<Transfer>, address: byte, idx: nat)
    requires idx <= 7
    ensures InOrder(Load(script, address, idx), address, idx)
  {
    LoadPrefix(script, address, idx);
    LoadStop(script, address, idx);
    OrderOf(Load(script, address, idx), address, idx);
  }

  lemma OrderOf(l: Loaded, address: byte, idx: nat)
    requires PromPrefix(l, address, idx) && StopsAt(l, address, idx)
    requires l.ok ==> |l.values| == 7 - idx && |l.frames| == 2 * |l.values|
    ensures InOrder(l, address, idx)
  {
    assert l.ok ==> l.frames[..2 * |l.values|] == l.frames;
  }

  /** What a transfer delivered: the device's bytes, or nothing when it did not acknowledge. */
  function Reply(t: Transfer): (data: seq<byte>)
    ensures t.Ack? ==> data == t.data
  {
    if t.Ack? then t.data else []
  }

  /** The first `n` transfers of the script are acknowledged. */
  ghost predicate Acked(script: seq<Transfer>, n: nat)
  {
    n <= |script| && forall i :: 0 <= i < n ==> script[i].Ack?
  }

  /** Each word is the big-endian reading of the reply to its read, the second transfer of its pair. */
  ghost predicate WordsOf(values: seq<uint16>, script: seq<Transfer>)
  {
    2 * |values| <= |script| && forall j :: 0 <= j < |values| ==> values[j] == BigEndian(Fit(Reply(script[2 * j + 1]), 2))
  }

  ghost predicate AllLoaded(l: Loaded, script: seq<Transfer>, idx: nat)
  {
    idx <= 7 && l.ok && |l.values| == 7 - idx && WordsOf(l.values, script) && l.rest == script[2 * (7 - idx)..]
  }

  /** A bus that acknowledges the first 14 transfers gives all seven words, each its own reply read big-endian. */
  lemma LoadAcknowledged(script: seq<Transfer>, address: byte, idx: nat)
    requires idx <= 7 && |script| >= 2 * (7 - idx)
    requires forall i :: 0 <= i < 2 * (7 - idx) ==> script[i].Ack?
    ensures var l := Load(script, address, idx);
            l.ok && l.rest == script[2 * (7 - idx)..] && |l.values| == 7 - idx &&
            forall j :: 0 <= j < 7 - idx ==> l.values[j] == BigEndian(Fit(Reply(script[2 * j + 1]), 2))
  {
    LoadAllAcked(script, address, idx);
  }

  lemma {:induction false} LoadAllAcked(script: seq<Transfer>, address: byte, idx: nat)
    requires idx <= 7 && Acked(script, 2 * (7 - idx))
    ensures AllLoaded(Load(script, address, idx), script, idx)
    decreases 7 - idx
  {
    if idx == 7 {
      assert script[0..] == script;
    } else {
      AcksShift(script, idx);
      LoadAllAcked(script[2..], address, idx + 1);
      AckedRound(script, address, idx);
    }
  }

  lemma AckedRound(script: seq<Transfer>, address: byte, idx: nat)
    requires idx < 7 && |script| >= 2 && script[0].Ack? && script[1].Ack?
    requires AllLoaded(Load(script[2..], address, idx + 1), script[2..], idx + 1)
    ensures AllLoaded(Load(script, address, idx), script, idx)
  {
    AckedLoad(script, address, idx);
    AckedStep(Load(script, address, idx), Load(script[2..], address, idx + 1), script, idx);
  }

  /** With both transfers of word `idx` acknowledged, the load takes that word and goes on two transfers later. */
  lemma AckedLoad(script: seq<Transfer>, address: byte, idx: nat)
    requires idx < 7 && |script| >= 2 && script[0].Ack? && script[1].Ack?
    ensures BigEndian(Fit(Reply(script[1]), 2)) < 0x1_0000
    ensures var m := Load(script, address, idx);
            var l := Load(script[2..], address, idx + 1);
            m.ok == l.ok && m.values == [BigEndian(Fit(Reply(script[1]), 2))] + l.values && m.rest == l.rest
  {
    TwoAcks(script);
    LoadUnfold(script, address, idx, Query(script, address, PromCommand(idx), 2));
  }

  lemma AckedStep(m: Loaded, l: Loaded, script: seq<Transfer>, idx: nat)
    requires idx < 7 && 2 <= |script| && AllLoaded(l, script[2..], idx + 1)
    requires BigEndian(Fit(Reply(script[1]), 2)) < 0x1_0000
    requires m.ok == l.ok && m.values == [BigEndian(Fit(Reply(script[1]), 2))] + l.values && m.rest == l.rest
    ensures AllLoaded(m, script, idx)
  {
    ShiftedWords(script, BigEndian(Fit(Reply(script[1]), 2)), l.values);
    assert script[2..][2 * (7 - (idx + 1))..] == script[2 * (7 - idx)..];
  }

  /** Two acknowledged transfers: a query's command and read. */
  lemma TwoAcks(script: seq<Transfer>)
    requires |script| >= 2 && script[0].Ack? && script[1].Ack?
    ensures Head(script).Ack? && Head(Tail(script)) == script[1] && Tail(Tail(script)) == script[2..]
    ensures Reply(Head(Tail(script))) == Head(Tail(script)).data
  {
  }

  lemma AcksShift(script: seq<Transfer>, idx: nat)
    requires idx < 7 && Acked(script, 2 * (7 - idx))
    ensures |script| >= 2 && script[0].Ack? && script[1].Ack? && Acked(script[2..], 2 * (7 - (idx + 1)))
  {
    forall i | 0 <= i < 2 * (7 - (idx + 1))
      ensures script[2..][i].Ack?
    {
      assert script[2..][i] == script[i + 2];
    }
  }

  lemma ShiftedWords(script: seq<Transfer>, w: uint16, values: seq<uint16>)
    requires 2 <= |script| && w == BigEndian(Fit(Reply(script[1]), 2)) && WordsOf(values, script[2..])
    ensures WordsOf([w] + values, script)
  {
    forall j | 1 <= j < |values| + 1
      ensures ([w] + values)[j] == BigEndian(Fit(Reply(script[2 * j + 1]), 2))
    {
      assert ([w] + values)[j] == values[j - 1];
      assert script[2..][2 * (j - 1) + 1] == script[2 * j + 1];
    }
  }

  /** Where initialize stands after word `idx`: the words loaded so far, then the load of the rest. */
  ghost function Resume(script: seq<Transfer>, address: byte, idx: nat, done: seq<uint16>, frames: seq<Frame>): Loaded
    requires idx <= 7
  {
    var l := Load(script, address, idx);
    Loaded(l.ok, done + l.values, l.rest, frames + l.frames)
  }

  lemma ResumeStep(script: seq<Transfer>, address: byte, idx: nat, done: seq<uint16>, frames: seq<Frame>, e: Exchange,
                   script': seq<Transfer>, done': seq<uint16>, frames': seq<Frame>)
    requires idx < 7 && e == Query(script, address, PromCommand(idx), 2)
    requires e.ok && script' == e.rest && done' == done + [BigEndian(e.bytes)] && frames' == frames + e.frames
    ensures Resume(script, address, idx, done, frames) == Resume(script', address, idx + 1, done', frames')
  {
    var l := Load(script', address, idx + 1);
    var w: uint16 := BigEndian(e.bytes);
    LoadUnfold(script, address, idx, e);
    var L := Load(script, address, idx);
    assert L.values == [w] + l.values && L.frames == e.frames + l.frames && L.ok == l.ok && L.rest == l.rest;
    Associative(done, [w], l.values);
    Associative(frames, e.frames, l.frames);
  }

  lemma Associative<T>(a: seq<T>, b: seq<T>, c: seq<T>)
    ensures a + (b + c) == (a + b) + c
  {
  }

  lemma PrefixOfAppend<T>(a: seq<T>, b: seq<T>, k: nat)
    requires k <= |b|
    ensures (a + b)[..|a| + k] == a + b[..k]
  {
  }

  lemma IndexOfAppend<T>(a: seq<T>, b: seq<T>, k: nat)
    requires k < |b|
    ensures (a + b)[|a| + k] == b[k]
  {
  }

  lemma LoadUnfold(script: seq<Transfer>, address: byte, idx: nat, e: Exchange)
    requires idx < 7 && e == Query(script, address, PromCommand(idx), 2) && e.ok
    ensures |e.bytes| == 2 && BigEndian(e.bytes) < 0x1_0000
    ensures var l := Load(e.rest, address, idx + 1);
            Load(script, address, idx) == Loaded(l.ok, [BigEndian(e.bytes)] + l.values, l.rest, e.frames + l.frames)
  {
    assert Pow256(2) == 0x1_0000;
  }

  lemma LoadFails(script: seq<Transfer>, address: byte, idx: nat, e: Exchange)
    requires idx < 7 && e == Query(script, address, PromCommand(idx), 2) && !e.ok
    ensures Load(script, address, idx) == Loaded(false, [], e.rest, e.frames)
  {
  }

  lemma ResumeStart(script: seq<Transfer>, address: byte, log: seq<Frame>)
    ensures var l := Load(script, address, 0);
            Resume(script, address, 0, [], log) == Loaded(l.ok, l.values, l.rest, log + l.frames)
  {
    var l := Load(script, address, 0);
    assert [] + l.values == l.values;
  }

  lemma ResumeEnd(script: seq<Transfer>, address: byte, done: seq<uint16>, frames: seq<Frame>)
    ensures Resume(script, address, 7, done, frames) == Loaded(true, done, script, frames)
  {
    assert done + [] == done && frames + [] == frames;
  }

  lemma ResumeFail(script: seq<Transfer>, address: byte, idx: nat, done: seq<uint16>, frames: seq<Frame>)
    requires idx < 7 && !Query(script, address, PromCommand(idx), 2).ok
    ensures var e := Query(script, address, PromCommand(idx), 2);
            Resume(script, address, idx, done, frames) == Loaded(false, done, e.rest, frames + e.frames)
  {
    assert done + [] == done;
  }

  // ---------------------------------------------------------------------
  // Compensation arithmetic

  /** A 32-bit signed multiplication result: the product wrapped into int32_t. */
  function Wrap32(x: int): (r: int)
    ensures -0x8000_0000 <= r < 0x8000_0000
    ensures -0x8000_0000 <= x < 0x8000_0000 ==> r == x
    ensures (r - x) % 0x1_0000_0000 == 0
  {
    var u := x % 0x1_0000_0000;
    if u < 0x8000_0000 then u else u - 0x1_0000_0000
  }

  /** dT: the raw temperature less the reference temperature C5 * 2^8. */
  function Dt(d2: nat, c5: uint16): int
  {
    d2 - c5 * 0x100
  }

  /**
   * TEMP as update computes it: 2000 plus dT * C6 shifted right by 23,
   * the product taken in 32-bit int and the shift arithmetic (a floor
   * division). Whatever the readings, it lies within 2000 -256 .. +255.
   */
  function TemperatureAsWritten(d2: nat, c5: uint16, c6: uint16): (t: int)
    requires d2 < 0x100_0000
    ensures 2000 - 256 <= t <= 2000 + 255
  {
    2000 + Wrap32(Dt(d2, c5) * c6) / 0x80_0000
  }

  /** TEMP with dT * C6 taken in 64 bits, where it always fits. */
  function IntendedTemperature(d2: nat, c5: uint16, c6: uint16): int
    requires d2 < 0x100_0000
  {
    2000 + Dt(d2, c5) * c6 / 0x80_0000
  }

  lemma MulMonotone(x: int, y: int, c: nat)
    requires x <= y
    ensures x * c <= y * c
  {
  }

  /** A higher raw reading never gives a lower temperature. */
  lemma TemperatureMonotone(d2: nat, d2': nat, c5: uint16, c6: uint16)
    requires d2 <= d2' < 0x100_0000
    ensures IntendedTemperature(d2, c5, c6) <= IntendedTemperature(d2', c5, c6)
  {
    MulMonotone(Dt(d2, c5), Dt(d2', c5), c6);
  }

  /** While dT * C6 fits in 32 bits, the code computes the data-sheet temperature. */
  lemma TemperatureAgrees(d2: nat, c5: uint16, c6: uint16)
    requires d2 < 0x100_0000 && -0x8000_0000 <= Dt(d2, c5) * c6 < 0x8000_0000
    ensures TemperatureAsWritten(d2, c5, c6) == IntendedTemperature(d2, c5, c6)
  {
  }

  /** 2.56 degrees above the reference the 32-bit product wraps, and 22.56 C reads as 17.44 C. */
  lemma TemperatureWraps()
    ensures IntendedTemperature(0x1_0000, 0, 0x8000) == 2256
    ensures TemperatureAsWritten(0x1_0000, 0, 0x8000) == 1744
  {
    assert Dt(0x1_0000, 0) * 0x8000 == 0x8000_0000;
  }

  /** A conversion of a 64-bit value to uint64_t. */
  function U64(x: int): (r: nat)
    ensures r < 0x1_0000_0000_0000_0000
    ensures 0 <= x < 0x1_0000_0000_0000_0000 ==> r == x
  {
    x % 0x1_0000_0000_0000_0000
  }

  /** OFF = C2 * 2^17 + (C4 * dT) / 2^6, in uint64_t. */
  function Offset(c2: uint16, c4: uint16, dt: int): nat
  {
    U64(c2 * 0x2_0000 + c4 * dt / 0x40)
  }

  /** SENS = C1 * 2^16 + (C3 * dT) / 2^7, in uint64_t. */
  function Sensitivity(c1: uint16, c3: uint16, dt: int): nat
  {
    U64(c1 * 0x1_0000 + c3 * dt / 0x80)
  }

  /**
   * P as update computes it: (((D1 * SENS) >> 21) - OFF) >> 15, every
   * step in uint64_t, so the product and the difference wrap.
   */
  function PressureOf(d1: nat, d2: nat, prom: seq<uint16>): (p: nat)
    requires |prom| == 7 && d1 < 0x100_0000 && d2 < 0x100_0000
    ensures p < 0x2_0000_0000_0000
  {
    var dt := Dt(d2, prom[5]);
    var off := Offset(prom[2], prom[4], dt);
    var sens := Sensitivity(prom[1], prom[3], dt);
    U64(U64(d1 * sens) / 0x20_0000 - off) / 0x8000
  }

  /** Without wrap-around, the code computes the data-sheet pressure. */
  lemma PressureAgrees(d1: nat, d2: nat, prom: seq<uint16>)
    requires |prom| == 7 && d1 < 0x100_0000 && d2 < 0x100_0000
    requires var dt := Dt(d2, prom[5]);
             0 <= prom[2] * 0x2_0000 + prom[4] * dt / 0x40 && 0 <= prom[1] * 0x1_0000 + prom[3] * dt / 0x80
    requires var dt := Dt(d2, prom[5]);
             var sens := prom[1] * 0x1_0000 + prom[3] * dt / 0x80;
             d1 * sens < 0x1_0000_0000_0000_0000 && d1 * sens / 0x20_0000 >= prom[2] * 0x2_0000 + prom[4] * dt / 0x40
    ensures var dt := Dt(d2, prom[5]);
            var off := prom[2] * 0x2_0000 + prom[4] * dt / 0x40;
            var sens := prom[1] * 0x1_0000 + prom[3] * dt / 0x80;
            PressureOf(d1, d2, prom) == (d1 * sens / 0x20_0000 - off) / 0x8000
  {
    var dt := Dt(d2, prom[5]);
    var off := prom[2] * 0x2_0000 + prom[4] * dt / 0x40;
    var sens := prom[1] * 0x1_0000 + prom[3] * dt / 0x80;
    assert off <= 0x1_0000 * 0x2_0000 + 0x1_0000 * 0x100_0000 / 0x40 by {
      MulMonotone(dt, 0x100_0000, prom[4]);
    }
    assert Offset(prom[2], prom[4], dt) == off;
    assert Sensitivity(prom[1], prom[3], dt) == sens by {
      MulMonotone(dt, 0x100_0000, prom[3]);
    }
  }

  // ---------------------------------------------------------------------
  // update

  datatype Measured = Measured(ok: bool, t: int, p: int, rest: seq<Transfer>, frames: seq<Frame>)

  /**
   * What update does on the bus and leaves in t and p: both start at 0;
   * a temperature conversion (OSR 1024) and its 24-bit read set t; a
   * pressure conversion (OSR 4096) and its read set p. The first failed
   * transfer ends it, so p stays 0 on any failure and t is set exactly
   * when the temperature was read.
   */
  function Reading(script: seq<Transfer>, address: byte, prom: seq<uint16>): (m: Measured)
    requires |prom| == 7
    ensures !m.ok ==> m.p == 0
    ensures m.t != 0 <==> Query(Tail(script), address, CmdReadADC, 3).ok && Head(script).Ack?
  {
    var a := Command(script, address, ConvertCommand(Temperature, OSR1024));
    if !a.ok then Measured(false, 0, 0, a.rest, a.frames)
    else
      var b := Query(a.rest, address, CmdReadADC, 3);
      if !b.ok then Measured(false, 0, 0, b.rest, a.frames + b.frames)
      else
        BigEndianBytes(b.bytes);
        var d2 := BigEndian(b.bytes);
        var t := TemperatureAsWritten(d2, prom[5], prom[6]);
        var c := Command(b.rest, address, ConvertCommand(Pressure, OSR4096));
        if !c.ok then Measured(false, t, 0, c.rest, a.frames + b.frames + c.frames)
        else
          var d := Query(c.rest, address, CmdReadADC, 3);
          if !d.ok then Measured(false, t, 0, d.rest, a.frames + b.frames + c.frames + d.frames)
          else
            BigEndianBytes(d.bytes);
            Measured(true, t, PressureOf(BigEndian(d.bytes), d2, prom), d.rest, a.frames + b.frames + c.frames + d.frames)
  }

  /** Reading, stage by stage: which exchange it stops at and what it leaves behind, with the frames appended to a log. */
  lemma ReadingStages(script: seq<Transfer>, address: byte, prom: seq<uint16>, log: seq<Frame>,
                      a: Exchange, b: Exchange, c: Exchange, d: Exchange)
    requires |prom| == 7
    requires a == Command(script, address, ConvertCommand(Temperature, OSR1024))
    requires b == Query(a.rest, address, CmdReadADC, 3)
    requires c == Command(b.rest, address, ConvertCommand(Pressure, OSR4096))
    requires d == Query(c.rest, address, CmdReadADC, 3)
    ensures var m := Reading(script, address, prom);
            (!a.ok ==> !m.ok && m.t == 0 && m.p == 0 && m.rest == a.rest && log + m.frames == log + a.frames) &&
            (a.ok && !b.ok ==> !m.ok && m.t == 0 && m.p == 0 && m.rest == b.rest && log + m.frames == log + a.frames + b.frames)
    ensures a.ok && b.ok ==> BigEndian(b.bytes) < 0x100_0000
    ensures var m := Reading(script, address, prom);
            a.ok && b.ok ==> (m.t == TemperatureAsWritten(BigEndian(b.bytes), prom[5], prom[6]) &&
            (!c.ok ==> !m.ok && m.p == 0 && m.rest == c.rest && log + m.frames == log + a.frames + b.frames + c.frames) &&
            (c.ok && !d.ok ==> !m.ok && m.p == 0 && m.rest == d.rest && log + m.frames == log + a.frames + b.frames + c.frames + d.frames) &&
            (c.ok && d.ok ==> m.ok && BigEndian(d.bytes) < 0x100_0000 &&
                              m.p == PressureOf(BigEndian(d.bytes), BigEndian(b.bytes), prom) &&
                              m.rest == d.rest && log + m.frames == log + a.frames + b.frames + c.frames + d.frames))
  {
    Associative(log, a.frames, b.frames);
    Associative(log, a.frames + b.frames, c.frames);
    Associative(log, a.frames + b.frames + c.frames, d.frames);
    if a.ok && b.ok {
      BigEndianBytes(b.bytes);
      if c.ok && d.ok {
        BigEndianBytes(d.bytes);
      }
    }
  }

  /** A complete update puts six frames on the bus: the temperature conversion and its read, then the pressure's. */
  lemma ReadingFrames(script: seq<Transfer>, address: byte, prom: seq<uint16>)
    requires |prom| == 7
    ensures var m := Reading(script, address, prom);
            m.ok ==> m.frames == [Sent(address, [ConvertCommand(Temperature, OSR1024)])] +
                                 [Sent(address, [CmdReadADC]), Received(address, 3)] +
                                 [Sent(address, [ConvertCommand(Pressure, OSR4096)])] +
                                 [Sent(address, [CmdReadADC]), Received(address, 3)]
  {
    var a := Command(script, address, ConvertCommand(Temperature, OSR1024));
    var b := Query(a.rest, address, CmdReadADC, 3);
    var c := Command(b.rest, address, ConvertCommand(Pressure, OSR4096));
    var d := Query(c.rest, address, CmdReadADC, 3);
    ReadingStages(script, address, prom, [], a, b, c, d);
    assert [] + Reading(script, address, prom).frames == Reading(script, address, prom).frames;
  }

  lemma BigEndianBytes(bs: seq<byte>)
    requires |bs| == 3
    ensures BigEndian(bs) < 0x100_0000
  {
    assert Pow256(3) == 0x100_0000;
  }

  // ---------------------------------------------------------------------
  // The driver

  /** The calibration table after loading: the words read so far, then the old contents. */
  ghost predicate Spliced(table: seq<uint16>, table0: seq<uint16>, values: seq<uint16>)
  {
    |values| <= |table| == |table0| && table[..|values|] == values && table[|values|..] == table0[|values|..]
  }

  /** The table, slot by slot: the loaded words first, then the old contents. */
  ghost predicate Filled(table: array<uint16>, table0: seq<uint16>, values: seq<uint16>)
    reads table
  {
    |values| <= table.Length == |table0| &&
    forall j :: 0 <= j < table.Length ==> table[j] == if j < |values| then values[j] else table0[j]
  }

  lemma SplicedFrom(table: array<uint16>, table0: seq<uint16>, values: seq<uint16>)
    requires Filled(table, table0, values)
    ensures Spliced(table[..], table0, values)
  {
  }

  /** MS5607 and its subclass Barometer: the bus, the address, the PROM words and the last reading. */
  class Barometer {
    const bus: Bus
    const address: byte
    const prom: array<uint16>
    var t: int
    var p: int

    ghost predicate Valid()
    {
      prom.Length == 7
    }

    constructor (bus: Bus, subAddress: byte)
      ensures Valid() && fresh(prom)
      ensures this.bus == bus && address == Address(subAddress) && t == 0 && p == 0
    {
      this.bus := bus;
      address := Address(subAddress);
      prom := new uint16[7](_ => 0);
      t, p := 0, 0;
    }

    method Reset() returns (ok: bool)
      modifies bus
      ensures var e := Command(old(bus.script), address, CmdReset);
              ok == e.ok && bus.script == e.rest && bus.log == old(bus.log) + e.frames
    {
      var rc := bus.Write(address, [CmdReset]);
      ok := rc == 0;
    }

    /** readPROM: `result` is left as it was when a transfer fails. */
    method ReadProm(a: byte, result0: uint16) returns (ok: bool, result: uint16)
      modifies bus
      ensures var e := Query(old(bus.script), address, PromCommand(a), 2);
              ok == e.ok && bus.script == e.rest && bus.log == old(bus.log) + e.frames &&
              result == if ok then BigEndian(e.bytes) else result0
    {
      result := result0;
      var rc := bus.Write(address, [PromCommand(a)]);
      if rc != 0 {
        return false, result;
      }
      var reply;
      rc, reply := bus.Read(address, 2);
      if rc != 0 {
        return false, result;
      }
      BigEndianWord(reply[0], reply[1]);
      assert reply == [reply[0], reply[1]];
      result := (reply[0] as int) * 0x100 + reply[1];
      ok := true;
    }

    method StartConversion(kind: ConversionType, osr: OversamplingRate) returns (ok: bool)
      modifies bus
      ensures var e := Command(old(bus.script), address, ConvertCommand(kind, osr));
              ok == e.ok && bus.script == e.rest && bus.log == old(bus.log) + e.frames
    {
      var rc := bus.Write(address, [ConvertCommand(kind, osr)]);
      ok := rc == 0;
    }

    method ReadResult24(result0: int) returns (ok: bool, result: int)
      modifies bus
      ensures var e := Query(old(bus.script), address, CmdReadADC, 3);
              ok == e.ok && bus.script == e.rest && bus.log == old(bus.log) + e.frames &&
              result == if ok then BigEndian(e.bytes) else result0
      ensures ok ==> 0 <= result < 0x100_0000
    {
      result := result0;
      var rc := bus.Write(address, [CmdReadADC]);
      if rc != 0 {
        return false, result;
      }
      var reply;
      rc, reply := bus.Read(address, 3);
      if rc != 0 {
        return false, result;
      }
      BigEndianTriple(reply[0], reply[1], reply[2]);
      assert reply == [reply[0], reply[1], reply[2]];
      result := (reply[0] as int) * 0x1_0000 + (reply[1] as int) * 0x100 + reply[2];
      ok := true;
    }

    method ReadResult16(result0: uint16) returns (ok: bool, result: uint16)
      modifies bus
      ensures var e := Query(old(bus.script), address, CmdReadADC, 2);
              ok == e.ok && bus.script == e.rest && bus.log == old(bus.log) + e.frames &&
              result == if ok then BigEndian(e.bytes) else result0
    {
      result := result0;
      var rc := bus.Write(address, [CmdReadADC]);
      if rc != 0 {
        return false, result;
      }
      var reply;
      rc, reply := bus.Read(address, 2);
      if rc != 0 {
        return false, result;
      }
      BigEndianWord(reply[0], reply[1]);
      assert reply == [reply[0], reply[1]];
      result := (reply[0] as int) * 0x100 + reply[1];
      ok := true;
    }

    /** One turn of initialize: PROM word `idx` into its slot, when both transfers succeed. */
    method LoadWord(idx: byte, ghost done: seq<uint16>, ghost prom0: seq<uint16>, ghost target: Loaded) returns (ok: bool)
      requires Valid() && idx < 7 && |done| == idx && Filled(prom, prom0, done)
      requires target == Resume(bus.script, address, idx, done, bus.log)
      modifies bus, prom
      ensures ok ==> Filled(prom, prom0, done + [prom[idx]]) &&
                     target == Resume(bus.script, address, idx + 1, done + [prom[idx]], bus.log)
      ensures !ok ==> Filled(prom, prom0, done) && target == Loaded(false, done, bus.script, bus.log)
    {
      ghost var rest1, log1 := bus.script, bus.log;
      ghost var e := Query(rest1, address, PromCommand(idx), 2);
      var word;
      ok, word := ReadProm(idx, prom[idx]);
      if !ok {
        ResumeFail(rest1, address, idx, done, log1);
        return;
      }
      prom[idx] := word;
      ResumeStep(rest1, address, idx, done, log1, e, bus.script, done + [word], bus.log);
    }

    /** initialize: PROM words 0 to 6 in order, stopping at the first failure; later words keep their values. */
    method Initialize() returns (ok: bool)
      requires Valid()
      modifies bus, prom
      ensures var l := Load(old(bus.script), address, 0);
              ok == l.ok && bus.script == l.rest && bus.log == old(bus.log) + l.frames &&
              Spliced(prom[..], old(prom[..]), l.values)
    {
      ghost var script0, log0, prom0 := bus.script, bus.log, prom[..];
      ghost var l := Load(script0, address, 0);
      ghost var target := Resume(script0, address, 0, [], log0);
      ResumeStart(script0, address, log0);
      assert target == Loaded(l.ok, l.values, l.rest, log0 + l.frames);
      ghost var done: seq<uint16> := [];
      var idx: byte := 0;
      while idx < 7
        invariant idx <= 7 && |done| == idx && Filled(prom, prom0, done)
        invariant target == Resume(bus.script, address, idx, done, bus.log)
      {
        var read := LoadWord(idx, done, prom0, target);
        if !read {
          SplicedFrom(prom, prom0, done);
          return false;
        }
        done := done + [prom[idx]];
        idx := idx + 1;
      }
      ResumeEnd(bus.script, address, done, bus.log);
      SplicedFrom(prom, prom0, done);
      return true;
    }

    /** update: the temperature, then the pressure, each a conversion and a 24-bit read. */
    method Update() returns (ok: bool)
      requires Valid()
      modifies this, bus
      ensures var m := Reading(old(bus.script), address, old(prom[..]));
              ok == m.ok && t == m.t && p == m.p && bus.script == m.rest && bus.log == old(bus.log) + m.frames
    {
      ghost var a := Command(bus.script, address, ConvertCommand(Temperature, OSR1024));
      ghost var b := Query(a.rest, address, CmdReadADC, 3);
      ghost var c := Command(b.rest, address, ConvertCommand(Pressure, OSR4096));
      ghost var d := Query(c.rest, address, CmdReadADC, 3);
      ReadingStages(bus.script, address, prom[..], bus.log, a, b, c, d);
      p, t := 0, 0;
      ok := StartConversion(Temperature, OSR1024);
      if !ok {
        return;
      }
      var d2;
      ok, d2 := ReadResult24(0);
      if !ok {
        return;
      }
      t := TemperatureAsWritten(d2, prom[5], prom[6]);
      ok := StartConversion(Pressure, OSR4096);
      if !ok {
        return;
      }
      var d1;
      ok, d1 := ReadResult24(0);
      if !ok {
        return;
      }
      p := PressureOf(d1, d2, prom[..]);
    }

    /** getTemperature: t as int16_t. */
    function GetTemperature(): (r: int)
      reads this
      ensures -0x8000 <= r < 0x8000 && (r - t) % 0x1_0000 == 0
      ensures -0x8000 <= t < 0x8000 ==> r == t
    {
      ToI16(t)
    }

    /** getPressure: p as uint32_t. */
    function GetPressure(): (r: int)
      reads this
      ensures 0 <= r < 0x1_0000_0000 && (r - p) % 0x1_0000_0000 == 0
      ensures 0 <= p < 0x1_0000_0000 ==> r == p
    {
      p % 0x1_0000_0000
    }
  }
}
