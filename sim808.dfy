/**
 * The SIM808 modem driver of Cube/App/SIM808.cc: AT commands written
 * through TextUART and replies read back line by line with
 * TextUART::readLine, a status flag that any reply other than "OK" clears,
 * and the CR/LF trimming of the task loop.
 *
 * The serial port is seen here as two character streams: `sent`, what the
 * driver has handed to TextUART::write, and `incoming`, what the modem will
 * still send. A read that finds the stream exhausted is a read whose 200
 * polls ran out (it stores what it got and writes no terminator).
 */
module Sim808 {
  import opened CString

  /** SIM808::Status: OK = 0, NOT_OK = 1. */
  datatype Status = OK | NOT_OK

  /** The buffer sizes expectOK, expectResponse and the task loop read lines into. */
  const EXPECT_OK_CHARS: int := 20
  const RESPONSE_CHARS: int := 80
  const TASK_LINE_CHARS: int := 80

  /** What one TextUART::readLine call does to the stream: the characters stored, what is left, and whether a NUL was written. */
  datatype LineRead = LineRead(stored: string, rest: string, terminated: bool)

  /**
   * TextUART::readLine on a stream: stores characters up to and including
   * `delim`, at most `nChars - 1` of them, then a NUL; when the stream runs
   * dry first it returns what it has with no NUL.
   */
  function TakeLine(s: string, nChars: int, delim: char): (r: LineRead)
    ensures r.stored + r.rest == s
    ensures nChars <= 1 ==> r.stored == [] && r.terminated
    ensures nChars > 1 ==> |r.stored| <= nChars - 1
    ensures forall j :: 0 <= j < |r.stored| - 1 ==> r.stored[j] != delim
    ensures r.terminated && nChars > 1 ==>
      |r.stored| == nChars - 1 || (|r.stored| > 0 && r.stored[|r.stored| - 1] == delim)
    ensures !r.terminated ==> r.rest == [] && (r.stored == [] || r.stored[|r.stored| - 1] != delim)
    decreases |s|
  {
    if nChars <= 1 then LineRead([], s, true)
    else if s == [] then LineRead([], [], false)
    else if s[0] == delim then LineRead([delim], s[1..], true)
    else
      var r := TakeLine(s[1..], nChars - 1, delim);
      LineRead([s[0]] + r.stored, r.rest, r.terminated)
  }

  /** strcmp(buf, "OK") == 0 after a read: only a NUL-terminated buffer holding exactly "OK" matches. */
  predicate SaysOK(r: LineRead)
  {
    r.terminated && CStr(r.stored) == "OK"
  }

  /** What expectResponse leaves of the stream: it reads three lines into an 80-character buffer. */
  function ResponseRest(s: string): (rest: string)
    ensures |rest| <= |s| && rest == s[|s| - |rest|..]
  {
    var r1 := TakeLine(s, RESPONSE_CHARS, LF);
    var r2 := TakeLine(r1.rest, RESPONSE_CHARS, LF);
    TakeLine(r2.rest, RESPONSE_CHARS, LF).rest
  }

  /** The line expectOK reads after a query's response. */
  function QueryReply(s: string): (r: LineRead)
    ensures r.stored + r.rest == ResponseRest(s)
  {
    TakeLine(ResponseRest(s), EXPECT_OK_CHARS, LF)
  }

  /** The line expectOK reads right after a command. */
  function CommandReply(s: string): (r: LineRead)
    ensures r.stored + r.rest == s
  {
    TakeLine(s, EXPECT_OK_CHARS, LF)
  }

  /**
   * expectOK reads with '\n' as delimiter, so on modem text (no NUL bytes) a
   * completed read keeps the line's '\n' (or fills all 19 characters) and is
   * never exactly "OK": expectOK never leaves the status OK.
   */
  lemma ExpectOKNeverMatches(s: string)
    requires NUL !in s
    ensures !SaysOK(TakeLine(s, EXPECT_OK_CHARS, LF))
  {
    var r := TakeLine(s, EXPECT_OK_CHARS, LF);
    assert NUL !in r.stored by {
      assert forall j :: 0 <= j < |r.stored| ==> r.stored[j] == s[j];
    }
    CStrOfText(r.stored);
  }

  /** A modem line "text\r\n" that fits the buffer is read whole, CR and LF included, and NUL-terminated. */
  lemma {:induction false} TakeLineOfLine(text: string, rest: string, nChars: int)
    requires LF !in text && |text| + 2 <= nChars - 1
    ensures TakeLine(text + [CR, LF] + rest, nChars, LF) == LineRead(text + [CR, LF], rest, true)
    decreases |text|
  {
    var s := text + [CR, LF] + rest;
    if text == [] {
      assert s[0] == CR && s[1..] == [LF] + rest;
      assert TakeLine(s[1..], nChars - 1, LF) == LineRead([LF], rest, true);
    } else {
      assert s[0] == text[0] && s[1..] == text[1..] + [CR, LF] + rest;
      TakeLineOfLine(text[1..], rest, nChars - 1);
      assert [text[0]] + (text[1..] + [CR, LF]) == text + [CR, LF];
    }
  }

  /**
   * The check expectOK evidently means: the line read, its trailing CR and
   * LF taken off, is "OK". A modem reply "text\r\n" of up to 16 characters
   * passes it exactly when the text is "OK", while the comparison as
   * written rejects it whatever the text.
   */
  lemma ExpectOKIntended(text: string, rest: string)
    requires NUL !in text && CR !in text && LF !in text && |text| <= EXPECT_OK_CHARS - 4
    ensures var r := TakeLine(text + [CR, LF] + rest, EXPECT_OK_CHARS, LF);
            (r.terminated && TrimEnd(CStr(r.stored)) == "OK" <==> text == "OK") && !SaysOK(r)
  {
    TakeLineOfLine(text, rest, EXPECT_OK_CHARS);
    CStrOfText(text + [CR, LF]);
    TrimEndOfLine(text);
    assert "OK" != "OK" + [CR, LF];
  }

  /** The task loop's trimming: the line without its trailing CRs and LFs. */
  function TrimEnd(s: string): (t: string)
    ensures |t| <= |s| && t == s[..|t|]
    ensures |t| > 0 ==> t[|t| - 1] != CR && t[|t| - 1] != LF
    ensures forall j :: |t| <= j < |s| ==> s[j] == CR || s[j] == LF
  {
    if |s| > 0 && (s[|s| - 1] == CR || s[|s| - 1] == LF) then TrimEnd(s[..|s| - 1]) else s
  }

  /** A modem line "text\r\n" read by the task loop comes out as text. */
  lemma {:induction false} TrimEndOfLine(text: string)
    requires |text| > 0 ==> text[|text| - 1] != CR && text[|text| - 1] != LF
    ensures TrimEnd(text + [CR, LF]) == text
  {
    var s := text + [CR, LF];
    assert s[..|s| - 1] == text + [CR];
    assert (text + [CR])[..|text|] == text;
  }

  /**
   * The line trimming of SIM808_Task: while the last of the `nRead`
   * characters is CR or LF it is overwritten by NUL and dropped.
   */
  method TrimLine(buf: array<char>, nRead: nat) returns (n: nat)
    requires nRead <= buf.Length
    modifies buf
    ensures n == |TrimEnd(old(buf[..nRead]))|
    ensures buf[..n] == old(buf[..n])
    ensures forall j :: n <= j < nRead ==> buf[j] == NUL
    ensures forall j :: nRead <= j < buf.Length ==> buf[j] == old(buf[j])
  {
    n := nRead;
    while n > 0
      invariant n <= nRead
      invariant TrimEnd(old(buf[..nRead])) == TrimEnd(old(buf[..n]))
      invariant buf[..n] == old(buf[..n])
      invariant forall j :: n <= j < nRead ==> buf[j] == NUL
      invariant forall j :: nRead <= j < buf.Length ==> buf[j] == old(buf[j])
    {
      var c := buf[n - 1];
      if c == CR || c == LF {
        assert old(buf[..n])[..n - 1] == old(buf[..n - 1]);
        buf[n - 1] := NUL;
        n := n - 1;
      } else {
        break;
      }
    }
  }

  class Sim808 {
    var status: Status
    /** Everything handed to TextUART::write, in order. */
    var sent: string
    /** What the modem will still send. */
    var incoming: string

    constructor (incoming: string)
      ensures status == OK && sent == [] && this.incoming == incoming
    {
      status := OK;
      sent := [];
      this.incoming := incoming;
    }

    /** sendCommand(cmd): "AT", the command and CR LF. */
    method SendCommand(cmd: string)
      modifies this
      ensures sent == old(sent) + ("AT" + cmd + "\r\n")
      ensures status == old(status) && incoming == old(incoming)
    {
      sent := sent + ("AT" + cmd + "\r\n");
    }

    /** sendCommand(cmd, data): "AT", the command, its argument and CR LF. */
    method SendCommandData(cmd: string, data: string)
      modifies this
      ensures sent == old(sent) + ("AT" + cmd + data + "\r\n")
      ensures status == old(status) && incoming == old(incoming)
    {
      sent := sent + ("AT" + cmd + data + "\r\n");
    }

    /** uart.readLine(buf, nChars, '\n') */
    method ReadLine(nChars: int) returns (r: LineRead)
      modifies this
      ensures r == TakeLine(old(incoming), nChars, LF) && incoming == r.rest
      ensures NUL !in old(incoming) ==> NUL !in incoming
      ensures status == old(status) && sent == old(sent)
    {
      r := TakeLine(incoming, nChars, LF);
      incoming := r.rest;
      assert forall j :: 0 <= j < |incoming| ==> incoming[j] == old(incoming)[|r.stored| + j];
    }

    /** expectOK: reads one line into a 20-character buffer; anything but "OK" sets NOT_OK. */
    method ExpectOK()
      modifies this
      ensures var r := TakeLine(old(incoming), EXPECT_OK_CHARS, LF);
        incoming == r.rest && status == (if SaysOK(r) then old(status) else NOT_OK)
      ensures NUL !in old(incoming) ==> status == NOT_OK && NUL !in incoming
      ensures sent == old(sent)
    {
      var r := ReadLine(EXPECT_OK_CHARS);
      if !SaysOK(r) {
        status := NOT_OK;
      }
      if NUL !in old(incoming) {
        ExpectOKNeverMatches(old(incoming));
      }
    }

    /** expectResponse: three reads into an 80-character buffer; the prefix is not looked at. */
    method ExpectResponse(prefix: string)
      modifies this
      ensures incoming == ResponseRest(old(incoming))
      ensures NUL !in old(incoming) ==> NUL !in incoming
      ensures status == old(status) && sent == old(sent)
    {
      var _ := ReadLine(RESPONSE_CHARS);
      var _ := ReadLine(RESPONSE_CHARS);
      var _ := ReadLine(RESPONSE_CHARS);
    }

    /** isError */
    function IsError(): (e: bool)
      reads this
      ensures e <==> status == NOT_OK
    {
      status != OK
    }

    /** initialize: "AT", then echo off with "ATE0", reading two lines after each. */
    method Initialize()
      modifies this
      ensures sent == old(sent) + "AT\r\n" + "ATE0\r\n"
      ensures var r1 := TakeLine(old(incoming), EXPECT_OK_CHARS, LF);
        var r2 := TakeLine(r1.rest, EXPECT_OK_CHARS, LF);
        var r3 := TakeLine(r2.rest, EXPECT_OK_CHARS, LF);
        var r4 := TakeLine(r3.rest, EXPECT_OK_CHARS, LF);
        incoming == r4.rest && status == (if SaysOK(r2) && SaysOK(r3) && SaysOK(r4) then OK else NOT_OK)
      ensures NUL !in old(incoming) ==> status == NOT_OK
    {
      assert "AT" + "" + "\r\n" == "AT\r\n" && "AT" + "E0" + "\r\n" == "ATE0\r\n";
      SendCommand("");
      ExpectOK();
      status := OK;
      ExpectOK();
      SendCommand("E0");
      ExpectOK();
      ExpectOK();
    }

    /**
     * The shape shared by checkPIN, checkNetwork, checkBattery and getGPSInfo:
     * the status reset to OK, the command, expectResponse and expectOK.
     */
    method Query(cmd: string, prefix: string)
      modifies this
      ensures sent == old(sent) + ("AT" + cmd + "\r\n")
      ensures var r := QueryReply(old(incoming));
        incoming == r.rest && status == (if SaysOK(r) then OK else NOT_OK)
      ensures NUL !in old(incoming) ==> status == NOT_OK
    {
      status := OK;
      SendCommand(cmd);
      ExpectResponse(prefix);
      ExpectOK();
    }

    /** checkPIN: "AT+CPIN?"; always returns false. */
    method CheckPIN() returns (ok: bool)
      modifies this
      ensures var r := QueryReply(old(incoming));
        incoming == r.rest && status == (if SaysOK(r) then OK else NOT_OK)
      ensures sent == old(sent) + "AT+CPIN?\r\n"
      ensures !ok && (NUL !in old(incoming) ==> status == NOT_OK)
    {
      assert "AT" + "+CPIN?" + "\r\n" == "AT+CPIN?\r\n";
      Query("+CPIN?", "+CPIN:");
      ok := false;
    }

    /** checkNetwork: "AT+CREG?"; always returns false. */
    method CheckNetwork() returns (ok: bool)
      modifies this
      ensures var r := QueryReply(old(incoming));
        incoming == r.rest && status == (if SaysOK(r) then OK else NOT_OK)
      ensures sent == old(sent) + "AT+CREG?\r\n"
      ensures !ok && (NUL !in old(incoming) ==> status == NOT_OK)
    {
      assert "AT" + "+CREG?" + "\r\n" == "AT+CREG?\r\n";
      Query("+CREG?", "+CREG:");
      ok := false;
    }

    /** checkBattery: "AT+CBC"; always returns false. */
    method CheckBattery() returns (ok: bool)
      modifies this
      ensures var r := QueryReply(old(incoming));
        incoming == r.rest && status == (if SaysOK(r) then OK else NOT_OK)
      ensures sent == old(sent) + "AT+CBC\r\n"
      ensures !ok && (NUL !in old(incoming) ==> status == NOT_OK)
    {
      assert "AT" + "+CBC" + "\r\n" == "AT+CBC\r\n";
      Query("+CBC", "+CBC:");
      ok := false;
    }

    /** getGPSInfo: "AT+CGNSINF" (its bool result is never set). */
    method GetGPSInfo()
      modifies this
      ensures var r := QueryReply(old(incoming));
        incoming == r.rest && status == (if SaysOK(r) then OK else NOT_OK)
      ensures sent == old(sent) + "AT+CGNSINF\r\n"
      ensures NUL !in old(incoming) ==> status == NOT_OK
    {
      assert "AT" + "+CGNSINF" + "\r\n" == "AT+CGNSINF\r\n";
      Query("+CGNSINF", "+CGNSINF: ");
    }

    /**
     * The shape shared by sendPIN, the charging and the GPS switches: the
     * status reset to OK, one command and one expectOK.
     */
    method Command(cmd: string, data: string)
      modifies this
      ensures sent == old(sent) + ("AT" + cmd + data + "\r\n")
      ensures var r := CommandReply(old(incoming));
        incoming == r.rest && status == (if SaysOK(r) then OK else NOT_OK)
      ensures NUL !in old(incoming) ==> status == NOT_OK
    {
      status := OK;
      SendCommandData(cmd, data);
      ExpectOK();
    }

    /** sendPIN: "AT+CPIN=" and the PIN. */
    method SendPIN(pin: string)
      modifies this
      ensures var r := CommandReply(old(incoming));
        incoming == r.rest && status == (if SaysOK(r) then OK else NOT_OK)
      ensures sent == old(sent) + "AT+CPIN=" + pin + "\r\n"
      ensures NUL !in old(incoming) ==> status == NOT_OK
    {
      Command("+CPIN=", pin);
    }

    /** enableCharging: "AT+ECHARGE=1" (its bool result is never set). */
    method EnableCharging()
      modifies this
      ensures var r := CommandReply(old(incoming));
        incoming == r.rest && status == (if SaysOK(r) then OK else NOT_OK)
      ensures sent == old(sent) + "AT+ECHARGE=1\r\n"
      ensures NUL !in old(incoming) ==> status == NOT_OK
    {
      assert "AT" + "+ECHARGE=1" + "" + "\r\n" == "AT+ECHARGE=1\r\n";
      Command("+ECHARGE=1", "");
    }

    /** disableCharging: "AT+ECHARGE=0" (its bool result is never set). */
    method DisableCharging()
      modifies this
      ensures var r := CommandReply(old(incoming));
        incoming == r.rest && status == (if SaysOK(r) then OK else NOT_OK)
      ensures sent == old(sent) + "AT+ECHARGE=0\r\n"
      ensures NUL !in old(incoming) ==> status == NOT_OK
    {
      assert "AT" + "+ECHARGE=0" + "" + "\r\n" == "AT+ECHARGE=0\r\n";
      Command("+ECHARGE=0", "");
    }

    /** enableGPS: "AT+CGNSPWR=1" (its bool result is never set). */
    method EnableGPS()
      modifies this
      ensures var r := CommandReply(old(incoming));
        incoming == r.rest && status == (if SaysOK(r) then OK else NOT_OK)
      ensures sent == old(sent) + "AT+CGNSPWR=1\r\n"
      ensures NUL !in old(incoming) ==> status == NOT_OK
    {
      assert "AT" + "+CGNSPWR=" + "1" + "\r\n" == "AT+CGNSPWR=1\r\n";
      Command("+CGNSPWR=", "1");
    }

    /** disableGPS: "AT+CGNSPWR=0" (its bool result is never set). */
    method DisableGPS()
      modifies this
      ensures var r := CommandReply(old(incoming));
        incoming == r.rest && status == (if SaysOK(r) then OK else NOT_OK)
      ensures sent == old(sent) + "AT+CGNSPWR=0\r\n"
      ensures NUL !in old(incoming) ==> status == NOT_OK
    {
      assert "AT" + "+CGNSPWR=" + "0" + "\r\n" == "AT+CGNSPWR=0\r\n";
      Command("+CGNSPWR=", "0");
    }
  }
}
