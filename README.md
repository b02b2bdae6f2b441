# DroneSTM tracker core, modelled in Dafny

This project models the part of the DroneSTM tracker firmware that moves bytes
and AT commands between the microcontroller and a SIM800/SIM808 GSM/GPS modem.
It also models the small encoders and parsers around that layer. The firmware
exists in two generations, and both are covered:

- **STM32Cube/FreeRTOS stack** (`Cube/`):
  - the head-and-count byte FIFO of `fifo.h` (module `Fifo`);
  - the interrupt-driven serial port of `UART.cc` (module `Uart`), with its
    retry-budgeted string writer and line readers;
  - the `SIM808` driver with its sticky status flag and the line trimming of
    its task loop (module `Sim808`).
- **mbed stack** (`mbed/`):
  - the receive ring, line watcher and blocking readers of the Adafruit FONA
    library (module `FonaLink`);
  - the FONA AT command engine (module `Fona`): reply matching, field
    parsers, input guards, fixed-offset command builders, and the command
    flows for GPRS, TCP and HTTP set-up;
  - the table-driven CRC-8/CRC-16 templates of `crc.h` (module `Crc`);
  - `SimpleTokenizer`, `BufString` and the non-float fields of
    `TK102Packet::update` (module `Tracker`);
  - `encodeURL` and the field extraction and JSON assembly of
    `publishLocation` (module `Publish`);
  - the MS5607 barometer driver (module `Baro`).
- **Shared helpers** (module `CString`): C-string helpers such as `strchr`,
  `strstr`, `atoi` and `printf("%d")`, plus the integer width conversions.

How the model treats the hardware and time:

- **Concurrency.** Interrupt handlers and task code are atomic method calls on
  one object. A delay (`vTaskDelay`, `wait_ms`) is the only point where
  interrupts come in. The caller supplies, for each delay, the bytes that
  arrive or the number of transmit-empty interrupts taken.
- **The modem.** For the AT engines it is a scripted list of reply lines
  (`Fona`) or a character stream (`Sim808`). What the driver writes is an
  output string. Flows that stop at the first unexpected reply are specified
  by one function, `Fona.Exchange`, and `Fona.ExchangeSpec` states when such
  a flow succeeds and what it writes.
- **The I2C bus** is a script of acknowledged or refused transfers, with a
  log of the frames the driver put on the bus.
- **Integer widths.** Integers are unbounded. The source's widths are written
  out where they matter: `uint8_t` and `uint16_t` truncation, the `int8_t`
  and `int16_t` casts, the 32-bit product in the temperature formula, and the
  `uint64_t` pressure arithmetic.

The model follows the code as written, quirks included:

- `deleteSMS` and `sendSMS` return `-1`, which converts to `true`, when text
  mode cannot be set.
- `TextUART::readLine` returns without a terminator when a byte does not come.
- The FONA `readline` drain loop has no length bound; what it stores past
  the reply buffer is listed under "Left out".
- The SIM808 `check*` methods always return `false`. Its `enable*`,
  `disable*`, `getGPSInfo`, `expectOK` and `expectResponse` methods are
  declared `bool` but return nothing, which "Left out" lists.

Where C leaves the outcome undefined (a write past the end of an array, an
overlapping `strcat`, `printf` with a stray '%', a `bool` or reference
function that returns nothing), the model follows the code up to that point
and says what it then no longer promises under "Left out". The one exception
is the signed 32-bit overflow at baro.cpp:96: the model gives it the
two's-complement wrap that the compiler emits, which C does not define.

The defects that the proofs expose are listed under "Findings". For each one,
the model proves both what the code does and what was evidently intended.

## Model

| member | source | states |
|---|---|---|
| Fifo.Fifo.constructor | Cube/Inc/fifo.h:5-11 | A declared FIFO (zeroed static storage) is an empty queue of the declared capacity. |
| Fifo.Fifo.Init | Cube/Inc/fifo.h:13 | FIFO_INIT leaves head = count = 0 and the queue empty; the invariant (head < size, count <= size) holds. |
| Fifo.Fifo.IsEmpty | Cube/Inc/fifo.h:15 | FIFO_EMPTY holds exactly when no byte is queued. |
| Fifo.Fifo.IsFull | Cube/Inc/fifo.h:16 | FIFO_FULL holds exactly when the queue holds `size` bytes. |
| Fifo.Fifo.Count | Cube/Inc/fifo.h:17 | FIFO_COUNT is the number of queued bytes, never more than the capacity. |
| Fifo.Fifo.Head | Cube/Inc/fifo.h:27 | FIFO_HEAD is the oldest byte, or 0 on an empty queue. |
| Fifo.Fifo.Push | Cube/Inc/fifo.h:19-25 | On a non-full queue the byte goes into the slot computed in a uint16_t (PushSlot) and the count goes up; while head + count fits 16 bits that slot follows the queued bytes, the byte is appended and the invariant holds; head and every other slot are unchanged; on a full queue nothing changes. |
| Fifo.Fifo.Pop | Cube/Inc/fifo.h:28-34 | On a non-empty queue it returns buffer[head], head advances with wrap to 0, the oldest byte leaves; on an empty queue the output variable and the queue are unchanged. |
| Fifo.PushSlot | Cube/Inc/fifo.h:21-22 | The computed tail is always a slot of the buffer, and without 16-bit overflow it is head + count wrapped once at the size. |
| Fifo.PushSlotWithinHalf | Cube/Inc/fifo.h:21-22 | With at most 0x8000 slots head + count always fits 16 bits, so the tail is the slot after the queued bytes. |
| Fifo.PushSlotWraps | Cube/Inc/fifo.h:21 | With 0xC000 slots, head 0xBFFF and 0x4001 bytes queued, the byte that belongs in slot 0x4000 is written to slot 0. |
| Fifo.FifoOrder | Cube/Inc/fifo.h:19-34 | For any interleaving of pushes and pops: bytes popped followed by bytes still queued equal the bytes queued at the start followed by the accepted pushes (FIFO order, no loss or duplication); the queue never exceeds its capacity. |
| Fifo.PushDroppedOnlyWhenFull | Cube/Inc/fifo.h:20 | A push is accepted exactly when the queue is not full, and a push on a full queue has no effect on the rest of the run. |
| Uart.SerialPort.constructor | Cube/App/UART.cc:15-16 | Both FIFOs start empty, interrupts not yet enabled, nothing on the wire. |
| Uart.SerialPort.Init | Cube/App/UART.cc:18-22 | serInit empties both FIFOs and enables the receive interrupt. |
| Uart.SerialPort.ReadCount | Cube/App/UART.cc:86-88 | serReadCount is the number of received bytes waiting. |
| Uart.SerialPort.WriteCount | Cube/App/UART.cc:90-92 | serWriteCount is the number of bytes waiting to be sent. |
| Uart.SerialPort.OnReceive | Cube/App/UART.cc:24-40 | The received byte is queued and 0 returned, or dropped with -1 when RXFIFO is full; nothing else changes. |
| Uart.SerialPort.OnTransmitEmpty | Cube/App/UART.cc:42-60 | With bytes queued, exactly the oldest goes to the wire; with none, the transmit interrupt is switched off and -1 returned. |
| Uart.SerialPort.Read | Cube/App/UART.cc:62-71 | serRead pops the oldest received byte and returns 0, or returns -1 with *b untouched on an empty FIFO. |
| Uart.SerialPort.Receive | Cube/App/UART.cc:146-150 | UART::read is the oldest received byte, or 0 when none is waiting. |
| Uart.SerialPort.Write | Cube/App/UART.cc:73-84 | serWrite queues the byte and enables the transmit interrupt, or returns -1 without queuing when TXFIFO is full. |
| Uart.SerialPort.WriteString | Cube/App/UART.cc:95-115 | The characters are queued in order under one budget of 100 retries for the whole string; 0 means all were queued, -1 means the retries ran out with the earlier characters already queued. |
| Uart.SerialPort.ReadLine | Cube/App/UART.cc:117-134 | serReadLine stores at most maxSize bytes, none of them CR or LF, returns their count, appends no NUL, and waits at most 100 delays. The bytes taken (with the CR or LF that ended the line), followed by those still queued, are exactly the bytes queued before followed by those that arrived during its delays. A read that stops short without a line end has spent all 100 delays and left the queue empty, so it stored every byte queued or arrived. |
| Uart.SerialPort.TextRead | Cube/App/UART.cc:162-180 | TextUART::read stores at most nChars bytes, and the bytes stored followed by those still queued are exactly the bytes queued before followed by those that arrived during its delays. A short read happens only with the receive queue empty after 199 delays in which nothing arrived, and then a NUL is written at the current position. |
| Uart.SerialPort.AwaitText | Cube/App/UART.cc:164-173 | The inner poll of TextUART::read and readLine: ready exactly when a byte waits; it delays only while the queue is empty, and the received stream grows by exactly what its delays accepted; it then holds the first non-empty batch (as much as fits), or gives up after 199 empty delays. |
| Uart.SerialPort.TextReadLine | Cube/App/UART.cc:182-202 | TextUART::readLine stores at most nChars - 1 bytes up to and including the delimiter, and the bytes stored followed by those still queued are exactly the bytes queued before followed by those that arrived. It writes a NUL, except when it times out: then the queue is empty, nothing arrived in the last 199 delays, and no terminator is written. |
| Uart.Accepted | Cube/App/UART.cc:24-40 | The bytes that delays on an empty receive FIFO queue: each batch cut to the 128 slots, nothing for no delays. |
| Uart.AcceptedSplit | Cube/App/UART.cc:164-173 | The delays of successive waits accept what the whole run of delays accepts. |
| Uart.SerialPort.TextWrite | Cube/App/UART.cc:155-160 | Each character is handed to serWrite in order; those that find TXFIFO full are dropped. |
| Sim808.TakeLine | Cube/App/UART.cc:182-202 | TextUART::readLine on the modem stream: what is stored plus what is left is the stream; the delimiter can only be the last character stored; a NUL is written unless the stream ran dry. |
| Sim808.ExpectOKNeverMatches | Cube/App/SIM808.cc:150-162 | On modem text (no NUL), a line read with '\n' as delimiter is never exactly "OK". |
| Sim808.ExpectOKIntended | Cube/App/SIM808.cc:150-162 | A reply "text\r\n" that fits the buffer, with CR and LF trimmed, equals "OK" exactly when text is "OK"; the comparison as written rejects it whatever the text. |
| Sim808.TrimEnd | Cube/App/SIM808.cc:47-55 | The line without its trailing CRs and LFs: a prefix of the line that does not end in CR or LF, and nothing but CR and LF was removed. |
| Sim808.TrimEndOfLine | Cube/App/SIM808.cc:47-55 | A modem line "text\r\n" trims to text. |
| Sim808.TrimLine | Cube/App/SIM808.cc:47-55 | The trimming loop leaves the first TrimEnd-many characters, NULs the trailing CRs and LFs it removed, and touches nothing past nRead. |
| Sim808.Sim808.SendCommand | Cube/App/SIM808.cc:180-192 | Writes exactly "AT" + cmd + "\r\n"; status and input unchanged. |
| Sim808.Sim808.SendCommandData | Cube/App/SIM808.cc:194-207 | Writes exactly "AT" + cmd + data + "\r\n"; status and input unchanged. |
| Sim808.Sim808.ReadLine | Cube/App/SIM808.cc:152 | One uart.readLine with '\n': the line TakeLine cuts from the stream, which advances past it. |
| Sim808.Sim808.ExpectOK | Cube/App/SIM808.cc:150-162 | Reads one line into a 20-character buffer and sets NOT_OK unless it is exactly "OK"; it never sets OK, so on modem text the status ends NOT_OK. |
| Sim808.Sim808.ExpectResponse | Cube/App/SIM808.cc:164-178 | Consumes three lines into an 80-character buffer (the input left is ResponseRest), ignores the prefix and leaves the status unchanged. |
| Sim808.Sim808.IsError | Cube/App/SIM808.cc:146-148 | isError holds exactly when the status is NOT_OK. |
| Sim808.ResponseRest | Cube/App/SIM808.cc:164-178 | What expectResponse leaves of the stream is a suffix of it. |
| Sim808.QueryReply | Cube/App/SIM808.cc:150-178 | The line expectOK reads after a response, and the input after it, make up what the response left. |
| Sim808.CommandReply | Cube/App/SIM808.cc:150-152 | The line expectOK reads and the input after it make up the whole stream. |
| Sim808.Sim808.Initialize | Cube/App/SIM808.cc:70-78 | Writes "AT\r\n" then "ATE0\r\n", two expectOK after each, the status reset to OK after the first. |
| Sim808.Sim808.CheckPIN | Cube/App/SIM808.cc:80-86 | Resets the status to OK, writes "AT+CPIN?\r\n", consumes the three response lines and the expectOK line after them, ends OK exactly when that line is "OK" with its terminator, and returns false. |
| Sim808.Sim808.CheckNetwork | Cube/App/SIM808.cc:88-94 | Resets the status to OK, writes "AT+CREG?\r\n", consumes the three response lines and the expectOK line after them, ends OK exactly when that line is "OK" with its terminator, and returns false. |
| Sim808.Sim808.CheckBattery | Cube/App/SIM808.cc:96-102 | Resets the status to OK, writes "AT+CBC\r\n", consumes the three response lines and the expectOK line after them, ends OK exactly when that line is "OK" with its terminator, and returns false. |
| Sim808.Sim808.GetGPSInfo | Cube/App/SIM808.cc:138-143 | Resets the status to OK, writes "AT+CGNSINF\r\n", consumes the three response lines and the expectOK line after them, and ends OK exactly when that line is "OK" with its terminator. |
| Sim808.Sim808.SendPIN | Cube/App/SIM808.cc:104-110 | Resets the status to OK, writes "AT+CPIN=" + pin + "\r\n", consumes one reply line, and ends OK exactly when that line is "OK" with its terminator. |
| Sim808.Sim808.EnableCharging | Cube/App/SIM808.cc:112-117 | Resets the status to OK, writes "AT+ECHARGE=1\r\n", consumes one reply line, and ends OK exactly when that line is "OK" with its terminator. |
| Sim808.Sim808.DisableCharging | Cube/App/SIM808.cc:119-124 | Resets the status to OK, writes "AT+ECHARGE=0\r\n", consumes one reply line, and ends OK exactly when that line is "OK" with its terminator. |
| Sim808.Sim808.EnableGPS | Cube/App/SIM808.cc:126-130 | Resets the status to OK, writes "AT+CGNSPWR=1\r\n", consumes one reply line, and ends OK exactly when that line is "OK" with its terminator. |
| Sim808.Sim808.DisableGPS | Cube/App/SIM808.cc:132-136 | Resets the status to OK, writes "AT+CGNSPWR=0\r\n", consumes one reply line, and ends OK exactly when that line is "OK" with its terminator. |
| FonaLink.Next | mbed/Adafruit_FONA_Library/Adafruit_FONA.h:220-226 | The increment helpers keep the index in 0..254 and either add one or wrap 254 to 0. |
| FonaLink.RingAdvance | mbed/Adafruit_FONA_Library/Adafruit_FONA.h:220-222 | Storing at the in index and advancing it appends one byte after the unread ones, without touching their slots. |
| FonaLink.RingTake | mbed/Adafruit_FONA_Library/Adafruit_FONA.h:224-226 | Advancing the out index drops exactly the oldest unread byte and keeps the order of the rest. |
| FonaLink.FonaLink.constructor | mbed/Adafruit_FONA_Library/Adafruit_FONA.h:73-77 | A new object has an empty ring (in = out = 0), an empty current line and no listener. |
| FonaLink.FonaLink.SetEventListener | mbed/Adafruit_FONA_Library/Adafruit_FONA.cpp:60-62 | Registers the listener and changes nothing else. |
| FonaLink.FonaLink.IsRxBufferFull | mbed/Adafruit_FONA_Library/Adafruit_FONA.h:212-214 | The ring is full exactly when 254 bytes wait: one slot is always left free. |
| FonaLink.FonaLink.IsRxBufferEmpty | mbed/Adafruit_FONA_Library/Adafruit_FONA.h:216-218 | The ring is empty exactly when no byte waits (in == out). |
| FonaLink.FonaLink.Readable | mbed/Adafruit_FONA_Library/Adafruit_FONA.cpp:90-92 | readable holds exactly when a byte waits. |
| FonaLink.FonaLink.OnSerialDataReceived | mbed/Adafruit_FONA_Library/Adafruit_FONA.cpp:94-127 | Moves bytes from the peripheral into the ring, in order, until the peripheral is empty or the ring is full; the bytes not yet read by the task are unchanged as a stream; the line watcher sees each moved byte. |
| FonaLink.FonaLink.Getc | mbed/Adafruit_FONA_Library/Adafruit_FONA.cpp:70-88 | On a non-empty ring, _getc returns the oldest byte and removes it; nothing else changes. |
| FonaLink.Watch | mbed/Adafruit_FONA_Library/Adafruit_FONA.cpp:104-123 | The current line never grows past RX_BUFFER_SIZE characters. |
| FonaLink.WatchSilent | mbed/Adafruit_FONA_Library/Adafruit_FONA.cpp:113 | Without a listener no callback is made, whatever arrives. |
| FonaLink.WatchText | mbed/Adafruit_FONA_Library/Adafruit_FONA.cpp:104-107 | Bytes other than CR and LF extend the current line while it has room and call nothing. |
| FonaLink.WatchLine | mbed/Adafruit_FONA_Library/Adafruit_FONA.cpp:110-123 | A complete line "text\r\n" starts a new line, and the listener hears of it exactly when the text spells "RING" or "NO CARRIER". |
| FonaLink.WatchResultCodes | mbed/Adafruit_FONA_Library/Adafruit_FONA.cpp:115-119 | A "RING" line calls onRing and a "NO CARRIER" line calls onNoCarrier. |
| FonaLink.Keep | mbed/Adafruit_FONA_Library/Adafruit_FONA.cpp:1211-1225 | The reply readline keeps is never longer than the bytes it took. |
| FonaLink.KeepText | mbed/Adafruit_FONA_Library/Adafruit_FONA.cpp:1211-1225 | Text without CR or LF is kept as it is. |
| FonaLink.ReadStep | mbed/Adafruit_FONA_Library/Adafruit_FONA.cpp:1211-1225 | Taking one more byte extends the reply by one step of the drain loop, and it ends a single-line read exactly when it is an LF after stored text. |
| FonaLink.ReadlineOfResponse | mbed/Adafruit_FONA_Library/Adafruit_FONA.cpp:1203-1234 | A modem response "\r\n" + text + "\r\n" read in single-line mode ends at its final LF, and the reply is exactly the text. |
| FonaLink.FonaLink.Readline | mbed/Adafruit_FONA_Library/Adafruit_FONA.cpp:1203-1234 | readline takes bytes in order from the stream; the reply is what the drain loop keeps of them; a zero timeout takes nothing and gives an empty reply; in single-line mode it stops right after the first LF that follows stored text, leaving later bytes unread; the length is returned as uint8_t. |
| FonaLink.FonaLink.ReadRaw | mbed/Adafruit_FONA_Library/Adafruit_FONA.cpp:1188-1201 | readRaw takes exactly min(b, 254) bytes, the next ones of the stream, in order. |
| Fona.Fona.constructor | mbed/Adafruit_FONA_Library/Adafruit_FONA.h:73-77 | apn "FONAnet", no user or password, httpsredirect false, useragent "FONA", no incoming call, empty reply. |
| Fona.Fona.SetGPRSNetworkSettings | mbed/Adafruit_FONA_Library/Adafruit_FONA.cpp:831-835 | Stores the APN, user name and password. |
| Fona.Fona.SetUserAgent | mbed/Adafruit_FONA_Library/Adafruit_FONA.cpp:1127-1129 | Stores the user agent. |
| Fona.Fona.SetHTTPSRedirect | mbed/Adafruit_FONA_Library/Adafruit_FONA.cpp:1131-1133 | Stores the redirect flag. |
| Fona.Fona.Readline | mbed/Adafruit_FONA_Library/Adafruit_FONA.cpp:1203-1234 | At line level: a zero timeout leaves an empty reply and reads nothing; otherwise the next modem line is stored with its NUL and the rest of the buffer is untouched. |
| Fona.Fona.ExpectReply | mbed/Adafruit_FONA_Library/Adafruit_FONA.cpp:1166-1172 | Succeeds exactly when the next line equals the expected reply. |
| Fona.Fona.GetReply | mbed/Adafruit_FONA_Library/Adafruit_FONA.cpp:1236-1251 | Writes the command with CR LF, then reads one line into the reply buffer. |
| Fona.Fona.GetReplyText | mbed/Adafruit_FONA_Library/Adafruit_FONA.cpp:1253-1268 | Writes prefix + suffix with CR LF, then reads one line. |
| Fona.Fona.GetReplyInt | mbed/Adafruit_FONA_Library/Adafruit_FONA.cpp:1270-1285 | Writes prefix + the number as "%d" with CR LF, then reads one line. |
| Fona.Fona.GetReplyInts | mbed/Adafruit_FONA_Library/Adafruit_FONA.cpp:1287-1302 | Writes prefix + "%d,%d" with CR LF, then reads one line. |
| Fona.Fona.GetReplyQuoted | mbed/Adafruit_FONA_Library/Adafruit_FONA.cpp:1304-1319 | Writes prefix + the quoted suffix with CR LF, then reads one line. |
| Fona.Fona.SendCheckReply | mbed/Adafruit_FONA_Library/Adafruit_FONA.cpp:1321-1326 | Writes the command; succeeds exactly when the next line equals the expected reply. |
| Fona.Fona.SendCheckReplyText | mbed/Adafruit_FONA_Library/Adafruit_FONA.cpp:1328-1332 | As SendCheckReply, for prefix + suffix. |
| Fona.Fona.SendCheckReplyInt | mbed/Adafruit_FONA_Library/Adafruit_FONA.cpp:1334-1338 | As SendCheckReply, for prefix + "%d". |
| Fona.Fona.SendCheckReplyInts | mbed/Adafruit_FONA_Library/Adafruit_FONA.cpp:1340-1344 | As SendCheckReply, for prefix + "%d,%d". |
| Fona.Fona.SendCheckReplyQuoted | mbed/Adafruit_FONA_Library/Adafruit_FONA.cpp:1346-1349 | As SendCheckReply, for prefix + the quoted suffix. |
| Fona.SkipFields | mbed/Adafruit_FONA_Library/Adafruit_FONA.cpp:1357-1361 | Skipping n fields gives a suffix of the text. |
| Fona.WalkFields | mbed/Adafruit_FONA_Library/Adafruit_FONA.cpp:1357-1361 | The strchr-and-step loop computes SkipFields. |
| Fona.LocateField | mbed/Adafruit_FONA_Library/Adafruit_FONA.cpp:1353-1361 | The strstr for the marker and the divider walk find the field start FieldStart defines. |
| Fona.SkipFieldsCount | mbed/Adafruit_FONA_Library/Adafruit_FONA.cpp:1357-1361 | Skipping n fields succeeds exactly when at least n dividers occur. |
| Fona.ParseReplyReadsBack | mbed/Adafruit_FONA_Library/Adafruit_FONA.cpp:1351-1366 | For a reply marker + comma-separated "%d" values, field i reads back, through atoi, as value i, and a field past the last is not found. |
| Fona.AtoiJoin | mbed/Adafruit_FONA_Library/Adafruit_FONA.cpp:1363 | atoi of a joined reply reads its first value. |
| Fona.BatteryReply | mbed/Adafruit_FONA_Library/Adafruit_FONA.cpp:1351-1366 | "+CBC: 0,85,4100" gives 85 at index 1 and 4100 at index 2. |
| Fona.Fona.ParseReply | mbed/Adafruit_FONA_Library/Adafruit_FONA.cpp:1351-1366 | Fails, leaving *v as it was, when the marker is missing or too few dividers follow; otherwise *v is atoi of the field truncated to 16 bits. |
| Fona.CopyField | mbed/Adafruit_FONA_Library/Adafruit_FONA.cpp:1381-1387 | The copy is the longest prefix of the field without the divider, and the divider (or the end) follows it. |
| Fona.Fona.ParseReplyText | mbed/Adafruit_FONA_Library/Adafruit_FONA.cpp:1368-1390 | Finds the same field as ParseReply and copies its text up to the next divider. |
| Fona.Unquote | mbed/Adafruit_FONA_Library/Adafruit_FONA.cpp:1412-1424 | The copy holds at most maxlen characters, no quote and no divider. |
| Fona.CopyQuoted | mbed/Adafruit_FONA_Library/Adafruit_FONA.cpp:1412-1424 | The copy loop of parseReplyQuoted computes Unquote. |
| Fona.UnquoteQuoted | mbed/Adafruit_FONA_Library/Adafruit_FONA.cpp:1412-1424 | A quoted field "s" followed by the divider reads back as s, cut to maxlen characters. |
| Fona.Fona.ParseReplyQuoted | mbed/Adafruit_FONA_Library/Adafruit_FONA.cpp:1396-1427 | Finds the same field as ParseReply and copies it with the quotes skipped, at most maxlen characters; it reports whether the NUL fitted. |
| Fona.Fona.SendParseReply | mbed/Adafruit_FONA_Library/Adafruit_FONA.cpp:1429-1437 | Writes the command, parses the reply line, and consumes the "OK" line only when parsing succeeded. |
| Fona.Fona.SetAudio | mbed/Adafruit_FONA_Library/Adafruit_FONA.cpp:213-218 | a > 1 fails without writing anything; otherwise AT+CHFA=a must be answered "OK". |
| Fona.Fona.SetMicVolume | mbed/Adafruit_FONA_Library/Adafruit_FONA.cpp:246-251 | a > 1 fails without writing anything; otherwise AT+CMIC=a,level must be answered "OK". |
| Fona.Fona.FMradio | mbed/Adafruit_FONA_Library/Adafruit_FONA.cpp:256-265 | Closing sends AT+FMCLOSE; opening with a > 1 fails without writing anything, else sends AT+FMOPEN=a. |
| Fona.Fona.TuneFMradio | mbed/Adafruit_FONA_Library/Adafruit_FONA.cpp:267-273 | A station outside 870..1090 fails without writing anything; otherwise AT+FMFREQ=station must be answered "OK". |
| Fona.Fona.SetFMVolume | mbed/Adafruit_FONA_Library/Adafruit_FONA.cpp:275-282 | A level above 6 fails without writing anything; otherwise AT+FMVOLUME=i must be answered "OK". |
| Fona.Fona.SetPWM | mbed/Adafruit_FONA_Library/Adafruit_FONA.cpp:317-322 | A period above 2000 or a duty above 100 fails without writing anything; otherwise AT+SPWM=0,period,duty must be answered "OK". |
| Fona.SignalLevelOfReport | mbed/Adafruit_FONA_Library/Adafruit_FONA.cpp:300-312 | A report "+FMSIGNAL: station:n" reads back as level n. |
| Fona.Fona.GetFMSignalLevel | mbed/Adafruit_FONA_Library/Adafruit_FONA.cpp:292-313 | -1 without writing anything outside 875..1080; otherwise -1 when the marker or the ':' is missing, else the level as int8_t, and the "OK" line is consumed. |
| Fona.GpsStatusOfReport | mbed/Adafruit_FONA_Library/Adafruit_FONA.cpp:596-606 | For a report "+CGNSINF: run,fix...": 0 when run is '0', 3 when fix is '1', else 1; GpsStatus is -1 exactly when the marker is missing. |
| Fona.GpsStatusAgrees | mbed/Adafruit_FONA_Library/Adafruit_FONA.cpp:596-606 | When the line after the report is short (the expected "OK"), the status read from the buffer is the report's own status. |
| Fona.Fona.GPSstatus | mbed/Adafruit_FONA_Library/Adafruit_FONA.cpp:591-608 | Writes AT+CGNSINF; -1 without the marker; otherwise the status characters at the report's offsets in the buffer, after the next line has been stored over it. |
| Fona.GpsCopyLength | mbed/Adafruit_FONA_Library/Adafruit_FONA.cpp:621 | The intended copy length is min(maxbuff - 1, strlen(p)). |
| Fona.GpsCopyFits | mbed/Adafruit_FONA_Library/Adafruit_FONA.cpp:621-624 | With min, the copy and its NUL fit a buffer of maxbuff, and the buffer holds the start of the report. |
| Fona.Fona.GetGPS | mbed/Adafruit_FONA_Library/Adafruit_FONA.cpp:610-627 | Writes AT+CGNSINF; without "CGNSINF: " returns 0; otherwise copies the report with the length as written and consumes the "OK" line. |
| Fona.UnlockSimCommand | mbed/Adafruit_FONA_Library/Adafruit_FONA.cpp:157-162 | The command is "AT+CPIN=" followed by the C string in the first four PIN characters. |
| Fona.UnlockSimPin | mbed/Adafruit_FONA_Library/Adafruit_FONA.cpp:157-162 | A four-character PIN is sent whole. |
| Fona.Fona.UnlockSIM | mbed/Adafruit_FONA_Library/Adafruit_FONA.cpp:155-165 | Writes the unlock command; succeeds exactly when the answer is "OK". |
| Fona.DialCommand | mbed/Adafruit_FONA_Library/Adafruit_FONA.cpp:326-331 | "ATD", at most 30 characters of the number, then ';'. |
| Fona.DialNumber | mbed/Adafruit_FONA_Library/Adafruit_FONA.cpp:326-331 | A number of at most 30 characters is dialled whole; a longer one is cut to its first 30. |
| Fona.Fona.CallPhone | mbed/Adafruit_FONA_Library/Adafruit_FONA.cpp:325-333 | Writes the dial command; succeeds exactly when the answer is "OK". |
| Fona.PutDigitsValue | mbed/Adafruit_FONA_Library/Adafruit_FONA.cpp:500-504 | The three digits i/100, (i%100)/10, i%10 written at a fixed offset read back as i, for every byte. |
| Fona.DeleteSmsCommand | mbed/Adafruit_FONA_Library/Adafruit_FONA.cpp:499-504 | "AT+CMGD=" followed by three digits whose value is the index. |
| Fona.GpsNmeaCommand | mbed/Adafruit_FONA_Library/Adafruit_FONA.cpp:756-761 | "AT+CGPSOUT=" followed by three digits whose value is the mask. |
| Fona.Fona.EnableGPSNMEA | mbed/Adafruit_FONA_Library/Adafruit_FONA.cpp:755-764 | Writes the NMEA command; succeeds exactly when the answer is "OK". |
| Fona.Fona.DeleteSMS | mbed/Adafruit_FONA_Library/Adafruit_FONA.cpp:496-507 | When AT+CMGF=1 is not answered "OK" it returns true (-1); otherwise it sends the delete command and succeeds exactly when that is answered "OK". |
| Fona.SmsCommand | mbed/Adafruit_FONA_Library/Adafruit_FONA.cpp:467-469 | AT+CMGS=" with at most 19 characters of the address, then the closing quote. |
| Fona.Fona.SendSMS | mbed/Adafruit_FONA_Library/Adafruit_FONA.cpp:464-493 | Text mode first (failure returns true); then AT+CMGS; the message, CR LF CR LF and Ctrl-Z only on the "> " prompt; success needs a "+CMGS" line and then "OK". |
| Fona.ExchangeSpec | mbed/Adafruit_FONA_Library/Adafruit_FONA.cpp:770-820 | A fixed-order flow succeeds exactly when every checked step is answered by the expected line; it then writes all its commands, and whatever happens it writes a prefix of them, in order. |
| Fona.GprsIgnoresShutReply | mbed/Adafruit_FONA_Library/Adafruit_FONA.cpp:774-776 | The answer to AT+CIPSHUT does not affect enableGPRS(true). |
| Fona.Fona.OpenBearer | mbed/Adafruit_FONA_Library/Adafruit_FONA.cpp:786-806 | The APN, then user and password when set, then AT+SAPBR=1,1, stopping at the first reply other than "OK". |
| Fona.Fona.EnableGPRS | mbed/Adafruit_FONA_Library/Adafruit_FONA.cpp:770-820 | Up: CIPSHUT (answer ignored), CGATT=1, CONTYPE, the bearer settings and SAPBR=1,1, in that order; down: CIPSHUT, SAPBR=0,1, CGATT=0; each stops at the first unexpected reply. |
| Fona.Fona.TCPconnect | mbed/Adafruit_FONA_Library/Adafruit_FONA.cpp:880-901 | CIPSHUT, CIPMUX=0, CIPRXGET=1, CIPSTART with server and port, then "OK" and "CONNECT OK", stopping at the first unexpected reply. |
| Fona.Fona.TCPsend | mbed/Adafruit_FONA_Library/Adafruit_FONA.cpp:916-943 | AT+CIPSEND=len; no payload byte is written unless the reply starts with '>'; success only when the next line is exactly "SEND OK". |
| Fona.Fona.WritePacket | mbed/Adafruit_FONA_Library/Adafruit_FONA.cpp:931-933 | The first len characters of the packet are written, in order. |
| Fona.Fona.HTTPInit | mbed/Adafruit_FONA_Library/Adafruit_FONA.cpp:982-984 | AT+HTTPINIT must be answered "OK". |
| Fona.Fona.HTTPTerm | mbed/Adafruit_FONA_Library/Adafruit_FONA.cpp:986-988 | AT+HTTPTERM must be answered "OK". |
| Fona.Fona.HTTPParaStart | mbed/Adafruit_FONA_Library/Adafruit_FONA.cpp:990-1002 | Writes AT+HTTPPARA=" + parameter, then "," with the opening quote only when quoted. |
| Fona.Fona.HTTPParaEnd | mbed/Adafruit_FONA_Library/Adafruit_FONA.cpp:1004-1011 | Writes the closing quote when quoted and the line end; must be answered "OK". |
| Fona.Fona.HTTPParaText | mbed/Adafruit_FONA_Library/Adafruit_FONA.cpp:1013-1017 | Writes the whole AT+HTTPPARA command with the value quoted and sent verbatim, as printf("%s", value) would, and succeeds exactly when the answer is "OK". |
| Fona.Fona.HTTPParaInt | mbed/Adafruit_FONA_Library/Adafruit_FONA.cpp:1019-1023 | The whole AT+HTTPPARA command with a "%d" value; must be answered "OK". |
| Fona.Fona.HTTPSsl | mbed/Adafruit_FONA_Library/Adafruit_FONA.cpp:1060-1062 | AT+HTTPSSL=1 or 0; must be answered "OK". |
| Fona.Fona.HTTPSetup | mbed/Adafruit_FONA_Library/Adafruit_FONA.cpp:1137-1161 | HTTPTERM (answer ignored), HTTPINIT, CID, UA, URL, and REDIR and SSL when redirecting, stopping at the first unexpected reply; the user agent and URL are sent verbatim. |
| Crc.Xor8 | mbed/crc.h:64-92 | Exclusive or of two bytes stays a byte. |
| Crc.XorAssoc | mbed/crc.h:204-213 | Exclusive or is associative (with XorComm and XorSelf: the GF(2) addition the table step relies on). |
| Crc.DivideLinear | mbed/crc.h:156-191 | Bitwise division is linear over GF(2): the remainder of a sum is the sum of the remainders. |
| Crc.TableStepIsDivision | mbed/crc.h:202-220 | The CRC16 table lookup (reflected and normal) equals one byte of bitwise polynomial division. |
| Crc.Crc8Truncation | mbed/crc.h:103-104 | In CRC8 update, remainder << 8 truncates away and only the table entry survives. |
| Crc.CBytes | mbed/crc.h:113-121 | A null string gives no bytes; otherwise the bytes before the NUL. |
| Crc.Crc8Table.constructor | mbed/crc.h:46 | The static table starts not ready. |
| Crc.Crc8Table.MakeTable | mbed/crc.h:55-95 | Afterwards the table is ready and every entry is its dividend after 8 MSB-first shift-and-subtract steps; once ready, a call changes nothing. |
| Crc.Crc8.constructor | mbed/crc.h:49-52 | Builds the table and starts the remainder at 0. |
| Crc.Crc8.Update | mbed/crc.h:98-110 | The new remainder is one byte of bitwise CRC-8 division of the old one. |
| Crc.Crc8.UpdateString | mbed/crc.h:113-121 | The remainder is the CRC-8 of the bytes before the NUL, folded onto the old remainder; a null pointer changes nothing. |
| Crc.Crc16Table.constructor | mbed/crc.h:133 | The static table starts not ready. |
| Crc.Crc16Table.Entry | mbed/crc.h:156-191 | A table entry is dividend << 8 after 8 MSB-first steps (normal) or the dividend after 8 LSB-first steps (reflected). |
| Crc.Crc16Table.MakeTable | mbed/crc.h:142-199 | Afterwards the table is ready and holds every entry; once ready, a call changes nothing. |
| Crc.Crc16.constructor | mbed/crc.h:136-139 | Builds the table and starts the remainder at 0. |
| Crc.Crc16.Update | mbed/crc.h:202-220 | The new remainder is one byte of bitwise CRC-16 division of the old one, reflected or normal. |
| Crc.Crc16.UpdateString | mbed/crc.h:223-231 | The remainder is the CRC-16 of the bytes before the NUL, folded onto the old remainder; a null pointer changes nothing. |
| Tracker.FindFromIsStrChr | mbed/gpsdata.cpp:18 | The place the tokenizer moves to is what strchr finds from the current pointer. |
| Tracker.FindFromFirst | mbed/gpsdata.cpp:18-24 | No delimiter lies before the place found, and null means no delimiter remains. |
| Tracker.Tokenizer.constructor | mbed/gpsdata.cpp:9-12 | The tokenizer starts at the beginning of the string. |
| Tracker.Tokenizer.Next | mbed/gpsdata.cpp:14-26 | Returns the current pointer (null once exhausted) and moves to the first delimiter at or after it, not past it, or to null when none remains; the tokenizer at main.cpp:270-282 is identical. |
| Tracker.SkipTokens | mbed/gpsdata.cpp:226-230 | Standing on a delimiter, the tokenizer never yields null and never moves, so skipping tokens always succeeds. |
| Tracker.Packet.constructor | mbed/gpsdata.cpp:100-111 | Every text field is empty: the first cell of gpsTime is NUL (the model starts all ten cells as NUL). |
| Tracker.Packet.Update | mbed/gpsdata.cpp:173-238 | As written: succeeds exactly when the report has a comma and the stuck token has at least 14 characters; the first ten bytes of the time overwrite that many cells of gpsTime, whose later cells keep their old bytes, and the rest spill past it; fix is 'F' iff that token is "1", the date fields are cut from it by fixed offsets, and fields update does not set are unchanged, as long as the spill stays within the four floats after gpsTime. This follows the member order of gpsdata.h; main.cpp:432-497 runs the same code over another order (see "Left out"). |
| Tracker.StuckTokenizerNeverFixes | mbed/gpsdata.cpp:184-189 | As written, the fix token starts with the comma, so fix is never 'F' and the satellite count never parses. |
| Tracker.IntendedFix | mbed/gpsdata.cpp:184-197 | As intended, fix is 'F' exactly when field 1 is "1"; datetime is 12 characters cut from field 2, gpsDate is its first six, and gpsTime is field 2 from offset 8, cut to the ten cells of gpsTime. |
| Tracker.FixedReportShowsStuckTokenizer | mbed/gpsdata.cpp:14-26 | Any report whose fix field is "1" gets 'F' as intended and 'L' as written. |
| Tracker.GpsTimeOverruns | mbed/gpsdata.cpp:197 | As written, every report the intended reading accepts makes update write at least 11 bytes past gpsTime[10]. |
| Tracker.IntendedUpdate | mbed/gpsdata.cpp:197 | As intended, the time copied never exceeds the ten cells of gpsTime. |
| Tracker.StuckTokenAfterFirstField | mbed/gpsdata.cpp:14-26 | The stuck token is the comma that ends field 0 followed by the remaining fields joined back. |
| Tracker.Write | mbed/gpsdata.cpp:52 | A memcpy into the buffer: the bytes before the offset are kept and the copied bytes follow. |
| Tracker.BufString.constructor | mbed/gpsdata.cpp:35-39 | Buffer, capacity and length as given. |
| Tracker.BufString.FromString | mbed/gpsdata.cpp:41-44 | Capacity and length are both the string's length, and the text held is the string. |
| Tracker.BufString.AppendChar | mbed/gpsdata.cpp:56-65 | Appends and increments the length only when length + 1 <= capacity; otherwise nothing changes. |
| Tracker.BufString.Append | mbed/gpsdata.cpp:46-54 | As written: copies the other text after this one when both fit, but the length does not move, so the text held is unchanged. |
| Tracker.AppendLosesText | mbed/gpsdata.cpp:46-54 | The copy leaves the first length characters, the text held, as they were. |
| Tracker.BufString.AppendAdvancing | mbed/gpsdata.cpp:46-54 | As intended: when both fit, the text held becomes this text followed by the other, and the length never exceeds the capacity. |
| Tracker.BufString.AppendInt | mbed/gpsdata.cpp:67-78 | As written: when 8 more characters fit, the digits and a NUL are written and the text grows by the digits. |
| Tracker.AppendIntOverruns | mbed/gpsdata.cpp:67-78 | 10000000 has eight digits, so with the NUL a ninth character is written into a buffer of capacity 8. |
| Tracker.BufString.AppendIntChecked | mbed/gpsdata.cpp:67-78 | As intended: appends only when the digits and the NUL fit, so the length never exceeds the capacity. |
| Publish.HexValueOfDigit | mbed/main.cpp:100-101 | Each nibble's lowercase hex digit reads back as the nibble. |
| Publish.Nibbles | mbed/main.cpp:98-99 | The two nibbles make up the byte. |
| Publish.EncodedCons | mbed/main.cpp:91-113 | Encoding is character by character: the piece for the first character, then the encoding of the rest. |
| Publish.EncodeUrl | mbed/main.cpp:87-117 | Returns 0 exactly when the encoding and its NUL fit maxSize, and then the output is the encoding (reserved characters as '%' and two lowercase hex digits, others copied in order) plus NUL; -1 otherwise, with a prefix of the encoding written; maxSize == 1 with input left writes only NUL. |
| Publish.DecodeEncoded | mbed/main.cpp:89-111 | Percent-decoding undoes the encoding of every input without '%'. |
| Publish.EncodedUrlIsNoFormat | mbed/Adafruit_FONA_Library/Adafruit_FONA.cpp:1015 | An encoded URL that escaped any character, used as a printf format, holds a conversion with no argument, so printf(value) is undefined for it. |
| CString.BarePrintfConversion | mbed/Adafruit_FONA_Library/Adafruit_FONA.cpp:1015 | printf called with a format but no arguments is undefined once the format holds '%' followed by anything but '%'. |
| Publish.EncodedAppend | mbed/main.cpp:91-113 | The encoding of a concatenation is the concatenation of the encodings. |
| Publish.EncodedPlain | mbed/main.cpp:91-113 | Text without reserved characters encodes to itself. |
| Publish.PercentIsNotEscaped | mbed/main.cpp:89 | '%' is not in the escaped set, so "%41" passes unchanged and decodes to "A". |
| Publish.ParseJsonOfJson | mbed/main.cpp:189-198 | The document reads back as the latitude, and as the longitude when the latitude is there. |
| Publish.CommaFieldIsSplit | mbed/main.cpp:173-185 | The piece the loop keeps for index n is field n of the comma split, present when a comma follows it. |
| Publish.PublishLocation | mbed/main.cpp:159-203 | Nothing when getGPS gave no characters or pieces 3 or 4 are missing; otherwise the document built from them; the payload handed on is the constant {"abc":5}. |
| Publish.PublishedFields | mbed/main.cpp:173-198 | A document is built exactly when the reply has at least six comma-separated fields, from fields 3 and 4, and it reads back as them. |
| Baro.Address | mbed/baro.cpp:4 | The address is 0xEC or 0xEE, 0xEE exactly when the sub-address is odd. |
| Baro.PromCommand | mbed/baro.cpp:14 | 0xA0 plus the low three bits of the PROM address, shifted left once. |
| Baro.PromCommandInjective | mbed/baro.cpp:14 | The seven PROM addresses give different commands. |
| Baro.ConvertCommand | mbed/baro.cpp:30 | 0x40..0x48 for pressure and 0x50..0x58 for temperature, always even. |
| Baro.DecodeConvertCommand | mbed/baro.cpp:30 | The command byte determines its conversion type and oversampling rate. |
| Baro.BigEndianToBytes | mbed/baro.cpp:24 | Reading the big-endian bytes of x gives back x (with ToBytesBigEndian: a bijection). |
| Baro.BigEndianWord | mbed/baro.cpp:24 | Two bytes combine as reply[0] << 8 \| reply[1]. |
| Baro.BigEndianTriple | mbed/baro.cpp:46 | Three bytes combine as reply[0] << 16 \| reply[1] << 8 \| reply[2]. |
| Baro.Bus.Write | mbed/baro.cpp:9 | The I2C write returns 0 exactly when the device acknowledges, and is logged. |
| Baro.Bus.Read | mbed/baro.cpp:20 | The I2C read returns 0 exactly when the device acknowledges, with the bytes it sent, and is logged. |
| Baro.Barometer.constructor | mbed/baro.cpp:3-5 | The address is built from the sub-address, and p = t = 0. |
| Baro.Barometer.Reset | mbed/baro.cpp:7-10 | Writes the reset command; succeeds exactly when acknowledged. |
| Baro.Barometer.ReadProm | mbed/baro.cpp:12-26 | The PROM command, then a two-byte read combined big-endian; on any bus failure false, with the result untouched. |
| Baro.Barometer.StartConversion | mbed/baro.cpp:28-32 | Writes the convert command; succeeds exactly when acknowledged. |
| Baro.Barometer.ReadResult24 | mbed/baro.cpp:34-48 | The ADC read command, then a three-byte read combined big-endian; on any bus failure false, with the result untouched. |
| Baro.Barometer.ReadResult16 | mbed/baro.cpp:50-64 | The ADC read command, then a two-byte read combined big-endian; on any bus failure false, with the result untouched. |
| Baro.LoadOrder | mbed/baro.cpp:74-78 | initialize reads PROM words 0 to 6 in order and stops right after the first failed transfer. |
| Baro.LoadAcknowledged | mbed/baro.cpp:74-78 | With every transfer acknowledged, all seven words are loaded, each its own reply read big-endian. |
| Baro.Barometer.Initialize | mbed/baro.cpp:72-79 | The PROM table gets the words Load reads, in order; later slots keep their values after a failure; the bus sees exactly Load's frames. |
| Baro.TemperatureAsWritten | mbed/baro.cpp:95-96 | As written: 2000 + (dT * C6 wrapped to 32 bits) >> 23, always within 1744..2255. |
| Baro.TemperatureMonotone | mbed/baro.cpp:95-96 | As intended, a higher raw reading never gives a lower temperature. |
| Baro.TemperatureAgrees | mbed/baro.cpp:95-96 | While dT * C6 fits in 32 bits, the code computes the intended temperature. |
| Baro.TemperatureWraps | mbed/baro.cpp:95-96 | With C5 = 0, C6 = 0x8000 and D2 = 0x10000 the intended 2256 reads as 1744. |
| Baro.PressureOf | mbed/baro.cpp:107-109 | The pressure in uint64_t arithmetic fits in 49 bits. |
| Baro.PressureAgrees | mbed/baro.cpp:107-109 | Without wrap-around, the code computes the data-sheet pressure (((D1 * SENS) >> 21) - OFF) >> 15. |
| Baro.Reading | mbed/baro.cpp:84-116 | Any failure leaves p = 0; t is set exactly when the temperature conversion and its read succeeded. |
| Baro.ReadingFrames | mbed/baro.cpp:84-116 | A complete update puts six frames on the bus: temperature conversion (OSR 1024) and its read, then pressure conversion (OSR 4096) and its read. |
| Baro.Barometer.Update | mbed/baro.cpp:84-116 | p and t are zeroed first; the result, t, p and the bus frames are those of Reading. |
| Baro.Barometer.GetTemperature | mbed/baro.cpp:119-121 | t as int16_t: equal to t when it fits, else t wrapped. |
| Baro.Barometer.GetPressure | mbed/baro.cpp:124-126 | p as uint32_t: equal to p when it fits, else p wrapped. |

## Left out

- The HAL interrupt dispatch (`MHAL_UART_IRQHandler`), `usart.c`, the RTOS
  task creation and the USB CDC echo of received lines. These are peripheral
  configuration and output, not logic.
- The `SIM808_Task` loop itself. Only its line trimming is modelled; the
  commands it issues are modelled as the driver methods.
- The `Sim808` module sees the serial port as a character stream written and
  read by TextUART. It is not wired to `Uart.SerialPort`, so the retry
  budgets of the port do not appear there.
- Critical sections (`__disable_irq`, `taskENTER_CRITICAL`). Interrupt and
  task code run as atomic calls, so races are not modelled.
- `begin()`, with its reset-pin pulse and autobaud, and `flushInput()`, with
  its 40 ms-of-silence drain. Both are timing; the modem script starts after
  them.
- `callerIdNotification`, `onIncomingCall` and the ring-indicator interrupt.
- Floating point:
  - `getGPS(float*...)`, `getGSMLoc` and `TK102Packet::buildPacket`;
  - the `sscanf("%f")` fields of `update`, whose tokens are only counted;
  - `BufString += float`;
  - the vario filter.
- FatFs and SD glue, `publishData`/`publishData2` and the HTTP GET/POST
  helpers. They are network output outside this core.
- The FONA commands outside this core: RSSI, volume, DTMF, SMS reading, time
  sync, `HTTP_action`/`HTTP_readall`/`HTTP_data`, and `TCPread`,
  `TCPavailable`, `TCPclose`, `TCPconnected`, `GPRSstate`,
  `enableGPS(bool)`, `hangUp`, `pickUp`.
- `baro.h` is not part of this model. The command bytes (reset 0x1E,
  ADC read 0x00, convert 0x40, PROM read 0xA0) and the enum orders
  (pressure 0, temperature 1; OSR 256 to 4096 as 0 to 4) are those of the
  MS5607 command set.
- `wait_ms`, `vTaskDelay` and `Thread::wait` carry no time. Delays are the
  points where the caller's batches of arrivals come in; elapsed time is
  counted only in `Uart`.
- FonaLink.FonaLink.Getc: requires a non-empty ring; the busy-wait of
  `_getc` on an empty ring (which only an interrupt can end) is not modelled.
- FonaLink.FonaLink.ReadRaw: requires that the bytes asked for are already
  in the ring or the peripheral; otherwise the source spins forever.
- Fona.Fona.Readline: works at line level over the scripted modem; the
  byte-level drain is `FonaLink.FonaLink.Readline`, and the two are tied by
  `FonaLink.ReadlineOfResponse` for a well-formed response line only.
- Crc.Crc16Of: the CRC-16/ARC check value (reflected 0xA001, initial 0,
  0xBB3D over "123456789") is not proved. The equivalence of the table
  update with bitwise division is proved for every polynomial instead, and
  evaluating the bit arithmetic on concrete values is beyond the
  verifier's budget.
- Baro.PressureOf: the `uint64_t` wrap-around is modelled, but only the
  no-wrap case is related to the data-sheet formula (PressureAgrees).
- Fona.Fona.GPSstatus: models the stale read of the reply buffer as
  written; GpsStatusAgrees covers the expected case.
- Fona.Fona.HTTPParaText: sends the value verbatim, as `printf("%s", value)`
  does. The source passes the value as the format (Adafruit_FONA.cpp:1015),
  which is defined only for a value without conversions; an encoded URL
  always holds one (see "Findings"). The same goes for the user agent and
  URL sent by Fona.Fona.HTTPSetup.
- Fona.Fona.HTTPSetup: sends the user agent and the URL verbatim, as
  `printf("%s", ...)` does. The source passes both through HTTP_para as the
  printf format (Adafruit_FONA.cpp:1015), which is defined only when they
  hold no conversion. The URL encodeURL produces holds one whenever it
  escapes a character (see "Findings").
- Fifo.Fifo.Push: keeps the queue invariant only while head + count fits a
  uint16_t, which holds for every FIFO of at most 0x8000 slots (the two
  UART FIFOs have 128). Past that the byte lands in a wrong slot
  (PushSlotWraps) and the model no longer says what the queue holds.
- Tracker.Packet.Update: the bytes memcpy writes past gpsTime[10] are kept
  as `spill`. Their effect on the members declared after gpsTime is not
  modelled. Once the spill passes the four floats, the contract says
  nothing about datetime, allowedNumber, fix, status, imei, satCount or
  the cell fields, because C gives them no defined value.
  The contract follows the member order of gpsdata.h. The copy of update
  in main.cpp (main.cpp:432-497) runs over main.cpp's own TK102Packet
  (main.cpp:355-389). There datetime and allowedNumber come before
  gpsTime and stay intact, and gpsDate lies 18 bytes past the end of
  gpsTime, after the padding and the four floats. The time is copied after
  gpsDate, so once the spill passes 18 bytes gpsDate holds spill[18..24],
  and the spill goes on over fix, status, imei and satCount. For that copy
  the model does not promise the gpsDate it states, nor anything about
  those members.
- FonaLink.FonaLink.Readline: a drain round that starts below 254 keeps
  storing past `replybuffer[255]`, and the NUL follows at the end
  (Adafruit_FONA.cpp:1207-1232). That overwrites the members declared after
  the buffer (Adafruit_FONA.h:194-208): apn, useragent, the listener, the
  serial port and the ring indices. The model keeps such a reply, up to
  MAX_REPLY characters, as an ordinary string with the ring intact, so past
  254 characters its contract does not describe the C object.
- Sim808.Sim808.EnableCharging, DisableCharging, EnableGPS, DisableGPS,
  GetGPSInfo, ExpectOK and ExpectResponse: declared `bool`, they return
  nothing (SIM808.cc:112-178), which is undefined in C++ if a caller used
  the value. The model gives them no result; no caller in the sources reads
  one.
- Tracker.BufString: the four `operator +=` are declared to return
  `BufString&` but have no return statement (gpsdata.cpp:46-91,
  main.cpp:302-347). The model's methods return nothing, which matches only
  as long as no caller chains them; none does.
- Sim808.Sim808.ExpectResponse: copies "< " and a line of up to 79
  characters into `line[50]` (SIM808.cc:168-174). A line of more than 47
  characters overruns it. That debug echo to USB is not modelled.
- Sim808.SaysOK: when readLine times out, `buf[20]` gets no terminator
  (UART.cc:189). strcat and strcmp then read its uninitialised bytes. The
  model counts such a read as not "OK", which C does not promise.
- FonaLink.WatchStep: when an LF ends a line that has filled all 255
  characters, the source writes the NUL to `currentReceivedLine[255]`, one
  past its end (Adafruit_FONA.cpp:111, Adafruit_FONA.h:209). The model
  keeps the line as a string and does not capture that write.
- Publish.PublishLocation: `latitude` and `longitude` point into `data`,
  which strcpy and strcat then overwrite (main.cpp:189-198). The overlapping
  strcat is undefined in C. When fields 0 to 2 hold fewer than 11
  characters together, the longitude is also overwritten before it is read.
  The model builds the document from the fields as they were cut, which is
  what happens when the pieces survive (every +CGNSINF reply: its date field
  alone has 18 characters).

## Findings

| source | as written | input that shows it | evidently intended | confidence | as-written member | corrected member |
|---|---|---|---|---|---|---|
| mbed/gpsdata.cpp:23 (and mbed/main.cpp:279) | `SimpleTokenizer::next` leaves `_str` on the delimiter, so every later token is the rest of the report from its first comma | report "1,1,20160711201120.000,..." : the fix token is ",1,2016..." not "1", so fix is 'L' | step past the delimiter and end each token there (fields of the comma split) | high, not executed | Tracker.FixedReportShowsStuckTokenizer | Tracker.IntendedFix |
| mbed/Adafruit_FONA_Library/Adafruit_FONA.cpp:621 | copy length is `max(maxbuff - 1, strlen(p))` | a report longer than the caller's buffer, or maxbuff = 0 (copies 255) | `min(maxbuff - 1, strlen(p))` | high, not executed | Fona.GetGpsOverflows | Fona.GpsCopyFits |
| mbed/gpsdata.cpp:52 (and mbed/main.cpp:308) | `BufString += BufString` copies the text but does not advance `_length` | any append that fits: the text held is unchanged | advance `_length` by the copied length | high, not executed | Tracker.BufString.Append | Tracker.BufString.AppendAdvancing |
| mbed/gpsdata.cpp:68 (and mbed/main.cpp:324) | `BufString += int` reserves 8 characters, but sprintf writes up to 10 digits and a sign (12 bytes with the NUL) | 10000000 into an empty buffer of capacity 8 writes 9 characters | reserve room for the digits and the NUL | medium, not executed | Tracker.AppendIntOverruns | Tracker.BufString.AppendIntChecked |
| Cube/App/SIM808.cc:152-159 | expectOK reads with '\n' as delimiter and compares the buffer, still holding "\r\n", with "OK" | the reply "OK\r\n" leaves the status NOT_OK | compare the line without its CR LF | high, not executed | Sim808.ExpectOKNeverMatches | Sim808.ExpectOKIntended |
| mbed/baro.cpp:95-96 | `dt * PROM[6]` is an `int32_t` product, which overflows above 2^31 | C5 = 0, C6 = 0x8000, D2 = 0x10000: 22.56 C reads as 17.44 C | take the product in 64 bits | medium, not executed | Baro.TemperatureWraps | Baro.TemperatureAgrees |
| mbed/Adafruit_FONA_Library/Adafruit_FONA.cpp:596-606 | GPSstatus reads the status characters through a pointer into the reply buffer after the next readline has overwritten it | report "+CGNSINF: 1,1,2016" followed by the line "+CGNSINF: 0" gives 0 instead of 3 | read the status before the next readline | low, not executed | Fona.GpsStatusStaleRead | Fona.GpsStatusOfReport |
| mbed/gpsdata.cpp:197 (and mbed/main.cpp:456) | `memcpy(gpsTime, tok + 8, strlen(tok) - 8)` copies the whole rest of the token into `gpsTime[10]` | any report update accepts, e.g. "1,1,20160711201120.000,..." : the stuck token is the report from its first comma, so dozens of bytes land past gpsTime | copy at most the ten cells of gpsTime | high, not executed | Tracker.GpsTimeOverruns | Tracker.IntendedUpdate |
| mbed/Adafruit_FONA_Library/Adafruit_FONA.cpp:1015 | `mySerial.printf(value)` uses the HTTP parameter value as the format | the URL "a{" is encoded as "a%7b", and "%7" starts a conversion with no argument | `printf("%s", value)` | high, not executed | Publish.EncodedUrlIsNoFormat | Fona.Fona.HTTPParaText |
