/**
 * The AT command engine of the mbed Adafruit_FONA library
 * (mbed/Adafruit_FONA_Library/Adafruit_FONA.cpp): commands written to the
 * modem, replies read back one line at a time into the 255-byte
 * `replybuffer`, the reply matchers and field parsers, the range guards and
 * fixed-offset command builders, and the fixed-order session flows.
 *
 * The modem is a script: the sequence of lines its readline calls return,
 * in order (module FonaLink proves that the byte-level readline returns
 * LINE for a response "\r\nLINE\r\n"). An empty script stands for a modem
 * that stays silent until the timeout, when readline returns an empty line.
 * The serial output is the string `out` every command is appended to.
 */
module Fona {
  import opened CString

  /** FONA_DEFAULT_TIMEOUT_MS */
  const DEFAULT_TIMEOUT: uint16 := 500
  /** sizeof(replybuffer) */
  const REPLY_BUFFER_SIZE: nat := 255
  /** The longest line a script may hold, so that the line and its NUL fit the reply buffer. */
  const MAX_LINE: nat := 254

  /** A line readline can deliver: no NUL, CR or LF, and room for its terminator. */
  predicate IsLine(l: string)
  {
    |l| <= MAX_LINE && NUL !in l && CR !in l && LF !in l
  }

  /** The next line of the script, or the empty line of a timeout when it is exhausted. */
  function Next(script: seq<string>): string
  {
    if script == [] then "" else script[0]
  }

  function Rest(script: seq<string>): seq<string>
  {
    if script == [] then [] else script[1..]
  }

  /** The k-th line to come. */
  function LineAt(script: seq<string>, k: nat): string
  {
    if k < |script| then script[k] else ""
  }

  lemma LineAtRest(script: seq<string>, k: nat)
    ensures LineAt(Rest(script), k) == LineAt(script, k + 1)
    ensures Next(script) == LineAt(script, 0)
  {
  }

  /** What readline(timeout) returns: a zero timeout reads nothing. */
  function NextLine(script: seq<string>, timeout: uint16): string
  {
    if timeout == 0 then "" else Next(script)
  }

  function Consume(script: seq<string>, timeout: uint16): seq<string>
  {
    if timeout == 0 then script else Rest(script)
  }

  /**
   * The reply buffer after readline stored `line`: the line, its NUL, and
   * whatever an earlier, longer reply left beyond them.
   */
  function Store(buf: seq<char>, line: string): (r: seq<char>)
    requires |line| < |buf|
    ensures |r| == |buf|
    ensures forall k :: 0 <= k < |line| ==> r[k] == line[k]
    ensures r[|line|] == NUL
    ensures forall k :: |line| < k < |buf| ==> r[k] == buf[k]
  {
    line + [NUL] + buf[|line| + 1..]
  }

  /** The C string in the buffer after readline is the line it read. */
  lemma CStrStore(buf: seq<char>, line: string)
    requires |line| < |buf| && NUL !in line
    ensures CStr(Store(buf, line)) == line
  {
    var tail := [NUL] + buf[|line| + 1..];
    assert Store(buf, line) == line + tail;
    CStrPrefix(line, tail);
    assert CStr(tail) == [];
  }

  /** A command line: the text, then CR LF (the "%s\r\n" of getReply). */
  function Command(send: string): string
  {
    send + "\r\n"
  }

  /** The text of getReplyQuoted: prefix, then the suffix in double quotes. */
  function Quoted(prefix: string, suffix: string): string
  {
    prefix + "\"" + suffix + "\""
  }

  // ---------------------------------------------------------------------
  // Field parsers

  /**
   * The text after the `n`-th divider of `p` (strchr and a step past the
   * divider, n times), or None when fewer than `n` dividers occur.
   */
  function SkipFields(p: string, divider: char, n: nat): (r: Option<string>)
    ensures r.Some? ==> |r.value| <= |p| && r.value == p[|p| - |r.value|..]
    decreases n
  {
    if n == 0 then Some(p)
    else match IndexOf(p, divider)
      case None => None
      case Some(k) => SkipFields(p[k + 1..], divider, n - 1)
  }

  /** The divider walk of the parseReply family: strchr and a step past the divider, `index` times. */
  method WalkFields(p0: string, divider: char, index: byte) returns (r: Option<string>)
    ensures r == SkipFields(p0, divider, index)
  {
    var p := p0;
    var n: nat := index;
    ghost var target := SkipFields(p0, divider, index);
    while n > 0
      invariant Walks(p, divider, n, target)
    {
      var next := PastDivider(p, divider, n, target);
      if next.None? {
        return None;
      }
      p, n := next.value, n - 1;
    }
    return Some(p);
  }

  /** Skipping `n` fields of `p` gives `r`. */
  ghost predicate Walks(p: string, divider: char, n: nat, r: Option<string>)
  {
    SkipFields(p, divider, n) == r
  }

  /** One round of the walk: strchr, then one character past the divider found. */
  method PastDivider(p: string, divider: char, n: nat, ghost r: Option<string>) returns (next: Option<string>)
    requires n > 0 && Walks(p, divider, n, r)
    ensures next.None? <==> divider !in p
    ensures next.None? ==> r.None?
    ensures next.Some? ==> |next.value| < |p| && Walks(next.value, divider, n - 1, r)
  {
    IndexOfSpec(p, divider);
    var k := IndexOf(p, divider);
    if k.None? {
      SkipNone(p, divider, n);
      return None;
    }
    var j := k.value;
    var q := p[j + 1..];
    WalkStep(p, divider, n, j, q, r);
    return Some(q);
  }

  lemma WalkStep(p: string, divider: char, n: nat, j: nat, q: string, r: Option<string>)
    requires n > 0 && j < |p| && IndexOf(p, divider) == Some(j) && q == p[j + 1..]
    requires Walks(p, divider, n, r)
    ensures Walks(q, divider, n - 1, r)
  {
    SkipUnfold(p, divider, n, j);
  }

  lemma SkipNone(p: string, divider: char, n: nat)
    requires n > 0 && IndexOf(p, divider).None?
    ensures SkipFields(p, divider, n).None?
  {
  }

  /** Where parseReply reads its value: after `toreply`, and `index` dividers further on. */
  function FieldStart(reply: string, toreply: string, divider: char, index: nat): Option<string>
  {
    match Find(reply, toreply)
    case None => None
    case Some(j) => SkipFields(reply[j + |toreply|..], divider, index)
  }

  /** The marker search (strstr) and divider walk shared by the parseReply family. */
  method LocateField(reply: string, toreply: string, divider: char, index: byte) returns (r: Option<string>)
    ensures r == FieldStart(reply, toreply, divider, index)
  {
    var at := Find(reply, toreply);
    if at.None? {
      return None;
    }
    var j := at.value;
    FieldStartFound(reply, toreply, divider, index, j);
    r := WalkFields(reply[j + |toreply|..], divider, index);
  }

  lemma FieldStartFound(reply: string, toreply: string, divider: char, index: nat, j: nat)
    requires Find(reply, toreply) == Some(j) && j + |toreply| <= |reply|
    ensures FieldStart(reply, toreply, divider, index) == SkipFields(reply[j + |toreply|..], divider, index)
  {
  }

  /** Skipping `n` fields succeeds exactly when at least `n` dividers occur. */
  ghost predicate SkipsWhenCounted(p: string, divider: char, n: nat)
  {
    SkipFields(p, divider, n).Some? <==> multiset(p)[divider] >= n
  }

  lemma {:induction false} SkipFieldsCount(p: string, divider: char, n: nat)
    ensures SkipsWhenCounted(p, divider, n)
    decreases n
  {
    if n > 0 {
      var k := IndexOf(p, divider);
      if k.Some? {
        var i := k.value;
        SkipFieldsCount(p[i + 1..], divider, n - 1);
        SkipStep(p, divider, n, i);
      } else {
        IndexOfSpec(p, divider);
        assert divider !in multiset(p);
      }
    }
  }

  lemma SkipStep(p: string, divider: char, n: nat, i: nat)
    requires n > 0 && i < |p| && IndexOf(p, divider) == Some(i)
    requires SkipsWhenCounted(p[i + 1..], divider, n - 1)
    ensures SkipsWhenCounted(p, divider, n)
  {
    SkipUnfold(p, divider, n, i);
    CountPastFirst(p, divider, i);
  }

  lemma SkipUnfold(p: string, divider: char, n: nat, i: nat)
    requires n > 0 && i < |p| && IndexOf(p, divider) == Some(i)
    ensures SkipFields(p, divider, n) == SkipFields(p[i + 1..], divider, n - 1)
  {
  }

  lemma CountPastFirst(p: string, c: char, k: nat)
    requires k < |p| && IndexOf(p, c) == Some(k)
    ensures multiset(p)[c] == multiset(p[k + 1..])[c] + 1
  {
    IndexOfSpec(p, c);
    assert p == p[..k] + [c] + p[k + 1..];
    assert multiset(p) == multiset(p[..k]) + multiset{c} + multiset(p[k + 1..]);
    assert c !in multiset(p[..k]);
  }

  /** A reply whose value fields are written with printf("%d"), separated by commas. */
  function Join(values: seq<int>): (s: string)
    requires |values| > 0
    ensures |s| > 0
    decreases |values|
  {
    if |values| == 1 then Decimal(values[0])
    else Decimal(values[0]) + "," + Join(values[1..])
  }

  lemma NoCommaInDecimal(n: int)
    ensures ',' !in Decimal(n)
  {
    var ds := Digits(Magnitude(n));
    assert ',' !in ds by {
      forall k | 0 <= k < |ds| ensures ds[k] != ',' {
        assert IsDigit(ds[k]);
      }
    }
    if n < 0 {
      assert Decimal(n) == "-" + ds;
    } else {
      assert Decimal(n) == ds;
    }
  }

  /** Skipping `n` comma-separated fields of `p` leaves `q`. */
  ghost predicate SkipsTo(p: string, n: nat, q: string)
  {
    SkipFields(p, ',', n) == Some(q)
  }

  /** The decimal text of each value, in order. */
  function Decimals(values: seq<int>): (fs: seq<string>)
    ensures |fs| == |values|
    ensures forall k :: 0 <= k < |values| ==> fs[k] == Decimal(values[k]) && ',' !in fs[k]
  {
    seq(|values|, k requires 0 <= k < |values| => NoCommaInDecimal(values[k]); Decimal(values[k]))
  }

  /** A joined reply is its values' decimal fields joined with commas. */
  lemma {:induction false} JoinFields(values: seq<int>)
    requires |values| > 0
    ensures Join(values) == CString.Join(Decimals(values), ',')
    decreases |values|
  {
    if |values| > 1 {
      JoinFields(values[1..]);
      assert Decimals(values)[1..] == Decimals(values[1..]);
    }
  }

  lemma {:induction false} SkipJoin(values: seq<int>, i: nat)
    requires i < |values|
    ensures SkipsTo(Join(values), i, Join(values[i..]))
  {
    JoinFields(values);
    JoinFields(values[i..]);
    assert Decimals(values)[i..] == Decimals(values[i..]);
    SkipJoined(Decimals(values), i);
  }

  /** Skipping `i` commas of comma-free fields joined with commas leaves the fields from `i` on. */
  lemma {:induction false} SkipJoined(fs: seq<string>, i: nat)
    requires i < |fs| && forall k :: 0 <= k < |fs| ==> ',' !in fs[k]
    ensures SkipsTo(CString.Join(fs, ','), i, CString.Join(fs[i..], ','))
    decreases i
  {
    if i > 0 {
      var tail, rest := fs[1..], fs[i..];
      assert tail[i - 1..] == rest;
      SkipJoined(tail, i - 1);
      assert ',' !in fs[0];
      assert CString.Join(fs, ',') == fs[0] + "," + CString.Join(tail, ',');
      SkipComma(CString.Join(fs, ','), fs[0], CString.Join(tail, ','), i, CString.Join(rest, ','));
    } else {
      assert fs[0..] == fs;
    }
  }

  /** Skipping `n` fields of `first,tail` is skipping `n - 1` fields of `tail` when `first` has no comma. */
  lemma SkipComma(whole: string, first: string, tail: string, n: nat, r: string)
    requires n > 0 && ',' !in first && whole == first + "," + tail
    requires SkipsTo(tail, n - 1, r)
    ensures SkipsTo(whole, n, r)
  {
    CommaSplit(first, tail);
    SkipPast(whole, |first|, tail, n, r);
  }

  /** Skipping `n` fields of `p` is skipping `n - 1` fields of what follows its first comma. */
  lemma SkipPast(p: string, k: nat, q: string, n: nat, r: string)
    requires n > 0 && k < |p| && IndexOf(p, ',') == Some(k) && p[k + 1..] == q
    requires SkipsTo(q, n - 1, r)
    ensures SkipsTo(p, n, r)
  {
    SkipUnfold(p, ',', n, k);
  }

  /** The first comma of `d,t` is the one after `d` when `d` has none. */
  lemma CommaSplit(d: string, t: string)
    requires ',' !in d
    ensures var s := d + "," + t;
            |d| < |s| && IndexOf(s, ',') == Some(|d|) && s[|d| + 1..] == t
  {
    var s := d + "," + t;
    assert s[..|d|] == d;
    IndexOfFirst(s, ',', |d|);
  }

  lemma FindAtStart(prefix: string, rest: string)
    ensures Find(prefix + rest, prefix) == Some(0)
  {
    assert OccursAt(prefix + rest, prefix, 0);
  }

  /**
   * parseReply reads back what the modem wrote: after the marker, the
   * `i`-th comma-separated decimal field is the value atoi returns, and
   * asking for a field beyond the last fails.
   */
  lemma ParseReplyReadsBack(toreply: string, values: seq<int>, i: nat)
    requires 0 < |values|
    ensures i < |values| ==>
      && FieldStart(toreply + Join(values), toreply, ',', i).Some?
      && Atoi(FieldStart(toreply + Join(values), toreply, ',', i).value) == values[i]
    ensures i >= |values| ==> FieldStart(toreply + Join(values), toreply, ',', i).None?
  {
    var reply := toreply + Join(values);
    FindAtStart(toreply, Join(values));
    assert reply[|toreply|..] == Join(values);
    if i < |values| {
      SkipJoin(values, i);
      assert SkipFields(Join(values), ',', i) == Some(Join(values[i..]));
      AtoiJoin(values[i..]);
    } else {
      JoinCommas(values);
      SkipFieldsCount(Join(values), ',', i);
    }
  }

  lemma {:induction false} JoinCommas(values: seq<int>)
    requires |values| > 0
    ensures multiset(Join(values))[','] == |values| - 1
    decreases |values|
  {
    NoCommaInDecimal(values[0]);
    assert multiset(Decimal(values[0]))[','] == 0;
    if |values| > 1 {
      JoinCommas(values[1..]);
      assert Join(values) == Decimal(values[0]) + "," + Join(values[1..]);
      assert multiset(Join(values)) == multiset(Decimal(values[0])) + multiset(",") + multiset(Join(values[1..]));
    }
  }

  /** atoi reads the first field of a joined reply. */
  lemma AtoiJoin(values: seq<int>)
    requires |values| > 0
    ensures Atoi(Join(values)) == values[0]
  {
    if |values| == 1 {
      AtoiDecimal(values[0]);
    } else {
      assert Join(values) == Decimal(values[0]) + ("," + Join(values[1..]));
      AtoiDecimalThen(values[0], "," + Join(values[1..]));
    }
  }

  /** The battery report of AT+CBC: field 1 is the charge in percent, field 2 the voltage in mV. */
  lemma BatteryReply()
    ensures FieldStart("+CBC: 0,85,4100", "+CBC: ", ',', 1).Some?
    ensures Atoi(FieldStart("+CBC: 0,85,4100", "+CBC: ", ',', 1).value) == 85
    ensures FieldStart("+CBC: 0,85,4100", "+CBC: ", ',', 2).Some?
    ensures Atoi(FieldStart("+CBC: 0,85,4100", "+CBC: ", ',', 2).value) == 4100
  {
    BatteryText();
    ParseReplyReadsBack("+CBC: ", [0, 85, 4100], 1);
    ParseReplyReadsBack("+CBC: ", [0, 85, 4100], 2);
  }

  lemma BatteryText()
    ensures "+CBC: " + Join([0, 85, 4100]) == "+CBC: 0,85,4100"
  {
    BatteryDecimals();
    assert [0, 85, 4100][1..] == [85, 4100];
    assert [85, 4100][1..] == [4100];
    assert Join([4100]) == "4100";
    assert Join([85, 4100]) == "85,4100";
    assert Join([0, 85, 4100]) == "0,85,4100";
  }

  lemma BatteryDecimals()
    ensures Decimal(0) == "0" && Decimal(85) == "85" && Decimal(4100) == "4100"
  {
    assert Digits(8) == "8";
    assert Digits(4) == "4";
    assert Digits(41) == "41";
    assert Digits(410) == "410";
  }

  /**
   * What parseReplyQuoted copies from a field: characters up to the divider,
   * quotation marks skipped, at most `maxlen` of them.
   */
  function Unquote(p: string, divider: char, maxlen: int): (r: string)
    ensures |r| <= if maxlen < 0 then 0 else maxlen
    ensures '"' !in r && (divider != '"' ==> divider !in r)
    decreases |p|
  {
    if maxlen <= 0 || p == [] || p[0] == divider then []
    else if p[0] == '"' then Unquote(p[1..], divider, maxlen)
    else [p[0]] + Unquote(p[1..], divider, maxlen - 1)
  }

  /** One character of the parseReplyQuoted copy loop. */
  lemma UnquoteStep(p: string, i: nat, divider: char, maxlen: int)
    requires i < |p| && maxlen > 0
    ensures Unquote(p[i..], divider, maxlen) ==
      if p[i] == divider then []
      else if p[i] == '"' then Unquote(p[i + 1..], divider, maxlen)
      else [p[i]] + Unquote(p[i + 1..], divider, maxlen - 1)
  {
    assert p[i..][1..] == p[i + 1..];
  }

  /** The copy loop of parseReply(char *): the field's characters up to the next divider. */
  method CopyField(p: string, divider: char) returns (v: string)
    ensures |v| <= |p| && v == p[..|v|] && divider !in v
    ensures |v| < |p| ==> p[|v|] == divider
  {
    v := [];
    var i := 0;
    while i < |p| && p[i] != divider
      invariant i <= |p| && v == p[..i] && divider !in v
    {
      v := v + [p[i]];
      i := i + 1;
    }
  }

  /** The copy loop of parseReplyQuoted. */
  method CopyQuoted(p: string, divider: char, maxlen: int) returns (v: string)
    ensures v == Unquote(p, divider, maxlen)
  {
    v := [];
    var i := 0;
    assert p[0..] == p;
    while |v| < maxlen && i < |p|
      invariant i <= |p|
      invariant Unquote(p, divider, maxlen) == v + Unquote(p[i..], divider, maxlen - |v|)
    {
      UnquoteStep(p, i, divider, maxlen - |v|);
      if p[i] == divider {
        break;
      }
      if p[i] != '"' {
        v := v + [p[i]];
      }
      i := i + 1;
    }
  }

  /**
   * A quoted field reads back as its text, cut to `maxlen` characters:
   * the quotes are dropped and the copy stops at the divider after them.
   */
  lemma {:induction false} UnquoteQuoted(s: string, divider: char, rest: string, maxlen: nat)
    requires '"' !in s && divider !in s && divider != '"'
    ensures Unquote("\"" + s + "\"" + [divider] + rest, divider, maxlen) == s[..Min(|s|, maxlen)]
  {
    var p := "\"" + s + "\"" + [divider] + rest;
    if maxlen > 0 {
      assert p[0] == '"' && p[1..] == s + "\"" + [divider] + rest;
      UnquoteText(s, divider, rest, maxlen);
    }
  }

  lemma {:induction false} UnquoteText(s: string, divider: char, rest: string, maxlen: nat)
    requires '"' !in s && divider !in s && divider != '"'
    ensures Unquote(s + "\"" + [divider] + rest, divider, maxlen) == s[..Min(|s|, maxlen)]
    decreases |s|
  {
    var p := s + "\"" + [divider] + rest;
    if maxlen > 0 {
      if s == [] {
        assert p[0] == '"' && p[1..] == [divider] + rest;
        assert Unquote(p[1..], divider, maxlen) == [];
      } else {
        assert p[0] == s[0] && p[1..] == s[1..] + "\"" + [divider] + rest;
        UnquoteText(s[1..], divider, rest, maxlen - 1);
        assert [s[0]] + s[1..][..Min(|s| - 1, maxlen - 1)] == s[..Min(|s|, maxlen)];
      }
    }
  }

  // ---------------------------------------------------------------------
  // Command builders

  /**
   * Writes `i` as three zero-padded decimal digits at offsets at..at+2 of a
   * command template (the sendbuff[...] = (i / 100) + '0' ... of deleteSMS
   * and enableGPSNMEA).
   */
  function PutDigits(template: string, at: nat, i: byte): (cmd: string)
    requires at + 3 <= |template|
    ensures |cmd| == |template|
    ensures cmd[..at] == template[..at] && cmd[at + 3..] == template[at + 3..]
    ensures forall k :: at <= k < at + 3 ==> IsDigit(cmd[k])
  {
    template[at := DigitChar(i / 100)][at + 1 := DigitChar(i % 100 / 10)][at + 2 := DigitChar(i % 10)]
  }

  /** The three digits read back as the number they encode, for every byte. */
  lemma PutDigitsValue(template: string, at: nat, i: byte)
    requires at + 3 <= |template|
    ensures DigitsValue(PutDigits(template, at, i)[at..at + 3]) == i
    ensures at + 3 == |template| ==> Atoi(PutDigits(template, at, i)[at..]) == i
  {
    var cmd := PutDigits(template, at, i);
    var ds := [DigitChar(i / 100), DigitChar(i % 100 / 10), DigitChar(i % 10)];
    assert cmd[at..at + 3] == ds;
    ThreeDigitsValue(i);
    if at + 3 == |template| {
      assert cmd[at..] == ds + [];
      SignAndDigitsOfRun(ds, []);
    }
  }

  lemma ThreeDigitsValue(i: byte)
    ensures DigitsValue([DigitChar(i / 100), DigitChar(i % 100 / 10), DigitChar(i % 10)]) == i
  {
    var ds := [DigitChar(i / 100), DigitChar(i % 100 / 10), DigitChar(i % 10)];
    assert ds[..2] == [ds[0], ds[1]];
    assert [ds[0], ds[1]][..1] == [ds[0]];
    assert [ds[0]][..0] == [];
    assert DigitsValue([ds[0]]) == i / 100;
    assert DigitsValue([ds[0], ds[1]]) == 10 * (i / 100) + i % 100 / 10;
  }

  /** deleteSMS: "AT+CMGD=" and the index as three digits. */
  function DeleteSmsCommand(i: byte): (cmd: string)
    ensures |cmd| == 11 && cmd[..8] == "AT+CMGD=" && Atoi(cmd[8..]) == i
  {
    PutDigitsValue("AT+CMGD=000", 8, i);
    PutDigits("AT+CMGD=000", 8, i)
  }

  /** enableGPSNMEA: "AT+CGPSOUT=" and the sentence mask as three digits. */
  function GpsNmeaCommand(i: byte): (cmd: string)
    ensures |cmd| == 14 && cmd[..11] == "AT+CGPSOUT=" && Atoi(cmd[11..]) == i
  {
    PutDigitsValue("AT+CGPSOUT=000", 11, i);
    PutDigits("AT+CGPSOUT=000", 11, i)
  }

  /**
   * unlockSIM: "AT+CPIN=" and the first four characters of the PIN buffer,
   * read as a C string (a shorter PIN ends at its NUL).
   */
  function UnlockSimCommand(pin: seq<char>): (cmd: string)
    requires |pin| >= 4
    ensures cmd == "AT+CPIN=" + CStr(pin[..4])
    ensures |cmd| <= 12
  {
    var buf := "AT+CPIN=" + pin[..4];
    CStrPrefix("AT+CPIN=", pin[..4]);
    CStr(buf)
  }

  lemma {:induction false} CStrPrefix(a: string, b: seq<char>)
    requires NUL !in a
    ensures CStr(a + b) == a + CStr(b)
    decreases |a|
  {
    if a != [] {
      assert (a + b)[0] == a[0] && (a + b)[1..] == a[1..] + b;
      CStrPrefix(a[1..], b);
    } else {
      assert a + b == b;
    }
  }

  /** callPhone: "ATD", at most 30 characters of the number, then ';'. */
  function DialCommand(number: string): (cmd: string)
    ensures |cmd| == 4 + Min(30, |number|) && |cmd| < 35
    ensures cmd[..3] == "ATD" && cmd[3..|cmd| - 1] == number[..|cmd| - 4] && cmd[|cmd| - 1] == ';'
  {
    "ATD" + number[..Min(30, |number|)] + ";"
  }

  /** sendSMS: AT+CMGS=" with at most 19 characters of the address, then the closing quote. */
  function SmsCommand(smsaddr: string): (cmd: string)
    ensures |cmd| == 10 + Min(19, |smsaddr|) && |cmd| < 30
    ensures cmd[..9] == "AT+CMGS=\"" && cmd[9..|cmd| - 1] == smsaddr[..|cmd| - 10] && cmd[|cmd| - 1] == '"'
  {
    "AT+CMGS=\"" + smsaddr[..Min(19, |smsaddr|)] + "\""
  }

  /** A four-character PIN is sent whole. */
  lemma UnlockSimPin(pin: string)
    requires |pin| == 4 && NUL !in pin
    ensures UnlockSimCommand(pin) == "AT+CPIN=" + pin
  {
    assert pin[..4] == pin;
    CStrOfText(pin);
  }

  /** A number of at most 30 characters is dialled whole; a longer one is cut to 30. */
  lemma DialNumber(number: string)
    ensures |number| <= 30 ==> DialCommand(number) == "ATD" + number + ";"
    ensures |number| > 30 ==> DialCommand(number) == "ATD" + number[..30] + ";"
  {
    assert number[..|number|] == number;
  }

  /**
   * The signal level in a +FMSIGNAL report: atoi of the text after the
   * first ':' that follows the marker, as an int8_t; None when the reply
   * lacks the marker or the ':'.
   */
  function SignalLevel(reply: string): (r: Option<int>)
    ensures r.Some? ==> -0x80 <= r.value < 0x80
  {
    match FieldStart(reply, "+FMSIGNAL: ", ':', 1)
    case None => None
    case Some(p) => Some(ToI8(Atoi(p)))
  }

  /** A report whose level follows the first ':' reads back as that level. */
  lemma SignalLevelOfReport(station: string, n: int)
    requires ':' !in station && -0x80 <= n < 0x80
    ensures SignalLevel("+FMSIGNAL: " + (station + ":" + Decimal(n))) == Some(n)
  {
    var body := station + ":" + Decimal(n);
    FindAtStart("+FMSIGNAL: ", body);
    assert ("+FMSIGNAL: " + body)[|"+FMSIGNAL: "|..] == body;
    assert body[|station|] == ':' && body[..|station|] == station;
    IndexOfFirst(body, ':', |station|);
    assert body[|station| + 1..] == Decimal(n);
    AtoiDecimal(n);
  }

  // ---------------------------------------------------------------------
  // GPS report

  /** The marker of the AT+CGNSINF report. */
  const CGNSINF: string := "+CGNSINF: "

  /**
   * The status GPSstatus derives from the characters at `p` (run status) and
   * `p + 2` (fix status) of a buffer; a fix character past the end of the
   * buffer is taken as not '1'.
   */
  function StatusAt(buf: seq<char>, p: nat): (status: int)
    requires p < |buf|
    ensures status == 0 || status == 1 || status == 3
  {
    if buf[p] == '0' then 0
    else if p + 2 < |buf| && buf[p + 2] == '1' then 3
    else 1
  }

  /**
   * The status the report line itself gives: -1 without the marker, 0 when
   * the run status is '0', 3 when the fix status is '1', else 1.
   */
  function GpsStatus(report: string): (status: int)
    ensures status == -1 <==> Find(report, CGNSINF).None?
  {
    StatusAfter(report, CGNSINF)
  }

  /** The status fields after the first `marker` in the report. */
  function StatusAfter(report: string, marker: string): (status: int)
    ensures status == -1 <==> Find(report, marker).None?
  {
    match Find(report, marker)
    case None => -1
    case Some(j) =>
      if j + |marker| < |report| then StatusAt(report, j + |marker|) else 1
  }

  lemma StatusAfterFound(report: string, marker: string, j: nat)
    requires Find(report, marker) == Some(j) && j + |marker| < |report|
    ensures StatusAfter(report, marker) == StatusAt(report, j + |marker|)
  {
    match Find(report, marker)
    case Some(k) => assert k == j;
  }

  /** The report "+CGNSINF: <run>,<fix>,..." gives the status its two fields say. */
  lemma GpsStatusOfReport(run: char, fix: char, tail: string)
    ensures GpsStatus(CGNSINF + [run, ',', fix] + tail) ==
      if run == '0' then 0 else if fix == '1' then 3 else 1
  {
    var r := CGNSINF + [run, ',', fix] + tail;
    assert r == CGNSINF + ([run, ',', fix] + tail);
    FindAtStart(CGNSINF, [run, ',', fix] + tail);
    assert r[10] == run && r[12] == fix;
  }

  /**
   * GPSstatus as written takes the status characters from the buffer after
   * the line that follows the report has been stored over it: when that
   * line is as long as "+CGNSINF: 0", a running receiver with a fix is
   * reported as off.
   */
  lemma GpsStatusStaleRead(buf: seq<char>)
    requires |buf| == REPLY_BUFFER_SIZE
    ensures var first, second := CGNSINF + "1,1,2016", CGNSINF + "0";
      && Find(first, CGNSINF) == Some(0)
      && StatusAt(Store(Store(buf, first), second), 10) == 0
      && GpsStatus(first) == 3
  {
    var first, second := CGNSINF + "1,1,2016", CGNSINF + "0";
    FindAtStart(CGNSINF, "1,1,2016");
    GpsStatusOfReport('1', '1', ",2016");
    assert first == CGNSINF + ['1', ',', '1'] + ",2016";
    assert second[10] == '0';
  }

  /**
   * As long as the line read after the report is shorter than the offset of
   * the run status (the "OK" the source expects is), the stale read gives
   * the status of the report itself, provided the report reaches its fix
   * status field.
   */
  lemma GpsStatusAgrees(buf: seq<char>, first: string, second: string, j: nat)
    requires |buf| == REPLY_BUFFER_SIZE && IsLine(first) && IsLine(second)
    requires Find(first, CGNSINF) == Some(j) && j + 12 < |first| && |second| < j + 10
    ensures StatusAt(Store(Store(buf, first), second), j + 10) == GpsStatus(first)
  {
    var b := Store(Store(buf, first), second);
    assert b[j + 10] == first[j + 10] && b[j + 12] == first[j + 12];
    StatusAtSame(b, first, j + 10);
    GpsStatusFound(first, j);
  }

  lemma GpsStatusFound(report: string, j: nat)
    requires Find(report, CGNSINF) == Some(j) && j + 10 < |report|
    ensures GpsStatus(report) == StatusAt(report, j + 10)
  {
    StatusAfterFound(report, CGNSINF, j);
  }

  /** StatusAt reads two characters only. */
  lemma StatusAtSame(b: seq<char>, f: seq<char>, p: nat)
    requires p + 2 < |b| && p + 2 < |f| && b[p] == f[p] && b[p + 2] == f[p + 2]
    ensures StatusAt(b, p) == StatusAt(f, p)
  {
  }

  /**
   * getGPS as written: the number of report characters copied is
   * max((uint8_t)(maxbuff - 1), strlen(p)).
   */
  function GpsCopyLengthAsWritten(maxbuff: byte, avail: nat): (len: byte)
    requires avail < 0x100
    ensures len >= avail && len >= ToU8(maxbuff - 1)
  {
    var room := ToU8(maxbuff - 1);
    if room >= avail then room else avail
  }

  /** The intended length: as much of the report as fits before the terminator. */
  function GpsCopyLength(maxbuff: byte, avail: nat): (len: nat)
    requires maxbuff > 0
    ensures len == Min(maxbuff - 1, avail)
  {
    if maxbuff - 1 <= avail then maxbuff - 1 else avail
  }

  /** strncpy(buffer, p, len) followed by buffer[len] = 0: what lands in the caller's buffer. */
  function CopyOut(p: string, len: nat): (w: seq<char>)
    ensures |w| == len + 1 && w[len] == NUL
    ensures forall k :: 0 <= k < len ==> w[k] == if k < |p| then p[k] else NUL
  {
    (if len <= |p| then p[..len] else p + seq(len - |p|, _ => NUL)) + [NUL]
  }

  /**
   * The getGPS copy as written writes past a caller buffer of `maxbuff`
   * characters whenever the report does not fit it, and a zero-sized buffer
   * makes it copy 255 characters.
   */
  lemma GetGpsOverflows(p: string, maxbuff: byte)
    requires |p| < 0x100
    ensures 0 < maxbuff <= |p| ==> |CopyOut(p, GpsCopyLengthAsWritten(maxbuff, |p|))| > maxbuff
    ensures maxbuff == 0 ==> GpsCopyLengthAsWritten(maxbuff, |p|) == 255
  {
  }

  /** With min, the copy and its terminator fit the buffer, and hold the start of the report. */
  lemma GpsCopyFits(p: string, maxbuff: byte)
    requires maxbuff > 0 && NUL !in p
    ensures |CopyOut(p, GpsCopyLength(maxbuff, |p|))| <= maxbuff
    ensures CStr(CopyOut(p, GpsCopyLength(maxbuff, |p|))) == p[..GpsCopyLength(maxbuff, |p|)]
  {
    var len := GpsCopyLength(maxbuff, |p|);
    var w := CopyOut(p, len);
    assert w == p[..len] + [NUL];
    CStrPrefix(p[..len], [NUL]);
  }

  // ---------------------------------------------------------------------
  // Fixed-order flows

  /** One exchange of a flow: the text written, the reply expected, and whether the flow checks it. */
  datatype Step = Step(command: string, reply: string, checked: bool)

  /** What a flow leaves behind: what it wrote, the lines still to come, and its verdict. */
  datatype Outcome = Outcome(sent: string, rest: seq<string>, ok: bool)

  /**
   * A flow over the scripted modem: each step writes its command and reads
   * one line; the flow stops, failing, at the first checked step whose line
   * is not the expected reply.
   */
  function Exchange(steps: seq<Step>, script: seq<string>): Outcome
    decreases |steps|
  {
    if steps == [] then Outcome([], script, true)
    else if steps[0].checked && Next(script) != steps[0].reply then
      Outcome(steps[0].command, Rest(script), false)
    else
      var o := Exchange(steps[1..], Rest(script));
      Outcome(steps[0].command + o.sent, o.rest, o.ok)
  }

  /** Every command of a flow, in order. */
  function Commands(steps: seq<Step>): string
    decreases |steps|
  {
    if steps == [] then [] else steps[0].command + Commands(steps[1..])
  }

  /**
   * A flow succeeds exactly when the k-th line answers every checked k-th
   * step as expected, and then it has written all its commands; whatever
   * happens, what it writes is a prefix of its commands in order.
   */
  lemma {:induction false} ExchangeSpec(steps: seq<Step>, script: seq<string>)
    ensures Exchange(steps, script).ok <==>
      forall k :: 0 <= k < |steps| && steps[k].checked ==> LineAt(script, k) == steps[k].reply
    ensures Exchange(steps, script).ok ==> Exchange(steps, script).sent == Commands(steps)
    ensures Exchange(steps, script).sent <= Commands(steps)
    decreases |steps|
  {
    if steps != [] {
      var s, tail := steps[0], steps[1..];
      LineAtRest(script, 0);
      ExchangeSpec(tail, Rest(script));
      var o := Exchange(tail, Rest(script));
      forall k | 0 <= k < |tail|
        ensures LineAt(Rest(script), k) == LineAt(script, k + 1) && tail[k] == steps[k + 1]
      {
        LineAtRest(script, k);
      }
      if !(s.checked && Next(script) != s.reply) {
        assert Commands(steps) == s.command + Commands(tail);
        assert o.sent <= Commands(tail);
        assert s.command + o.sent <= s.command + Commands(tail) by {
          assert Commands(tail)[..|o.sent|] == o.sent;
          assert (s.command + Commands(tail))[..|s.command + o.sent|] == s.command + o.sent;
        }
        if o.ok {
          forall k | 0 <= k < |steps| && steps[k].checked
            ensures LineAt(script, k) == steps[k].reply
          {
            if k > 0 {
              assert steps[k] == tail[k - 1];
            }
          }
        } else {
          var m :| 0 <= m < |tail| && tail[m].checked && LineAt(Rest(script), m) != tail[m].reply;
          assert steps[m + 1] == tail[m];
        }
      }
    }
  }

  /**
   * Bookkeeping for the flow methods: a flow that started with `out0`
   * written and whose whole outcome is `goal` has written `written` so far
   * and still has `todo` to run on the lines `lines` that remain.
   */
  ghost predicate Tracks(out0: string, goal: Outcome, written: string, lines: seq<string>, todo: seq<Step>)
  {
    var o := Exchange(todo, lines);
    out0 + goal.sent == written + o.sent && goal.rest == o.rest && goal.ok == o.ok
  }

  /** A flow has ended: it wrote what the goal says after `out0`, left the goal's lines, and gave its verdict. */
  ghost predicate Ended(out0: string, goal: Outcome, written: string, lines: seq<string>, ok: bool)
  {
    out0 + goal.sent == written && goal.rest == lines && goal.ok == ok
  }

  /** One step of a flow: a failed checked step ends it, any other leaves the rest to run. */
  lemma Stepped(out0: string, goal: Outcome, written: string, lines: seq<string>, s: Step, todo: seq<Step>)
    requires Tracks(out0, goal, written, lines, [s] + todo)
    ensures s.checked && Next(lines) != s.reply ==> Ended(out0, goal, written + s.command, Rest(lines), false)
    ensures !(s.checked && Next(lines) != s.reply) ==>
      Tracks(out0, goal, written + s.command, Rest(lines), todo)
  {
    assert ([s] + todo)[1..] == todo;
    if !(s.checked && Next(lines) != s.reply) {
      var o := Exchange(todo, Rest(lines));
      assert written + (s.command + o.sent) == (written + s.command) + o.sent;
    }
  }

  /** A flow with nothing left to run has written all it will, left its lines, and succeeded. */
  lemma Finished(out0: string, goal: Outcome, written: string, lines: seq<string>)
    requires Tracks(out0, goal, written, lines, [])
    ensures Ended(out0, goal, written, lines, true)
  {
    assert written + [] == written;
  }

  /** The last step of a flow decides its verdict, and the flow has then written all it will. */
  lemma SteppedLast(out0: string, goal: Outcome, written: string, lines: seq<string>, s: Step)
    requires Tracks(out0, goal, written, lines, [s])
    ensures Ended(out0, goal, written + s.command, Rest(lines), !(s.checked && Next(lines) != s.reply))
  {
    assert [s] + [] == [s];
    Stepped(out0, goal, written, lines, s, []);
    if !(s.checked && Next(lines) != s.reply) {
      assert written + s.command + [] == written + s.command;
    }
  }

  /** A step that sends a command and expects "OK". */
  function OkStep(send: string): Step
  {
    Step(Command(send), "OK", true)
  }

  /** A step for an optional setting: present only when the setting is. */
  function Optional(prefix: string, value: Option<string>, tail: seq<Step>): seq<Step>
  {
    if value.None? then tail else [OkStep(Quoted(prefix, value.value))] + tail
  }

  /** The bearer settings of enableGPRS: APN, then user and password when set, only when an APN is set. */
  function BearerSteps(apn: Option<string>, user: Option<string>, pwd: Option<string>): seq<Step>
  {
    if apn.None? then [OkStep("AT+SAPBR=1,1")]
    else
      ([OkStep(Quoted("AT+SAPBR=3,1,\"APN\",", apn.value))] +
       Optional("AT+SAPBR=3,1,\"USER\",", user,
         Optional("AT+SAPBR=3,1,\"PWD\",", pwd, [OkStep("AT+SAPBR=1,1")])))
  }

  /** enableGPRS: the bearer set-up (CIPSHUT's reply is not checked) or tear-down. */
  function GprsSteps(onoff: bool, apn: Option<string>, user: Option<string>, pwd: Option<string>): seq<Step>
  {
    if onoff then
      [Step(Command("AT+CIPSHUT"), "SHUT OK", false)] +
      ([OkStep("AT+CGATT=1")] +
      ([OkStep("AT+SAPBR=3,1,\"CONTYPE\",\"GPRS\"")] + BearerSteps(apn, user, pwd)))
    else
      [Step(Command("AT+CIPSHUT"), "SHUT OK", true)] +
      ([OkStep("AT+SAPBR=0,1")] + [OkStep("AT+CGATT=0")])
  }

  /** The reply to AT+CIPSHUT does not matter when the bearer is brought up. */
  lemma GprsIgnoresShutReply(apn: Option<string>, user: Option<string>, pwd: Option<string>,
                             line1: string, line2: string, rest: seq<string>)
    ensures Exchange(GprsSteps(true, apn, user, pwd), [line1] + rest)
         == Exchange(GprsSteps(true, apn, user, pwd), [line2] + rest)
  {
    var steps := GprsSteps(true, apn, user, pwd);
    var tail := steps[1..];
    assert steps == [steps[0]] + tail;
    assert Rest([line1] + rest) == rest == Rest([line2] + rest);
  }

  /** The text of AT+CIPSTART for a TCP connection. */
  function TcpStart(server: string, port: uint16): string
  {
    "AT+CIPSTART=\"TCP\",\"" + server + "\",\"" + Decimal(port) + "\""
  }

  /** TCPconnect: close, single connection, manual receive, start, then "OK" and "CONNECT OK". */
  function TcpSteps(server: string, port: uint16): seq<Step>
  {
    [Step(Command("AT+CIPSHUT"), "SHUT OK", true)] +
    ([OkStep("AT+CIPMUX=0")] +
    ([OkStep("AT+CIPRXGET=1")] +
    ([OkStep(TcpStart(server, port))] +
     [Step([], "CONNECT OK", true)])))
  }

  /** HTTP_para with a quoted string value. */
  function ParaText(parameter: string, value: string): string
  {
    Command("AT+HTTPPARA=\"" + parameter + "\",\"" + value + "\"")
  }

  /** HTTP_para with a number. */
  function ParaInt(parameter: string, value: int): string
  {
    Command("AT+HTTPPARA=\"" + parameter + "\"," + Decimal(value))
  }

  /** HTTP_setup: terminate (unchecked), init, CID, UA, URL, and REDIR and SSL when redirecting. */
  function HttpSetupSteps(url: string, useragent: string, redirect: bool): seq<Step>
  {
    [Step(Command("AT+HTTPTERM"), "OK", false)] +
    ([OkStep("AT+HTTPINIT")] + HttpParaSteps(url, useragent, redirect))
  }

  /** The parameters HTTP_setup sets once the session is initialised. */
  function HttpParaSteps(url: string, useragent: string, redirect: bool): seq<Step>
  {
    [Step(ParaInt("CID", 1), "OK", true)] +
    ([Step(ParaText("UA", useragent), "OK", true)] +
    ([Step(ParaText("URL", url), "OK", true)] +
     (if redirect then [Step(ParaInt("REDIR", 1), "OK", true)] + [OkStep("AT+HTTPSSL=" + Decimal(1))]
      else [])))
  }

  /** int32_t */
  type int32 = x: int | -0x8000_0000 <= x < 0x8000_0000

  // ---------------------------------------------------------------------
  // The engine

  class Fona {
    /** The bearer settings (setGPRSNetworkSettings); None is a null pointer. */
    var apn: Option<string>
    var apnusername: Option<string>
    var apnpassword: Option<string>
    var httpsredirect: bool
    var useragent: string
    var incomingCall: bool
    /** replybuffer[255] */
    const replybuffer: array<char>
    /** Everything written to the modem, in order. */
    var out: string
    /** The lines the modem will answer with, in order. */
    var script: seq<string>

    ghost predicate Valid()
      reads this
    {
      replybuffer.Length == REPLY_BUFFER_SIZE && forall k :: 0 <= k < |script| ==> IsLine(script[k])
    }

    /** The reply: the C string at the start of replybuffer. */
    function Reply(): string
      reads this, replybuffer
    {
      CStr(replybuffer[..])
    }

    /** The constructor's defaults, with the modem's lines to come. */
    constructor (modem: seq<string>)
      requires forall k :: 0 <= k < |modem| ==> IsLine(modem[k])
      ensures Valid() && fresh(replybuffer)
      ensures apn == Some("FONAnet") && apnusername == None && apnpassword == None
      ensures !httpsredirect && useragent == "FONA" && !incomingCall
      ensures out == [] && script == modem && Reply() == []
    {
      apn := Some("FONAnet");
      apnusername := None;
      apnpassword := None;
      httpsredirect := false;
      useragent := "FONA";
      incomingCall := false;
      replybuffer := new char[REPLY_BUFFER_SIZE](_ => NUL);
      out := [];
      script := modem;
    }

    method SetGPRSNetworkSettings(apn: Option<string>, username: Option<string>, password: Option<string>)
      modifies this`apn, this`apnusername, this`apnpassword
      ensures this.apn == apn && apnusername == username && apnpassword == password
    {
      this.apn := apn;
      apnusername := username;
      apnpassword := password;
    }

    method SetUserAgent(useragent: string)
      modifies this`useragent
      ensures this.useragent == useragent
    {
      this.useragent := useragent;
    }

    method SetHTTPSRedirect(onoff: bool)
      modifies this`httpsredirect
      ensures httpsredirect == onoff
    {
      httpsredirect := onoff;
    }

    /**
     * readline over the scripted modem: a zero timeout reads nothing and
     * leaves an empty reply; otherwise the next line (empty when the modem
     * is silent) is stored with its NUL, the rest of the buffer untouched.
     */
    method Readline(timeout: uint16) returns (len: byte)
      requires Valid()
      modifies this`script, replybuffer
      ensures Valid()
      ensures replybuffer[..] == Store(old(replybuffer[..]), NextLine(old(script), timeout))
      ensures Reply() == NextLine(old(script), timeout)
      ensures script == Consume(old(script), timeout)
      ensures len == |Reply()|
    {
      var line := NextLine(script, timeout);
      script := Consume(script, timeout);
      forall k | 0 <= k < |line| {
        replybuffer[k] := line[k];
      }
      replybuffer[|line|] := NUL;
      assert replybuffer[..] == Store(old(replybuffer[..]), line);
      CStrStore(old(replybuffer[..]), line);
      len := |line|;
    }

    /** expectReply: the next line is exactly `reply`. */
    method ExpectReply(reply: string, timeout: uint16) returns (ok: bool)
      requires Valid()
      modifies this`script, replybuffer
      ensures Valid()
      ensures ok <==> NextLine(old(script), timeout) == reply
      ensures script == Consume(old(script), timeout)
    {
      var _ := Readline(timeout);
      ok := Reply() == reply;
    }

    /** getReply(send): the command, then one line. */
    method GetReply(send: string, timeout: uint16) returns (len: byte)
      requires Valid()
      modifies this`out, this`script, replybuffer
      ensures Valid()
      ensures out == old(out) + Command(send)
      ensures replybuffer[..] == Store(old(replybuffer[..]), NextLine(old(script), timeout))
      ensures Reply() == NextLine(old(script), timeout)
      ensures script == Consume(old(script), timeout)
      ensures len == |Reply()|
    {
      out := out + Command(send);
      len := Readline(timeout);
    }

    /** getReply(prefix, suffix) */
    method GetReplyText(prefix: string, suffix: string, timeout: uint16) returns (len: byte)
      requires Valid()
      modifies this`out, this`script, replybuffer
      ensures Valid()
      ensures out == old(out) + Command(prefix + suffix)
      ensures Reply() == NextLine(old(script), timeout)
      ensures script == Consume(old(script), timeout)
      ensures len == |Reply()|
    {
      out := out + Command(prefix + suffix);
      len := Readline(timeout);
    }

    /** getReply(prefix, int32_t suffix): the number as printf("%d") writes it. */
    method GetReplyInt(prefix: string, suffix: int32, timeout: uint16) returns (len: byte)
      requires Valid()
      modifies this`out, this`script, replybuffer
      ensures Valid()
      ensures out == old(out) + Command(prefix + Decimal(suffix))
      ensures Reply() == NextLine(old(script), timeout)
      ensures script == Consume(old(script), timeout)
      ensures len == |Reply()|
    {
      out := out + Command(prefix + Decimal(suffix));
      len := Readline(timeout);
    }

    /** getReply(prefix, suffix1, suffix2): "%d,%d". */
    method GetReplyInts(prefix: string, suffix1: int32, suffix2: int32, timeout: uint16) returns (len: byte)
      requires Valid()
      modifies this`out, this`script, replybuffer
      ensures Valid()
      ensures out == old(out) + Command(prefix + Decimal(suffix1) + "," + Decimal(suffix2))
      ensures Reply() == NextLine(old(script), timeout)
      ensures script == Consume(old(script), timeout)
      ensures len == |Reply()|
    {
      out := out + Command(prefix + Decimal(suffix1) + "," + Decimal(suffix2));
      len := Readline(timeout);
    }

    /** getReplyQuoted: the suffix in double quotes. */
    method GetReplyQuoted(prefix: string, suffix: string, timeout: uint16) returns (len: byte)
      requires Valid()
      modifies this`out, this`script, replybuffer
      ensures Valid()
      ensures out == old(out) + Command(Quoted(prefix, suffix))
      ensures Reply() == NextLine(old(script), timeout)
      ensures script == Consume(old(script), timeout)
      ensures len == |Reply()|
    {
      out := out + Command(Quoted(prefix, suffix));
      len := Readline(timeout);
    }

    /** sendCheckReply: the reply line is exactly `reply`. */
    method SendCheckReply(send: string, reply: string, timeout: uint16) returns (ok: bool)
      requires Valid()
      modifies this`out, this`script, replybuffer
      ensures Valid()
      ensures out == old(out) + Command(send)
      ensures ok <==> NextLine(old(script), timeout) == reply
      ensures script == Consume(old(script), timeout)
    {
      var _ := GetReply(send, timeout);
      ok := Reply() == reply;
    }

    method SendCheckReplyText(prefix: string, suffix: string, reply: string, timeout: uint16) returns (ok: bool)
      requires Valid()
      modifies this`out, this`script, replybuffer
      ensures Valid()
      ensures out == old(out) + Command(prefix + suffix)
      ensures ok <==> NextLine(old(script), timeout) == reply
      ensures script == Consume(old(script), timeout)
    {
      var _ := GetReplyText(prefix, suffix, timeout);
      ok := Reply() == reply;
    }

    method SendCheckReplyInt(prefix: string, suffix: int32, reply: string, timeout: uint16) returns (ok: bool)
      requires Valid()
      modifies this`out, this`script, replybuffer
      ensures Valid()
      ensures out == old(out) + Command(prefix + Decimal(suffix))
      ensures ok <==> NextLine(old(script), timeout) == reply
      ensures script == Consume(old(script), timeout)
    {
      var _ := GetReplyInt(prefix, suffix, timeout);
      ok := Reply() == reply;
    }

    method SendCheckReplyInts(prefix: string, suffix1: int32, suffix2: int32, reply: string, timeout: uint16)
      returns (ok: bool)
      requires Valid()
      modifies this`out, this`script, replybuffer
      ensures Valid()
      ensures out == old(out) + Command(prefix + Decimal(suffix1) + "," + Decimal(suffix2))
      ensures ok <==> NextLine(old(script), timeout) == reply
      ensures script == Consume(old(script), timeout)
    {
      var _ := GetReplyInts(prefix, suffix1, suffix2, timeout);
      ok := Reply() == reply;
    }

    method SendCheckReplyQuoted(prefix: string, suffix: string, reply: string, timeout: uint16) returns (ok: bool)
      requires Valid()
      modifies this`out, this`script, replybuffer
      ensures Valid()
      ensures out == old(out) + Command(Quoted(prefix, suffix))
      ensures ok <==> NextLine(old(script), timeout) == reply
      ensures script == Consume(old(script), timeout)
    {
      var _ := GetReplyQuoted(prefix, suffix, timeout);
      ok := Reply() == reply;
    }

    /**
     * parseReply(toreply, uint16_t *v, divider, index): atoi of the field
     * `index` dividers after the marker, truncated to 16 bits; on failure
     * *v keeps its value v0.
     */
    method ParseReply(toreply: string, v0: uint16, divider: char, index: byte) returns (found: bool, v: uint16)
      requires Valid()
      ensures found == FieldStart(Reply(), toreply, divider, index).Some?
      ensures found ==> v == ToU16(Atoi(FieldStart(Reply(), toreply, divider, index).value))
      ensures !found ==> v == v0
    {
      var f := LocateField(Reply(), toreply, divider, index);
      found := f.Some?;
      v := if found then ToU16(Atoi(f.value)) else v0;
    }

    /**
     * parseReply(toreply, char *v, divider, index): the field's text up to
     * the next divider (None when the field is not found and v is untouched).
     */
    method ParseReplyText(toreply: string, divider: char, index: byte) returns (field: Option<string>)
      requires Valid()
      ensures field.Some? == FieldStart(Reply(), toreply, divider, index).Some?
      ensures field.Some? ==>
        var p := FieldStart(Reply(), toreply, divider, index).value;
        && |field.value| <= |p| && field.value == p[..|field.value|]
        && divider !in field.value
        && (|field.value| < |p| ==> p[|field.value|] == divider)
    {
      var f := LocateField(Reply(), toreply, divider, index);
      if f.None? {
        return None;
      }
      var v := CopyField(f.value, divider);
      field := Some(v);
    }

    /**
     * parseReplyQuoted: the field with its quotation marks skipped, at most
     * `maxlen` characters; `terminated` when there was room for the NUL.
     */
    method ParseReplyQuoted(toreply: string, maxlen: int, divider: char, index: byte)
      returns (field: Option<string>, terminated: bool)
      requires Valid()
      ensures field.Some? == FieldStart(Reply(), toreply, divider, index).Some?
      ensures field.Some? ==>
        && field.value == Unquote(FieldStart(Reply(), toreply, divider, index).value, divider, maxlen)
        && (terminated <==> |field.value| < maxlen)
      ensures field.None? ==> !terminated
    {
      var f := LocateField(Reply(), toreply, divider, index);
      if f.None? {
        return None, false;
      }
      var v := CopyQuoted(f.value, divider, maxlen);
      field := Some(v);
      terminated := |v| < maxlen;
    }
  
    /** sendParseReply: the command, the parsed reply, and the "OK" line eaten only on success. */
    method SendParseReply(tosend: string, toreply: string, v0: uint16, divider: char, index: byte)
      returns (found: bool, v: uint16)
      requires Valid()
      modifies this`out, this`script, replybuffer
      ensures Valid()
      ensures out == old(out) + Command(tosend)
      ensures found == FieldStart(Next(old(script)), toreply, divider, index).Some?
      ensures found ==> v == ToU16(Atoi(FieldStart(Next(old(script)), toreply, divider, index).value))
      ensures !found ==> v == v0
      ensures script == if found then Rest(Rest(old(script))) else Rest(old(script))
    {
      var _ := GetReply(tosend, DEFAULT_TIMEOUT);
      found, v := ParseReply(toreply, v0, divider, index);
      if found {
        var _ := Readline(DEFAULT_TIMEOUT);
      }
    }

    // Range guards: each fails without writing anything when its argument is out of range.

    /** setAudio: 0 is the headset, 1 the external audio path. */
    method SetAudio(a: byte) returns (ok: bool)
      requires Valid()
      modifies this`out, this`script, replybuffer
      ensures Valid()
      ensures a > 1 ==> !ok && out == old(out) && script == old(script)
      ensures a <= 1 ==> (out == old(out) + Command("AT+CHFA=" + Decimal(a))
        && (ok <==> Next(old(script)) == "OK") && script == Rest(old(script)))
    {
      if a > 1 {
        return false;
      }
      ok := SendCheckReplyInt("AT+CHFA=", a, "OK", DEFAULT_TIMEOUT);
    }

    method SetMicVolume(a: byte, level: byte) returns (ok: bool)
      requires Valid()
      modifies this`out, this`script, replybuffer
      ensures Valid()
      ensures a > 1 ==> !ok && out == old(out) && script == old(script)
      ensures a <= 1 ==> (out == old(out) + Command("AT+CMIC=" + Decimal(a) + "," + Decimal(level))
        && (ok <==> Next(old(script)) == "OK") && script == Rest(old(script)))
    {
      if a > 1 {
        return false;
      }
      ok := SendCheckReplyInts("AT+CMIC=", a, level, "OK", DEFAULT_TIMEOUT);
    }

    /** FMradio: closing needs no audio path; opening checks it. */
    method FMradio(onoff: bool, a: byte) returns (ok: bool)
      requires Valid()
      modifies this`out, this`script, replybuffer
      ensures Valid()
      ensures !onoff ==> (out == old(out) + Command("AT+FMCLOSE")
        && (ok <==> Next(old(script)) == "OK") && script == Rest(old(script)))
      ensures onoff && a > 1 ==> !ok && out == old(out) && script == old(script)
      ensures onoff && a <= 1 ==> (out == old(out) + Command("AT+FMOPEN=" + Decimal(a))
        && (ok <==> Next(old(script)) == "OK") && script == Rest(old(script)))
    {
      if !onoff {
        ok := SendCheckReply("AT+FMCLOSE", "OK", DEFAULT_TIMEOUT);
        return;
      }
      if a > 1 {
        return false;
      }
      ok := SendCheckReplyInt("AT+FMOPEN=", a, "OK", DEFAULT_TIMEOUT);
    }

    /** tuneFMradio: stations 870..1090 (tenths of MHz). */
    method TuneFMradio(station: uint16) returns (ok: bool)
      requires Valid()
      modifies this`out, this`script, replybuffer
      ensures Valid()
      ensures !(870 <= station <= 1090) ==> !ok && out == old(out) && script == old(script)
      ensures 870 <= station <= 1090 ==> (out == old(out) + Command("AT+FMFREQ=" + Decimal(station))
        && (ok <==> Next(old(script)) == "OK") && script == Rest(old(script)))
    {
      if station < 870 || station > 1090 {
        return false;
      }
      ok := SendCheckReplyInt("AT+FMFREQ=", station, "OK", DEFAULT_TIMEOUT);
    }

    /** setFMVolume: levels 0..6. */
    method SetFMVolume(i: byte) returns (ok: bool)
      requires Valid()
      modifies this`out, this`script, replybuffer
      ensures Valid()
      ensures i > 6 ==> !ok && out == old(out) && script == old(script)
      ensures i <= 6 ==> (out == old(out) + Command("AT+FMVOLUME=" + Decimal(i))
        && (ok <==> Next(old(script)) == "OK") && script == Rest(old(script)))
    {
      if i > 6 {
        return false;
      }
      ok := SendCheckReplyInt("AT+FMVOLUME=", i, "OK", DEFAULT_TIMEOUT);
    }

    /** setPWM: a period of at most 2000 and a duty cycle of at most 100. */
    method SetPWM(period: uint16, duty: byte) returns (ok: bool)
      requires Valid()
      modifies this`out, this`script, replybuffer
      ensures Valid()
      ensures (period > 2000 || duty > 100) ==> !ok && out == old(out) && script == old(script)
      ensures period <= 2000 && duty <= 100 ==>
        out == old(out) + Command("AT+SPWM=0," + Decimal(period) + "," + Decimal(duty))
        && (ok <==> Next(old(script)) == "OK") && script == Rest(old(script))
    {
      if period > 2000 {
        return false;
      }
      if duty > 100 {
        return false;
      }
      ok := SendCheckReplyInts("AT+SPWM=0,", period, duty, "OK", DEFAULT_TIMEOUT);
    }

    /**
     * getFMSignalLevel: -1 outside 875..1080 (nothing written) or when the
     * reply lacks "+FMSIGNAL: " or a ':' after it; otherwise atoi of the text
     * after that ':', as an int8_t, and the "OK" line is eaten.
     */
    method GetFMSignalLevel(station: uint16) returns (level: int)
      requires Valid()
      modifies this`out, this`script, replybuffer
      ensures Valid()
      ensures !(875 <= station <= 1080) ==> level == -1 && out == old(out) && script == old(script)
      ensures 875 <= station <= 1080 ==>
        out == old(out) + Command("AT+FMSIGNAL=" + Decimal(station))
        && level == (if SignalLevel(Next(old(script))).Some? then SignalLevel(Next(old(script))).value else -1)
        && script == if SignalLevel(Next(old(script))).Some? then Rest(Rest(old(script))) else Rest(old(script))
    {
      if station < 875 || station > 1080 {
        return -1;
      }
      var _ := GetReplyInt("AT+FMSIGNAL=", station, DEFAULT_TIMEOUT);
      level := ReadSignalLevel();
    }

    /** The parsing half of getFMSignalLevel, on the reply in the buffer. */
    method ReadSignalLevel() returns (level: int)
      requires Valid()
      modifies this`script, replybuffer
      ensures Valid()
      ensures level == if SignalLevel(old(Reply())).Some? then SignalLevel(old(Reply())).value else -1
      ensures script == if SignalLevel(old(Reply())).Some? then Rest(old(script)) else old(script)
    {
      var f := LocateField(Reply(), "+FMSIGNAL: ", ':', 1);
      if f.None? {
        return -1;
      }
      level := ToI8(Atoi(f.value));
      var _ := Readline(DEFAULT_TIMEOUT);
    }
  
    /**
     * GPSstatus as written: the status characters are read through a
     * pointer into replybuffer after the readline that eats "OK" has stored
     * its line there, so they come from the buffer as that readline left it.
     */
    method GPSstatus() returns (status: int)
      requires Valid()
      modifies this`out, this`script, replybuffer
      ensures Valid()
      ensures out == old(out) + Command("AT+CGNSINF")
      ensures Find(Next(old(script)), CGNSINF).None? ==> status == -1 && script == Rest(old(script))
      ensures Find(Next(old(script)), CGNSINF).Some? ==>
        && script == Rest(Rest(old(script)))
        && status == StatusAt(Store(Store(old(replybuffer[..]), Next(old(script))), Next(Rest(old(script)))),
                              Find(Next(old(script)), CGNSINF).value + 10)
    {
      var _ := GetReply("AT+CGNSINF", DEFAULT_TIMEOUT);
      var at := Find(Reply(), CGNSINF);
      if at.None? {
        return -1;
      }
      status := ReadStatus(at.value + 10);
    }

    /** The tail of GPSstatus: eat the "OK" line, then read the status at `p` in the buffer. */
    method ReadStatus(p: nat) returns (status: int)
      requires Valid() && p < replybuffer.Length
      modifies this`script, replybuffer
      ensures Valid()
      ensures script == Rest(old(script))
      ensures status == StatusAt(Store(old(replybuffer[..]), Next(old(script))), p)
    {
      var _ := Readline(DEFAULT_TIMEOUT);
      if replybuffer[p] == '0' {
        return 0;
      }
      if p + 2 < replybuffer.Length && replybuffer[p + 2] == '1' {
        return 3;
      }
      return 1;
    }

    /**
     * getGPS(arg, buffer, maxbuff) as written: the report after "CGNSINF: "
     * is copied with the length max((uint8_t)(maxbuff - 1), strlen(p)), and
     * `written` is what lands in the caller's buffer; `arg` is unused.
     */
    method GetGPS(arg: byte, maxbuff: byte) returns (len: byte, written: seq<char>)
      requires Valid()
      modifies this`out, this`script, replybuffer
      ensures Valid()
      ensures out == old(out) + Command("AT+CGNSINF")
      ensures Find(Next(old(script)), "CGNSINF: ").None? ==>
        len == 0 && written == [NUL] && script == Rest(old(script))
      ensures Find(Next(old(script)), "CGNSINF: ").Some? ==>
        var p := Next(old(script))[Find(Next(old(script)), "CGNSINF: ").value + 9..];
        && len == GpsCopyLengthAsWritten(maxbuff, |p|)
        && written == CopyOut(p, len)
        && script == Rest(Rest(old(script)))
    {
      var _ := GetReply("AT+CGNSINF", DEFAULT_TIMEOUT);
      var at := Find(Reply(), "CGNSINF: ");
      if at.None? {
        return 0, [NUL];
      }
      var p := Reply()[at.value + 9..];
      len := GpsCopyLengthAsWritten(maxbuff, |p|);
      written := CopyOut(p, len);
      var _ := Readline(DEFAULT_TIMEOUT);
    }

    /** unlockSIM: AT+CPIN= with the four PIN characters. */
    method UnlockSIM(pin: seq<char>) returns (ok: bool)
      requires Valid() && |pin| >= 4
      modifies this`out, this`script, replybuffer
      ensures Valid()
      ensures out == old(out) + Command(UnlockSimCommand(pin))
      ensures (ok <==> Next(old(script)) == "OK") && script == Rest(old(script))
    {
      ok := SendCheckReply(UnlockSimCommand(pin), "OK", DEFAULT_TIMEOUT);
    }

    /** callPhone: dial the number, cut to 30 characters. */
    method CallPhone(number: string) returns (ok: bool)
      requires Valid()
      modifies this`out, this`script, replybuffer
      ensures Valid()
      ensures out == old(out) + Command(DialCommand(number))
      ensures (ok <==> Next(old(script)) == "OK") && script == Rest(old(script))
    {
      ok := SendCheckReply(DialCommand(number), "OK", DEFAULT_TIMEOUT);
    }

    /** enableGPSNMEA: AT+CGPSOUT= with the mask as three digits. */
    method EnableGPSNMEA(i: byte) returns (ok: bool)
      requires Valid()
      modifies this`out, this`script, replybuffer
      ensures Valid()
      ensures out == old(out) + Command(GpsNmeaCommand(i))
      ensures (ok <==> Next(old(script)) == "OK") && script == Rest(old(script))
    {
      ok := SendCheckReply(GpsNmeaCommand(i), "OK", 2000);
    }

    /**
     * deleteSMS: text mode first; when AT+CMGF=1 is not answered "OK" the
     * source returns -1, which converts to true.
     */
    method DeleteSMS(i: byte) returns (ok: bool)
      requires Valid()
      modifies this`out, this`script, replybuffer
      ensures Valid()
      ensures LineAt(old(script), 0) != "OK" ==>
        ok && out == old(out) + Command("AT+CMGF=1") && script == Rest(old(script))
      ensures LineAt(old(script), 0) == "OK" ==>
        && out == old(out) + Command("AT+CMGF=1") + Command(DeleteSmsCommand(i))
        && (ok <==> LineAt(old(script), 1) == "OK")
        && script == Rest(Rest(old(script)))
    {
      LineAtRest(script, 0);
      var mode := SendCheckReply("AT+CMGF=1", "OK", DEFAULT_TIMEOUT);
      if !mode {
        return true;
      }
      ok := SendCheckReply(DeleteSmsCommand(i), "OK", 2000);
    }

    /**
     * sendSMS: text mode (failure returns -1, i.e. true), AT+CMGS with the
     * address, then on the "> " prompt the message, CR LF CR LF and Ctrl-Z;
     * success needs a "+CMGS" line and then "OK".
     */
    method SendSMS(smsaddr: string, smsmsg: string) returns (ok: bool)
      requires Valid()
      modifies this`out, this`script, replybuffer
      ensures Valid()
      ensures LineAt(old(script), 0) != "OK" ==>
        ok && out == old(out) + Command("AT+CMGF=1") && script == Rest(old(script))
      ensures LineAt(old(script), 0) == "OK" && LineAt(old(script), 1) != "> " ==>
        !ok && out == old(out) + Command("AT+CMGF=1") + Command(SmsCommand(smsaddr))
        && script == Rest(Rest(old(script)))
      ensures LineAt(old(script), 0) == "OK" && LineAt(old(script), 1) == "> " ==>
        && out == old(out) + Command("AT+CMGF=1") + Command(SmsCommand(smsaddr)) + (smsmsg + "\r\n\r\n") + [0x1A as char]
        && (ok <==> Find(LineAt(old(script), 2), "+CMGS").Some? && LineAt(old(script), 3) == "OK")
        && script == if Find(LineAt(old(script), 2), "+CMGS").Some? then Rest(Rest(Rest(Rest(old(script)))))
                     else Rest(Rest(Rest(old(script))))
    {
      ghost var l := script;
      LineAtRest(l, 0);
      LineAtRest(Rest(l), 0);
      LineAtRest(l, 1);
      LineAtRest(Rest(Rest(l)), 0);
      LineAtRest(Rest(l), 1);
      LineAtRest(l, 2);
      var mode := SendCheckReply("AT+CMGF=1", "OK", DEFAULT_TIMEOUT);
      if !mode {
        return true;
      }
      var prompt := SendCheckReply(SmsCommand(smsaddr), "> ", DEFAULT_TIMEOUT);
      if !prompt {
        return false;
      }
      out := out + (smsmsg + "\r\n\r\n");
      out := out + [0x1A as char];
      var _ := Readline(10000);
      if Find(Reply(), "+CMGS").None? {
        return false;
      }
      var _ := Readline(1000);
      ok := Reply() == "OK";
    }
  
    /** The APN, user and password settings of enableGPRS and the opening of the context. */
    method OpenBearer() returns (ok: bool)
      requires Valid()
      modifies this`out, this`script, replybuffer
      ensures Valid()
      ensures Ended(old(out), Exchange(BearerSteps(apn, apnusername, apnpassword), old(script)), out, script, ok)
    {
      var open := OkStep("AT+SAPBR=1,1");
      ghost var out0, goal := out, Exchange(BearerSteps(apn, apnusername, apnpassword), script);
      if apn.Some? {
        ghost var tp := Optional("AT+SAPBR=3,1,\"PWD\",", apnpassword, [open]);
        ghost var tu := Optional("AT+SAPBR=3,1,\"USER\",", apnusername, tp);
        assert Tracks(out0, goal, out, script, [OkStep(Quoted("AT+SAPBR=3,1,\"APN\",", apn.value))] + tu);
        ghost var o0, s0 := out, script;
        ok := SendCheckReplyQuoted("AT+SAPBR=3,1,\"APN\",", apn.value, "OK", 10000);
        Stepped(out0, goal, o0, s0, OkStep(Quoted("AT+SAPBR=3,1,\"APN\",", apn.value)), tu);
        if !ok {
          return;
        }
        assert Tracks(out0, goal, out, script, tu);
        if apnusername.Some? {
          ghost var o1, s1 := out, script;
          ok := SendCheckReplyQuoted("AT+SAPBR=3,1,\"USER\",", apnusername.value, "OK", 10000);
          Stepped(out0, goal, o1, s1, OkStep(Quoted("AT+SAPBR=3,1,\"USER\",", apnusername.value)), tp);
          if !ok {
            return;
          }
        }
        assert Tracks(out0, goal, out, script, tp);
        if apnpassword.Some? {
          ghost var o2, s2 := out, script;
          ok := SendCheckReplyQuoted("AT+SAPBR=3,1,\"PWD\",", apnpassword.value, "OK", 10000);
          Stepped(out0, goal, o2, s2, OkStep(Quoted("AT+SAPBR=3,1,\"PWD\",", apnpassword.value)), [open]);
          if !ok {
            return;
          }
        }
      }
      assert Tracks(out0, goal, out, script, [open]);
      ghost var o3, s3 := out, script;
      ok := SendCheckReply("AT+SAPBR=1,1", "OK", 10000);
      SteppedLast(out0, goal, o3, s3, open);
    }

    /**
     * enableGPRS: bring the bearer up (the reply to AT+CIPSHUT is not
     * checked) or down, stopping at the first command not answered as
     * expected.
     */
    method EnableGPRS(onoff: bool) returns (ok: bool)
      requires Valid()
      modifies this`out, this`script, replybuffer
      ensures Valid()
      ensures Ended(old(out), Exchange(GprsSteps(onoff, apn, apnusername, apnpassword), old(script)), out, script, ok)
    {
      ghost var out0, goal := out, Exchange(GprsSteps(onoff, apn, apnusername, apnpassword), script);
      if onoff {
        ghost var t3 := BearerSteps(apn, apnusername, apnpassword);
        ghost var t2 := [OkStep("AT+SAPBR=3,1,\"CONTYPE\",\"GPRS\"")] + t3;
        ghost var t1 := [OkStep("AT+CGATT=1")] + t2;
        assert Tracks(out0, goal, out, script, [Step(Command("AT+CIPSHUT"), "SHUT OK", false)] + t1);
        ghost var o0, s0 := out, script;
        var _ := SendCheckReply("AT+CIPSHUT", "SHUT OK", 5000);
        Stepped(out0, goal, o0, s0, Step(Command("AT+CIPSHUT"), "SHUT OK", false), t1);
        assert Tracks(out0, goal, out, script, t1);
        ghost var o1, s1 := out, script;
        ok := SendCheckReply("AT+CGATT=1", "OK", 10000);
        Stepped(out0, goal, o1, s1, OkStep("AT+CGATT=1"), t2);
        if !ok {
          return;
        }
        assert Tracks(out0, goal, out, script, t2);
        ghost var o2, s2 := out, script;
        ok := SendCheckReply("AT+SAPBR=3,1,\"CONTYPE\",\"GPRS\"", "OK", 10000);
        Stepped(out0, goal, o2, s2, OkStep("AT+SAPBR=3,1,\"CONTYPE\",\"GPRS\""), t3);
        if !ok {
          return;
        }
        assert Tracks(out0, goal, out, script, t3);
        ok := OpenBearer();
      } else {
        ghost var t2 := [OkStep("AT+CGATT=0")];
        ghost var t1 := [OkStep("AT+SAPBR=0,1")] + t2;
        assert Tracks(out0, goal, out, script, [Step(Command("AT+CIPSHUT"), "SHUT OK", true)] + t1);
        ghost var o0, s0 := out, script;
        ok := SendCheckReply("AT+CIPSHUT", "SHUT OK", 5000);
        Stepped(out0, goal, o0, s0, Step(Command("AT+CIPSHUT"), "SHUT OK", true), t1);
        if !ok {
          return;
        }
        assert Tracks(out0, goal, out, script, t1);
        ghost var o1, s1 := out, script;
        ok := SendCheckReply("AT+SAPBR=0,1", "OK", 10000);
        Stepped(out0, goal, o1, s1, OkStep("AT+SAPBR=0,1"), t2);
        if !ok {
          return;
        }
        assert Tracks(out0, goal, out, script, t2);
        ghost var o2, s2 := out, script;
        ok := SendCheckReply("AT+CGATT=0", "OK", 10000);
        SteppedLast(out0, goal, o2, s2, OkStep("AT+CGATT=0"));
      }
    }

    /**
     * TCPconnect: close old connections, single connection, manual receive,
     * then AT+CIPSTART, which must be answered "OK" and then "CONNECT OK".
     */
    method TCPconnect(server: string, port: uint16) returns (ok: bool)
      requires Valid()
      modifies this`out, this`script, replybuffer
      ensures Valid()
      ensures Ended(old(out), Exchange(TcpSteps(server, port), old(script)), out, script, ok)
    {
      ghost var out0, goal := out, Exchange(TcpSteps(server, port), script);
      var last := Step([], "CONNECT OK", true);
      ghost var t3 := [OkStep(TcpStart(server, port))] + [last];
      ghost var t2 := [OkStep("AT+CIPRXGET=1")] + t3;
      ghost var t1 := [OkStep("AT+CIPMUX=0")] + t2;
      assert Tracks(out0, goal, out, script, [Step(Command("AT+CIPSHUT"), "SHUT OK", true)] + t1);
      ghost var o0, s0 := out, script;
      ok := SendCheckReply("AT+CIPSHUT", "SHUT OK", 5000);
      Stepped(out0, goal, o0, s0, Step(Command("AT+CIPSHUT"), "SHUT OK", true), t1);
      if !ok {
        return;
      }
      assert Tracks(out0, goal, out, script, t1);
      ghost var o1, s1 := out, script;
      ok := SendCheckReply("AT+CIPMUX=0", "OK", DEFAULT_TIMEOUT);
      Stepped(out0, goal, o1, s1, OkStep("AT+CIPMUX=0"), t2);
      if !ok {
        return;
      }
      assert Tracks(out0, goal, out, script, t2);
      ghost var o2, s2 := out, script;
      ok := SendCheckReply("AT+CIPRXGET=1", "OK", DEFAULT_TIMEOUT);
      Stepped(out0, goal, o2, s2, OkStep("AT+CIPRXGET=1"), t3);
      if !ok {
        return;
      }
      assert Tracks(out0, goal, out, script, t3);
      ghost var o3, s3 := out, script;
      out := out + Command(TcpStart(server, port));
      ok := ExpectReply("OK", DEFAULT_TIMEOUT);
      Stepped(out0, goal, o3, s3, OkStep(TcpStart(server, port)), [last]);
      if !ok {
        return;
      }
      assert Tracks(out0, goal, out, script, [last]);
      ghost var o4, s4 := out, script;
      ok := ExpectReply("CONNECT OK", DEFAULT_TIMEOUT);
      SteppedLast(out0, goal, o4, s4, last);
    }

    /**
     * TCPsend: announce the length, and on a reply starting with '>' write
     * the first `len` characters of the packet; success is "SEND OK".
     */
    method TCPsend(packet: seq<char>, len: byte) returns (ok: bool)
      requires Valid() && len <= |packet|
      modifies this`out, this`script, replybuffer
      ensures Valid()
      ensures var first := Next(old(script));
        !(|first| > 0 && first[0] == '>') ==>
          !ok && out == old(out) + Command("AT+CIPSEND=" + Decimal(len)) && script == Rest(old(script))
      ensures var first := Next(old(script));
        |first| > 0 && first[0] == '>' ==>
          && out == old(out) + Command("AT+CIPSEND=" + Decimal(len)) + packet[..len]
          && (ok <==> LineAt(old(script), 1) == "SEND OK")
          && script == Rest(Rest(old(script)))
    {
      LineAtRest(script, 0);
      out := out + Command("AT+CIPSEND=" + Decimal(len));
      var _ := Readline(DEFAULT_TIMEOUT);
      if replybuffer[0] != '>' {
        return false;
      }
      WritePacket(packet, len);
      var _ := Readline(3000);
      ok := Reply() == "SEND OK";
    }

    /** The putc loop of TCPsend: the first `len` characters of the packet, one at a time. */
    method WritePacket(packet: seq<char>, len: byte)
      requires Valid() && len <= |packet|
      modifies this`out
      ensures Valid()
      ensures out == old(out) + packet[..len]
    {
      ghost var start := out;
      var i := 0;
      while i < len
        invariant 0 <= i <= len
        invariant out == start + packet[..i]
      {
        out := out + [packet[i]];
        i := i + 1;
        assert packet[..i] == packet[..i - 1] + [packet[i - 1]];
      }
    }

    /** HTTP_init */
    method HTTPInit() returns (ok: bool)
      requires Valid()
      modifies this`out, this`script, replybuffer
      ensures Valid()
      ensures out == old(out) + Command("AT+HTTPINIT")
      ensures (ok <==> Next(old(script)) == "OK") && script == Rest(old(script))
    {
      ok := SendCheckReply("AT+HTTPINIT", "OK", DEFAULT_TIMEOUT);
    }

    /** HTTP_term */
    method HTTPTerm() returns (ok: bool)
      requires Valid()
      modifies this`out, this`script, replybuffer
      ensures Valid()
      ensures out == old(out) + Command("AT+HTTPTERM")
      ensures (ok <==> Next(old(script)) == "OK") && script == Rest(old(script))
    {
      ok := SendCheckReply("AT+HTTPTERM", "OK", DEFAULT_TIMEOUT);
    }

    /** HTTP_para_start: the command up to the value, with the opening quote when quoted. */
    method HTTPParaStart(parameter: string, quoted: bool)
      requires Valid()
      modifies this`out
      ensures Valid()
      ensures out == old(out) + ("AT+HTTPPARA=\"" + parameter + (if quoted then "\",\"" else "\","))
    {
      out := out + ("AT+HTTPPARA=\"" + parameter + (if quoted then "\",\"" else "\","));
    }

    /** HTTP_para_end: the closing quote when quoted, the line end, then "OK". */
    method HTTPParaEnd(quoted: bool) returns (ok: bool)
      requires Valid()
      modifies this`out, this`script, replybuffer
      ensures Valid()
      ensures out == old(out) + (if quoted then "\"\r\n" else "\r\n")
      ensures (ok <==> Next(old(script)) == "OK") && script == Rest(old(script))
    {
      out := out + (if quoted then "\"\r\n" else "\r\n");
      ok := ExpectReply("OK", DEFAULT_TIMEOUT);
    }

    /**
     * HTTP_para with a string value: the whole AT+HTTPPARA command, quoted,
     * with the value sent as written, which is what printf("%s", value)
     * does. The source passes the value to printf as the format itself,
     * whose output is defined only while the value holds no conversion
     * (CString.BarePrintf); an encoded URL always holds one
     * (Publish.EncodedUrlIsNoFormat).
     */
    method HTTPParaText(parameter: string, value: string) returns (ok: bool)
      requires Valid()
      modifies this`out, this`script, replybuffer
      ensures Valid()
      ensures out == old(out) + ParaText(parameter, value)
      ensures (ok <==> Next(old(script)) == "OK") && script == Rest(old(script))
    {
      ghost var o := out;
      HTTPParaStart(parameter, true);
      out := out + value;
      ok := HTTPParaEnd(true);
      assert out == o + ((("AT+HTTPPARA=\"" + parameter + "\",\"") + value) + "\"\r\n");
    }

    /** HTTP_para with a number, written by printf("%d"). */
    method HTTPParaInt(parameter: string, value: int32) returns (ok: bool)
      requires Valid()
      modifies this`out, this`script, replybuffer
      ensures Valid()
      ensures out == old(out) + ParaInt(parameter, value)
      ensures (ok <==> Next(old(script)) == "OK") && script == Rest(old(script))
    {
      ghost var o := out;
      HTTPParaStart(parameter, false);
      out := out + Decimal(value);
      ok := HTTPParaEnd(false);
      assert out == o + ((("AT+HTTPPARA=\"" + parameter + "\",") + Decimal(value)) + "\r\n");
    }

    /** HTTP_ssl: AT+HTTPSSL= with 1 or 0. */
    method HTTPSsl(onoff: bool) returns (ok: bool)
      requires Valid()
      modifies this`out, this`script, replybuffer
      ensures Valid()
      ensures out == old(out) + Command("AT+HTTPSSL=" + Decimal(if onoff then 1 else 0))
      ensures (ok <==> Next(old(script)) == "OK") && script == Rest(old(script))
    {
      ok := SendCheckReplyInt("AT+HTTPSSL=", if onoff then 1 else 0, "OK", DEFAULT_TIMEOUT);
    }

    /** The HTTPS part of HTTP_setup: REDIR set to 1, then SSL on. */
    method HTTPRedirect(ghost out0: string, ghost goal: Outcome) returns (ok: bool)
      requires Valid()
      requires Tracks(out0, goal, out, script,
        [Step(ParaInt("REDIR", 1), "OK", true)] + [OkStep("AT+HTTPSSL=" + Decimal(1))])
      modifies this`out, this`script, replybuffer
      ensures Valid()
      ensures Ended(out0, goal, out, script, ok)
    {
      var ssl := OkStep("AT+HTTPSSL=" + Decimal(1));
      ghost var o0, s0 := out, script;
      ok := HTTPParaInt("REDIR", 1);
      Stepped(out0, goal, o0, s0, Step(ParaInt("REDIR", 1), "OK", true), [ssl]);
      if !ok {
        return;
      }
      ghost var o1, s1 := out, script;
      ok := HTTPSsl(true);
      SteppedLast(out0, goal, o1, s1, ssl);
    }

    /**
     * HTTP_setup: terminate any pending session (its reply is not checked),
     * initialise, set CID, UA and URL, and REDIR and SSL when redirecting.
     */
    method HTTPSetup(url: string) returns (ok: bool)
      requires Valid()
      modifies this`out, this`script, replybuffer
      ensures Valid()
      ensures Ended(old(out), Exchange(HttpSetupSteps(url, useragent, httpsredirect), old(script)), out, script, ok)
    {
      ghost var out0, goal := out, Exchange(HttpSetupSteps(url, useragent, httpsredirect), script);
      ghost var t2 := HttpParaSteps(url, useragent, httpsredirect);
      ghost var t1 := [OkStep("AT+HTTPINIT")] + t2;
      assert Tracks(out0, goal, out, script, [Step(Command("AT+HTTPTERM"), "OK", false)] + t1);
      ghost var o0, s0 := out, script;
      var _ := HTTPTerm();
      Stepped(out0, goal, o0, s0, Step(Command("AT+HTTPTERM"), "OK", false), t1);
      assert Tracks(out0, goal, out, script, t1);
      ghost var o1, s1 := out, script;
      ok := HTTPInit();
      Stepped(out0, goal, o1, s1, OkStep("AT+HTTPINIT"), t2);
      if !ok {
        return;
      }
      ok := HTTPParameters(url, out0, goal);
    }

    /** The second part of HTTP_setup: CID, UA and URL, then REDIR and SSL when redirecting. */
    method HTTPParameters(url: string, ghost out0: string, ghost goal: Outcome) returns (ok: bool)
      requires Valid() && Tracks(out0, goal, out, script, HttpParaSteps(url, useragent, httpsredirect))
      modifies this`out, this`script, replybuffer
      ensures Valid() && Ended(out0, goal, out, script, ok)
    {
      ghost var t5: seq<Step> :=
        if httpsredirect then [Step(ParaInt("REDIR", 1), "OK", true)] + [OkStep("AT+HTTPSSL=" + Decimal(1))] else [];
      ghost var t4 := [Step(ParaText("URL", url), "OK", true)] + t5;
      ghost var t3 := [Step(ParaText("UA", useragent), "OK", true)] + t4;
      assert Tracks(out0, goal, out, script, [Step(ParaInt("CID", 1), "OK", true)] + t3);
      ghost var o2, s2 := out, script;
      ok := HTTPParaInt("CID", 1);
      Stepped(out0, goal, o2, s2, Step(ParaInt("CID", 1), "OK", true), t3);
      if !ok {
        return;
      }
      assert Tracks(out0, goal, out, script, t3);
      ghost var o3, s3 := out, script;
      ok := HTTPParaText("UA", useragent);
      Stepped(out0, goal, o3, s3, Step(ParaText("UA", useragent), "OK", true), t4);
      if !ok {
        return;
      }
      assert Tracks(out0, goal, out, script, t4);
      ghost var o4, s4 := out, script;
      ok := HTTPParaText("URL", url);
      Stepped(out0, goal, o4, s4, Step(ParaText("URL", url), "OK", true), t5);
      if !ok {
        return;
      }
      assert Tracks(out0, goal, out, script, t5);
      if httpsredirect {
        ok := HTTPRedirect(out0, goal);
      } else {
        Finished(out0, goal, out, script);
      }
    }
  }
}
