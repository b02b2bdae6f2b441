/**
 * The GPS report tokenizer, the bounded append buffer and the non-float
 * fields of the TK102 packet (mbed/gpsdata.cpp). mbed/main.cpp holds the
 * same code for all three, but its own TK102Packet declares the members in
 * another order (main.cpp:355-389); the contract of update follows the
 * order of mbed/gpsdata.h.
 *
 * A C string is the sequence of its characters before the NUL; a pointer
 * into it is an index, `None` the null pointer.
 */
module Tracker {
  import opened CString

  /** strchr: the terminator itself is found when `c` is NUL. */
  function CStrChr(s: string, c: char): (r: Option<nat>)
    requires NUL !in s
    ensures r.Some? ==> r.value <= |s| && c !in s[..r.value]
    ensures r.Some? && r.value < |s| ==> s[r.value] == c
    ensures r.Some? && r.value == |s| ==> c == NUL
    ensures r.None? <==> c != NUL && c !in s
  {
    IndexOfSpec(s, c);
    if c == NUL then Some(|s|) else IndexOf(s, c)
  }

  // ---------------------------------------------------------------------
  // SimpleTokenizer, as written

  /** The first `del` at or after index `i` of `text` (the terminator when `del` is NUL), or null. */
  function FindFrom(text: string, del: char, i: nat): (r: Option<nat>)
    requires i <= |text|
    ensures r.Some? ==> i <= r.value <= |text|
    ensures r.Some? && r.value < |text| ==> text[r.value] == del
    ensures r.Some? && r.value == |text| ==> del == NUL
    decreases |text| - i
  {
    if i == |text| then (if del == NUL then Some(i) else None)
    else if text[i] == del then Some(i)
    else FindFrom(text, del, i + 1)
  }

  /** Nothing before the place FindFrom stops is the delimiter, and it gives null only when the delimiter is absent. */
  lemma {:induction false} FindFromFirst(text: string, del: char, i: nat)
    requires i <= |text|
    ensures FindFrom(text, del, i).Some? ==> del !in text[i..FindFrom(text, del, i).value]
    ensures FindFrom(text, del, i).None? <==> del != NUL && del !in text[i..]
    decreases |text| - i
  {
    if i < |text| && text[i] != del {
      FindFromFirst(text, del, i + 1);
      assert text[i..] == [text[i]] + text[i + 1..];
      if FindFrom(text, del, i).Some? {
        var r := FindFrom(text, del, i).value;
        assert text[i..r] == [text[i]] + text[i + 1..r];
      }
    }
  }

  /** strchr on the text from index `i` on finds what FindFrom finds. */
  lemma {:induction false} FindFromIsStrChr(text: string, del: char, i: nat)
    requires NUL !in text && i <= |text|
    ensures FindFrom(text, del, i) == match CStrChr(text[i..], del)
                                        case None => None
                                        case Some(k) => Some(i + k)
    decreases |text| - i
  {
    if i < |text| && text[i] != del {
      FindFromIsStrChr(text, del, i + 1);
      assert text[i..][1..] == text[i + 1..];
    }
  }

  /** SimpleTokenizer: `at` is `_str`, null or a pointer into `text`. */
  class Tokenizer {
    const text: string
    const del: char
    var at: Option<nat>

    ghost predicate Valid()
      reads this
    {
      NUL !in text && (at.Some? ==> at.value <= |text|)
    }

    constructor (str: string, delimiter: char)
      requires NUL !in str
      ensures Valid() && text == str && del == delimiter && at == Some(0)
    {
      text := str;
      del := delimiter;
      at := Some(0);
    }

    /**
     * next(): the current pointer, which then moves to the first delimiter
     * at or after it (not past it), or to null when none is left.
     */
    method Next() returns (tok: Option<nat>)
      requires Valid()
      modifies this
      ensures Valid() && tok == old(at)
      ensures at == match old(at)
                      case None => None
                      case Some(i) => FindFrom(text, del, i)
    {
      if at.None? {
        return None;
      }
      tok := at;
      FindFromIsStrChr(text, del, at.value);
      var rest := text[at.value..];
      var nextPtr := CStrChr(rest, del);
      if nextPtr.None? {
        at := None;
      } else {
        at := Some(tok.value + nextPtr.value);
      }
    }
  }

  /**
   * `n` calls of next() that give up at the first null token. Once the
   * tokenizer stands on a delimiter it stays there: every token is that
   * same pointer, so none is null.
   */
  method SkipTokens(t: Tokenizer, n: nat) returns (ok: bool)
    requires t.Valid() && t.at.Some? && t.at.value < |t.text| && t.text[t.at.value] == t.del
    modifies t
    ensures t.Valid() && t.at == old(t.at) && ok
  {
    for index := 0 to n
      invariant t.Valid() && t.at == old(t.at)
    {
      var tok := t.Next();
      if tok.None? {
        return false;
      }
    }
    return true;
  }

  // ---------------------------------------------------------------------
  // TK102Packet, the fields that are not floating point

  /** The size of gpsTime[10]. */
  const GPS_TIME_SIZE: nat := 10
  /** The bytes between the end of gpsTime and datetime: the four 4-byte floats latitude, longitude, speedKnots and course. */
  const FLOATS_SIZE: nat := 16

  class Packet {
    /**
     * The bytes the last update's memcpy into gpsTime wrote past its ten
     * cells, over the members declared after it: the four floats, then
     * datetime, allowedNumber, fix, status and imei.
     */
    var spill: string
    var datetime: string
    var allowedNumber: string
    /** The ten cells of gpsTime, which hold no terminator. */
    var gpsTime: string
    var gpsDate: string
    var status: string
    var imei: string
    var mcc: string
    var mnc: string
    var lac: string
    var cellID: string
    var fix: char
    var satCount: int

    /** The fields update() does not set. */
    function Untouched(): seq<string>
      reads this
    {
      [allowedNumber, status, imei, mcc, mnc, lac, cellID]
    }

    /** gpsTime has its ten cells. */
    ghost predicate Valid()
      reads this
    {
      |gpsTime| == GPS_TIME_SIZE
    }

    /**
     * TK102Packet(): every text field empty. The constructor sets only the
     * first cell of gpsTime; the model starts the other nine as NUL too.
     */
    constructor ()
      ensures Valid() && gpsTime[0] == NUL
      ensures datetime == allowedNumber == gpsDate == status == imei == ""
      ensures mcc == mnc == lac == cellID == "" && spill == ""
    {
      spill := "";
      gpsTime := seq(GPS_TIME_SIZE, _ => NUL);
      datetime, allowedNumber, gpsDate, status := "", "", "", "";
      imei, mcc, mnc, lac, cellID := "", "", "", "", "";
    }

    /**
     * update(str) with the tokenizer as written: after the first token every
     * token is the rest of the report from its first comma, so the fix
     * token compared with "1" and the date token are both that rest. The
     * time is copied with memcpy for the whole rest of that token: the
     * first ten bytes land in gpsTime, whose later cells keep their bytes
     * when the time is shorter, and the others spill over the members
     * after it. What update set in datetime, fix and the satellite count,
     * and the members it does not set, hold only while the spill stays
     * within the four floats. This is the member order of gpsdata.h, where
     * gpsDate lies before gpsTime.
     */
    method Update(str: string) returns (ok: bool)
      requires NUL !in str && Valid()
      modifies this
      ensures Valid()
      ensures ok <==> FindFrom(str, ',', 0).Some? && |StuckToken(str)| >= 14
      ensures ok ==> var time, k := StuckToken(str)[8..], Min(|StuckToken(str)| - 8, GPS_TIME_SIZE);
                     gpsTime == time[..k] + old(gpsTime)[k..] && spill == time[k..]
      ensures ok ==> gpsDate == StuckToken(str)[2..8]
      ensures ok && |spill| <= FLOATS_SIZE ==>
        datetime == StuckToken(str)[2..14] &&
        fix == (if StuckToken(str) == "1" then 'F' else 'L') &&
        satCount == (match ScanInt(StuckToken(str)) case Some(n) => n case None => old(satCount)) &&
        Untouched() == old(Untouched())
      ensures !ok && FindFrom(str, ',', 0).Some? ==> fix == if StuckToken(str) == "1" then 'F' else 'L'
      ensures FindFrom(str, ',', 0).None? ==> fix == old(fix)
      ensures !ok ==> datetime == old(datetime) && gpsDate == old(gpsDate) && gpsTime == old(gpsTime) &&
                      satCount == old(satCount) && spill == old(spill) && Untouched() == old(Untouched())
    {
      var tokenizer := new Tokenizer(str, ',');
      ghost var c := FindFrom(str, ',', 0);
      // <GNSS run status>
      var tok := tokenizer.Next();
      if tok.None? {
        return false;
      }
      // <Fix status>
      tok := tokenizer.Next();
      if tok.None? {
        return false;
      }
      assert tok == c;
      fix := if str[tok.value..] == "1" then 'F' else 'L';
      // <UTC date & Time>
      tok := tokenizer.Next();
      if tok.None? {
        return false;
      }
      assert tok == c;
      var date := str[tok.value..];
      if |date| < 14 {
        return false;
      }
      datetime := date[2..14];
      gpsDate := date[2..8];
      var time := date[8..];
      var k := Min(|time|, GPS_TIME_SIZE);
      gpsTime := time[..k] + gpsTime[k..];
      spill := time[k..];
      assert str[c.value] == ',' && tokenizer.at == c;
      // <Latitude>, <Longitude>, <MSL Altitude>, <Speed Over Ground>, <Course Over Ground>:
      // read as floats, which this model leaves out
      var read := SkipTokens(tokenizer, 5);
      if !read {
        return false;
      }
      // seven skipped fields
      read := SkipTokens(tokenizer, 7);
      if !read {
        return false;
      }
      // <GNSS Satellites Used>
      tok := tokenizer.Next();
      if tok.None? {
        return false;
      }
      assert tok == c;
      satCount := match ScanInt(str[tok.value..]) case Some(n) => n case None => satCount;
      return true;
    }
  }

  /** The report from its first comma on: every token after the first, as written. */
  function StuckToken(str: string): string
    requires FindFrom(str, ',', 0).Some?
  {
    str[FindFrom(str, ',', 0).value..]
  }

  /**
   * As written, a report with a comma never yields fix 'F', and the
   * satellite count is never read: both tokens start with the comma.
   */
  lemma StuckTokenizerNeverFixes(str: string)
    requires FindFrom(str, ',', 0).Some?
    ensures StuckToken(str) != "1"
    ensures ScanInt(StuckToken(str)).None?
  {
    var t := StuckToken(str);
    assert t[0] == ',';
    assert SkipSpace(t) == t;
    assert DigitRun(t) == 0;
  }

  // ---------------------------------------------------------------------
  // The tokenizer as intended: fields between the delimiters

  /** The packet fields a report sets when every field is read from its own token. */
  datatype Report = Report(fix: char, datetime: string, gpsDate: string, gpsTime: string, satCount: Option<int>)

  /**
   * update(str) with a tokenizer that steps past the delimiter and ends
   * each token there: the run status, fix and date fields, five numeric
   * fields, seven skipped fields, then the satellites used (field 15).
   * The time is copied for at most the ten cells of gpsTime.
   */
  function IntendedUpdate(str: string): (r: Option<Report>)
    ensures r.Some? ==> |r.value.gpsTime| <= GPS_TIME_SIZE
  {
    var f := Split(str, ',');
    if |f| < 16 || |f[2]| < 14 then None
    else
      var time := f[2][8..];
      Some(Report(if f[1] == "1" then 'F' else 'L', f[2][2..14], f[2][2..8], time[..Min(|time|, GPS_TIME_SIZE)],
                  ScanInt(f[15])))
  }

  /** As intended, the fix flag is 'F' exactly when the fix-status field is "1", and the date is cut from the date field. */
  lemma IntendedFix(str: string)
    requires IntendedUpdate(str).Some?
    ensures var f, r := Split(str, ','), IntendedUpdate(str).value;
            (r.fix == 'F' <==> f[1] == "1") && r.fix in {'F', 'L'} &&
            |r.datetime| == 12 && r.datetime[..6] == r.gpsDate && f[2] == f[2][..2] + r.datetime + f[2][14..] &&
            r.gpsTime <= f[2][8..] && (|f[2]| <= 18 ==> r.gpsTime == f[2][8..])
  {
  }

  /**
   * Any report whose fix-status field is "1" shows the stuck tokenizer: as
   * intended the packet says 'F', as written it says 'L'.
   */
  lemma FixedReportShowsStuckTokenizer(str: string)
    requires NUL !in str && IntendedUpdate(str).Some? && Split(str, ',')[1] == "1"
    ensures FindFrom(str, ',', 0).Some? && StuckToken(str) != "1"
    ensures IntendedUpdate(str).value.fix == 'F'
  {
    FindFromFirst(str, ',', 0);
    assert str[0..] == str;
    StuckTokenizerNeverFixes(str);
  }

  /** The stuck token is the report from the comma that ends its first field. */
  lemma StuckTokenAfterFirstField(str: string)
    requires |Split(str, ',')| > 1
    ensures FindFrom(str, ',', 0).Some?
    ensures StuckToken(str) == [','] + Join(Split(str, ',')[1..], ',')
  {
    var f := Split(str, ',');
    JoinSplit(str, ',');
    SplitFree(str, ',');
    assert str == f[0] + [','] + Join(f[1..], ',');
    var n := |f[0]|;
    assert str[n] == ',' && str[..n] == f[0];
    FindFromFirst(str, ',', 0);
    assert FindFrom(str, ',', 0).Some? by {
      assert ',' in str[0..];
    }
  }

  /**
   * As written, update(str) copies the whole rest of the stuck token into
   * gpsTime: for every report the intended reading accepts, at least 11
   * bytes land past the ten cells of gpsTime.
   */
  lemma GpsTimeOverruns(str: string)
    requires IntendedUpdate(str).Some?
    ensures FindFrom(str, ',', 0).Some? && |StuckToken(str)| >= 14
    ensures |StuckToken(str)[8..]| - GPS_TIME_SIZE >= 11
  {
    var f := Split(str, ',');
    StuckTokenAfterFirstField(str);
    JoinLength(f[1..], ',', 1);
  }

  // ---------------------------------------------------------------------
  // BufString

  /** `buf` with `bs` written from index `at` on; the buffer grows when the write runs past its end. */
  function Write(buf: seq<char>, at: nat, bs: seq<char>): (r: seq<char>)
    requires at <= |buf|
    ensures |r| == if at + |bs| <= |buf| then |buf| else at + |bs|
    ensures r[..at] == buf[..at] && r[at..at + |bs|] == bs
  {
    if at + |bs| <= |buf| then buf[..at] + bs + buf[at + |bs|..] else buf[..at] + bs
  }

  /** A bounded append buffer over caller memory: `buffer` is that memory from `_buffer` on, `length` the used part. */
  class BufString {
    var buffer: seq<char>
    const capacity: int
    var length: int

    ghost predicate Valid()
      reads this
    {
      0 <= length <= |buffer|
    }

    /** The text held: the used part of the buffer. */
    function Text(): string
      reads this
      requires Valid()
    {
      buffer[..length]
    }

    /** BufString(buffer, bufSize, length). */
    constructor (buf: seq<char>, bufSize: int, len: int)
      requires 0 <= len <= |buf|
      ensures Valid() && buffer == buf && capacity == bufSize && length == len
    {
      buffer, capacity, length := buf, bufSize, len;
    }

    /** BufString(string): a full buffer over an existing C string. */
    constructor FromString(s: seq<char>)
      ensures Valid() && buffer == s && capacity == length == |CStr(s)| && Text() == CStr(s)
    {
      buffer := s;
      capacity, length := |CStr(s)|, |CStr(s)|;
    }

    /** += char: append when one more character fits the capacity, else change nothing. */
    method AppendChar(c: char)
      requires Valid()
      modifies this
      ensures Valid()
      ensures 1 + old(length) > capacity ==> buffer == old(buffer) && length == old(length)
      ensures 1 + old(length) <= capacity ==>
                buffer == Write(old(buffer), old(length), [c]) && length == old(length) + 1 &&
                Text() == old(Text()) + [c]
      ensures old(length) <= capacity ==> length <= capacity
      ensures |buffer| <= if capacity <= |old(buffer)| then |old(buffer)| else capacity
    {
      if 1 + length > capacity {
        // overflow
      } else {
        buffer := Write(buffer, length, [c]);
        length := length + 1;
      }
    }

    /**
     * += BufString: copy the other text in after this one when both fit the
     * capacity; as written the length does not move, so the text held is
     * the same as before.
     */
    method Append(other: BufString)
      requires Valid() && other.Valid()
      modifies this
      ensures Valid()
      ensures other.length + old(length) > capacity ==> buffer == old(buffer) && length == old(length)
      ensures other.length + old(length) <= capacity ==>
                buffer == Write(old(buffer), old(length), old(other.Text())) && length == old(length)
      ensures Text() == old(Text())
    {
      if other.length + length > capacity {
        // overflow
      } else {
        buffer := Write(buffer, length, other.Text());
      }
    }

    /** += BufString as evidently intended: the copied text becomes part of the text held. */
    method AppendAdvancing(other: BufString)
      requires Valid() && other.Valid()
      modifies this
      ensures Valid()
      ensures old(other.length) + old(length) > capacity ==> buffer == old(buffer) && length == old(length)
      ensures old(other.length) + old(length) <= capacity ==>
                Text() == old(Text()) + old(other.Text()) && length == old(length) + old(other.length)
      ensures old(length) <= capacity ==> length <= capacity
      ensures |buffer| <= if capacity <= |old(buffer)| then |old(buffer)| else capacity
    {
      if other.length + length > capacity {
        // overflow
      } else {
        var t := other.Text();
        buffer := Write(buffer, length, t);
        length := length + |t|;
      }
    }

    /**
     * += int: when eight more characters fit, sprintf("%d") writes the
     * digits and a NUL after the text and the length grows by the digits.
     */
    method AppendInt(n: int)
      requires Valid() && -0x8000_0000 <= n < 0x8000_0000
      modifies this
      ensures Valid()
      ensures 8 + old(length) > capacity ==> buffer == old(buffer) && length == old(length)
      ensures 8 + old(length) <= capacity ==>
                buffer == Write(old(buffer), old(length), Decimal(n) + [NUL]) &&
                Text() == old(Text()) + Decimal(n)
    {
      if 8 + length > capacity {
        // overflow
      } else {
        var digits := Decimal(n);
        buffer := Write(buffer, length, digits + [NUL]);
        length := length + |digits|;
      }
    }

    /** += int as evidently intended: append only when the digits and the NUL fit. */
    method AppendIntChecked(n: int)
      requires Valid() && -0x8000_0000 <= n < 0x8000_0000
      modifies this
      ensures Valid()
      ensures |Decimal(n)| + 1 + old(length) > capacity ==> buffer == old(buffer) && length == old(length)
      ensures |Decimal(n)| + 1 + old(length) <= capacity ==> Text() == old(Text()) + Decimal(n)
      ensures old(length) <= capacity ==> length <= capacity
      ensures |buffer| <= if capacity <= |old(buffer)| then |old(buffer)| else capacity
    {
      var digits := Decimal(n);
      if |digits| + 1 + length > capacity {
        // overflow
      } else {
        buffer := Write(buffer, length, digits + [NUL]);
        length := length + |digits|;
      }
    }
  }

  /** Appending a text of `k` characters after `n` ones the way `+=` does leaves the text held at `n`. */
  lemma AppendLosesText(buf: seq<char>, n: nat, t: string)
    requires n <= |buf|
    ensures Write(buf, n, t)[..n] == buf[..n]
  {
  }

  /** The decimal digits of a number of at least 10^k are more than k. */
  lemma {:induction false} DigitsAtLeast(n: nat, k: nat, p: nat)
    requires p == Pow10(k) && n >= p
    ensures |Digits(n)| > k
    decreases k
  {
    if k > 0 {
      DigitsAtLeast(n / 10, k - 1, Pow10(k - 1));
    }
  }

  function Pow10(k: nat): nat
  {
    if k == 0 then 1 else 10 * Pow10(k - 1)
  }

  /**
   * += int reserves eight characters, but ten million has eight digits and
   * sprintf adds a NUL: in a buffer of capacity 8 it writes a ninth.
   */
  lemma AppendIntOverruns()
    ensures |Write([], 0, Decimal(10_000_000) + [NUL])| > 8
  {
    assert Pow10(7) == 10_000_000;
    DigitsAtLeast(10_000_000, 7, Pow10(7));
  }
}
