/**
 * Helpers shared by the firmware models: fixed-width integers, the
 * Option type, and the C library string routines the firmware leans on
 * (strchr, strstr, atoi, sscanf("%d") and printf("%d")).
 *
 * A C string is modelled as the sequence of its characters before the
 * terminating NUL; a raw character buffer is a `seq<char>` in which the
 * C string is the prefix before the first NUL (`CStr`).
 */
module CString {

  /** uint8_t */
  type byte = x: int | 0 <= x < 0x100
  /** uint16_t */
  type uint16 = x: int | 0 <= x < 0x1_0000

  datatype Option<T> = None | Some(value: T)

  const NUL: char := 0 as char
  const CR: char := '\r'
  const LF: char := '\n'

  /** Conversion of an integer to uint8_t (modulo 2^8). */
  function ToU8(x: int): (r: byte)
    ensures 0 <= x < 0x100 ==> r == x
    ensures (r - x) % 0x100 == 0
  {
    x % 0x100
  }

  /** Conversion of an integer to uint16_t (modulo 2^16). */
  function ToU16(x: int): (r: uint16)
    ensures 0 <= x < 0x1_0000 ==> r == x
    ensures (r - x) % 0x1_0000 == 0
  {
    x % 0x1_0000
  }

  /** Conversion of an integer to int8_t (two's complement wrap). */
  function ToI8(x: int): (r: int)
    ensures -0x80 <= r < 0x80
    ensures -0x80 <= x < 0x80 ==> r == x
    ensures (r - x) % 0x100 == 0
  {
    var u := x % 0x100;
    if u < 0x80 then u else u - 0x100
  }

  /** Conversion of an integer to int16_t (two's complement wrap). */
  function ToI16(x: int): (r: int)
    ensures -0x8000 <= r < 0x8000
    ensures -0x8000 <= x < 0x8000 ==> r == x
    ensures (r - x) % 0x1_0000 == 0
  {
    var u := x % 0x1_0000;
    if u < 0x8000 then u else u - 0x1_0000
  }

  function Min(a: nat, b: nat): nat
  {
    if a <= b then a else b
  }

  /**
   * The bytes a serial receiver delivers during the k-th delay of a blocking
   * read (none once the supplied schedule runs out).
   */
  function BatchAt(arrivals: seq<seq<byte>>, k: nat): seq<byte>
  {
    if k < |arrivals| then arrivals[k] else []
  }

  /** The characters of received bytes, one per byte. */
  function Chars(bs: seq<byte>): (s: string)
    ensures |s| == |bs| && forall i :: 0 <= i < |bs| ==> s[i] == bs[i] as char
  {
    seq(|bs|, i requires 0 <= i < |bs| => bs[i] as char)
  }

  /** The C string held in a raw buffer: everything before the first NUL. */
  function CStr(buf: seq<char>): (s: string)
    ensures |s| <= |buf| && s == buf[..|s|]
    ensures NUL !in s
    ensures |s| < |buf| ==> buf[|s|] == NUL
  {
    if |buf| == 0 || buf[0] == NUL then [] else [buf[0]] + CStr(buf[1..])
  }

  /** A buffer with no NUL in it reads as itself. */
  lemma CStrOfText(s: string)
    requires NUL !in s
    ensures CStr(s) == s
  {
  }

  /** strchr: the index of the first occurrence of `c` in `s`. */
  function IndexOf(s: string, c: char): (r: Option<nat>)
    ensures r.Some? ==> r.value < |s| && s[r.value] == c
  {
    if |s| == 0 then None
    else if s[0] == c then Some(0)
    else match IndexOf(s[1..], c)
      case None => None
      case Some(i) => Some(i + 1)
  }

  /** strchr finds the first `c`, and finds none exactly when `s` holds no `c`. */
  lemma {:induction false} IndexOfSpec(s: string, c: char)
    ensures IndexOf(s, c).Some? ==> c !in s[..IndexOf(s, c).value]
    ensures IndexOf(s, c).None? <==> c !in s
    decreases |s|
  {
    if |s| > 0 && s[0] != c {
      IndexOfSpec(s[1..], c);
      assert s == [s[0]] + s[1..];
      match IndexOf(s[1..], c)
        case None =>
        case Some(i) => assert s[..i + 1] == [s[0]] + s[1..][..i];
    }
  }

  /** strchr returns the first index holding `c`. */
  lemma IndexOfFirst(s: string, c: char, k: nat)
    requires k < |s| && s[k] == c && c !in s[..k]
    ensures IndexOf(s, c) == Some(k)
  {
    IndexOfSpec(s, c);
    assert s[k] in s;
    var m := IndexOf(s, c).value;
    assert forall i :: 0 <= i < k ==> s[..k][i] == s[i];
    assert forall i :: 0 <= i < m ==> s[..m][i] == s[i];
  }

  /** `pat` occurs in `s` starting at index `j`. */
  predicate OccursAt(s: string, pat: string, j: nat)
  {
    j + |pat| <= |s| && s[j..j + |pat|] == pat
  }

  /** strstr: the index of the first occurrence of `pat` in `s`. */
  function Find(s: string, pat: string): (r: Option<nat>)
    ensures r.Some? ==> r.value + |pat| <= |s| && OccursAt(s, pat, r.value)
  {
    if |s| < |pat| then None
    else if s[..|pat|] == pat then Some(0)
    else match Find(s[1..], pat)
      case None => None
      case Some(i) =>
        assert s[1..][i..i + |pat|] == s[i + 1..i + 1 + |pat|];
        Some(i + 1)
  }

  /** strstr finds the first occurrence, and finds nothing only when there is none. */
  lemma {:induction false} FindFirst(s: string, pat: string)
    ensures var r := Find(s, pat);
            (r.Some? ==> forall j :: 0 <= j < r.value ==> !OccursAt(s, pat, j)) &&
            (r.None? ==> forall j :: 0 <= j ==> !OccursAt(s, pat, j))
    decreases |s|
  {
    if |s| >= |pat| && s[..|pat|] != pat {
      FindFirst(s[1..], pat);
      forall j | 1 <= j
        ensures OccursAt(s, pat, j) == OccursAt(s[1..], pat, j - 1)
      {
        if j + |pat| <= |s| {
          assert s[1..][j - 1..j - 1 + |pat|] == s[j..j + |pat|];
        }
      }
      assert !OccursAt(s, pat, 0);
    }
  }

  /** isspace in the C locale. */
  predicate IsSpace(c: char)
  {
    c == ' ' || c == '\t' || c == '\n' || c == '\r' || c == 11 as char || c == 12 as char
  }

  predicate IsDigit(c: char)
  {
    '0' <= c <= '9'
  }

  function DigitChar(d: nat): (c: char)
    requires d < 10
    ensures IsDigit(c) && c as int - '0' as int == d
  {
    (d + '0' as int) as char
  }

  /** The number of leading decimal digits of `s`. */
  function DigitRun(s: string): (n: nat)
    ensures n <= |s|
    ensures forall i :: 0 <= i < n ==> IsDigit(s[i])
    ensures n < |s| ==> !IsDigit(s[n])
  {
    if |s| > 0 && IsDigit(s[0]) then 1 + DigitRun(s[1..]) else 0
  }

  /** The value of a string of decimal digits, most significant first. */
  function DigitsValue(ds: string): nat
    requires forall i :: 0 <= i < |ds| ==> IsDigit(ds[i])
  {
    if |ds| == 0 then 0
    else
      assert IsDigit(ds[|ds| - 1]);
      10 * DigitsValue(ds[..|ds| - 1]) + (ds[|ds| - 1] as int - '0' as int) as nat
  }

  /** `s` with its leading white space removed. */
  function SkipSpace(s: string): (t: string)
    ensures |t| <= |s|
    ensures |t| > 0 ==> !IsSpace(t[0])
  {
    if |s| > 0 && IsSpace(s[0]) then SkipSpace(s[1..]) else s
  }

  /** The optional sign and the digits that follow it, after white space. */
  function SignAndDigits(s: string): (r: (bool, string))
    ensures forall i :: 0 <= i < |r.1| ==> IsDigit(r.1[i])
  {
    var t := SkipSpace(s);
    if |t| > 0 && (t[0] == '-' || t[0] == '+') then
      (t[0] == '-', t[1..][..DigitRun(t[1..])])
    else
      (false, t[..DigitRun(t)])
  }

  /** atoi (a value that does not fit an int is not modelled: it is undefined in C). */
  function Atoi(s: string): int
  {
    var (neg, ds) := SignAndDigits(s);
    var v: int := DigitsValue(ds);
    if neg then -v else v
  }

  /** sscanf(s, "%d", &v): the value when at least one digit follows the optional sign. */
  function ScanInt(s: string): (r: Option<int>)
    ensures r.Some? ==> r.value == Atoi(s)
    ensures r.None? <==> SignAndDigits(s).1 == []
  {
    var (neg, ds) := SignAndDigits(s);
    if |ds| == 0 then None else Some(Atoi(s))
  }

  /** The decimal digits of a natural number, as printf("%u") writes them. */
  function Digits(n: nat): (ds: string)
    ensures |ds| > 0
    ensures forall i :: 0 <= i < |ds| ==> IsDigit(ds[i])
    decreases n
  {
    if n < 10 then [DigitChar(n)] else Digits(n / 10) + [DigitChar(n % 10)]
  }

  /** printf("%d"): a minus sign for a negative value, then the digits. */
  function Decimal(n: int): (s: string)
    ensures |s| > 0
  {
    if n < 0 then "-" + Digits(-n) else Digits(n)
  }

  lemma {:induction false} DigitsValueOfDigits(n: nat)
    ensures DigitsValue(Digits(n)) == n
    decreases n
  {
    if n >= 10 {
      var ds := Digits(n);
      assert ds[..|ds| - 1] == Digits(n / 10);
      DigitsValueOfDigits(n / 10);
    }
  }

  lemma {:induction false} DigitRunOfDigits(ds: string, rest: string)
    requires forall i :: 0 <= i < |ds| ==> IsDigit(ds[i])
    requires |rest| > 0 ==> !IsDigit(rest[0])
    ensures DigitRun(ds + rest) == |ds|
    decreases |ds|
  {
    if |ds| > 0 {
      assert (ds + rest)[1..] == ds[1..] + rest;
      DigitRunOfDigits(ds[1..], rest);
    }
  }

  lemma SignAndDigitsOfRun(ds: string, rest: string)
    requires |ds| > 0 && forall i :: 0 <= i < |ds| ==> IsDigit(ds[i])
    requires |rest| > 0 ==> !IsDigit(rest[0])
    ensures SignAndDigits(ds + rest) == (false, ds)
    ensures SignAndDigits("-" + (ds + rest)) == (true, ds)
  {
    var t := ds + rest;
    assert t[0] == ds[0];
    assert !IsSpace(t[0]);
    assert SkipSpace(t) == t;
    DigitRunOfDigits(ds, rest);
    assert t[..|ds|] == ds;
    assert t[0] != '-' && t[0] != '+';
    var s := "-" + t;
    assert s[0] == '-';
    assert !IsSpace(s[0]);
    assert SkipSpace(s) == s;
    assert s[1..] == t;
  }

  /** The magnitude printf("%d") writes digits for. */
  function Magnitude(n: int): nat
  {
    if n < 0 then -n else n
  }

  /** The sign and digit run atoi sees in what printf("%d") writes. */
  lemma SignAndDigitsOfDecimal(n: int, rest: string)
    requires |rest| > 0 ==> !IsDigit(rest[0])
    ensures SignAndDigits(Decimal(n) + rest) == (n < 0, Digits(Magnitude(n)))
  {
    var ds := Digits(Magnitude(n));
    var s := Decimal(n) + rest;
    if n < 0 {
      assert s == "-" + (ds + rest) by {
        assert Decimal(n) == "-" + ds;
      }
    } else {
      assert s == ds + rest by {
        assert Decimal(n) == ds;
      }
    }
    SignAndDigitsOfRun(ds, rest);
  }

  /** atoi and sscanf("%d") read back what printf("%d") writes, up to the first non-digit. */
  lemma AtoiDecimalThen(n: int, rest: string)
    requires |rest| > 0 ==> !IsDigit(rest[0])
    ensures Atoi(Decimal(n) + rest) == n
    ensures ScanInt(Decimal(n) + rest) == Some(n)
  {
    SignAndDigitsOfDecimal(n, rest);
    DigitsValueOfDigits(Magnitude(n));
  }

  /** atoi reads back what printf("%d") writes. */
  lemma AtoiDecimal(n: int)
    ensures Atoi(Decimal(n)) == n
  {
    AtoiDecimalThen(n, []);
    assert Decimal(n) + [] == Decimal(n);
  }

  /** The fields of `s` between occurrences of `del`. */
  function Split(s: string, del: char): (fs: seq<string>)
    ensures |fs| > 0
    decreases |s|
  {
    match IndexOf(s, del)
      case None => [s]
      case Some(k) => [s[..k]] + Split(s[k + 1..], del)
  }

  /** Cutting the text from `start` at its first delimiter, `k` characters on. */
  lemma SplitStep(s: string, start: nat, k: nat, del: char)
    requires start <= |s| && IndexOf(s[start..], del) == Some(k)
    ensures start + k < |s|
    ensures Split(s[start..], del) == [s[start..start + k]] + Split(s[start + k + 1..], del)
  {
    assert s[start..][..k] == s[start..start + k] && s[start..][k + 1..] == s[start + k + 1..];
  }

  /** The fields joined back with the delimiter. */
  function Join(fs: seq<string>, del: char): string
    requires |fs| > 0
  {
    if |fs| == 1 then fs[0] else fs[0] + [del] + Join(fs[1..], del)
  }

  /** Splitting loses nothing: joining the fields gives the text back. */
  lemma {:induction false} JoinSplit(s: string, del: char)
    ensures Join(Split(s, del), del) == s
    decreases |s|
  {
    match IndexOf(s, del)
      case None =>
      case Some(k) =>
        JoinSplit(s[k + 1..], del);
        assert s == s[..k] + [del] + s[k + 1..];
  }

  /** The joined text holds every field and one delimiter between each two. */
  lemma {:induction false} JoinLength(fs: seq<string>, del: char, i: nat)
    requires i < |fs|
    ensures |Join(fs, del)| >= |fs| - 1 + |fs[i]|
    decreases |fs|
  {
    if |fs| > 1 {
      JoinLength(fs[1..], del, if i == 0 then 0 else i - 1);
    }
  }

  /** No field of `fs` holds `del`. */
  ghost predicate Free(fs: seq<string>, del: char)
  {
    forall i :: 0 <= i < |fs| ==> del !in fs[i]
  }

  /** No field that Split cuts out holds the delimiter. */
  lemma {:induction false} SplitFree(s: string, del: char)
    ensures Free(Split(s, del), del)
    decreases |s|
  {
    IndexOfSpec(s, del);
    match IndexOf(s, del)
      case None =>
        assert Split(s, del) == [s];
      case Some(k) =>
        SplitFree(s[k + 1..], del);
        FreeCons(s[..k], Split(s[k + 1..], del), del);
  }

  lemma FreeCons(f: string, fs: seq<string>, del: char)
    requires del !in f && Free(fs, del)
    ensures Free([f] + fs, del)
  {
    forall i | 0 < i < |[f] + fs|
      ensures del !in ([f] + fs)[i]
    {
      assert ([f] + fs)[i] == fs[i - 1];
    }
  }

  /**
   * printf(fmt) called with no arguments: the text of `fmt` with "%%"
   * written as '%'. Any other '%' starts a conversion whose argument is
   * missing, and the output is undefined (None).
   */
  function BarePrintf(fmt: string): (r: Option<string>)
    ensures '%' !in fmt ==> r == Some(fmt)
    decreases |fmt|
  {
    if fmt == [] then Some([])
    else if fmt[0] != '%' then
      assert fmt == [fmt[0]] + fmt[1..];
      match BarePrintf(fmt[1..])
        case Some(t) => Some([fmt[0]] + t)
        case None => None
    else if |fmt| >= 2 && fmt[1] == '%' then
      match BarePrintf(fmt[2..])
        case Some(t) => Some(['%'] + t)
        case None => None
    else None
  }

  /** A '%' followed by anything but '%', after plain text, leaves printf(fmt) undefined. */
  lemma {:induction false} BarePrintfConversion(pre: string, c: char, post: string)
    requires '%' !in pre && c != '%'
    ensures BarePrintf(pre + ['%', c] + post) == None
    decreases |pre|
  {
    var f := pre + ['%', c] + post;
    if pre == [] {
      assert f[0] == '%' && f[1] == c;
    } else {
      assert f[0] == pre[0] && f[1..] == pre[1..] + ['%', c] + post;
      BarePrintfConversion(pre[1..], c, post);
    }
  }
}
