/**
 * The location publisher of the mbed tracker (mbed/main.cpp): the URL
 * percent-encoder and the field extraction and JSON assembly of
 * publishLocation.
 */
module Publish {
  import opened CString

  /** The characters encodeURL escapes, space !#$&'()*+/;=?@[]{}" -- '%' itself is not among them. */
  predicate Reserved(c: char)
  {
    c == ' ' || c == '!' || c == '#' || c == '$' || c == '&' || c == '\'' || c == '(' || c == ')' ||
    c == '*' || c == '+' || c == '/' || c == ';' || c == '=' || c == '?' || c == '@' || c == '[' ||
    c == ']' || c == '{' || c == '}' || c == '"'
  }

  /** A nibble as a lowercase hex digit. */
  function HexDigit(n: nat): (c: char)
    requires n < 16
    ensures c in "0123456789abcdef"
  {
    if n < 10 then ('0' as int + n) as char else ('a' as int + n - 10) as char
  }

  /** The value of a hex digit of either case. */
  function HexValue(c: char): Option<nat>
  {
    if '0' <= c <= '9' then Some(c as int - '0' as int)
    else if 'a' <= c <= 'f' then Some(c as int - 'a' as int + 10)
    else if 'A' <= c <= 'F' then Some(c as int - 'A' as int + 10)
    else None
  }

  lemma HexValueOfDigit(n: nat)
    requires n < 16
    ensures HexValue(HexDigit(n)) == Some(n)
  {
  }

  /** The two nibbles of a byte, as (c >> 4) & 0x0F and c & 0x0F give them, make up the byte. */
  lemma Nibbles(x: int)
    requires 0 <= x < 0x100
    ensures 16 * ((x / 16) % 16) + x % 16 == x
  {
  }

  /** What encodeURL writes for one input character. */
  function Piece(c: char): (p: string)
    ensures |p| == 1 || |p| == 3
  {
    if Reserved(c) then ['%', HexDigit((c as int / 16) % 16), HexDigit(c as int % 16)] else [c]
  }

  /** The whole input encoded, character by character. */
  function Encoded(s: string): (e: string)
    ensures |e| >= |s|
  {
    if |s| == 0 then [] else Encoded(s[..|s| - 1]) + Piece(s[|s| - 1])
  }

  /** The encoding of a prefix is a prefix of the encoding. */
  lemma {:induction false} EncodedPrefix(s: string, i: nat)
    requires i <= |s|
    ensures Encoded(s[..i]) <= Encoded(s)
    decreases |s| - i
  {
    if i < |s| {
      EncodedPrefix(s, i + 1);
      assert s[..i + 1][..i] == s[..i];
    } else {
      assert s[..i] == s;
    }
  }

  /** Encoding one more character appends its piece. */
  lemma EncodedStep(s: string, i: nat)
    requires i < |s|
    ensures Encoded(s[..i + 1]) == Encoded(s[..i]) + Piece(s[i])
  {
    assert s[..i + 1][..i] == s[..i];
  }

  /** Encoding a character followed by a string. */
  lemma {:induction false} EncodedCons(c: char, s: string)
    ensures Encoded([c] + s) == Piece(c) + Encoded(s)
    decreases |s|
  {
    if |s| > 0 {
      var t := s[..|s| - 1];
      EncodedCons(c, t);
      assert ([c] + s)[..|s|] == [c] + t;
    }
  }

  /** Encoding distributes over concatenation. */
  lemma {:induction false} EncodedAppend(a: string, b: string)
    ensures Encoded(a + b) == Encoded(a) + Encoded(b)
    decreases |b|
  {
    if |b| > 0 {
      var b' := b[..|b| - 1];
      EncodedAppend(a, b');
      assert (a + b)[..|a + b| - 1] == a + b';
    } else {
      assert a + b == a;
    }
  }

  /** Text without reserved characters is copied unchanged. */
  lemma {:induction false} EncodedPlain(s: string)
    requires forall j :: 0 <= j < |s| ==> !Reserved(s[j])
    ensures Encoded(s) == s
    decreases |s|
  {
    if |s| > 0 {
      EncodedPlain(s[..|s| - 1]);
    }
  }

  /** An escape is '%' and two hex digits, so its second character is never '%'. */
  lemma EscapeShape(c: char)
    requires Reserved(c)
    ensures |Piece(c)| == 3 && Piece(c)[0] == '%' && Piece(c)[1] != '%'
  {
    assert Piece(c)[1] in "0123456789abcdef";
  }

  /** The encoding around the first reserved character at `i`: the plain text before it, its escape, the rest encoded. */
  lemma EncodedAt(s: string, i: nat)
    requires i < |s| && forall j :: 0 <= j < i ==> !Reserved(s[j])
    ensures Encoded(s) == s[..i] + Piece(s[i]) + Encoded(s[i + 1..])
  {
    var pre, c, post := s[..i], s[i], s[i + 1..];
    assert s == (pre + [c]) + post;
    EncodedAppend(pre + [c], post);
    EncodedAppend(pre, [c]);
    EncodedSingle(c);
    EncodedPlain(pre);
  }

  lemma EncodedSingle(c: char)
    ensures Encoded([c]) == Piece(c)
  {
    assert [c][..0] == [];
  }

  /** The escape of the first reserved character turns printf(Encoded(s)) undefined. */
  lemma FirstEscapeIsConversion(s: string, i: nat)
    requires i < |s| && Reserved(s[i]) && '%' !in s[..i]
    requires forall j :: 0 <= j < i ==> !Reserved(s[j])
    ensures BarePrintf(Encoded(s)) == None
  {
    var pre, p, rest := s[..i], Piece(s[i]), Encoded(s[i + 1..]);
    EncodedAt(s, i);
    EscapeShape(s[i]);
    Regroup(pre, p, rest);
    BarePrintfConversion(pre, p[1], [p[2]] + rest);
  }

  lemma Regroup(pre: string, p: string, rest: string)
    requires |p| == 3
    ensures pre + p + rest == pre + [p[0], p[1]] + ([p[2]] + rest)
  {
    assert p == [p[0], p[1]] + [p[2]];
  }

  /**
   * The URL that reaches HTTP_para is used there as printf's format. Every
   * escape encodeURL writes is a '%' followed by a hex digit, a conversion
   * with no argument, so printf's output is undefined for any URL in which
   * a reserved character was escaped.
   */
  lemma {:induction false} EncodedUrlIsNoFormat(s: string, i: nat)
    requires i < |s| && Reserved(s[i]) && '%' !in s
    ensures BarePrintf(Encoded(s)) == None
    decreases i
  {
    if j :| 0 <= j < i && Reserved(s[j]) {
      EncodedUrlIsNoFormat(s, j);
    } else {
      assert '%' !in s[..i] by {
        assert forall j :: 0 <= j < i ==> s[..i][j] == s[j];
      }
      FirstEscapeIsConversion(s, i);
    }
  }

  /**
   * encodeURL(output, maxSize, input): copy the input, escaping the
   * reserved characters as '%' and two lowercase hex digits, while the
   * room left allows. With one cell left it writes NUL and fails; with too
   * little room for the next piece it fails without a terminator.
   */
  method EncodeUrl(input: string, maxSize: uint16) returns (rc: int, output: string)
    requires NUL !in input
    ensures rc == 0 || rc == -1
    ensures rc == 0 <==> |Encoded(input)| + 1 <= maxSize
    ensures rc == 0 ==> output == Encoded(input) + [NUL]
    ensures |output| <= maxSize
    ensures rc == -1 ==> output <= Encoded(input) ||
                         (|output| == maxSize && output[..|output| - 1] <= Encoded(input) && output[|output| - 1] == NUL)
    ensures maxSize == 1 && |input| > 0 ==> rc == -1 && output == [NUL]
  {
    var room: int := maxSize;
    output := [];
    var i := 0;
    while i < |input|
      invariant 0 <= i <= |input|
      invariant output == Encoded(input[..i]) && room == maxSize - |output| >= 0
      invariant maxSize == 1 ==> i == 0
    {
      EncodedPrefix(input, i);
      EncodedPrefix(input, i + 1);
      EncodedStep(input, i);
      var c := input[i];
      if room == 1 {
        output := output + [NUL];
        return -1, output;
      }
      if Reserved(c) {
        if room < 3 {
          return -1, output;
        }
        output := output + ['%', HexDigit((c as int / 16) % 16), HexDigit(c as int % 16)];
        room := room - 3;
      } else {
        if room < 1 {
          return -1, output;
        }
        output := output + [c];
        room := room - 1;
      }
      i := i + 1;
    }
    assert input[..i] == input;
    if room < 1 {
      return -1, output;
    }
    output := output + [NUL];
    return 0, output;
  }

  /** Percent-decoding: '%' and two hex digits stand for that byte. */
  function Decode(s: string): string
  {
    if |s| >= 3 && s[0] == '%' && HexValue(s[1]).Some? && HexValue(s[2]).Some? then
      [(16 * HexValue(s[1]).value + HexValue(s[2]).value) as char] + Decode(s[3..])
    else if |s| == 0 then []
    else [s[0]] + Decode(s[1..])
  }

  /** Decoding a piece followed by more text gives back its character first. */
  lemma DecodePiece(c: char, t: string)
    requires c != '%'
    ensures Decode(Piece(c) + t) == [c] + Decode(t)
  {
    var e := Piece(c) + t;
    if Reserved(c) {
      HexValueOfDigit((c as int / 16) % 16);
      HexValueOfDigit(c as int % 16);
      assert e[3..] == t;
      assert c as int < 128;
      Nibbles(c as int);
    } else {
      assert e[1..] == t;
    }
  }

  /** Decoding undoes the encoding of any input without '%'. */
  lemma {:induction false} DecodeEncoded(s: string)
    requires '%' !in s
    ensures Decode(Encoded(s)) == s
    decreases |s|
  {
    if |s| > 0 {
      var c, rest := s[0], s[1..];
      assert s == [c] + rest;
      EncodedCons(c, rest);
      DecodePiece(c, Encoded(rest));
      DecodeEncoded(rest);
    }
  }

  /** '%' passes through unescaped, so an input holding an escape decodes to something else. */
  lemma PercentIsNotEscaped()
    ensures Encoded("%41") == "%41" && Decode("%41") == "A"
  {
    assert "%41"[..2] == "%4" && "%4"[..1] == "%";
  }

  // ---------------------------------------------------------------------
  // publishLocation

  /** The document publishLocation assembles: latitude, and longitude only with it, each when not empty. */
  function Json(lat: string, lng: string): string
  {
    "{" + (if |lat| > 0 then "\"lat\":" + lat + (if |lng| > 0 then ",\"lng\":" + lng else "") else "") + "}"
  }

  /** What follows `prefix` in `s`, when `s` starts with it. */
  function After(prefix: string, s: string): (r: Option<string>)
    ensures r.Some? <==> |s| >= |prefix| && s[..|prefix|] == prefix
  {
    if |s| >= |prefix| && s[..|prefix|] == prefix then Some(s[|prefix|..]) else None
  }

  lemma AfterPrefix(prefix: string, s: string)
    ensures After(prefix, prefix + s) == Some(s)
  {
    assert (prefix + s)[..|prefix|] == prefix;
    assert (prefix + s)[|prefix|..] == s;
  }

  /** Reads the latitude and longitude back out of such a document. */
  function ParseJson(j: string): Option<(string, string)>
  {
    if |j| < 2 || j[0] != '{' || j[|j| - 1] != '}' then None
    else ParseBody(j[1..|j| - 1])
  }

  /** The part between the braces: empty, or the latitude with an optional longitude. */
  function ParseBody(body: string): Option<(string, string)>
  {
    if |body| == 0 then Some(("", ""))
    else match After("\"lat\":", body)
      case None => None
      case Some(rest) => ParseFields(rest)
  }

  /** After the latitude key: the latitude up to a comma, and the longitude after the key that must follow it. */
  function ParseFields(rest: string): Option<(string, string)>
  {
    match IndexOf(rest, ',')
      case None => Some((rest, ""))
      case Some(k) =>
        match After(",\"lng\":", rest[k..])
          case None => None
          case Some(lng) => Some((rest[..k], lng))
  }

  /** The text between the braces of the document. */
  function Inner(lat: string, lng: string): string
  {
    if |lat| > 0 then "\"lat\":" + lat + (if |lng| > 0 then ",\"lng\":" + lng else "") else ""
  }

  lemma JsonBraces(lat: string, lng: string)
    ensures ParseJson(Json(lat, lng)) == ParseBody(Inner(lat, lng))
  {
    var j := Json(lat, lng);
    assert j == "{" + Inner(lat, lng) + "}";
    assert j[1..|j| - 1] == Inner(lat, lng);
  }

  lemma FieldsWithLongitude(lat: string, lng: string)
    requires ',' !in lat
    ensures ParseFields(lat + ",\"lng\":" + lng) == Some((lat, lng))
  {
    var key := ",\"lng\":";
    var rest := lat + key + lng;
    assert rest[|lat|] == ',' && rest[..|lat|] == lat && rest[|lat|..] == key + lng;
    IndexOfFirst(rest, ',', |lat|);
    AfterPrefix(key, lng);
  }

  lemma BodyWithLongitude(lat: string, lng: string)
    requires ',' !in lat && |lat| > 0 && |lng| > 0
    ensures ParseBody(Inner(lat, lng)) == Some((lat, lng))
  {
    var rest := lat + ",\"lng\":" + lng;
    assert Inner(lat, lng) == "\"lat\":" + rest;
    AfterPrefix("\"lat\":", rest);
    FieldsWithLongitude(lat, lng);
  }

  lemma BodyWithoutLongitude(lat: string)
    requires ',' !in lat && |lat| > 0
    ensures ParseBody(Inner(lat, "")) == Some((lat, ""))
  {
    assert Inner(lat, "") == "\"lat\":" + lat;
    AfterPrefix("\"lat\":", lat);
  }

  /** The document gives back the latitude, and the longitude when the latitude is there. */
  lemma ParseJsonOfJson(lat: string, lng: string)
    requires ',' !in lat
    ensures ParseJson(Json(lat, lng)) == Some((lat, if |lat| > 0 then lng else ""))
  {
    JsonBraces(lat, lng);
    if |lat| > 0 {
      if |lng| > 0 {
        BodyWithLongitude(lat, lng);
      } else {
        assert lng == "";
        BodyWithoutLongitude(lat);
      }
    }
  }

  /** The piece number `n` (from 0) of `s` that a comma ends, if there are that many commas. */
  function CommaField(s: string, n: nat): Option<string>
    decreases n
  {
    match IndexOf(s, ',')
      case None => None
      case Some(k) => if n == 0 then Some(s[..k]) else CommaField(s[k + 1..], n - 1)
  }

  /** A comma-ended piece is the field of that number, and it exists when a comma follows that field. */
  lemma {:induction false} CommaFieldIsSplit(s: string, n: nat)
    ensures CommaField(s, n) == if n + 1 < |Split(s, ',')| then Some(Split(s, ',')[n]) else None
    decreases n
  {
    match IndexOf(s, ',')
      case None =>
      case Some(k) =>
        assert Split(s, ',') == [s[..k]] + Split(s[k + 1..], ',');
        if n > 0 {
          CommaFieldIsSplit(s[k + 1..], n - 1);
        }
  }

  /** The loop of publishLocation has cut the reply up to `start`, after `index` pieces; `field` holds piece `n` once passed. */
  ghost predicate Scanned(data: string, start: nat, index: nat, n: nat, field: Option<string>)
  {
    start <= |data| &&
    (index <= n ==> field.None? && CommaField(data, n) == CommaField(data[start..], n - index)) &&
    (index > n ==> field == CommaField(data, n))
  }

  lemma ScannedStart(data: string, n: nat)
    ensures Scanned(data, 0, 0, n, None)
  {
    assert data[0..] == data;
  }

  /** Passing one more comma-ended piece: the field becomes that piece when it is piece `n`, else stays. */
  lemma ScannedStep(data: string, start0: nat, index0: nat, n: nat, field0: Option<string>, k: nat,
                    start: nat, index: nat, field: Option<string>)
    requires Scanned(data, start0, index0, n, field0) && IndexOf(data[start0..], ',') == Some(k)
    requires start0 + k < |data| && start == start0 + k + 1 && index == index0 + 1
    requires field == if index0 == n then Some(data[start0..start0 + k]) else field0
    ensures Scanned(data, start, index, n, field)
  {
    var rest := data[start0..];
    if index0 < n {
      assert rest[k + 1..] == data[start..];
      CommaFieldNext(rest, n - index0, k, data[start..], n - index);
      ScannedPending(data, start, index, n);
    } else if index0 == n {
      assert rest[..k] == data[start0..start0 + k];
      CommaFieldHere(rest, n - index0, k, data[start0..start0 + k]);
      ScannedPassed(data, start, index, n, field);
    } else {
      ScannedPassed(data, start, index, n, field);
    }
  }

  lemma ScannedPending(data: string, start: nat, index: nat, n: nat)
    requires start <= |data| && index <= n && CommaField(data, n) == CommaField(data[start..], n - index)
    ensures Scanned(data, start, index, n, None)
  {
  }

  lemma ScannedPassed(data: string, start: nat, index: nat, n: nat, field: Option<string>)
    requires start <= |data| && index > n && field == CommaField(data, n)
    ensures Scanned(data, start, index, n, field)
  {
  }

  lemma CommaFieldNext(s: string, m: nat, k: nat, t: string, m1: nat)
    requires m == m1 + 1 && k < |s| && IndexOf(s, ',') == Some(k) && t == s[k + 1..]
    ensures CommaField(s, m) == CommaField(t, m1)
  {
  }

  lemma CommaFieldHere(s: string, m: nat, k: nat, f: string)
    requires m == 0 && k < |s| && IndexOf(s, ',') == Some(k) && f == s[..k]
    ensures CommaField(s, m) == Some(f)
  {
  }

  /** Both fields publishLocation keeps, after `index` pieces up to `start`. */
  ghost predicate Cut(data: string, start: nat, index: nat, latitude: Option<string>, longitude: Option<string>)
  {
    Scanned(data, start, index, 3, latitude) && Scanned(data, start, index, 4, longitude)
  }

  lemma CutStep(data: string, start0: nat, index0: nat, latitude0: Option<string>, longitude0: Option<string>, k: nat,
                start: nat, index: nat, latitude: Option<string>, longitude: Option<string>)
    requires Cut(data, start0, index0, latitude0, longitude0) && IndexOf(data[start0..], ',') == Some(k)
    requires start0 + k < |data| && start == start0 + k + 1 && index == index0 + 1
    requires latitude == if index0 == 3 then Some(data[start0..start0 + k]) else latitude0
    requires longitude == if index0 == 4 then Some(data[start0..start0 + k]) else longitude0
    ensures Cut(data, start, index, latitude, longitude)
  {
    ScannedStep(data, start0, index0, 3, latitude0, k, start, index, latitude);
    ScannedStep(data, start0, index0, 4, longitude0, k, start, index, longitude);
  }

  lemma ScannedEnd(data: string, start: nat, index: nat, n: nat, field: Option<string>)
    requires Scanned(data, start, index, n, field) && IndexOf(data[start..], ',').None?
    ensures field == CommaField(data, n)
  {
  }

  /**
   * publishLocation: nothing when getGPS gave no characters; else the
   * reply is cut at every comma, and the latitude and longitude are the
   * pieces 3 and 4 that a comma ends; without both nothing is built. The
   * document goes into the reply buffer, while the payload handed on is
   * the constant {"abc":5}.
   */
  method PublishLocation(nChars: int, data: string) returns (json: Option<string>, payload: Option<string>)
    requires NUL !in data
    ensures json == if nChars == 0 || CommaField(data, 3).None? || CommaField(data, 4).None? then None
                    else Some(Json(CommaField(data, 3).value, CommaField(data, 4).value))
    ensures payload == if json.Some? then Some("{\"abc\":5}") else None
  {
    if nChars == 0 {
      return None, None;
    }
    var latitude: Option<string> := None;
    var longitude: Option<string> := None;
    var index := 0;
    var start := 0;
    ScannedStart(data, 3);
    ScannedStart(data, 4);
    while true
      invariant Cut(data, start, index, latitude, longitude)
      decreases |data| - start
    {
      var pos := IndexOf(data[start..], ',');
      if pos.None? {
        ScannedEnd(data, start, index, 3, latitude);
        ScannedEnd(data, start, index, 4, longitude);
        break;
      }
      var k := pos.value;
      ghost var start0, index0, latitude0, longitude0 := start, index, latitude, longitude;
      latitude := if index == 3 then Some(data[start..start + k]) else latitude;
      longitude := if index == 4 then Some(data[start..start + k]) else longitude;
      start := start + k + 1;
      index := index + 1;
      CutStep(data, start0, index0, latitude0, longitude0, k, start, index, latitude, longitude);
    }
    if latitude.None? || longitude.None? {
      return None, None;
    }
    json := Some(Json(latitude.value, longitude.value));
    payload := Some("{\"abc\":5}");
  }

  /**
   * In terms of the comma-split reply: a document is built exactly when
   * the reply has at least six fields, from fields 3 and 4, and it reads
   * back as them.
   */
  lemma PublishedFields(data: string)
    ensures CommaField(data, 4).Some? <==> |Split(data, ',')| >= 6
    ensures CommaField(data, 4).Some? ==> CommaField(data, 3) == Some(Split(data, ',')[3]) &&
                                          CommaField(data, 4) == Some(Split(data, ',')[4])
    ensures CommaField(data, 4).Some? ==>
              ParseJson(Json(Split(data, ',')[3], Split(data, ',')[4])) ==
              Some((Split(data, ',')[3], if |Split(data, ',')[3]| > 0 then Split(data, ',')[4] else ""))
  {
    CommaFieldIsSplit(data, 3);
    CommaFieldIsSplit(data, 4);
    SplitFree(data, ',');
    if |Split(data, ',')| >= 6 {
      ParseJsonOfJson(Split(data, ',')[3], Split(data, ',')[4]);
    }
  }
}
