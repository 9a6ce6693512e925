/** What the bytes of a message spell, against what the other end reads in them: each result
    writes the text out and says what comes of it. */
module RtspResponse {
  import opened Words
  import opened RtspText
  import opened RtspParser
  import opened RtspPrinter

  // ----- The status line -----

  /** A line with a space in it: the part before the first space, the part up to the second, and
      what is behind the second if there is one. */
  ghost predicate Splits(line: string, protocol: string, number: string, more: Option<string>) {
    && ' ' !in protocol && ' ' !in number
    && line == protocol + " " + number + match more case None => "" case Some(reason) => " " + reason
  }

  predicate IsRtsp(protocol: string) { protocol == "RTSP/1.0" || protocol == "RTSP/1.1" }

  lemma {:induction false} StrSepNone(s: string, delim: char)
    requires delim !in s
    ensures StrSep(s, delim) == (s, None)
  {
    if s != "" {
      StrSepNone(s[1..], delim);
      assert [s[0]] + s[1..] == s;
    }
  }

  /** What is read in a line that splits: nothing with another protocol or the number 0;
      otherwise the version, the number and the reason it spells. */
  lemma StatusLineRead(line: string, protocol: string, number: string, more: Option<string>)
    requires Splits(line, protocol, number, more)
    ensures ParseResponseLine(line) ==
            if !IsRtsp(protocol) || Decimal(number) == 0 then None
            else Some(StatusLine(1, if protocol == "RTSP/1.1" then 1 else 0, Decimal(number),
                                 match more case None => "" case Some(reason) => reason))
  {
    hide StrSep, Decimal;
    var rest := number + match more case None => "" case Some(reason) => " " + reason;
    assert line == protocol + [' '] + rest;
    StrSepAt(protocol, ' ', rest);
    match more
    case None =>
      StrSepNone(number, ' ');
      assert rest == number;
    case Some(reason) =>
      assert rest == number + [' '] + reason;
      StrSepAt(number, ' ', reason);
  }

  /** Exactly the lines that have no space, another protocol, or a number that reads as 0 are
      refused. */
  lemma RefusedIff(line: string)
    ensures ParseResponseLine(line).None? <==>
            || ' ' !in line
            || (exists protocol, number, more ::
                  Splits(line, protocol, number, more) && (!IsRtsp(protocol) || Decimal(number) == 0))
  {
    hide Decimal;
    if ' ' !in line {
      StrSepNone(line, ' ');
    } else {
      var (protocol, rest) := StrSep(line, ' ');
      assert rest.Some?;
      var (number, more) := StrSep(rest.value, ' ');
      assert Splits(line, protocol, number, more);
      forall p, n, m | Splits(line, p, n, m) ensures ParseResponseLine(line).None? <==> !IsRtsp(p) || Decimal(n) == 0 {
        StatusLineRead(line, p, n, m);
      }
    }
  }

  lemma {:induction false} DigitsNoSpace(n: nat)
    ensures forall c :: c in PrintDecimal(n) ==> '0' <= c <= '9'
  {
    if n >= 10 {
      DigitsNoSpace(n / 10);
    }
  }

  /** The code that is printed is the code that is read. */
  lemma CodeRead(line: string, minor: nat, code: nat, reason: string)
    requires minor <= 1 && code >= 1
    requires line == (if minor == 0 then "RTSP/1.0 " else "RTSP/1.1 ") + PrintDecimal(code) + " " + reason
    ensures ParseResponseLine(line) == Some(StatusLine(1, minor, code, reason))
  {
    hide Decimal, PrintDecimal;
    var protocol := if minor == 0 then "RTSP/1.0" else "RTSP/1.1";
    DigitsNoSpace(code);
    DecimalRoundTrip(code);
    assert line == protocol + " " + PrintDecimal(code) + " " + reason;
    StatusLineRead(line, protocol, PrintDecimal(code), Some(reason));
  }

  /** A length fits the buffer exactly below 10^11. */
  lemma LengthFits(n: nat)
    ensures |PrintDecimal(n)| <= SIZE_DIGITS <==> n < 100_000_000_000
  {
    DigitsBelow(n, 11);
    assert TenTo(11) == 10 * TenTo(10) && TenTo(10) == 10 * TenTo(9) && TenTo(9) == 10 * TenTo(8);
    assert TenTo(8) == 10 * TenTo(7) && TenTo(7) == 10 * TenTo(6) && TenTo(6) == 10 * TenTo(5);
    assert TenTo(5) == 10 * TenTo(4) && TenTo(4) == 10 * TenTo(3) && TenTo(3) == 10 * TenTo(2);
    assert TenTo(2) == 10 * TenTo(1) && TenTo(1) == 10 * TenTo(0) && TenTo(0) == 1;
  }

  function TenTo(d: nat): nat { if d == 0 then 1 else 10 * TenTo(d - 1) }

  lemma {:induction false} DigitsBelow(n: nat, d: nat)
    requires d > 0
    ensures |PrintDecimal(n)| <= d <==> n < TenTo(d)
  {
    if n >= 10 {
      if d > 1 {
        DigitsBelow(n / 10, d - 1);
      }
    } else {
      assert TenTo(d) == 10 * TenTo(d - 1);
      AtLeastOne(d - 1);
    }
  }

  lemma {:induction false} AtLeastOne(d: nat)
    ensures TenTo(d) >= 1
  {
    if d > 0 {
      AtLeastOne(d - 1);
    }
  }

  // ----- The whole response -----

  /** On one line, as a C string. */
  predicate OnOneLine(s: string) { '\0' !in s && '\r' !in s && '\n' !in s }

  /** Headers and body of a response that can be read back, and that do not start with the end of
      a line. */
  predicate Sendable(headers: seq<Header>, body: string) {
    && (forall i :: 0 <= i < |headers| ==> IsPrintable(headers[i]) && Survives(headers[i]))
    && FindHeader(headers, "Content-Length").None? && |body| < 100_000_000_000
    && (headers != [] || body != "")
  }

  lemma NoEolFirst(headers: seq<Header>, body: string, rest: string)
    requires Sendable(headers, body)
    ensures var text := PrintMessage(headers, body) + rest; text != "" && !IsEol(text[0])
  {
    hide PrintDecimal, IsValidValue, FindHeader;
    var all := WithLength(headers, body);
    assert all != [];
    PrintHeadersAt(all, 0);
    assert all[0..] == all;
    assert headers != [] ==> all[0] == headers[0];
    FirstCharacter(all[0]);
  }

  lemma FirstCharacter(h: Header)
    ensures PrintHeader(h) != "" && PrintHeader(h)[0] == if h.key == "" then ':' else h.key[0]
  {
  }

  lemma StatusText(minor: nat, code: nat, reason: string) returns (line: string)
    requires minor <= 1 && code >= 1 && OnOneLine(reason)
    ensures line == (if minor == 0 then "RTSP/1.0 " else "RTSP/1.1 ") + PrintDecimal(code) + " " + reason
    ensures OnOneLine(line) && ParseResponseLine(CStr(line)) == Some(StatusLine(1, minor, code, reason))
  {
    hide Decimal, PrintDecimal, ParseResponseLine, CStr;
    line := (if minor == 0 then "RTSP/1.0 " else "RTSP/1.1 ") + PrintDecimal(code) + " " + reason;
    DigitsNoSpace(code);
    CStrOfLine(line);
    CodeRead(line, minor, code, reason);
  }

  /** One read of a whole response: the version, code, reason, headers and body that the bytes
      spell, with what follows them left alone. */
  lemma ResponseRead(minor: nat, code: nat, reason: string, headers: seq<Header>, body: string, rest: string)
    requires minor <= 1 && code >= 1 && OnOneLine(reason) && Sendable(headers, body)
    ensures var line := (if minor == 0 then "RTSP/1.0 " else "RTSP/1.1 ") + PrintDecimal(code) + " " + reason;
            Feed(START, line + "\r\n" + PrintMessage(headers, body) + rest)
            == Complete(StatusLine(1, minor, code, reason), WithLength(headers, body), body, rest)
  {
    hide *;
    var line := StatusText(minor, code, reason);
    var more := PrintMessage(headers, body) + rest;
    NoEolFirst(headers, body, rest);
    FirstLineRead(line, more, StatusLine(1, minor, code, reason));
    assert line + "\r\n" + PrintMessage(headers, body) + rest == line + ("\r\n" + more);
    MessageRead(StatusLine(1, minor, code, reason), headers, body, rest);
  }

  lemma FirstLineRead(line: string, more: string, status: StatusLine)
    requires OnOneLine(line) && ParseResponseLine(CStr(line)) == Some(status) && more != "" && !IsEol(more[0])
    ensures Feed(START, line + ("\r\n" + more)) == AdvanceHeaders(status, [], more)
  {
    hide ParseResponseLine, CStr, ReadLnAny, SkipEol, AdvanceHeaders, Feed;
    StatusLineFirst(line, "\r\n" + more);
    CrLfSkipped(more);
    FedFirst(line + ("\r\n" + more));
  }

  lemma MessageRead(status: StatusLine, headers: seq<Header>, body: string, rest: string)
    requires Sendable(headers, body)
    ensures AdvanceHeaders(status, [], PrintMessage(headers, body) + rest)
            == Complete(status, WithLength(headers, body), body, rest)
  {
    hide IsPrintable, Survives, PrintDecimal, AdvanceHeaders, PrintMessage, FindHeader;
    if body == "" {
      BodilessRoundTrip(status, headers, rest);
    } else {
      LengthFits(|body|);
      MessageRoundTrip(status, headers, body, rest);
    }
  }

  // ----- Headers -----

  /** A line that starts with a blank goes on with the value of the header before it. */
  lemma ContinuationRead(acc: seq<Header>, last: Header, line: string, rest: string)
    requires line != "" && (line[0] == ' ' || line[0] == '\t') && '\0' !in line && '\n' !in line
    ensures ParseHeaders(acc + [last], line + "\r\n" + rest)
            == ParseHeaders(acc + [Header(last.key, last.value + line)], rest)
  {
    hide ReadLnCrlf, CStr;
    ReadLnOfLine(line, rest);
    CStrOfLine(line);
    assert (acc + [last])[..|acc|] == acc;
    assert ParseHeaderLine(acc + [last], line) == Some(acc + [Header(last.key, last.value + line)]);
  }

  /** A header folded once, on its own: one header with both parts of the value, blank included. */
  lemma FoldedHeader(key: string, value: string, blank: char, w: string, rest: string)
    requires IsPrintable(Header(key, value)) && Survives(Header(key, value))
    requires (blank == ' ' || blank == '\t') && '\0' !in w && '\n' !in w
    ensures ParseHeaders([], key + ": " + value + "\r\n" + [blank] + w + "\r\n\r\n" + rest)
            == (AllDataRead, [Header(key, value + [blank] + w)], rest)
  {
    hide ParseHeaders, ParseHeaderLine, IsPrintable, Survives;
    var h, line, more := Header(key, value), [blank] + w, "\r\n" + rest;
    var text := key + ": " + value + "\r\n" + [blank] + w + "\r\n\r\n" + rest;
    var tail := line + "\r\n" + more;
    assert text == PrintHeader(h) + tail by {
      assert "\r\n\r\n" == "\r\n" + "\r\n";
    }
    ParseOneLine([], h, tail) by {
      SurvivesOnOneLine(h);
    }
    LineOfSurvivor([], h);
    ContinuationRead([], h, line, more);
    var folded := [Header(key, value + line)];
    assert [] + [h] == [h] && [] + folded == folded && value + line == value + [blank] + w;
    EndOfHeaders(folded, rest);
    assert PrintHeaders([]) + rest == more;
  }

  lemma SurvivesOnOneLine(h: Header)
    requires Survives(h)
    ensures '\n' !in h.value
  {
  }

  /** Which values evrtsp_add_header takes: behind each CR or LF comes another, or a blank. */
  lemma {:induction false} ValidValueIff(value: string)
    ensures IsValidValue(value) <==>
            forall i :: 0 <= i < |value| && (value[i] == '\r' || value[i] == '\n') ==>
              i + 1 < |value| && value[i + 1] in "\r\n \t"
    decreases |value|
  {
    if value != "" {
      var rest := value[1..];
      ValidValueIff(rest);
      assert forall i :: 1 <= i < |value| ==> value[i] == rest[i - 1];
      if IsEol(value[0]) {
        RunGoesOn(value);
      }
    }
  }

  lemma RunGoesOn(value: string)
    requires value != "" && IsEol(value[0])
    ensures IsValidValue(value) <==>
            |value| > 1 && (IsEol(value[1]) || IsBlank(value[1])) && IsValidValue(value[1..])
  {
    var rest := value[1..];
    if rest != "" && !IsEol(rest[0]) {
      assert SkipEol(value) == rest;
      if IsBlank(rest[0]) {
        assert IsValidValue(rest) == IsValidValue(rest[1..]);
      }
    }
  }

  /** The first header of the name is found, and none exactly when there is none. */
  lemma {:induction false} FindsFirst(headers: seq<Header>, key: string) returns (i: nat)
    ensures i <= |headers| && forall j :: 0 <= j < i ==> !EqualIgnoreCase(headers[j].key, key)
    ensures i < |headers| ==> EqualIgnoreCase(headers[i].key, key) && FindHeader(headers, key) == Some(headers[i].value)
    ensures i == |headers| <==> FindHeader(headers, key).None?
  {
    hide EqualIgnoreCase;
    i := 0;
    if headers != [] && !EqualIgnoreCase(headers[0].key, key) {
      var k := FindsFirst(headers[1..], key);
      i := k + 1;
      assert forall j :: 1 <= j < |headers| ==> headers[j] == headers[1..][j - 1];
    }
  }

  /** A length counts however its name is spelled; one that is negative or empty is illegal. */
  lemma LengthRead(name: string, value: string, n: nat, more: seq<Header>)
    requires name in ["Content-Length", "content-length", "CONTENT-LENGTH"]
    ensures FindHeader([Header(name, value)] + more, "Content-Length") == Some(value)
    ensures value == PrintDecimal(n) && n <= 0x7FFF_FFFF_FFFF_FFFF ==>
              BodyLength([Header(name, value)] + more) == Some(n)
    ensures value == PrintDecimal(n) && n > 0x7FFF_FFFF_FFFF_FFFF ==>
              BodyLength([Header(name, value)] + more) == Some(0x7FFF_FFFF_FFFF_FFFF)
    ensures value == "-" + PrintDecimal(n) && n > 0 ==> BodyLength([Header(name, value)] + more) == None
    ensures value == "" ==> BodyLength([Header(name, value)] + more) == None
  {
    hide Decimal, PrintDecimal, EqualIgnoreCase;
    LengthNamed(name);
    DecimalRoundTrip(n);
    MinusRead(n);
  }

  lemma LengthNamed(name: string)
    requires name in ["Content-Length", "content-length", "CONTENT-LENGTH"]
    ensures EqualIgnoreCase(name, "Content-Length")
  {
    IgnoreCaseIff(name, "Content-Length");
  }

  lemma MinusRead(n: nat)
    ensures Decimal("-" + PrintDecimal(n)) == 0 - n
  {
    hide Decimal, PrintDecimal;
    SignedReads("-", n, "");
    assert "-" + PrintDecimal(n) + "" == "-" + PrintDecimal(n);
  }

  // ----- The request line -----

  /** What a server reads in a request: the first line splits at its first two spaces into the
      method, the URI and the version, and behind it come the headers and the body. */
  lemma RequestLineRead(m: Message)
    requires ' ' !in m.method_ && ' ' !in m.uri && OnOneLine(m.method_) && OnOneLine(m.uri)
    ensures ReadLnCrlf(RequestText(m)).Some?
    ensures var (line, rest) := ReadLnCrlf(RequestText(m)).value;
            && '\r' !in line
            && RequestText(m) == line + "\r\n" + rest
            && Splits(line, m.method_, m.uri, Some("RTSP/" + PrintDecimal(m.major) + "." + PrintDecimal(m.minor)))
            && rest == PrintMessage(m.headers, m.body)
  {
    hide PrintDecimal, PrintMessage;
    var version := "RTSP/" + PrintDecimal(m.major) + "." + PrintDecimal(m.minor);
    var line := m.method_ + " " + m.uri + " " + version;
    DigitsNoSpace(m.major);
    DigitsNoSpace(m.minor);
    assert " RTSP/" == " " + "RTSP/";
    var rest := PrintMessage(m.headers, m.body);
    assert RequestText(m) == line + "\r\n" + rest;
    ReadLnOfLine(line, rest);
  }
}
