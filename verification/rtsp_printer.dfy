/** The request printer of src/evrtsp/rtsp.c against its header parser: which headers survive
    being printed and parsed, and that the body comes back. */
module RtspPrinter {
  import opened Words
  import opened RtspText
  import opened RtspParser

  /** Room in the buffer that evrtsp_make_header_request prints the length to, without its NUL. */
  const SIZE_DIGITS := 11

  /** evrtsp_make_header_request: a length is added for a body when none is set. */
  function WithLength(headers: seq<Header>, body: string): seq<Header> {
    if body != "" && FindHeader(headers, "Content-Length").None? then
      var digits := PrintDecimal(|body|);
      headers + [Header("Content-Length", if |digits| <= SIZE_DIGITS then digits else digits[..SIZE_DIGITS])]
    else headers
  }

  function PrintHeader(h: Header): string { h.key + ": " + h.value + "\r\n" }

  function PrintHeaders(headers: seq<Header>): string {
    if headers == [] then "\r\n" else PrintHeader(headers[0]) + PrintHeaders(headers[1..])
  }

  /** evrtsp_make_header: all of a request but the first line. */
  function PrintMessage(headers: seq<Header>, body: string): string {
    PrintHeaders(WithLength(headers, body)) + body
  }

  /** A C string. */
  predicate NoNul(s: string) { '\0' !in s }

  predicate IsPrintable(h: Header) { NoNul(h.key) && NoNul(h.value) && IsAccepted(h) }

  /** The headers that survive: no colon in the key, no blank in front of it, a value on one line
      without a space in front. */
  predicate Survives(h: Header) {
    && ':' !in h.key && (h.key == "" || !IsBlank(h.key[0]))
    && '\n' !in h.value && (h.value == "" || h.value[0] != ' ')
  }

  lemma {:induction false} ReadLnOfLine(line: string, rest: string)
    requires '\n' !in line
    ensures ReadLnCrlf(line + "\r\n" + rest) == Some((line, rest))
  {
    var text := line + "\r\n" + rest;
    if line == "" {
      assert text[2..] == rest;
    } else {
      assert text[1..] == line[1..] + "\r\n" + rest;
      ReadLnOfLine(line[1..], rest);
      assert [line[0]] + line[1..] == line;
      assert text[1] == (line[1..] + "\r\n" + rest)[0];
      assert |line| == 1 ==> text[1] == '\r';
    }
  }

  lemma {:induction false} CStrOfLine(line: string)
    requires NoNul(line)
    ensures CStr(line) == line
  {
    if line != "" {
      CStrOfLine(line[1..]);
    }
  }

  lemma {:induction false} StrSepAt(key: string, delim: char, rest: string)
    requires delim !in key
    ensures StrSep(key + [delim] + rest, delim) == (key, Some(rest))
  {
    var s := key + [delim] + rest;
    if key == "" {
      assert s[1..] == rest;
    } else {
      assert s[1..] == key[1..] + [delim] + rest;
      StrSepAt(key[1..], delim, rest);
      assert [key[0]] + key[1..] == key;
    }
  }

  /** What the parser makes of one printed header whose value is on one line. */
  lemma ParseOneLine(acc: seq<Header>, h: Header, rest: string)
    requires IsPrintable(h) && '\n' !in h.value
    ensures var line := h.key + ": " + h.value;
            ParseHeaders(acc, PrintHeader(h) + rest) ==
              match ParseHeaderLine(acc, line)
              case None => (DataCorrupted, acc, rest)
              case Some(acc') => ParseHeaders(acc', rest)
  {
    hide ReadLnCrlf, CStr, ParseHeaderLine, IsValidValue;
    var line := h.key + ": " + h.value;
    assert PrintHeader(h) + rest == line + "\r\n" + rest;
    ReadLnOfLine(line, rest);
    CStrOfLine(line);
  }

  /** A surviving header is parsed back. */
  lemma LineOfSurvivor(acc: seq<Header>, h: Header)
    requires IsPrintable(h) && Survives(h)
    ensures ParseHeaderLine(acc, h.key + ": " + h.value) == Some(acc + [h])
  {
    hide IsValidValue, StrSep;
    var line, value := h.key + ": " + h.value, " " + h.value;
    assert line == h.key + [':'] + value;
    StrSepAt(h.key, ':', value);
    assert value[1..] == h.value;
    assert SkipSpaces(value) == h.value;
    assert line[0] == if h.key == "" then ':' else h.key[0];
  }

  /** Headers that all survive come back in order, and the parser stops behind the empty line. */
  lemma {:induction false} HeadersRoundTrip(acc: seq<Header>, headers: seq<Header>, rest: string)
    requires forall i :: 0 <= i < |headers| ==> IsPrintable(headers[i]) && Survives(headers[i])
    ensures ParseHeaders(acc, PrintHeaders(headers) + rest) == (AllDataRead, acc + headers, rest)
    decreases |headers|
  {
    if headers == [] {
      EndOfHeaders(acc, rest);
      assert acc + headers == acc;
    } else {
      hide ParseHeaders, ParseHeaderLine, IsPrintable, PrintHeader;
      var more := PrintHeaders(headers[1..]) + rest;
      FirstPrinted(acc, headers, rest);
      ParseOneLine(acc, headers[0], more);
      LineOfSurvivor(acc, headers[0]);
      HeadersRoundTrip(acc + [headers[0]], headers[1..], rest);
    }
  }

  lemma FirstPrinted(acc: seq<Header>, headers: seq<Header>, rest: string)
    requires headers != []
    ensures PrintHeaders(headers) + rest == PrintHeader(headers[0]) + (PrintHeaders(headers[1..]) + rest)
    ensures headers == [headers[0]] + headers[1..] && acc + [headers[0]] + headers[1..] == acc + headers
  {
    hide PrintHeader;
    var first, more := PrintHeader(headers[0]), PrintHeaders(headers[1..]);
    assert PrintHeaders(headers) == first + more by {
      hide *;
      PrintHeadersAt(headers, 0);
      assert headers[0..] == headers;
    }
    assert (first + more) + rest == first + (more + rest);
    assert headers == [headers[0]] + headers[1..];
  }

  lemma EndOfHeaders(acc: seq<Header>, rest: string)
    ensures ParseHeaders(acc, PrintHeaders([]) + rest) == (AllDataRead, acc, rest)
  {
    ReadLnOfLine("", rest);
    assert PrintHeaders([]) + rest == "" + "\r\n" + rest;
    hide ReadLnCrlf;
    assert CStr("") == "";
  }

  /** Printed on single lines, n headers come back as n only if none continued another; and then
      they are the same only if they survive. */
  lemma {:induction false} OnlySurvivorsReturn(acc: seq<Header>, headers: seq<Header>, rest: string)
    requires forall i :: 0 <= i < |headers| ==> IsPrintable(headers[i]) && '\n' !in headers[i].value
    ensures var (st, res, _) := ParseHeaders(acc, PrintHeaders(headers) + rest);
            st == AllDataRead ==>
              && |res| <= |acc| + |headers|
              && (|res| == |acc| + |headers| ==> acc <= res)
              && (res == acc + headers ==> forall i :: 0 <= i < |headers| ==> Survives(headers[i]))
    decreases |headers|
  {
    if headers == [] {
      EndOfHeaders(acc, rest);
    } else {
      hide ParseHeaders, ParseHeaderLine, IsPrintable, Survives, PrintHeader;
      var h, more := headers[0], PrintHeaders(headers[1..]) + rest;
      FirstPrinted(acc, headers, rest);
      ParseOneLine(acc, h, more);
      var parsed := ParseHeaderLine(acc, h.key + ": " + h.value);
      if parsed.Some? {
        LineAddsAtMostOne(acc, h);
        OnlySurvivorsReturn(parsed.value, headers[1..], rest);
        var acc' := parsed.value;
        var (st, res, _) := ParseHeaders(acc', more);
        if st == AllDataRead && |acc'| > |acc| && res == acc + headers {
          SplitResult(acc, acc', h, headers[1..], res);
        }
      }
    }
  }

  lemma SplitResult(acc: seq<Header>, acc': seq<Header>, h: Header, tail: seq<Header>, res: seq<Header>)
    requires |acc'| == |acc| + 1 && acc <= acc' <= res && res == acc + ([h] + tail)
    ensures acc'[|acc|] == h && res == acc' + tail
  {
    assert acc'[|acc|] == res[|acc|];
    assert acc' == acc + [h];
  }

  lemma LineAddsAtMostOne(acc: seq<Header>, h: Header)
    requires IsPrintable(h) && '\n' !in h.value
    requires ParseHeaderLine(acc, h.key + ": " + h.value).Some?
    ensures var acc' := ParseHeaderLine(acc, h.key + ": " + h.value).value;
            |acc'| == |acc| || (|acc'| == |acc| + 1 && acc <= acc' && (acc'[|acc|] == h ==> Survives(h)))
  {
    var line := h.key + ": " + h.value;
    if !IsBlank(line[0]) {
      var (key, value) := StrSep(line, ':');
      if key == h.key {
        assert line[|key|..] == [':'] + value.value;
        assert line[|key|..] == [':'] + (" " + h.value);
        assert ([':'] + value.value)[1..] == value.value && ([':'] + (" " + h.value))[1..] == " " + h.value;
        assert line[0] == if h.key == "" then ':' else h.key[0];
      }
    }
  }

  // ----- Values on several lines -----

  lemma {:induction false} LineHasNoNewline(buf: string)
    ensures ReadLnCrlf(buf).Some? ==> '\n' !in ReadLnCrlf(buf).value.0
  {
    if buf != "" {
      LineHasNoNewline(buf[1..]);
    }
  }

  lemma {:induction false} SkipSpacesKeeps(s: string)
    ensures forall c :: c in SkipSpaces(s) ==> c in s
  {
    if s != "" && s[0] == ' ' {
      SkipSpacesKeeps(s[1..]);
    }
  }

  predicate SingleLines(headers: seq<Header>) { forall i :: 0 <= i < |headers| ==> '\n' !in headers[i].value }

  lemma HeaderLineKeepsSingleLines(headers: seq<Header>, line: string)
    requires SingleLines(headers) && line != "" && '\n' !in line
    ensures ParseHeaderLine(headers, line).Some? ==> SingleLines(ParseHeaderLine(headers, line).value)
  {
    var (_, value) := StrSep(line, ':');
    if value.Some? {
      assert forall c :: c in value.value ==> c in line;
      SkipSpacesKeeps(value.value);
    }
  }

  /** The parser never yields a value with a line feed in it. */
  lemma {:induction false} ParsedSingleLines(acc: seq<Header>, buf: string)
    requires SingleLines(acc)
    ensures SingleLines(ParseHeaders(acc, buf).1)
    decreases |buf|
  {
    hide SingleLines, ParseHeaderLine;
    LineHasNoNewline(buf);
    match ReadLnCrlf(buf)
    case None =>
    case Some((raw, rest)) =>
      var line := CStr(raw);
      if line != "" {
        HeaderLineKeepsSingleLines(acc, line);
        match ParseHeaderLine(acc, line)
        case None =>
        case Some(acc') => ParsedSingleLines(acc', rest);
      }
  }

  /** Main result: of C-string headers that evrtsp_add_header accepts, the printed list is parsed
      back, with the parser stopping right behind it, exactly when every header survives. */
  lemma HeadersReturnIffSurvive(headers: seq<Header>, rest: string)
    requires forall i :: 0 <= i < |headers| ==> IsPrintable(headers[i])
    ensures ParseHeaders([], PrintHeaders(headers) + rest) == (AllDataRead, headers, rest) <==>
            forall i :: 0 <= i < |headers| ==> Survives(headers[i])
  {
    if forall i :: 0 <= i < |headers| ==> Survives(headers[i]) {
      HeadersRoundTrip([], headers, rest);
      assert [] + headers == headers;
    } else {
      ParsedSingleLines([], PrintHeaders(headers) + rest);
      if SingleLines(headers) {
        OnlySurvivorsReturn([], headers, rest);
        assert [] + headers == headers;
      }
    }
  }

  // ----- A response whose header is lost -----

  lemma TwoHundred()
    ensures Decimal("200") == 200
  {
    DecimalRoundTrip(200);
    assert PrintDecimal(2) == "2";
    assert PrintDecimal(20) == PrintDecimal(2) + "0" == "20";
    assert PrintDecimal(200) == PrintDecimal(20) + "0" == "200";
  }

  lemma OkLine()
    ensures ParseResponseLine(CStr("RTSP/1.0 200 OK")) == Some(StatusLine(1, 0, 200, "OK"))
  {
    hide CStr, StrSep, Decimal;
    var line := "RTSP/1.0 200 OK";
    CStrOfLine(line);
    assert line == "RTSP/1.0" + [' '] + "200 OK" && "200 OK" == "200" + [' '] + "OK";
    StrSepAt("RTSP/1.0", ' ', "200 OK");
    StrSepAt("200", ' ', "OK");
    TwoHundred();
  }

  /** One header, printed. */
  lemma ExampleHeader()
    ensures var h := Header("A", "b");
            && ParseHeaders([], "A: b\r\n\r\n") == (AllDataRead, [h], "") && BodyLength([h]) == Some(0)
  {
    var h := Header("A", "b");
    hide ParseHeaders;
    HeadersRoundTrip([], [h], "");
    assert IsValidValue("b") by {
      assert "b"[1..] == "";
    }
    assert [h][1..] == [];
    assert PrintHeaders([h]) + "" == "A: b\r\n\r\n" && [] + [h] == [h];
  }

  /** An input that shows how a cut loses headers: one read of these bytes yields the header, and
      two reads that cut the run behind the status line yield none. */
  lemma CutExample()
    ensures var a, b, status := "RTSP/1.0 200 OK\r", "\nA: b\r\n\r\n", StatusLine(1, 0, 200, "OK");
            && Feed(START, a + b) == Complete(status, [Header("A", "b")], "", "")
            && FeedAll(START, [a, b]) == Complete(status, [], "", "A: b\r\n\r\n")
  {
    hide CStr, ParseResponseLine, ParseHeaders, BodyLength, Feed, FeedAll;
    var line, rest, status := "RTSP/1.0 200 OK", "A: b\r\n\r\n", StatusLine(1, 0, 200, "OK");
    OkLine();
    ExampleHeader();
    OneRead(line, rest, status, [Header("A", "b")]);
    TwoReadsThatCut(line, rest, status);
    assert "RTSP/1.0 200 OK\r" == line + "\r" && "\nA: b\r\n\r\n" == "\n" + rest;
    assert (line + "\r") + ("\n" + rest) == line + ("\r\n" + rest);
  }

  lemma OneRead(line: string, rest: string, status: StatusLine, headers: seq<Header>)
    requires forall i :: 0 <= i < |line| ==> !IsEol(line[i])
    requires ParseResponseLine(CStr(line)) == Some(status) && rest != "" && !IsEol(rest[0])
    requires ParseHeaders([], rest) == (AllDataRead, headers, "") && BodyLength(headers) == Some(0)
    ensures Feed(START, line + ("\r\n" + rest)) == Complete(status, headers, "", "")
  {
    hide CStr, ParseResponseLine, ParseHeaders, BodyLength, ReadLnAny, SkipEol, Feed;
    StatusLineFirst(line, "\r\n" + rest);
    CrLfSkipped(rest);
    FedFirst(line + ("\r\n" + rest));
    NoBody(status, rest, headers, "");
  }

  lemma CrLfSkipped(rest: string)
    requires rest != "" && !IsEol(rest[0])
    ensures SkipEol("\r\n" + rest) == rest
  {
    var run := "\r\n" + rest;
    assert run[1..] == "\n" + rest && run[1..][1..] == rest;
    assert SkipEol(rest) == rest;
    assert SkipEol("\n" + rest) == rest;
  }

  lemma NoBody(status: StatusLine, buf: string, headers: seq<Header>, left: string)
    requires ParseHeaders([], buf) == (AllDataRead, headers, left) && BodyLength(headers) == Some(0)
    ensures AdvanceHeaders(status, [], buf) == Complete(status, headers, "", left)
  {
    hide ParseHeaders, BodyLength;
    assert left[..0] == "" && left[0..] == left;
  }

  /** The line feed that is left over is taken for the empty line behind the headers. */
  lemma TwoReadsThatCut(line: string, rest: string, status: StatusLine)
    requires forall i :: 0 <= i < |line| ==> !IsEol(line[i])
    requires ParseResponseLine(CStr(line)) == Some(status)
    ensures FeedAll(START, [line + "\r", "\n" + rest]) == Complete(status, [], "", rest)
  {
    hide CStr, ParseResponseLine, ParseHeaders, BodyLength, Feed, FeedAll;
    StatusLineAlone(line, "\r");
    FeedTwo(START, line + "\r", "\n" + rest);
    FedHeaders(status, "\n" + rest);
    EmptyLineFirst(rest);
    NoBody(status, "\n" + rest, [], rest);
  }

  lemma FedHeaders(status: StatusLine, text: string)
    ensures Feed(ReadingHeaders(status, [], ""), text) == AdvanceHeaders(status, [], text)
  {
    hide AdvanceHeaders;
    assert "" + text == text;
  }

  lemma EmptyLineFirst(rest: string)
    ensures ParseHeaders([], "\n" + rest) == (AllDataRead, [], rest) && BodyLength([]) == Some(0)
  {
    var text := "\n" + rest;
    assert text[0] == '\n' && text[1..] == rest;
  }

  // ----- The body -----

  lemma {:induction false} FindInAppended(headers: seq<Header>, h: Header, key: string)
    requires FindHeader(headers, key).None? && EqualIgnoreCase(h.key, key)
    ensures FindHeader(headers + [h], key) == Some(h.value)
  {
    if headers != [] {
      FindInAppended(headers[1..], h, key);
      assert (headers + [h])[1..] == headers[1..] + [h];
    }
  }

  /** A printed number that is cut short reads as a smaller one. */
  lemma {:induction false} CutNumber(n: nat, m: nat)
    requires 1 <= m <= |PrintDecimal(n)|
    ensures var cut := Decimal(PrintDecimal(n)[..m]); 0 <= cut && (if m == |PrintDecimal(n)| then cut == n else cut < n)
    ensures forall i :: 0 <= i < m ==> IsDigit(PrintDecimal(n)[i])
  {
    DecimalRoundTrip(n);
    if m == |PrintDecimal(n)| {
      assert PrintDecimal(n)[..m] == PrintDecimal(n);
    } else {
      DecimalRoundTrip(n / 10);
      CutNumber(n / 10, m);
      assert PrintDecimal(n)[..m] == PrintDecimal(n / 10)[..m];
    }
  }

  /** The length added for a body: it is read as |body| exactly when it fits the digits there is
      room for. */
  lemma AddedLength(headers: seq<Header>, body: string)
    requires body != "" && FindHeader(headers, "Content-Length").None? && |body| <= INT64_MAX
    ensures var all := WithLength(headers, body);
            && |all| == |headers| + 1 && all[..|headers|] == headers
            && IsPrintable(all[|headers|]) && Survives(all[|headers|])
            && BodyLength(all).Some? && BodyLength(all).value <= |body|
            && (BodyLength(all) == Some(|body|) <==> |PrintDecimal(|body|)| <= SIZE_DIGITS)
  {
    hide FindHeader, IsValidValue, Decimal, PrintDecimal, WithLength, IsPrintable, Survives, BodyLength, IsDigit;
    var digits := PrintDecimal(|body|);
    var cut := if |digits| <= SIZE_DIGITS then digits else digits[..SIZE_DIGITS];
    DecimalRoundTrip(|body|);
    CutNumber(|body|, |cut|);
    assert cut == digits[..|cut|];
    LengthHeader(headers, cut);
    LengthAppended(headers, body);
  }

  lemma LengthAppended(headers: seq<Header>, body: string)
    requires body != "" && FindHeader(headers, "Content-Length").None?
    ensures var digits := PrintDecimal(|body|);
            WithLength(headers, body) ==
              headers + [Header("Content-Length", if |digits| <= SIZE_DIGITS then digits else digits[..SIZE_DIGITS])]
  {
  }

  lemma LengthHeader(headers: seq<Header>, digits: string)
    requires digits != "" && forall i :: 0 <= i < |digits| ==> IsDigit(digits[i])
    requires FindHeader(headers, "Content-Length").None? && 0 <= Decimal(digits) <= INT64_MAX
    ensures var h := Header("Content-Length", digits);
            IsPrintable(h) && Survives(h) && BodyLength(headers + [h]) == Some(Decimal(digits))
  {
    hide FindHeader, Decimal, IsValidValue;
    var h := Header("Content-Length", digits);
    FindInAppended(headers, h, "Content-Length");
    DigitsAreValid(digits);
  }

  lemma {:induction false} DigitsAreValid(s: string)
    requires forall i :: 0 <= i < |s| ==> IsDigit(s[i])
    ensures IsValidValue(s) && '\n' !in s && '\0' !in s
  {
    if s != "" {
      DigitsAreValid(s[1..]);
    }
  }

  /** Main result: a message with surviving headers, none of them a length, and a body is read
      back with the length added, and the body reader recovers exactly the printed body when the
      length fits; otherwise it takes less. What follows the message is left alone. */
  lemma MessageRoundTrip(status: StatusLine, headers: seq<Header>, body: string, rest: string)
    requires forall i :: 0 <= i < |headers| ==> IsPrintable(headers[i]) && Survives(headers[i])
    requires body != "" && FindHeader(headers, "Content-Length").None? && |body| <= INT64_MAX
    ensures AdvanceHeaders(status, [], PrintMessage(headers, body) + rest)
              == Complete(status, WithLength(headers, body), body, rest) <==>
            |PrintDecimal(|body|)| <= SIZE_DIGITS
  {
    hide IsPrintable, Survives, PrintHeaders, ParseHeaders, BodyLength;
    var all := WithLength(headers, body);
    AddedLength(headers, body);
    forall i | 0 <= i < |all| ensures IsPrintable(all[i]) && Survives(all[i]) {
      assert i < |headers| ==> all[i] == all[..|headers|][i];
    }
    HeadersRoundTrip([], all, body + rest);
    assert [] + all == all;
    assert PrintMessage(headers, body) + rest == PrintHeaders(all) + (body + rest);
    var n := BodyLength(all).value;
    assert n == |body| ==> (body + rest)[..n] == body && (body + rest)[n..] == rest;
    assert |(body + rest)[..n]| == n;
  }

  /** Without a body nothing is added, and absent means 0. */
  lemma BodilessRoundTrip(status: StatusLine, headers: seq<Header>, rest: string)
    requires forall i :: 0 <= i < |headers| ==> IsPrintable(headers[i]) && Survives(headers[i])
    requires FindHeader(headers, "Content-Length").None?
    ensures AdvanceHeaders(status, [], PrintMessage(headers, "") + rest) == Complete(status, headers, "", rest)
  {
    hide IsPrintable, Survives, PrintHeaders, ParseHeaders, FindHeader;
    HeadersRoundTrip([], headers, rest);
    assert [] + headers == headers;
    assert PrintHeaders(headers) + "" == PrintHeaders(headers);
    assert rest[..0] == "" && rest[0..] == rest;
  }

  // ----- The printer itself -----

  lemma {:induction false} PrintHeadersAt(headers: seq<Header>, i: nat)
    requires i < |headers|
    ensures PrintHeaders(headers[i..]) == PrintHeader(headers[i]) + PrintHeaders(headers[i + 1..])
  {
    assert headers[i..][0] == headers[i] && headers[i..][1..] == headers[i + 1..];
  }

  /** What a request says; `headers` is its output header list. */
  datatype Message = Message(method_: string, uri: string, major: nat, minor: nat, headers: seq<Header>, body: string)

  /** All that is sent for it. */
  function RequestText(m: Message): (text: string)
    ensures text != ""
  {
    m.method_ + " " + m.uri + " RTSP/" + PrintDecimal(m.major) + "." + PrintDecimal(m.minor) + "\r\n"
    + PrintMessage(m.headers, m.body)
  }

  /** The loop over the headers. */
  method PrintAll(headers: seq<Header>) returns (printed: string)
    ensures printed + "\r\n" == PrintHeaders(headers)
  {
    hide PrintHeaders, PrintHeader;
    printed := "";
    for i := 0 to |headers|
      invariant printed + PrintHeaders(headers[i..]) == PrintHeaders(headers)
    {
      PrintHeadersAt(headers, i);
      ghost var next, more := PrintHeader(headers[i]), PrintHeaders(headers[i + 1..]);
      assert printed + (next + more) == printed + next + more;
      printed := printed + PrintHeader(headers[i]);
    }
    NoMore(headers);
  }

  lemma NoMore(headers: seq<Header>)
    ensures PrintHeaders(headers[|headers|..]) == "\r\n"
  {
  }

  /** evrtsp_make_header: the request line, then the message. The header list of the request
      gets the length. */
  method MakeHeader(m: Message) returns (text: string, headers: seq<Header>)
    ensures headers == WithLength(m.headers, m.body)
    ensures text == RequestText(m)
  {
    hide PrintHeader, PrintHeaders, FindHeader, PrintDecimal;
    text := m.method_ + " " + m.uri + " RTSP/" + PrintDecimal(m.major) + "." + PrintDecimal(m.minor) + "\r\n";
    headers := m.headers;
    if |m.body| > 0 && FindHeader(headers, "Content-Length").None? {
      var size := PrintDecimal(|m.body|);
      headers := headers + [Header("Content-Length", if |size| <= SIZE_DIGITS then size else size[..SIZE_DIGITS])];
    }
    var printed := PrintAll(headers);
    text := text + (printed + "\r\n" + m.body);
  }
}
