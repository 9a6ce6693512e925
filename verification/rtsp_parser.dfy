/** The incremental response parser of src/evrtsp/rtsp.c. A response arrives in reads of any
    size; the parser keeps what it cannot use yet and goes on with the next read. The question
    is when the sizes of the reads do not matter. */
module RtspParser {
  import opened Words
  import opened RtspText

  datatype Header = Header(key: string, value: string)

  datatype StatusLine = StatusLine(major: int, minor: int, code: int, readable: string)

  datatype ReadStatus = DataCorrupted | AllDataRead | MoreDataExpected

  /** evrtsp_parse_response_line. */
  function ParseResponseLine(line: string): Option<StatusLine> {
    var (protocol, rest) := StrSep(line, ' ');
    if rest.None? then None
    else
      var (number, more) := StrSep(rest.value, ' ');
      var readable := match more case None => "" case Some(r) => r;
      if protocol != "RTSP/1.0" && protocol != "RTSP/1.1" then None
      else if Decimal(number) == 0 then None
      else Some(StatusLine(1, if protocol == "RTSP/1.1" then 1 else 0, Decimal(number), readable))
  }

  /** evrtsp_header_is_valid_value: every run of CR and LF is followed by a blank. */
  predicate IsValidValue(value: string)
    decreases |value|
  {
    value == "" ||
    if IsEol(value[0])
    then var rest := SkipEol(value); rest != "" && IsBlank(rest[0]) && IsValidValue(rest[1..])
    else IsValidValue(value[1..])
  }

  /** What evrtsp_add_header accepts. */
  predicate IsAccepted(h: Header) {
    '\r' !in h.key && '\n' !in h.key && IsValidValue(h.value)
  }

  /** evrtsp_find_header. */
  function FindHeader(headers: seq<Header>, key: string): Option<string> {
    if headers == [] then None
    else if EqualIgnoreCase(headers[0].key, key) then Some(headers[0].value)
    else FindHeader(headers[1..], key)
  }

  /** One header line: a new header, more of the last one, or an error. */
  function ParseHeaderLine(headers: seq<Header>, line: string): Option<seq<Header>>
    requires line != ""
  {
    if IsBlank(line[0]) then
      if headers == [] then None
      else
        var last := headers[|headers| - 1];
        Some(headers[..|headers| - 1] + [last.(value := last.value + line)])
    else
      var (key, value) := StrSep(line, ':');
      if value.None? then None
      else
        var h := Header(key, SkipSpaces(value.value));
        if IsAccepted(h) then Some(headers + [h]) else None
  }

  /** evrtsp_parse_headers: the status, the header list, and what is left of the buffer. */
  function ParseHeaders(headers: seq<Header>, buf: string): (r: (ReadStatus, seq<Header>, string))
    ensures |r.2| <= |buf|
    decreases |buf|
  {
    match ReadLnCrlf(buf)
    case None => (MoreDataExpected, headers, buf)
    case Some((raw, rest)) =>
      var line := CStr(raw);
      if line == "" then (AllDataRead, headers, rest)
      else match ParseHeaderLine(headers, line)
        case None => (DataCorrupted, headers, rest)
        case Some(headers') => ParseHeaders(headers', rest)
  }

  /** evrtsp_get_body_length: None for an illegal length; an absent one means 0 (section 12.14 of
      RFC 2326). */
  function BodyLength(headers: seq<Header>): Option<nat> {
    match FindHeader(headers, "Content-Length")
    case None => Some(0)
    case Some(value) => if value == "" || StrToLL(value) < 0 then None else Some(StrToLL(value))
  }

  /** How far a response has been read. `buf` is what is left of the input buffer. */
  datatype Reader =
    | ReadingFirstLine(buf: string)
    | ReadingHeaders(status: StatusLine, headers: seq<Header>, buf: string)
    | ReadingBody(status: StatusLine, headers: seq<Header>, ntoread: nat, buf: string)
    | Complete(status: StatusLine, headers: seq<Header>, body: string, buf: string)
    | Failed
  {
    /** A read adds to the buffer. */
    function Append(chunk: string): Reader {
      match this
      case ReadingFirstLine(b) => ReadingFirstLine(b + chunk)
      case ReadingHeaders(s, h, b) => ReadingHeaders(s, h, b + chunk)
      case ReadingBody(s, h, n, b) => ReadingBody(s, h, n, b + chunk)
      case _ => this
    }

    /** What the requester sees: everything but the bytes behind a complete response. */
    function Outcome(): Reader {
      match this
      case Complete(s, h, body, _) => Complete(s, h, body, "")
      case _ => this
    }
  }

  function AdvanceBody(status: StatusLine, headers: seq<Header>, ntoread: nat, buf: string): Reader {
    if |buf| >= ntoread then Complete(status, headers, buf[..ntoread], buf[ntoread..])
    else ReadingBody(status, headers, ntoread, buf)
  }

  function AdvanceHeaders(status: StatusLine, headers: seq<Header>, buf: string): Reader {
    var (st, hs, rest) := ParseHeaders(headers, buf);
    match st
    case DataCorrupted => Failed
    case MoreDataExpected => ReadingHeaders(status, hs, rest)
    case AllDataRead =>
      match BodyLength(hs)
      case None => Failed
      case Some(n) => AdvanceBody(status, hs, n, rest)
  }

  function AdvanceFirstLine(buf: string): Reader {
    match ReadLnAny(buf)
    case None => ReadingFirstLine(buf)
    case Some((line, rest)) =>
      match ParseResponseLine(CStr(line))
      case None => Failed
      case Some(status) => AdvanceHeaders(status, [], rest)
  }

  /** evrtsp_read_message: uses as much of the buffer as it can. */
  function Advance(r: Reader): Reader {
    match r
    case ReadingFirstLine(buf) => AdvanceFirstLine(buf)
    case ReadingHeaders(status, headers, buf) => AdvanceHeaders(status, headers, buf)
    case ReadingBody(status, headers, n, buf) => AdvanceBody(status, headers, n, buf)
    case _ => r
  }

  /** One read event. */
  function Feed(r: Reader, chunk: string): Reader { Advance(r.Append(chunk)) }

  function FeedAll(r: Reader, chunks: seq<string>): Reader
    decreases |chunks|
  {
    if chunks == [] then r else FeedAll(Feed(r, chunks[0]), chunks[1..])
  }

  function Join(chunks: seq<string>): string {
    if chunks == [] then "" else chunks[0] + Join(chunks[1..])
  }

  const START := ReadingFirstLine("")

  // ----- Two reads against one -----

  lemma {:induction false} ParseHeadersMore(headers: seq<Header>, a: string, b: string)
    ensures var (st, hs, rest) := ParseHeaders(headers, a);
            ParseHeaders(headers, a + b)
            == if st == MoreDataExpected then ParseHeaders(hs, rest + b) else (st, hs, rest + b)
    decreases |a|
  {
    ReadLnCrlfMore(a, b);
    match ReadLnCrlf(a)
    case None =>
    case Some((raw, rest)) =>
      var line := CStr(raw);
      if line != "" {
        match ParseHeaderLine(headers, line)
        case None =>
        case Some(headers') => ParseHeadersMore(headers', rest, b);
      }
  }

  lemma AdvanceBodyMore(status: StatusLine, headers: seq<Header>, n: nat, a: string, b: string)
    ensures Feed(AdvanceBody(status, headers, n, a), b).Outcome() == AdvanceBody(status, headers, n, a + b).Outcome()
  {
    if |a| >= n {
      assert (a + b)[..n] == a[..n];
    }
  }

  lemma AdvanceHeadersMore(status: StatusLine, headers: seq<Header>, a: string, b: string)
    ensures Feed(AdvanceHeaders(status, headers, a), b).Outcome() == AdvanceHeaders(status, headers, a + b).Outcome()
  {
    ParseHeadersMore(headers, a, b);
    var (st, hs, rest) := ParseHeaders(headers, a);
    if st == AllDataRead && BodyLength(hs).Some? {
      AdvanceBodyMore(status, hs, BodyLength(hs).value, rest, b);
    }
  }

  /** Text a ends within, or right behind, the CR LF run of the status line, and b goes on with it. */
  predicate CutsRun(a: string, b: string) {
    ReadLnAny(a).Some? && ReadLnAny(a).value.1 == "" && b != "" && IsEol(b[0])
  }

  /** Two reads are as good as one, unless they cut the run behind the status line. */
  lemma TwoReads(r: Reader, a: string, b: string)
    requires r.ReadingFirstLine? ==> !CutsRun(r.buf + a, b)
    ensures Feed(Feed(r, a), b).Outcome() == Feed(r, a + b).Outcome()
  {
    match r
    case ReadingFirstLine(buf) =>
      assert buf + (a + b) == (buf + a) + b;
      match ReadLnAny(buf + a) {
        case None =>
        case Some((line, rest)) =>
          ReadLnAnyMore(buf + a, b);
          match ParseResponseLine(CStr(line))
          case None =>
          case Some(status) => AdvanceHeadersMore(status, [], rest, b);
      }
    case ReadingHeaders(status, headers, buf) =>
      assert buf + (a + b) == (buf + a) + b;
      AdvanceHeadersMore(status, headers, buf + a, b);
    case ReadingBody(status, headers, n, buf) =>
      assert buf + (a + b) == (buf + a) + b;
      AdvanceBodyMore(status, headers, n, buf + a, b);
    case _ =>
  }

  // ----- Any number of reads -----

  /** No boundary between the chunks cuts the run; `before` came ahead of them. */
  predicate NoCut(before: string, chunks: seq<string>)
    decreases |chunks|
  {
    chunks == [] || (!CutsRun(before + chunks[0], Join(chunks[1..])) && NoCut(before + chunks[0], chunks[1..]))
  }

  lemma FeedSettles(r: Reader, chunk: string)
    ensures Feed(Feed(r, chunk), "").Outcome() == Feed(r, chunk).Outcome()
  {
    assert chunk + "" == chunk;
    TwoReads(r, chunk, "");
  }

  /** However the bytes are divided, the outcome is that of a single read, as long as no
      boundary cuts the run behind the status line. */
  lemma {:induction false} ManyReads(r: Reader, chunks: seq<string>)
    requires r.ReadingFirstLine? ==> NoCut(r.buf, chunks)
    requires Feed(r, "").Outcome() == r.Outcome()
    ensures FeedAll(r, chunks).Outcome() == Feed(r, Join(chunks)).Outcome()
    decreases |chunks|
  {
    if chunks != [] {
      FeedSettles(r, chunks[0]);
      ManyReads(Feed(r, chunks[0]), chunks[1..]);
      TwoReads(r, chunks[0], Join(chunks[1..]));
    }
  }

  /** A boundary that cuts the run leaves part of it to the header parser, which takes it for
      the empty line behind the headers or for a broken header. */
  lemma EolEndsHeaders(text: string)
    requires text != "" && IsEol(text[0])
    ensures var (st, headers, rest) := ParseHeaders([], text);
            headers == [] && (st == MoreDataExpected ==> rest == text)
  {
    if text[0] == '\r' && !(|text| >= 2 && text[1] == '\n') && ReadLnCrlf(text).Some? {
      var line := CStr(ReadLnCrlf(text).value.0);
      assert line != "" && line[0] == '\r';
      var (key, value) := StrSep(line, ':');
      assert key != "" && key[0] == line[0];
    }
  }

  lemma {:induction false} RunOver(before: string, chunks: seq<string>)
    requires ReadLnAny(before).Some? && !CutsRun(before, Join(chunks))
    ensures NoCut(before, chunks)
    decreases |chunks|
  {
    if chunks != [] {
      ReadLnAnyMore(before, chunks[0]);
      RunOver(before + chunks[0], chunks[1..]);
    }
  }

  /** What the parser can have made of a response with a cut run: no header, and as long as the
      headers are not over, the rest of the run is still in front of it. */
  predicate NothingFound(r: Reader) {
    match r
    case ReadingHeaders(_, headers, buf) => headers == [] && buf != "" && IsEol(buf[0])
    case Complete(_, headers, _, _) => headers == []
    case Failed => true
    case _ => false
  }

  lemma {:induction false} CutLosesHeaders(before: string, chunks: seq<string>)
    requires ReadLnAny(before).None? && !NoCut(before, chunks)
    ensures NothingFound(FeedAll(ReadingFirstLine(before), chunks))
    decreases |chunks|
  {
    hide ReadLnAny, NothingFound;
    var text, rest := before + chunks[0], chunks[1..];
    var r := Feed(ReadingFirstLine(before), chunks[0]);
    if ReadLnAny(text).None? {
      CutLosesHeaders(text, rest);
    } else if CutsRun(text, Join(rest)) {
      AfterCut(text, Join(rest));
      ManyReads(r, rest);
      FoundByOutcome(FeedAll(r, rest), Feed(r, Join(rest)));
    } else {
      RunOver(text, rest);
    }
  }

  lemma AfterCut(text: string, more: string)
    requires CutsRun(text, more)
    ensures !AdvanceFirstLine(text).ReadingFirstLine? && NothingFound(Feed(AdvanceFirstLine(text), more))
    ensures Feed(AdvanceFirstLine(text), "").Outcome() == AdvanceFirstLine(text).Outcome()
  {
    hide ReadLnAny, ParseResponseLine;
    EolEndsHeaders(more);
    NoHeadersYet();
    assert "" + more == more && "" + "" == "";
  }

  lemma FoundByOutcome(r: Reader, q: Reader)
    requires r.Outcome() == q.Outcome()
    ensures NothingFound(r) <==> NothingFound(q)
  {
  }

  /** A read from the beginning never leaves the rest of the run in front. */
  lemma OneReadFinds(text: string)
    requires var r := Feed(START, text); NothingFound(r)
    ensures var r := Feed(START, text); r.Failed? || r.Complete?
  {
    hide ParseResponseLine;
    FedFirst(text);
    if ReadLnAny(text).Some? {
      RestOfLine(text);
      HeadersLeft([], ReadLnAny(text).value.1);
    }
  }

  lemma {:induction false} RestOfLine(text: string)
    requires ReadLnAny(text).Some?
    ensures var rest := ReadLnAny(text).value.1; rest == "" || !IsEol(rest[0])
  {
    if !IsEol(text[0]) {
      RestOfLine(text[1..]);
    }
  }

  /** Without a header the parser has taken nothing off the buffer. */
  lemma {:induction false} HeadersLeft(headers: seq<Header>, buf: string)
    ensures var (st, hs, rest) := ParseHeaders(headers, buf); |headers| <= |hs|
    ensures var (st, hs, rest) := ParseHeaders(headers, buf); st == MoreDataExpected && hs == [] ==> rest == buf
    decreases |buf|
  {
    hide ReadLnCrlf, CStr, IsAccepted, StrSep;
    match ReadLnCrlf(buf)
    case None =>
    case Some((raw, rest)) =>
      var line := CStr(raw);
      if line != "" {
        match ParseHeaderLine(headers, line)
        case None =>
        case Some(headers') => HeadersLeft(headers', rest);
      }
  }

  /** Main result: bytes give the same outcome in pieces exactly when no boundary cuts the run of
      CR and LF characters behind the status line. That is so whatever one read makes of them,
      but for two cases, in which nothing shows that headers got lost: a failure, and a response
      that is complete without a header. */
  lemma FragmentationIff(chunks: seq<string>)
    requires var one := Feed(START, Join(chunks)); !one.Failed? && (one.Complete? ==> one.headers != [])
    ensures FeedAll(START, chunks).Outcome() == Feed(START, Join(chunks)).Outcome() <==> NoCut("", chunks)
  {
    hide NothingFound, Feed, NoCut;
    ReadsSettle();
    if NoCut("", chunks) {
      ManyReads(START, chunks);
    } else {
      CutLosesHeaders("", chunks);
      if FeedAll(START, chunks).Outcome() == Feed(START, Join(chunks)).Outcome() {
        FoundByOutcome(FeedAll(START, chunks), Feed(START, Join(chunks)));
        OneReadFinds(Join(chunks));
        CompleteWithout(Feed(START, Join(chunks)));
      }
    }
  }

  lemma ReadsSettle()
    ensures Feed(START, "").Outcome() == START.Outcome()
  {
  }

  lemma CompleteWithout(r: Reader)
    requires NothingFound(r)
    ensures r.Complete? ==> r.headers == []
  {
  }

  lemma {:induction false} StatusLineFirst(line: string, run: string)
    requires (forall i :: 0 <= i < |line| ==> !IsEol(line[i])) && run != "" && IsEol(run[0])
    ensures ReadLnAny(line + run) == Some((line, SkipEol(run)))
  {
    if line == "" {
      assert line + run == run;
    } else {
      assert (line + run)[1..] == line[1..] + run;
      assert [line[0]] + line[1..] == line;
      StatusLineFirst(line[1..], run);
    }
  }

  lemma {:induction false} RunSkipped(run: string)
    requires AllEol(run)
    ensures SkipEol(run) == ""
  {
    if run != "" {
      RunSkipped(run[1..]);
    }
  }

  lemma StatusLineAlone(line: string, run: string)
    requires (forall i :: 0 <= i < |line| ==> !IsEol(line[i])) && ParseResponseLine(CStr(line)).Some?
    requires run != "" && AllEol(run)
    ensures Feed(START, line + run) == ReadingHeaders(ParseResponseLine(CStr(line)).value, [], "")
  {
    hide ParseResponseLine, CStr, ReadLnAny, SkipEol;
    StatusLineFirst(line, run);
    RunSkipped(run);
    FedFirst(line + run);
    NoHeadersYet();
  }

  lemma FedFirst(text: string)
    ensures Feed(START, text) == AdvanceFirstLine(text)
  {
    hide AdvanceFirstLine;
    assert "" + text == text;
  }

  lemma NoHeadersYet()
    ensures ParseHeaders([], "") == (MoreDataExpected, [], "")
  {
  }

  lemma EmptyLineCompletes(status: StatusLine, crlf: string)
    requires crlf == "\r\n"
    ensures Feed(ReadingHeaders(status, [], ""), crlf) == Complete(status, [], "", "")
  {
    assert "" + crlf == crlf && crlf[2..] == "";
    assert ParseHeaders([], crlf) == (AllDataRead, [], "");
  }

  predicate AllEol(s: string) { forall i :: 0 <= i < |s| ==> IsEol(s[i]) }

  /** Why one read is not always better: a response without headers and body that arrives at
      once is never complete, because its empty line goes with the status line; split behind
      the status line it is. */
  lemma HeaderlessResponse(line: string, run: string, crlf: string)
    requires (forall i :: 0 <= i < |line| ==> !IsEol(line[i])) && ParseResponseLine(CStr(line)).Some?
    requires run != "" && AllEol(run) && crlf == "\r\n"
    ensures var status := ParseResponseLine(CStr(line)).value;
            && Feed(START, line + (run + crlf)) == ReadingHeaders(status, [], "")
            && FeedAll(START, [line + run, crlf]) == Complete(status, [], "", "")
  {
    hide Feed, FeedAll, ParseResponseLine, CStr;
    MoreEol(run, crlf);
    StatusLineAlone(line, run + crlf);
    StatusLineAlone(line, run);
    EmptyLineCompletes(ParseResponseLine(CStr(line)).value, crlf);
    FeedTwo(START, line + run, crlf);
  }

  lemma MoreEol(run: string, crlf: string)
    requires run != "" && AllEol(run) && crlf == "\r\n"
    ensures run + crlf != "" && AllEol(run + crlf)
  {
  }

  lemma FeedTwo(r: Reader, a: string, b: string)
    ensures FeedAll(r, [a, b]) == Feed(Feed(r, a), b)
  {
    hide Feed;
    assert [a, b][1..] == [b] && [b][1..] == [];
    assert FeedAll(Feed(r, a), [b]) == FeedAll(Feed(Feed(r, a), b), []);
  }
}
