/** Lines and C strings, as src/evrtsp/rtsp.c gets them from libevent and the C library. */
module RtspText {
  import opened Words

  predicate IsEol(c: char) { c == '\r' || c == '\n' }

  predicate IsBlank(c: char) { c == ' ' || c == '\t' }

  /** A run of CR and LF characters at the front, dropped. */
  function SkipEol(s: string): (r: string)
    ensures r == "" || !IsEol(r[0])
    ensures |r| <= |s| && (|r| == |s| <==> s == "" || !IsEol(s[0]))
  {
    if s != "" && IsEol(s[0]) then SkipEol(s[1..]) else s
  }

  /** evbuffer_readln with EVBUFFER_EOL_ANY: a line ends with a run of CR and LF characters, all
      of which are eaten. Gives the line and what remains. */
  function ReadLnAny(buf: string): Option<(string, string)> {
    if buf == "" then None
    else if IsEol(buf[0]) then Some(("", SkipEol(buf)))
    else match ReadLnAny(buf[1..])
      case None => None
      case Some((line, rest)) => Some(([buf[0]] + line, rest))
  }

  /** evbuffer_readln with EVBUFFER_EOL_CRLF: a line ends with LF, or CR LF. */
  function ReadLnCrlf(buf: string): (r: Option<(string, string)>)
    ensures r.Some? ==> |r.value.0| + |r.value.1| < |buf|
  {
    if buf == "" then None
    else if buf[0] == '\n' then Some(("", buf[1..]))
    else if |buf| >= 2 && buf[0] == '\r' && buf[1] == '\n' then Some(("", buf[2..]))
    else match ReadLnCrlf(buf[1..])
      case None => None
      case Some((line, rest)) => Some(([buf[0]] + line, rest))
  }

  /** A line that was found stays the same line when more bytes arrive. */
  lemma {:induction false} ReadLnCrlfMore(a: string, b: string)
    ensures ReadLnCrlf(a).Some? ==>
              ReadLnCrlf(a + b) == Some((ReadLnCrlf(a).value.0, ReadLnCrlf(a).value.1 + b))
  {
    if a != "" {
      ReadLnCrlfMore(a[1..], b);
      assert (a + b)[1..] == a[1..] + b;
      assert |a| >= 2 ==> (a + b)[2..] == a[2..] + b;
    }
  }

  /** The same for the other kind of line, unless the new bytes go on with the run that ended it. */
  lemma {:induction false} ReadLnAnyMore(a: string, b: string)
    requires ReadLnAny(a).Some? && !(ReadLnAny(a).value.1 == "" && b != "" && IsEol(b[0]))
    ensures ReadLnAny(a + b) == Some((ReadLnAny(a).value.0, ReadLnAny(a).value.1 + b))
  {
    assert (a + b)[1..] == a[1..] + b;
    if IsEol(a[0]) {
      SkipEolMore(a, b);
    } else {
      ReadLnAnyMore(a[1..], b);
    }
  }

  lemma {:induction false} SkipEolMore(a: string, b: string)
    requires !(SkipEol(a) == "" && b != "" && IsEol(b[0]))
    ensures SkipEol(a + b) == SkipEol(a) + b
  {
    if a == "" {
      assert a + b == b;
    } else if IsEol(a[0]) {
      assert (a + b)[1..] == a[1..] + b;
      SkipEolMore(a[1..], b);
    }
  }

  /** The C string in a buffer: up to the first NUL. */
  function CStr(s: string): (r: string)
    ensures |r| <= |s| && r == s[..|r|] && forall i :: 0 <= i < |r| ==> r[i] != '\0'
    ensures |r| < |s| ==> s[|r|] == '\0'
  {
    if s == "" || s[0] == '\0' then "" else [s[0]] + CStr(s[1..])
  }

  /** strsep with one delimiter: the part before it and, if it occurs, the part behind it. */
  function StrSep(s: string, delim: char): (r: (string, Option<string>))
    ensures forall i :: 0 <= i < |r.0| ==> r.0[i] != delim
    ensures s == r.0 + match r.1 case None => "" case Some(t) => [delim] + t
  {
    if s == "" then ("", None)
    else if s[0] == delim then ("", Some(s[1..]))
    else var (token, rest) := StrSep(s[1..], delim); ([s[0]] + token, rest)
  }

  /** s + strspn(s, " "). */
  function SkipSpaces(s: string): (r: string)
    ensures r == "" || r[0] != ' '
  {
    if s != "" && s[0] == ' ' then SkipSpaces(s[1..]) else s
  }

  function Lower(c: char): char {
    if 'A' <= c <= 'Z' then (c as int + 32) as char else c
  }

  /** strcasecmp(a, b) == 0, in the C locale. */
  predicate EqualIgnoreCase(a: string, b: string) {
    |a| == |b| && forall i :: 0 <= i < |a| ==> Lower(a[i]) == Lower(b[i])
  }

  /** A letter's place in the alphabet, as a small letter; any other character stands for itself. */
  function Small(c: char): int { if 'A' <= c <= 'Z' then c as int - 'A' as int + 'a' as int else c as int }

  predicate SameLetters(a: string, b: string) {
    |a| == |b| && forall i :: 0 <= i < |a| ==> Small(a[i]) == Small(b[i])
  }

  /** Names are compared letter by letter, a capital being its small letter. */
  lemma IgnoreCaseIff(a: string, b: string)
    ensures EqualIgnoreCase(a, b) <==> SameLetters(a, b)
  {
    LowerIsSmall();
  }

  lemma LowerIsSmall()
    ensures forall c :: Lower(c) as int == Small(c)
  {
  }

  predicate IsDigit(c: char) { '0' <= c <= '9' }

  predicate IsSpace(c: char) { c == ' ' || '\t' <= c <= '\r' }

  /** The digits at the front of s, read on from n. */
  function Digits(s: string, n: nat): nat {
    if s != "" && IsDigit(s[0]) then Digits(s[1..], 10 * n + (s[0] as int - '0' as int)) else n
  }

  /** What strtol and atoi make of a decimal string, without regard to the width of the result:
      leading white space, a sign, digits; 0 without digits. */
  function Decimal(s: string): int {
    if s == "" then 0
    else if IsSpace(s[0]) then Decimal(s[1..])
    else if s[0] == '-' then 0 - Digits(s[1..], 0)
    else if s[0] == '+' then Digits(s[1..], 0)
    else Digits(s, 0)
  }

  const INT64_MAX := 0x7FFF_FFFF_FFFF_FFFF

  /** evutil_strtoll with base 10, which saturates. */
  function StrToLL(s: string): int {
    var n := Decimal(s);
    if n > INT64_MAX then INT64_MAX else if n < -INT64_MAX - 1 then -INT64_MAX - 1 else n
  }

  /** printf("%ld") of a number that is not negative. */
  function PrintDecimal(n: nat): string {
    if n < 10 then [(n + '0' as int) as char] else PrintDecimal(n / 10) + [(n % 10 + '0' as int) as char]
  }

  lemma {:induction false} DigitsAppend(s: string, t: string, n: nat)
    requires forall i :: 0 <= i < |s| ==> IsDigit(s[i])
    ensures Digits(s + t, n) == Digits(t, Digits(s, n))
  {
    if s == "" {
      assert s + t == t;
    } else {
      assert (s + t)[1..] == s[1..] + t;
      DigitsAppend(s[1..], t, 10 * n + (s[0] as int - '0' as int));
    }
  }

  /** Printed numbers read back. */
  lemma {:induction false} DecimalRoundTrip(n: nat)
    ensures PrintDecimal(n) != "" && forall i :: 0 <= i < |PrintDecimal(n)| ==> IsDigit(PrintDecimal(n)[i])
    ensures Digits(PrintDecimal(n), 0) == n && Decimal(PrintDecimal(n)) == n
  {
    if n >= 10 {
      DecimalRoundTrip(n / 10);
      DigitsAppend(PrintDecimal(n / 10), [(n % 10 + '0' as int) as char], 0);
    }
  }

  /** White space and a sign in front do not keep a number from being read, nor does what comes
      behind its digits. */
  lemma DecimalReads(space: string, sign: string, n: nat, tail: string)
    requires forall i :: 0 <= i < |space| ==> space[i] == ' ' || '\t' <= space[i] <= '\r'
    requires sign in ["", "+", "-"] && (tail == "" || !('0' <= tail[0] <= '9'))
    ensures Decimal(space + (sign + PrintDecimal(n) + tail)) == if sign == "-" then 0 - n else n
  {
    hide *;
    SpaceSkipped(space, sign + PrintDecimal(n) + tail);
    SignedReads(sign, n, tail);
  }

  lemma {:induction false} SpaceSkipped(space: string, text: string)
    requires forall i :: 0 <= i < |space| ==> space[i] == ' ' || '\t' <= space[i] <= '\r'
    ensures Decimal(space + text) == Decimal(text)
  {
    if space == "" {
      assert space + text == text;
    } else {
      SpaceSkipped(space[1..], text);
      assert (space + text)[1..] == space[1..] + text;
    }
  }

  lemma SignedReads(sign: string, n: nat, tail: string)
    requires sign in ["", "+", "-"] && (tail == "" || !('0' <= tail[0] <= '9'))
    ensures Decimal(sign + PrintDecimal(n) + tail) == if sign == "-" then 0 - n else n
  {
    hide Decimal;
    DecimalRoundTrip(n);
    DigitsThen(PrintDecimal(n), tail);
    hide PrintDecimal, Digits;
    SignThenDigits(sign, PrintDecimal(n) + tail);
    assert sign + (PrintDecimal(n) + tail) == sign + PrintDecimal(n) + tail;
  }

  lemma SignThenDigits(sign: string, digits: string)
    requires sign in ["", "+", "-"] && digits != "" && IsDigit(digits[0])
    ensures Decimal(sign + digits) == if sign == "-" then 0 - Digits(digits, 0) else Digits(digits, 0)
  {
    hide Digits;
    if sign == "" {
      assert sign + digits == digits;
    } else {
      assert (sign + digits)[1..] == digits;
    }
  }

  lemma DigitsThen(s: string, tail: string)
    requires (forall i :: 0 <= i < |s| ==> IsDigit(s[i])) && (tail == "" || !IsDigit(tail[0]))
    ensures Digits(s + tail, 0) == Digits(s, 0)
  {
    DigitsAppend(s, tail, 0);
  }
}
