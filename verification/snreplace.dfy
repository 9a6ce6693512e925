/** safe_snreplace of src/misc.c: replaces a pattern in a C string, in place. */
module SnReplace {
  import opened Words
  import opened Search

  predicate IsText(t: string) { '\0' !in t }

  /** The C string that a buffer holds. */
  function CString(a: seq<char>): (t: string)
    requires '\0' in a
    ensures |t| < |a| && t == a[..|t|] && a[|t|] == '\0' && IsText(t)
  {
    if a[0] == '\0' then [] else [a[0]] + CString(a[1..])
  }

  lemma {:induction false} CStringIs(a: seq<char>, t: string)
    requires |t| < |a| && t == a[..|t|] && a[|t|] == '\0' && IsText(t)
    ensures CString(a) == t
  {
    var c := CString(a);
    assert forall k :: 0 <= k < |t| ==> t[k] in t && t[k] == a[k];
    assert forall k :: 0 <= k < |c| ==> c[k] in c && c[k] == a[k];
    assert |c| == |t|;
  }

  /** Replace-all as it is meant: each occurrence from the left that does not overlap the one
      before it. */
  function ReplaceAll(text: string, pattern: string, by_: string): string
    requires pattern != ""
    decreases |text|
  {
    match FirstMatch(text, pattern)
    case None => text
    case Some(i) => text[..i] + by_ + ReplaceAll(text[i + |pattern|..], pattern, by_)
  }

  lemma {:induction false} ReplaceAllGrows(text: string, pattern: string, by_: string)
    requires pattern != "" && |by_| >= |pattern|
    ensures |ReplaceAll(text, pattern, by_)| >= |text|
    decreases |text|
  {
    match FirstMatch(text, pattern)
    case None =>
    case Some(i) => ReplaceAllGrows(text[i + |pattern|..], pattern, by_);
  }

  /** A text part of which has been gone through. */
  datatype Progress = Progress(done: string, rest: string)

  /** The first n replacements. */
  function Replaced(text: string, pattern: string, by_: string, n: nat): Progress {
    if n == 0 then Progress("", text)
    else
      var p := Replaced(text, pattern, by_, n - 1);
      match FirstMatch(p.rest, pattern)
      case None => p
      case Some(i) => Progress(p.done + p.rest[..i] + by_, p.rest[i + |pattern|..])
  }

  function Partial(text: string, pattern: string, by_: string, n: nat): string {
    var p := Replaced(text, pattern, by_, n);
    p.done + p.rest
  }

  /** Replacing the rest of what has been partly done gives the whole. */
  lemma {:induction false} PartialThenAll(text: string, pattern: string, by_: string, n: nat)
    requires pattern != ""
    ensures var p := Replaced(text, pattern, by_, n);
            p.done + ReplaceAll(p.rest, pattern, by_) == ReplaceAll(text, pattern, by_)
  {
    hide *;
    if n == 0 {
      StartsAt(text, pattern, by_);
    } else {
      PartialThenAll(text, pattern, by_, n - 1);
      var p := Replaced(text, pattern, by_, n - 1);
      OneMore(text, pattern, by_, n - 1);
      ReplaceAllStep(p.rest, pattern, by_);
    }
  }

  lemma ReplaceAllStep(text: string, pattern: string, by_: string)
    requires pattern != ""
    ensures match FirstMatch(text, pattern)
            case None => ReplaceAll(text, pattern, by_) == text
            case Some(i) =>
              && i + |pattern| <= |text|
              && ReplaceAll(text, pattern, by_) == text[..i] + by_ + ReplaceAll(text[i + |pattern|..], pattern, by_)
  {
    hide FirstMatch, MatchesAt;
    FirstMatchFits(text, pattern);
  }

  lemma FirstMatchFits(text: string, pattern: string)
    ensures match FirstMatch(text, pattern) case None => true case Some(i) => i + |pattern| <= |text|
  {
  }

  lemma OneMore(text: string, pattern: string, by_: string, n: nat)
    ensures var p := Replaced(text, pattern, by_, n);
            match FirstMatch(p.rest, pattern)
            case None => Replaced(text, pattern, by_, n + 1) == p
            case Some(i) =>
              && i + |pattern| <= |p.rest|
              && Replaced(text, pattern, by_, n + 1) == Progress(p.done + p.rest[..i] + by_, p.rest[i + |pattern|..])
  {
  }

  /** A replacement that does not fit means that the full result would not. */
  lemma TooLongForAll(text: string, pattern: string, by_: string, n: nat)
    requires pattern != "" && |by_| >= |pattern|
    requires FirstMatch(Replaced(text, pattern, by_, n).rest, pattern).Some?
    ensures |ReplaceAll(text, pattern, by_)| >= |Partial(text, pattern, by_, n + 1)|
  {
    PartialThenAll(text, pattern, by_, n + 1);
    ReplaceAllGrows(Replaced(text, pattern, by_, n + 1).rest, pattern, by_);
  }

  method MemMove(buf: array<char>, dst: nat, src: nat, num: nat)
    requires dst + num <= buf.Length && src + num <= buf.Length
    modifies buf
    ensures buf[..] == old(buf[..])[..dst] + old(buf[..])[src..src + num] + old(buf[..])[dst + num..]
  {
    forall k | 0 <= k < num {
      buf[dst + k] := buf[src + k];
    }
  }

  method MemCpy(buf: array<char>, dst: nat, from: string)
    requires dst + |from| <= buf.Length
    modifies buf
    ensures buf[..] == old(buf[..])[..dst] + from + old(buf[..])[dst + |from|..]
  {
    forall k | 0 <= k < |from| {
      buf[dst + k] := from[k];
    }
  }

  /** The first sLen characters with the n at place `at` exchanged. */
  function Exchanged(a: seq<char>, at: nat, n: nat, by_: string, sLen: nat): seq<char>
    requires at + n <= sLen <= |a|
  {
    a[..at] + by_ + a[at + n..sLen]
  }

  /** One turn of the loop that has room: the occurrence at offset `at` gives way. */
  method ReplaceAt(buf: array<char>, at: nat, pattern: string, by_: string, sLen: nat)
    requires 0 < sLen <= buf.Length && at + |pattern| < sLen && sLen + |by_| - |pattern| <= buf.Length
    modifies buf
    ensures buf[..][..sLen + |by_| - |pattern|] == Exchanged(old(buf[..]), at, |pattern|, by_, sLen)
  {
    var src, dst := at + |pattern|, at + |by_|;
    var num := sLen - src;
    ghost var was := buf[..];
    MemMove(buf, dst, src, num);
    MemCpy(buf, at, by_);
    Moved(was, at, src, dst, num, by_);
  }

  lemma Moved(was: seq<char>, at: nat, src: nat, dst: nat, num: nat, by_: string)
    requires at <= src && src + num <= |was| && dst == at + |by_| && dst + num <= |was|
    ensures var moved := was[..dst] + was[src..src + num] + was[dst + num..];
            (moved[..at] + by_ + moved[dst..])[..dst + num] == was[..at] + by_ + was[src..src + num]
  {
    var moved := was[..dst] + was[src..src + num] + was[dst + num..];
    assert moved[..at] == was[..at] && moved[dst..dst + num] == was[src..src + num];
  }

  /** safe_snreplace. A string with room for the full result gets it; otherwise -1 is returned,
      with all the replacements done that fit. With an empty pattern every place matches, so room
      runs out sooner or later; with an empty replacement as well it would never come back. */
  method SafeSnReplace(s: array?<char>, pattern: Option<string>, replacement: Option<string>)
      returns (ret: int, ghost n: nat)
    requires s != null ==> '\0' in s[..]
    requires pattern.Some? ==> IsText(pattern.value)
    requires replacement.Some? ==> IsText(replacement.value)
    requires pattern == Some("") ==> replacement != Some("")
    modifies s
    ensures s == null ==> ret == -1
    ensures s != null && (pattern.None? || replacement.None?) ==> ret == 0 && s[..] == old(s[..])
    ensures s != null && pattern.Some? && replacement.Some? ==>
              Outcome(old(s[..]), s[..], pattern.value, replacement.value, ret, n)
  {
    n := 0;
    if s == null {
      return -1, 0;
    }
    if pattern.None? || replacement.None? {
      return 0, 0;
    }
    ret, n := Replace(s, pattern.value, replacement.value);
  }

  /** What a call may leave behind: n replacements done, and either none left to do or no room for
      the next. */
  ghost predicate Outcome(before: seq<char>, after: seq<char>, pattern: string, by_: string, ret: int, n: nat)
    requires '\0' in before
  {
    var text := CString(before);
    && '\0' in after && |after| == |before|
    && CString(after) == Partial(text, pattern, by_, n)
    && (ret == 0 || ret == -1)
    && (ret == 0 <==> pattern != "" && |ReplaceAll(text, pattern, by_)| < |after|)
    && (ret == 0 ==> CString(after) == ReplaceAll(text, pattern, by_))
    && (ret == -1 ==> FirstMatch(Replaced(text, pattern, by_, n).rest, pattern).Some?)
    && (ret == -1 ==> |Partial(text, pattern, by_, n + 1)| >= |after|)
  }

  /** A buffer that holds what has been done and what is left, up to and with the terminator. */
  ghost predicate Holding(a: seq<char>, sLen: nat, ptr: nat, now: Progress) {
    && 0 < sLen <= |a| && ptr == |now.done| && sLen == |now.done| + |now.rest| + 1
    && a[..sLen] == now.done + now.rest + ['\0'] && IsText(now.done) && IsText(now.rest)
  }

  /** strstr from the pointer on. */
  method StrStr(s: array<char>, ptr: nat, sLen: nat, ghost now: Progress, pattern: string) returns (found: Option<nat>)
    requires Holding(s[..], sLen, ptr, now)
    ensures found == FirstMatch(now.rest, pattern)
    ensures found.Some? ==> found.value + |pattern| <= |now.rest|
  {
    Holds(s[..], sLen, ptr, now);
    found := FirstMatch(s[ptr..sLen - 1], pattern);
  }

  method Turn(s: array<char>, ptr: nat, i: nat, pattern: string, by_: string, sLen: nat, ghost now: Progress,
              ghost next: Progress)
    requires Holding(s[..], sLen, ptr, now) && i + |pattern| <= |now.rest| && IsText(by_)
    requires next == Progress(now.done + now.rest[..i] + by_, now.rest[i + |pattern|..])
    requires sLen + |by_| - |pattern| <= s.Length
    modifies s
    ensures Holding(s[..], sLen + |by_| - |pattern|, ptr + i + |by_|, next)
  {
    hide *;
    Holds(s[..], sLen, ptr, now);
    ghost var was := s[..];
    ReplaceAt(s, ptr + i, pattern, by_, sLen);
    HoldingAfter(was, s[..], sLen, ptr, now, i, |pattern|, by_);
  }

  method Replace(s: array<char>, pattern: string, by_: string) returns (ret: int, ghost n: nat)
    requires '\0' in s[..] && IsText(pattern) && IsText(by_) && (pattern == "" ==> by_ != "")
    modifies s
    ensures Outcome(old(s[..]), s[..], pattern, by_, ret, n)
  {
    hide *;
    var sLen: nat := |CString(s[..])| + 1;
    ghost var text := CString(s[..]);
    ghost var now := Progress("", text);
    StartsAt(text, pattern, by_);
    HoldingAtFirst(s[..]);
    var ptr: nat := 0;
    n := 0;
    while true
      invariant Holding(s[..], sLen, ptr, now) && now == Replaced(text, pattern, by_, n)
      decreases if pattern == "" then s.Length - sLen else |now.rest|
    {
      Holds(s[..], sLen, ptr, now);
      var found := StrStr(s, ptr, sLen, now, pattern);
      if found.None? {
        DoneAll(old(s[..]), s[..], pattern, by_, n);
        return 0, n;
      }
      var at: nat := ptr + found.value;
      OneMore(text, pattern, by_, n);
      ghost var next := Replaced(text, pattern, by_, n + 1);
      if sLen + |by_| - |pattern| > s.Length {
        NoRoom(old(s[..]), s[..], pattern, by_, n);
        return -1, n;
      }
      Turn(s, ptr, found.value, pattern, by_, sLen, now, next);
      sLen := sLen + |by_| - |pattern|;
      ptr := at + |by_|;
      now := next;
      n := n + 1;
    }
  }

  lemma HoldingAtFirst(a: seq<char>)
    requires '\0' in a
    ensures var text := CString(a); Holding(a, |text| + 1, 0, Progress("", text))
  {
    var text := CString(a);
    assert a[..|text| + 1] == text + ['\0'];
  }

  lemma Holds(a: seq<char>, sLen: nat, ptr: nat, now: Progress)
    requires Holding(a, sLen, ptr, now)
    ensures 0 < sLen <= |a| && ptr == |now.done| && sLen == |now.done| + |now.rest| + 1
    ensures '\0' in a && CString(a) == now.done + now.rest && a[ptr..sLen - 1] == now.rest
  {
    hide CString;
    var t := now.done + now.rest;
    assert a[..sLen][sLen - 1] == a[sLen - 1];
    assert a[..|t|] == a[..sLen][..|t|] == t;
    CStringIs(a, t);
  }

  /** The occurrence at offset i of the rest gives way to the replacement. */
  lemma HoldingAfter(a: seq<char>, b: seq<char>, sLen: nat, ptr: nat, now: Progress, i: nat, n: nat, by_: string)
    requires Holding(a, sLen, ptr, now) && i + n <= |now.rest| && IsText(by_)
    requires sLen <= |a| && ptr + i + n <= sLen
    requires sLen + |by_| - n <= |b| && b[..sLen + |by_| - n] == Exchanged(a, ptr + i, n, by_, sLen)
    ensures Holding(b, sLen + |by_| - n, ptr + i + |by_|, Progress(now.done + now.rest[..i] + by_, now.rest[i + n..]))
  {
    assert a[..ptr + i] == a[..sLen][..ptr + i] == now.done + now.rest[..i];
    assert a[ptr + i + n..sLen] == a[..sLen][ptr + i + n..] == now.rest[i + n..] + ['\0'];
    var done := now.done + now.rest[..i] + by_;
    assert b[..sLen + |by_| - n] == done + now.rest[i + n..] + ['\0'];
  }

  lemma DoneAll(before: seq<char>, a: seq<char>, pattern: string, by_: string, n: nat)
    requires '\0' in before && '\0' in a && |a| == |before|
    requires var p := Replaced(CString(before), pattern, by_, n);
             CString(a) == p.done + p.rest && FirstMatch(p.rest, pattern).None?
    ensures Outcome(before, a, pattern, by_, 0, n)
  {
    Finished(CString(before), pattern, by_, n);
  }

  lemma NoRoom(before: seq<char>, a: seq<char>, pattern: string, by_: string, n: nat)
    requires '\0' in before && '\0' in a && |a| == |before|
    requires var p := Replaced(CString(before), pattern, by_, n);
             CString(a) == p.done + p.rest && FirstMatch(p.rest, pattern).Some?
    requires |CString(a)| + |by_| - |pattern| >= |a|
    ensures Outcome(before, a, pattern, by_, -1, n)
  {
    var text := CString(before);
    hide FirstMatch, CString, ReplaceAll;
    FirstMatchFits(Replaced(text, pattern, by_, n).rest, pattern);
    OneMore(text, pattern, by_, n);
    if pattern != "" {
      TooLongForAll(text, pattern, by_, n);
    }
  }

  lemma StartsAt(text: string, pattern: string, by_: string)
    ensures Replaced(text, pattern, by_, 0) == Progress("", text)
  {
  }

  lemma Finished(text: string, pattern: string, by_: string, n: nat)
    requires FirstMatch(Replaced(text, pattern, by_, n).rest, pattern).None?
    ensures pattern != "" && ReplaceAll(text, pattern, by_) == Partial(text, pattern, by_, n)
  {
    assert MatchesAt(Replaced(text, pattern, by_, n).rest, "", 0);
    PartialThenAll(text, pattern, by_, n);
  }

  /** The length says in advance whether it can be done: only a longer replacement can run out of
      room, and shortening never fails. */
  lemma {:induction false} NeverFailsShrinking(text: string, pattern: string, by_: string)
    requires pattern != "" && |by_| <= |pattern|
    ensures |ReplaceAll(text, pattern, by_)| <= |text|
    decreases |text|
  {
    match FirstMatch(text, pattern)
    case None =>
    case Some(i) => NeverFailsShrinking(text[i + |pattern|..], pattern, by_);
  }
}
