/** The last steps of make_mp4_header in src/transcode.c: the moov atom, which the encoder put at
    the end of the file, moves in front of the free atom of the header, and the chunk offsets it
    holds (stco, section 8.7.5 of ISO/IEC 14496-12) are shifted by the distance. */
module Mp4FastStart {
  import opened Words
  import opened Search
  import Mp4

  const STCO_NEEDLE: seq<byte> := [0x73, 0x74, 0x63, 0x6f, 0, 0, 0, 0]
  const FREE_TAG: seq<byte> := [0x66, 0x72, 0x65, 0x65]

  /** Where the entry count of the first stco atom is. */
  function StcoStart(moov: seq<byte>): (r: Option<nat>)
    ensures r.Some? ==> r.value + 4 <= |moov|
  {
    match FirstMatch(moov, STCO_NEEDLE)
    case None => None
    case Some(i) => if i + 8 + 4 > |moov| then None else Some(i + 8)
  }

  /** The 32-bit word at a place, and chunk offset number i of the table at `at`. */
  function Word(moov: seq<byte>, at: nat): uint32
    requires at + 4 <= |moov|
  {
    FromBigEndian32(moov[at..at + 4])
  }

  function ChunkOffset(moov: seq<byte>, at: nat, i: nat): uint32
    requires at + 8 + 4 * i <= |moov|
  {
    Word(moov, at + 4 + 4 * i)
  }

  /** The first n chunk offsets moved by delta, nothing else changed. */
  ghost predicate Shifted(before: seq<byte>, after: seq<byte>, at: nat, n: nat, delta: nat) {
    && |after| == |before| && at + 4 + 4 * n <= |before|
    && (forall i {:trigger ChunkOffset(after, at, i)} :: 0 <= i < n ==>
          ChunkOffset(after, at, i) == Wrap32(ChunkOffset(before, at, i) + delta))
    && (forall k :: 0 <= k < |before| && !(at + 4 <= k < at + 4 + 4 * n) ==> after[k] == before[k])
  }

  lemma ShiftedNone(before: seq<byte>, at: nat, delta: nat)
    requires at + 4 <= |before|
    ensures Shifted(before, before, at, 0, delta)
  {
  }

  lemma ShiftOneMore(before: seq<byte>, after: seq<byte>, next: seq<byte>, at: nat, n: nat, delta: nat)
    requires Shifted(before, after, at, n, delta) && at + 8 + 4 * n <= |before|
    requires var p := at + 4 + 4 * n;
             next == after[..p] + BigEndian32(Wrap32(Word(after, p) + delta)) + after[p + 4..]
    ensures Shifted(before, next, at, n + 1, delta)
  {
    hide FromBigEndian32, BigEndian32;
    var p := at + 4 + 4 * n;
    var w := Wrap32(Word(after, p) + delta);
    assert after[p..p + 4] == before[p..p + 4];
    BigEndianRoundTrip(0, w);
    WordWritten(after, next, p, BigEndian32(w));
    forall i | 0 <= i < n
      ensures ChunkOffset(next, at, i) == ChunkOffset(after, at, i)
    {
      var q := at + 4 + 4 * i;
      assert next[q..q + 4] == after[q..q + 4];
    }
  }

  lemma WordWritten(before: seq<byte>, after: seq<byte>, p: nat, word: seq<byte>)
    requires p + 4 <= |before| && |word| == 4 && after == before[..p] + word + before[p + 4..]
    ensures |after| == |before| && after[p..p + 4] == word
    ensures forall k :: 0 <= k < |before| && !(p <= k < p + 4) ==> after[k] == before[k]
  {
  }

  // ----- The table in bytes -----

  /** The big-endian 32-bit number at place k. */
  function Value(b: seq<byte>, k: nat): nat
    requires k + 4 <= |b|
  {
    16777216 * b[k] as int + 65536 * b[k + 1] as int + 256 * b[k + 2] as int + b[k + 3] as int
  }

  /** The tag "stco" with version and flags 0. */
  predicate StcoAt(b: seq<byte>, j: nat) {
    j + 8 <= |b| && b[j..j + 8] == [0x73, 0x74, 0x63, 0x6f, 0, 0, 0, 0]
  }

  /** The tag "free". */
  predicate FreeTagAt(b: seq<byte>, j: nat) { j + 4 <= |b| && b[j..j + 4] == [0x66, 0x72, 0x65, 0x65] }

  /** A moov atom around its chunk offset table: what is before the tag "stco" with version and
      flags 0, the bytes of the entry count, those of the entries, and what is behind them. */
  datatype Table = Table(pre: seq<byte>, count: seq<byte>, entries: seq<byte>, post: seq<byte>) {
    function Bytes(): seq<byte> {
      pre + [0x73, 0x74, 0x63, 0x6f, 0, 0, 0, 0] + count + entries + post
    }

    function Offset(i: nat): nat
      requires 4 * i + 4 <= |entries|
    {
      Value(entries, 4 * i)
    }

    /** It is that of a moov: the count is that of the entries, and the tag the first one. */
    ghost predicate IsIn(moov: seq<byte>) {
      && moov == Bytes() && |count| == 4 && |entries| == 4 * Value(count, 0)
      && forall j: nat :: j < |pre| ==> !StcoAt(moov, j)
    }

    /** The same with each offset moved by delta, modulo 2^32. */
    ghost predicate MovesTo(t: Table, delta: nat) {
      && t.pre == pre && t.count == count && t.post == post && |t.entries| == |entries|
      && forall i: nat :: 4 * i + 4 <= |entries| ==> t.Offset(i) == (Offset(i) + delta) % 0x1_0000_0000
    }
  }

  lemma WordIsValue(b: seq<byte>, k: nat)
    requires k + 4 <= |b|
    ensures Word(b, k) == Value(b, k)
  {
    var word := b[k..k + 4];
    assert word[0] == b[k] && word[1] == b[k + 1] && word[2] == b[k + 2] && word[3] == b[k + 3];
  }

  lemma ValueWithin(b: seq<byte>, part: seq<byte>, from: nat, k: nat)
    requires from + |part| <= |b| && part == b[from..from + |part|] && k + 4 <= |part|
    ensures Value(part, k) == Value(b, from + k)
  {
  }

  /** Where the parts of a table are. */
  lemma Parts(t: Table, moov: seq<byte>)
    requires moov == t.Bytes() && |t.count| == 4
    ensures var at := |t.pre| + 8; var n := |t.entries|;
            && at + 4 + n <= |moov|
            && moov[at - 8..at] == [0x73, 0x74, 0x63, 0x6f, 0, 0, 0, 0]
            && moov[..at - 8] == t.pre && moov[at..at + 4] == t.count
            && moov[at + 4..at + 4 + n] == t.entries && moov[at + 4 + n..] == t.post
  {
  }

  /** The table of the bytes is the one found. */
  lemma TableFound(t: Table, moov: seq<byte>)
    requires t.IsIn(moov)
    ensures var at := |t.pre| + 8; var n := Value(t.count, 0);
            && StcoStart(moov) == Some(at) && at + 4 + 4 * n <= |moov| && Word(moov, at) == n
            && forall i: nat :: i < n ==> ChunkOffset(moov, at, i) == t.Offset(i)
  {
    hide FirstMatch, Value, Word, Table.Bytes;
    var at, n := |t.pre| + 8, Value(t.count, 0);
    Parts(t, moov);
    forall j: nat | j < |t.pre| ensures !MatchesAt(moov, STCO_NEEDLE, j) {
      assert !StcoAt(moov, j);
    }
    FirstMatchIs(moov, STCO_NEEDLE, |t.pre|);
    WordIsValue(moov, at);
    ValueWithin(moov, t.count, at, 0);
    forall i: nat | i < n ensures ChunkOffset(moov, at, i) == t.Offset(i) {
      WordIsValue(moov, at + 4 + 4 * i);
      ValueWithin(moov, t.entries, at + 4, 4 * i);
    }
  }

  /** A table that is found and complete is one of the bytes. */
  lemma TableThere(moov: seq<byte>) returns (t: Table)
    requires var at := StcoStart(moov); at.Some? && at.value + 4 + 4 * Word(moov, at.value) <= |moov|
    ensures t.IsIn(moov)
  {
    hide Value, Word;
    var i := FirstMatch(moov, STCO_NEEDLE).value;
    var at := i + 8;
    var n: nat := 4 * Word(moov, at);
    t := Table(moov[..i], moov[at..at + 4], moov[at + 4..at + 4 + n], moov[at + 4 + n..]);
    WordIsValue(moov, at);
    ValueWithin(moov, t.count, at, 0);
    Joined(moov, i, n);
    assert t.Bytes() == moov;
    forall j: nat | j < i ensures !StcoAt(moov, j) {
      assert !MatchesAt(moov, STCO_NEEDLE, j);
    }
  }

  lemma Joined(moov: seq<byte>, i: nat, n: nat)
    requires i + 12 + n <= |moov|
    ensures moov == moov[..i] + moov[i..i + 8] + moov[i + 8..i + 12] + moov[i + 12..i + 12 + n] + moov[i + 12 + n..]
  {
  }

  /** What the loop leaves, in bytes: nothing but the entries has changed. */
  lemma ShiftedAsTable(t: Table, before: seq<byte>, after: seq<byte>, delta: nat) returns (t': Table)
    requires t.IsIn(before) && Shifted(before, after, |t.pre| + 8, Value(t.count, 0), delta)
    ensures after == t'.Bytes() && t.MovesTo(t', delta)
  {
    hide Value, Word, Shifted, StcoStart;
    var at, n := |t.pre| + 8, |t.entries|;
    TableFound(t, before);
    Parts(t, before);
    ShiftedOutside(before, after, at, Value(t.count, 0), delta);
    t' := Table(t.pre, t.count, after[at + 4..at + 4 + n], t.post);
    Joined(after, at - 8, n);
    forall i: nat | 4 * i + 4 <= n ensures t'.Offset(i) == (t.Offset(i) + delta) % 0x1_0000_0000 {
      ShiftedAt(before, after, at, Value(t.count, 0), delta, i);
      WordIsValue(after, at + 4 + 4 * i);
      ValueWithin(after, t'.entries, at + 4, 4 * i);
    }
  }

  lemma ShiftedOutside(before: seq<byte>, after: seq<byte>, at: nat, count: nat, delta: nat)
    requires Shifted(before, after, at, count, delta) && at >= 8
    ensures |after| == |before| && at + 4 + 4 * count <= |before|
    ensures after[..at - 8] == before[..at - 8] && after[at - 8..at] == before[at - 8..at]
    ensures after[at..at + 4] == before[at..at + 4] && after[at + 4 + 4 * count..] == before[at + 4 + 4 * count..]
  {
    hide ChunkOffset;
  }

  lemma ShiftedAt(before: seq<byte>, after: seq<byte>, at: nat, count: nat, delta: nat, i: nat)
    requires Shifted(before, after, at, count, delta) && i < count
    ensures at + 8 + 4 * i <= |before| == |after|
    ensures ChunkOffset(after, at, i) == Wrap32(ChunkOffset(before, at, i) + delta)
  {
    hide ChunkOffset;
  }

  /** A complete table with the first tag is in the moov, and afterwards its offsets are moved. */
  ghost predicate HasTable(moov: seq<byte>) { exists t: Table :: t.IsIn(moov) }

  ghost predicate TableMoved(before: seq<byte>, after: seq<byte>, delta: nat) {
    exists t: Table, t': Table :: t.IsIn(before) && after == t'.Bytes() && t.MovesTo(t', delta)
  }

  lemma AdjustedTable(before: seq<byte>, after: seq<byte>, delta: nat)
    requires var at := StcoStart(before);
             && at.Some? && at.value + 4 + 4 * Word(before, at.value) <= |before|
             && Shifted(before, after, at.value, Word(before, at.value), delta)
    ensures HasTable(before) && TableMoved(before, after, delta)
  {
    hide StcoStart, Word, Shifted, Table.IsIn, Table.MovesTo, Value;
    var t := TableThere(before);
    TableFound(t, before);
    var t' := ShiftedAsTable(t, before, after, delta);
  }

  lemma NoTable(moov: seq<byte>)
    requires var at := StcoStart(moov); at.None? || at.value + 4 + 4 * Word(moov, at.value) > |moov|
    ensures !HasTable(moov)
  {
    hide StcoStart, Word, Table.IsIn, Value;
    forall t: Table | t.IsIn(moov) ensures false {
      TableFound(t, moov);
    }
  }

  /** mp4_adjust_moov_stco_offset. */
  method AdjustMoovStcoOffset(moov: array<byte>) returns (ret: int)
    modifies moov
    ensures var at := StcoStart(old(moov[..]));
            && (ret == 0 <==> at.Some? && at.value + 4 + 4 * Word(old(moov[..]), at.value) <= moov.Length)
            && (ret == 0 ==> Shifted(old(moov[..]), moov[..], at.value, Word(old(moov[..]), at.value), moov.Length))
    ensures ret == 0 || ret == -1
    ensures ret == 0 <==> HasTable(old(moov[..]))
    ensures ret == 0 ==> TableMoved(old(moov[..]), moov[..], moov.Length)
  {
    hide Word, BigEndian32, FromBigEndian32, StcoStart, Shifted, HasTable, TableMoved;
    ghost var before := moov[..];
    var at := StcoStart(moov[..]);
    if at.None? {
      NoTable(before);
      return -1;
    }
    var ptr := at.value;
    var count := Word(moov[..], ptr);
    var nEntries: nat := count;
    ShiftedNone(before, at.value, moov.Length);
    while nEntries > 0
      invariant nEntries <= count && ptr + 4 <= moov.Length && ptr == at.value + 4 * (count - nEntries)
      invariant Shifted(before, moov[..], at.value, count - nEntries, moov.Length)
    {
      ptr := ptr + 4;
      if ptr + 4 > moov.Length {
        NoTable(before);
        return -1;
      }
      ghost var after := moov[..];
      var entry := Word(moov[..], ptr);
      var be32 := BigEndian32(Wrap32(entry + moov.Length));
      forall k | 0 <= k < 4 {
        moov[ptr + k] := be32[k];
      }
      assert moov[..] == after[..ptr] + be32 + after[ptr + 4..];
      ShiftOneMore(before, after, moov[..], at.value, count - nEntries, moov.Length);
      nEntries := nEntries - 1;
    }
    AdjustedTable(before, moov[..], moov.Length);
    ret := 0;
  }

  /** Moving a trailer of length n to position p of what precedes it moves the bytes behind p. */
  function MovedTo(i: nat, p: nat, n: nat): nat { if i < p then i else i + n }

  lemma MovedByte(front: seq<byte>, body: seq<byte>, trailer: seq<byte>, moved: seq<byte>, p: nat, i: nat)
    requires p <= |front| && |moved| == |trailer| && i < |front| + |body|
    ensures var to := MovedTo(i, p, |trailer|); var file := front[..p] + moved + front[p..] + body;
            to < |file| && file[to] == (front + body + trailer)[i]
  {
  }

  /** A chunk offset, shifted modulo 2^32 by n, is the place its byte moves to exactly when the
      chunk lies behind the insertion point p and the sum fits 32 bits; or in front of it and n is
      nothing modulo 2^32. */
  lemma ShiftFollowsMove(off: uint32, p: nat, n: nat)
    ensures Wrap32(off + n) == MovedTo(off, p, n) <==>
            if p <= off then off + n < 0x1_0000_0000 else Wrap32(n) == 0
  {
  }

  /** Inserts the trailer in front of the free atom of the header. */
  method SpliceTrailer(header: Mp4.Buffer, trailer: seq<byte>) returns (ret: int)
    modifies header
    ensures var free := FirstMatch(old(header.data), FREE_TAG);
            if free.None? || free.value < 4 then ret == -1
            else ret == 0
                 && header.data == old(header.data)[..free.value - 4] + trailer + old(header.data)[free.value - 4..]
  {
    var headerLen := |header.data|;
    var found := FirstMatch(header.data, FREE_TAG);
    // realloc
    header.data := header.data + Mp4.Zeros(|trailer|);
    if found.None? || found.value < 4 {
      return -1;
    }
    var ptr := found.value - 4;
    // memmove, then memcpy
    header.data := header.data[..ptr + |trailer|] + header.data[ptr..headerLen];
    header.data := header.data[..ptr] + trailer + header.data[ptr + |trailer|..];
    ret := 0;
  }

  /** The tag "free" is behind four bytes at place p, and nowhere before. */
  ghost predicate FreeAt(header: seq<byte>, p: nat) {
    FreeTagAt(header, p + 4) && forall j: nat :: j < p + 4 ==> !FreeTagAt(header, j)
  }

  ghost predicate HasFree(header: seq<byte>) { exists p: nat :: FreeAt(header, p) }

  lemma FreeFound(header: seq<byte>)
    ensures var free := FirstMatch(header, FREE_TAG);
            if free.Some? && free.value >= 4 then FreeAt(header, free.value - 4) && HasFree(header)
            else !HasFree(header)
  {
    var free := FirstMatch(header, FREE_TAG);
    forall p: nat | FreeAt(header, p) ensures free == Some(p + 4) {
      forall j: nat | j < p + 4 ensures !MatchesAt(header, FREE_TAG, j) {
        assert !FreeTagAt(header, j);
      }
      FirstMatchIs(header, FREE_TAG, p + 4);
    }
    if free.Some? && free.value >= 4 {
      forall j: nat | j < free.value ensures !FreeTagAt(header, j) {
        assert !MatchesAt(header, FREE_TAG, j);
      }
      assert FreeAt(header, free.value - 4);
    }
  }

  /** The result is the header of the file, up to hl, with the part of the file from start on in
      front of the free atom at p; t is its table in the file, and t' the table it has now. */
  ghost predicate FastStart(file: seq<byte>, start: nat, result: seq<byte>, t: Table, t': Table, p: nat) {
    && start <= |file| <= start + |result|
    && var n := |file| - start; var hl := |result| - n;
    && p <= hl < start
    && FreeAt(file[..hl], p)
    && t.IsIn(file[start..]) && t.MovesTo(t', n)
    && result == file[..p] + t'.Bytes() + file[p..hl]
  }

  /** The stream a client gets: the fast-start header, then the file from where its own header
      ended up to the trailer. */
  function Streamed(file: seq<byte>, start: nat, result: seq<byte>): seq<byte>
    requires start <= |file| <= start + |result| && |result| - (|file| - start) <= start
  {
    result + file[|result| - (|file| - start)..start]
  }

  /** What the chunk offsets of a fast-start header address. With p the place of the free atom in
      the file and n the length of the trailer: the byte that an offset addressed in the file is
      in the stream, at the place the insertion moved it to; and the adjusted offset is that place
      exactly when the chunk lies behind p and off + n fits 32 bits (or in front of p, with n
      nothing modulo 2^32). */
  ghost predicate OffsetsAddressSameBytes(file: seq<byte>, start: nat, stream: seq<byte>, t: Table, t': Table, p: nat)
    requires start <= |file|
  {
    && |t'.entries| == |t.entries|
    && forall i: nat :: 4 * i + 4 <= |t.entries| ==>
         OffsetAddresses(file, start, stream, t.Offset(i), t'.Offset(i), p, |file| - start)
  }

  /** The same for one offset of the file and what became of it. */
  ghost predicate OffsetAddresses(file: seq<byte>, start: nat, stream: seq<byte>, off: nat, shifted: nat,
                                  p: nat, n: nat)
    requires start <= |file|
  {
    && (off < start ==> MovedTo(off, p, n) < |stream| && stream[MovedTo(off, p, n)] == file[off])
    && (shifted == MovedTo(off, p, n) <==> if p <= off then off + n < 0x1_0000_0000 else Wrap32(n) == 0)
    && (p <= off < start && off + n < 0x1_0000_0000 ==> shifted < |stream| && stream[shifted] == file[off])
  }

  /** A fast-start header all of whose offsets are as they should be. */
  ghost predicate Addressable(file: seq<byte>, start: nat, result: seq<byte>) {
    exists t: Table, t': Table, p: nat ::
      && FastStart(file, start, result, t, t', p)
      && OffsetsAddressSameBytes(file, start, Streamed(file, start, result), t, t', p)
  }

  /** Every adjusted offset of a fast-start header addresses the byte it addressed before. */
  lemma FastStartKeepsAddresses(file: seq<byte>, start: nat, result: seq<byte>, t: Table, t': Table, p: nat)
    requires FastStart(file, start, result, t, t', p)
    ensures OffsetsAddressSameBytes(file, start, Streamed(file, start, result), t, t', p)
  {
    hide FreeAt, OffsetAddresses, Streamed, Value, Table.Bytes;
    var n := |file| - start;
    var hl := |result| - n;
    SameSize(t, t', file[start..], n);
    StreamIsMoved(file, start, result, t'.Bytes(), hl, p);
    forall i: nat | 4 * i + 4 <= |t.entries|
      ensures OffsetAddresses(file, start, Streamed(file, start, result), t.Offset(i), t'.Offset(i), p, n)
    {
      ValueIsWord(t.entries, 4 * i);
      ValueIsWord(t'.entries, 4 * i);
      OffsetMoves(file, start, Streamed(file, start, result), hl, t'.Bytes(), p, t.Offset(i));
    }
  }

  lemma SameSize(t: Table, t': Table, moov: seq<byte>, delta: nat)
    requires t.IsIn(moov) && t.MovesTo(t', delta)
    ensures |t'.Bytes()| == |moov|
  {
    hide Value;
  }

  lemma ValueIsWord(b: seq<byte>, k: nat)
    requires k + 4 <= |b|
    ensures 0 <= Value(b, k) < 0x1_0000_0000
  {
  }

  lemma OffsetMoves(file: seq<byte>, start: nat, stream: seq<byte>, hl: nat, moved: seq<byte>, p: nat, off: uint32)
    requires p <= hl < start <= |file| && |moved| == |file| - start
    requires file == file[..hl] + file[hl..start] + file[start..]
    requires stream == file[..hl][..p] + moved + file[..hl][p..] + file[hl..start]
    ensures OffsetAddresses(file, start, stream, off, Wrap32(off + |moved|), p, |moved|)
  {
    ShiftFollowsMove(off, p, |moved|);
    if off < start {
      MovedByte(file[..hl], file[hl..start], file[start..], moved, p, off);
    }
  }

  lemma StreamIsMoved(file: seq<byte>, start: nat, result: seq<byte>, moved: seq<byte>, hl: nat, p: nat)
    requires p <= hl < start <= |file| && |moved| == |file| - start
    requires result == file[..p] + moved + file[p..hl]
    ensures file == file[..hl] + file[hl..start] + file[start..] && |result| == hl + |moved|
    ensures Streamed(file, start, result) == file[..hl][..p] + moved + file[..hl][p..] + file[hl..start]
  {
    assert file[..hl][..p] == file[..p] && file[..hl][p..] == file[p..hl];
  }

  lemma SpliceGivesFastStart(file: seq<byte>, start: nat, hl: nat, moved: seq<byte>)
    requires hl < start <= |file|
    requires var free := FirstMatch(file[..hl], FREE_TAG); free.Some? && free.value >= 4
    requires TableMoved(file[start..], moved, |file| - start)
    ensures var p := FirstMatch(file[..hl], FREE_TAG).value - 4;
            Addressable(file, start, file[..hl][..p] + moved + file[..hl][p..])
  {
    hide FirstMatch, FreeAt, Table.IsIn, Table.MovesTo, Table.Bytes, OffsetsAddressSameBytes;
    var p := FirstMatch(file[..hl], FREE_TAG).value - 4;
    FreeFound(file[..hl]);
    var t: Table, t': Table :| t.IsIn(file[start..]) && moved == t'.Bytes() && t.MovesTo(t', |file| - start);
    SameSize(t, t', file[start..], |file| - start);
    var result := file[..hl][..p] + moved + file[..hl][p..];
    assert file[..hl][..p] == file[..p] && file[..hl][p..] == file[p..hl];
    FastStartKeepsAddresses(file, start, result, t, t', p);
  }

  /** When the move succeeds: a complete stco table, and a free atom behind a size field. */
  ghost predicate Movable(header: seq<byte>, trailer: seq<byte>) {
    && header != [] && trailer != []
    && HasTable(trailer) && HasFree(header)
  }

  /** make_mp4_header, without the encoder: evbuf1 is the stream of the template header, body
      what follows it in the file, evbuf2 the stream of av_write_trailer. */
  method MakeMp4Header(evbuf1: seq<byte>, body: seq<byte>, evbuf2: seq<byte>,
                       ghost segs1: seq<Mp4.Segment>, ghost segs2: seq<Mp4.Segment>) returns (r: Option<seq<byte>>)
    requires segs1 != [] && segs1[0].pos == 0 && evbuf1 == Mp4.Marked(segs1) && Mp4.Unmarked(segs1)
    requires segs2 != [] && evbuf2 == Mp4.Marked(segs2) && Mp4.Unmarked(segs2)
    requires (forall i :: 0 <= i < |segs1| ==> segs1[i].pos >= 0)
    requires (forall i :: 0 <= i < |segs2| ==> segs2[i].pos >= 0)
    requires Mp4.Gapless([], segs1) && body != []
    requires var f1 := Mp4.FileReplay([], segs1); var start := |f1| + |body|;
             && start < 0x8000_0000_0000_0000 && segs2[0].pos == start
             && Mp4.Reachable(Mp4.Parts(f1, [], 0), start, segs2)
    ensures var f1 := Mp4.FileReplay([], segs1);
            var ends := Mp4.Rebuilt(Mp4.Parts(f1, [], 0), |f1| + |body|, segs2);
            ends.Some? && (r.Some? <==> Movable(ends.value.header, ends.value.trailer))
    ensures r.Some? ==>
              var f1 := Mp4.FileReplay([], segs1);
              Addressable(Mp4.FileReplay(f1 + body, segs2), |f1| + |body|, r.value)
  {
    hide Mp4.FileReplay, Mp4.Rebuilt, Mp4.Reachable, Mp4.Marked, Mp4.Unmarked, Mp4.Gapless, Shifted, FirstMatch;
    hide HasTable, HasFree, Addressable;
    var header := new Mp4.Buffer();
    var trailer := new Mp4.Buffer();
    Mp4.FirstPassIsHeader([], 0, segs1);
    var ret := Mp4.HeaderTrailerFromEvbuf(header, trailer, evbuf1, 0, segs1);
    ghost var f1 := header.data;
    var bytesProcessed := ret + |body|;
    ghost var file := Mp4.FileReplay(f1 + body, segs2);
    assert (f1 + body)[..|f1|] == f1 && (f1 + body)[bytesProcessed..] == [];
    Mp4.RebuiltRefinesFile(Mp4.Parts(f1, [], 0), bytesProcessed, segs2, f1 + body);
    ret := Mp4.HeaderTrailerFromEvbuf(header, trailer, evbuf2, bytesProcessed, segs2);
    if ret < 0 || header.data == [] || trailer.data == [] {
      return None;
    }
    r := MoveTrailer(header, trailer, file, bytesProcessed);
  }

  /** What make_mp4_header does once it has both ends of the file. */
  method MoveTrailer(header: Mp4.Buffer, trailer: Mp4.Buffer, ghost file: seq<byte>, ghost start: nat)
      returns (r: Option<seq<byte>>)
    requires header != trailer
    requires header.data != [] && trailer.data != []
    requires |header.data| < start <= |file| && header.data == file[..|header.data|] && trailer.data == file[start..]
    modifies header
    ensures r.Some? <==> Movable(old(header.data), trailer.data)
    ensures r.Some? ==> Addressable(file, start, r.value)
  {
    hide Shifted, FirstMatch, StcoStart, Word, HasTable, HasFree, TableMoved, Addressable, FreeAt;
    ghost var hl := |header.data|;
    var moov := new byte[|trailer.data|](i requires 0 <= i < |trailer.data| reads trailer => trailer.data[i]);
    assert moov[..] == file[start..];
    FreeFound(header.data);
    var ret := AdjustMoovStcoOffset(moov);
    if ret < 0 {
      return None;
    }
    ret := SpliceTrailer(header, moov[..]);
    if ret < 0 {
      return None;
    }
    SpliceGivesFastStart(file, start, hl, moov[..]);
    return Some(header.data);
  }
}
