/** MP4 header reconstruction of src/transcode.c. The encoder writes a file it wants to seek in,
    but its output is a plain byte stream: each seek only leaves a marker there. From that
    stream the source rebuilds the header and the trailer of the file, then moves the trailer
    (the moov atom) into the header and shifts the chunk offsets it holds. The reference is the
    random-access file the encoder believes in. */
module Mp4 {
  import opened Words
  import opened Search

  const XCODE_SEEK_MARKER: seq<byte> := [0x0D, 0x0E, 0x0A, 0x0D, 0x0B, 0x0E, 0x0E, 0x0F]

  /** int64_t file positions, and how memcpy lays them out (little-endian). */
  type int64 = x: int | -0x8000_0000_0000_0000 <= x < 0x8000_0000_0000_0000

  function LittleEndian(w: nat, n: nat): (bs: seq<byte>)
    ensures |bs| == n
  {
    if n == 0 then [] else [w % 0x100] + LittleEndian(w / 0x100, n - 1)
  }

  function FromLittleEndian(bs: seq<byte>): nat {
    if bs == [] then 0 else bs[0] as int + 0x100 * FromLittleEndian(bs[1..])
  }

  function Pow256(n: nat): (p: nat)
    ensures p > 0
  {
    if n == 0 then 1 else 0x100 * Pow256(n - 1)
  }

  lemma {:induction false} LittleEndianRoundTrip(w: nat, n: nat)
    requires w < Pow256(n)
    ensures FromLittleEndian(LittleEndian(w, n)) == w
  {
    if n > 0 {
      LittleEndianRoundTrip(w / 0x100, n - 1);
      assert LittleEndian(w, n)[1..] == LittleEndian(w / 0x100, n - 1);
    }
  }

  function PosBytes(pos: int64): (bs: seq<byte>)
    ensures |bs| == 8
  {
    LittleEndian(if pos < 0 then pos + 0x1_0000_0000_0000_0000 else pos, 8)
  }

  function FromPosBytes(bs: seq<byte>): int {
    var w := FromLittleEndian(bs);
    if w < 0x8000_0000_0000_0000 then w else w - 0x1_0000_0000_0000_0000
  }

  lemma PosRoundTrip(pos: int64)
    ensures FromPosBytes(PosBytes(pos)) == pos
  {
    assert Pow256(8) == 0x1_0000_0000_0000_0000 by {
      assert Pow256(4) == 0x1_0000_0000;
    }
    LittleEndianRoundTrip(if pos < 0 then pos + 0x1_0000_0000_0000_0000 else pos, 8);
  }

  /** What the encoder writes in one go, and where. */
  datatype Segment = Segment(pos: int64, data: seq<byte>)

  /** Segments reached by a seek, as they appear in the stream. */
  function Seeked(segs: seq<Segment>): seq<byte> {
    if segs == [] then []
    else XCODE_SEEK_MARKER + PosBytes(segs[0].pos) + segs[0].data + Seeked(segs[1..])
  }

  /** The stream: the first segment needs no seek. */
  function Marked(segs: seq<Segment>): seq<byte>
    requires segs != []
  {
    segs[0].data + Seeked(segs[1..])
  }

  /** No segment holds the marker itself. */
  predicate Unmarked(segs: seq<Segment>) {
    forall i :: 0 <= i < |segs| ==> FirstMatch(segs[i].data, XCODE_SEEK_MARKER).None?
  }

  /** The marker cannot start inside a segment and reach into a real marker: no proper prefix of
      it is a suffix. So the first match is where the segment ends. */
  lemma MarkerEndsSegment(data: seq<byte>, rest: seq<byte>)
    requires FirstMatch(data, XCODE_SEEK_MARKER).None?
    ensures FirstMatch(data + XCODE_SEEK_MARKER + rest, XCODE_SEEK_MARKER) == Some(|data|)
  {
    var hay, m := data + XCODE_SEEK_MARKER + rest, XCODE_SEEK_MARKER;
    assert MatchesAt(hay, m, |data|);
    forall j: nat | j < |data|
      ensures !MatchesAt(hay, m, j)
    {
      if j + 8 <= |data| {
        assert hay[j..j + 8] == data[j..j + 8];
        assert !MatchesAt(data, m, j);
      } else if MatchesAt(hay, m, j) {
        Straddle(hay, j, |data|);
      }
    }
    FirstMatchIs(hay, m, |data|);
  }

  lemma Straddle(hay: seq<byte>, i: nat, j: nat)
    requires i < j < i + 8 && j + 8 <= |hay|
    requires hay[j..j + 8] == XCODE_SEEK_MARKER
    ensures !MatchesAt(hay, XCODE_SEEK_MARKER, i)
  {
    var m, k := XCODE_SEEK_MARKER, j - i;
    assert hay[j] == hay[j..j + 8][0] == m[0];
    assert k == 3 ==> hay[j + 1] == hay[j..j + 8][1] == m[1];
    assert m[k] == m[0] ==> k == 3;
    if i + 8 <= |hay| {
      var w := hay[i..i + 8];
      assert w[k] == hay[j] && w[4] == hay[i + 4];
    }
  }

  // ----- The random-access file -----

  function Zeros(n: nat): seq<byte> { seq(n, i => 0) }

  /** Writing data at pos of a file; a write past the end fills the gap with zeros. */
  function FileWrite(f: seq<byte>, pos: nat, data: seq<byte>): seq<byte> {
    if data == [] then f
    else if pos > |f| then f + Zeros(pos - |f|) + data
    else f[..pos] + data + if pos + |data| <= |f| then f[pos + |data|..] else []
  }

  function FileReplay(f: seq<byte>, segs: seq<Segment>): seq<byte>
    requires forall i :: 0 <= i < |segs| ==> segs[i].pos >= 0
    decreases segs
  {
    if segs == [] then f else FileReplay(FileWrite(f, segs[0].pos, segs[0].data), segs[1..])
  }

  // ----- The reconstruction, on segments -----

  datatype Parts = Parts(header: seq<byte>, trailer: seq<byte>, added: int)

  /** One segment: header, trailer, or an error when it starts in neither. */
  function Apply(p: Parts, start: int64, seg: Segment): Option<Parts> {
    if 0 <= seg.pos <= |p.header| then
      var h := FileWrite(p.header, seg.pos, seg.data);
      Some(p.(header := h, added := p.added + |h| - |p.header|))
    else if start <= seg.pos && 0 <= seg.pos - start <= |p.trailer| then
      var t := FileWrite(p.trailer, seg.pos - start, seg.data);
      Some(p.(trailer := t, added := p.added + |t| - |p.trailer|))
    else None
  }

  /** All of them. An empty last segment never comes up: the stream is at its end. */
  function Rebuilt(p: Parts, start: int64, segs: seq<Segment>): Option<Parts>
    decreases segs
  {
    if segs == [] || (|segs| == 1 && segs[0].data == []) then Some(p)
    else match Apply(p, start, segs[0])
      case None => None
      case Some(p') => Rebuilt(p', start, segs[1..])
  }

  /** Header and trailer are the two ends of file f. */
  ghost predicate Ends(p: Parts, start: nat, f: seq<byte>) {
    |p.header| < start <= |f| && p.header == f[..|p.header|] && p.trailer == f[start..]
  }

  /** Segments that go to the header, clear of the trailer, or to the trailer without a gap. */
  ghost predicate Reachable(p: Parts, start: nat, segs: seq<Segment>)
    requires start < 0x8000_0000_0000_0000
    decreases segs
  {
    segs == [] || (
      var s := segs[0];
      && s.pos >= 0
      && (if s.pos <= |p.header| then s.pos + |s.data| < start else start <= s.pos <= start + |p.trailer|)
      && Reachable(Apply(p, start, s).value, start, segs[1..]))
  }

  lemma WriteInHeader(f: seq<byte>, hl: nat, start: nat, pos: nat, data: seq<byte>)
    requires pos <= hl < start <= |f| && pos + |data| < start
    ensures var f', h' := FileWrite(f, pos, data), FileWrite(f[..hl], pos, data);
            && |f'| == |f| && f'[start..] == f[start..] && f'[hl..start][|h'| - hl..] == f[hl..start][|h'| - hl..]
            && hl <= |h'| < start && h' == f'[..|h'|]
  {
    FileWriteIndex(f, pos, data);
    FileWriteIndex(f[..hl], pos, data);
    hide FileWrite;
  }

  lemma FileWriteIndex(f: seq<byte>, pos: nat, data: seq<byte>)
    requires pos <= |f|
    ensures var f' := FileWrite(f, pos, data);
            && |f'| == (if data != [] && pos + |data| > |f| then pos + |data| else |f|)
            && forall k :: 0 <= k < |f'| ==> f'[k] == if pos <= k < pos + |data| then data[k - pos] else f[k]
  {
  }

  lemma WriteInTrailer(f: seq<byte>, start: nat, pos: nat, data: seq<byte>)
    requires start <= pos <= |f|
    ensures var f' := FileWrite(f, pos, data);
            |f| <= |f'| && f'[..start] == f[..start] && f'[start..] == FileWrite(f[start..], pos - start, data)
  {
    if data != [] {
      assert f[start..][..pos - start] == f[start..pos];
      assert pos + |data| <= |f| ==> f[start..][pos - start + |data|..] == f[pos + |data|..];
    }
  }

  lemma ApplyTracksFile(p: Parts, start: nat, s: Segment, f: seq<byte>)
    requires start < 0x8000_0000_0000_0000 && Ends(p, start, f) && Reachable(p, start, [s])
    ensures var p' := Apply(p, start, s).value; var f' := FileWrite(f, s.pos, s.data);
            && Ends(p', start, f') && |p.header| <= |p'.header| && |f| <= |f'|
            && p'.added - p.added == |f'| - |f| + |p'.header| - |p.header|
            && f'[|p'.header|..start] == f[|p'.header|..start]
  {
    hide FileWrite;
    var p', f' := Apply(p, start, s).value, FileWrite(f, s.pos, s.data);
    var hl := |p.header|;
    if s.pos <= hl {
      WriteInHeader(f, hl, start, s.pos, s.data);
      Subrange(f, hl, |p'.header|, start);
      Subrange(f', hl, |p'.header|, start);
    } else {
      WriteInTrailer(f, start, s.pos, s.data);
      Subrange(f, 0, hl, start);
      Subrange(f', 0, hl, start);
      assert f[..start][..hl] == f[..hl] && f'[..start][..hl] == f'[..hl];
    }
  }

  lemma Subrange(f: seq<byte>, a: nat, b: nat, c: nat)
    requires a <= b <= c <= |f|
    ensures f[a..c][b - a..] == f[b..c]
  {
  }

  /** Replaying a stream refines the file: header and trailer are its two ends, the middle is
      untouched, and the total returned is the growth of the file plus that of the header. */
  lemma {:induction false} RebuiltRefinesFile(p: Parts, start: nat, segs: seq<Segment>, f: seq<byte>)
    requires start < 0x8000_0000_0000_0000 && Ends(p, start, f) && Reachable(p, start, segs)
    requires forall i :: 0 <= i < |segs| ==> segs[i].pos >= 0
    ensures var f' := FileReplay(f, segs);
            Rebuilt(p, start, segs).Some? && var p' := Rebuilt(p, start, segs).value;
            && Ends(p', start, f') && |p.header| <= |p'.header|
            && f'[|p'.header|..start] == f[|p'.header|..start]
            && p'.added - p.added == |f'| - |f| + |p'.header| - |p.header|
    decreases segs
  {
    if segs == [] {
    } else {
      var s := segs[0];
      ApplyTracksFile(p, start, s, f);
      var p1, f1 := Apply(p, start, s).value, FileWrite(f, s.pos, s.data);
      if |segs| == 1 && s.data == [] {
        assert FileReplay(f1, segs[1..]) == f1;
      } else {
        RebuiltRefinesFile(p1, start, segs[1..], f1);
        var p' := Rebuilt(p, start, segs).value;
        Subrange(f1, |p1.header|, |p'.header|, start);
        Subrange(f, |p1.header|, |p'.header|, start);
      }
    }
  }

  /** No segment written to the header runs over the end it has at that moment. */
  predicate KeepsHeaderLength(p: Parts, start: int64, segs: seq<Segment>)
    decreases segs
  {
    segs == [] || (
      var s := segs[0];
      && (0 <= s.pos <= |p.header| ==> s.data == [] || s.pos + |s.data| <= |p.header|)
      && (Apply(p, start, s).Some? ==> KeepsHeaderLength(Apply(p, start, s).value, start, segs[1..])))
  }

  lemma {:induction false} HeaderGrowsIff(p: Parts, start: nat, segs: seq<Segment>, f: seq<byte>)
    requires start < 0x8000_0000_0000_0000 && Ends(p, start, f) && Reachable(p, start, segs)
    requires forall i :: 0 <= i < |segs| ==> segs[i].pos >= 0
    ensures Rebuilt(p, start, segs).Some? && |p.header| <= |Rebuilt(p, start, segs).value.header|
    ensures KeepsHeaderLength(p, start, segs) <==> |Rebuilt(p, start, segs).value.header| == |p.header|
    decreases segs
  {
    if segs != [] {
      hide FileWrite;
      var s := segs[0];
      var p1 := Apply(p, start, s).value;
      ApplyTracksFile(p, start, s, f);
      HeaderWriteGrowsIff(p, start, s);
      if |segs| == 1 && s.data == [] {
        assert segs[1..] == [];
      } else {
        HeaderGrowsIff(p1, start, segs[1..], FileWrite(f, s.pos, s.data));
      }
    }
  }

  lemma HeaderWriteGrowsIff(p: Parts, start: int64, s: Segment)
    requires s.pos >= 0 && Apply(p, start, s).Some?
    ensures |Apply(p, start, s).value.header| == |p.header| <==>
            (0 <= s.pos <= |p.header| ==> s.data == [] || s.pos + |s.data| <= |p.header|)
  {
  }

  /** So the total returned is the growth of the file exactly when no segment written to the
      header runs over its end. */
  lemma TotalIsFileGrowthIff(p: Parts, start: nat, segs: seq<Segment>, f: seq<byte>)
    requires start < 0x8000_0000_0000_0000 && Ends(p, start, f) && Reachable(p, start, segs)
    requires forall i :: 0 <= i < |segs| ==> segs[i].pos >= 0
    ensures Rebuilt(p, start, segs).Some?
    ensures var total := Rebuilt(p, start, segs).value.added - p.added;
            total == |FileReplay(f, segs)| - |f| <==> KeepsHeaderLength(p, start, segs)
  {
    hide Apply, FileWrite, KeepsHeaderLength, Rebuilt, FileReplay, Ends, Reachable;
    RebuiltRefinesFile(p, start, segs, f);
    HeaderGrowsIff(p, start, segs, f);
  }

  /** Two bytes written over a header of one byte count, although the file of three bytes does not
      grow. */
  lemma TotalIsNotFileGrowth(a: byte, b: byte, c: byte, x: byte, y: byte)
    ensures var p, f, segs := Parts([a], [], 0), [a, b, c], [Segment(0, [x, y])];
            && Ends(p, 3, f) && Reachable(p, 3, segs)
            && FileReplay(f, segs) == [x, y, c]
            && Rebuilt(p, 3, segs) == Some(Parts([x, y], [], 1))
  {
    var p, f, s := Parts([a], [], 0), [a, b, c], Segment(0, [x, y]);
    assert [s][1..] == [];
    assert f[..0] == [] && f[2..] == [c] && p.header[..0] == [];
    assert FileWrite(f, 0, [x, y]) == [x, y, c];
    assert FileWrite(p.header, 0, [x, y]) == [x, y];
    assert Apply(p, 3, s) == Some(Parts([x, y], [], 1));
  }

  /** Every write starts inside the file or at its end. */
  predicate Gapless(f: seq<byte>, segs: seq<Segment>)
    decreases segs
  {
    segs == [] || (0 <= segs[0].pos <= |f| && Gapless(FileWrite(f, segs[0].pos, segs[0].data), segs[1..]))
  }

  /** The first pass, which starts at 0 with nothing: without gaps all of the file is header. */
  lemma {:induction false} FirstPassIsHeader(f: seq<byte>, added: int, segs: seq<Segment>)
    requires Gapless(f, segs)
    requires forall i :: 0 <= i < |segs| ==> segs[i].pos >= 0
    ensures var f' := FileReplay(f, segs);
            Rebuilt(Parts(f, [], added), 0, segs) == Some(Parts(f', [], added + |f'| - |f|))
    decreases segs
  {
    if segs != [] {
      var f1 := FileWrite(f, segs[0].pos, segs[0].data);
      if |segs| == 1 && segs[0].data == [] {
        assert FileReplay(f1, segs[1..]) == f1;
      } else {
        FirstPassIsHeader(f1, added + |f1| - |f|, segs[1..]);
      }
    }
  }

  // ----- The stream and its replay -----

  datatype SeekType = XcodeSeekSet | XcodeSeekSize | XcodeSeekOther

  lemma {:induction false} SeekedSnoc(segs: seq<Segment>, s: Segment)
    ensures Seeked(segs + [s]) == Seeked(segs) + XCODE_SEEK_MARKER + PosBytes(s.pos) + s.data
  {
    if segs != [] {
      SeekedSnoc(segs[1..], s);
      assert (segs + [s])[1..] == segs[1..] + [s];
    }
  }

  lemma MarkedSnoc(segs: seq<Segment>, s: Segment)
    requires segs != []
    ensures Marked(segs + [s]) == Marked(segs) + XCODE_SEEK_MARKER + PosBytes(s.pos) + s.data
  {
    SeekedSnoc(segs[1..], s);
    assert (segs + [s])[1..] == segs[1..] + [s];
  }

  lemma MarkedExtend(segs: seq<Segment>, s: Segment, data: seq<byte>)
    ensures Marked(segs + [s.(data := s.data + data)]) == Marked(segs + [s]) + data
  {
    if segs != [] {
      MarkedSnoc(segs, s);
      MarkedSnoc(segs, s.(data := s.data + data));
    }
  }

  /** The encoder's side: its output buffer, which holds the stream of the segments written. */
  class EncodeCtx {
    var obuf: seq<byte>
    const bytesTotal: int64
    ghost var segs: seq<Segment>

    ghost predicate Valid()
      reads this
    {
      segs != [] && obuf == Marked(segs)
    }

    /** An empty buffer; pos is where the file stands. */
    constructor (pos: int64, total: int64)
      ensures Valid() && segs == [Segment(pos, [])]
    {
      obuf, bytesTotal, segs := [], total, [Segment(pos, [])];
    }

    /** A write by ffmpeg, avio_evbuffer_write. */
    method Write(buf: seq<byte>)
      requires Valid()
      modifies this
      ensures Valid()
      ensures var n := |old(segs)| - 1; segs == old(segs)[n := old(segs)[n].(data := old(segs)[n].data + buf)]
    {
      ghost var n := |segs| - 1;
      MarkedExtend(segs[..n], segs[n], buf);
      assert segs[..n] + [segs[n]] == segs;
      obuf := obuf + buf;
      segs := segs[..n] + [segs[n].(data := segs[n].data + buf)];
    }

    /** dummy_seek. */
    method DummySeek(offset: int64, kind: SeekType) returns (pos: int64)
      requires Valid()
      modifies this
      ensures Valid() && segs == if kind == XcodeSeekSet then old(segs) + [Segment(offset, [])] else old(segs)
      ensures if kind == XcodeSeekSet then
                old(obuf) + [0x0D, 0x0E, 0x0A, 0x0D, 0x0B, 0x0E, 0x0E, 0x0F] <= obuf && |obuf| == |old(obuf)| + 16
              else obuf == old(obuf)
      ensures pos == match kind case XcodeSeekSet => offset case XcodeSeekSize => bytesTotal case XcodeSeekOther => -1
    {
      if kind == XcodeSeekSet {
        MarkedSnoc(segs, Segment(offset, []));
        obuf := obuf + XCODE_SEEK_MARKER + PosBytes(offset);
        segs := segs + [Segment(offset, [])];
        return offset;
      } else if kind == XcodeSeekSize {
        return bytesTotal;
      }
      return -1;
    }
  }

  /** A buffer that grows by realloc. */
  class Buffer {
    var data: seq<byte>

    constructor ()
      ensures data == []
    {
      data := [];
    }

    /** copy_buffer_to_position: a write of the random-access file, or an error past its end. */
    method CopyToPosition(src: seq<byte>, pos: int64) returns (ret: int)
      modifies this
      ensures if 0 <= pos <= |old(data)| then data == FileWrite(old(data), pos, src) && ret == |data| - |old(data)|
              else ret == -1 && data == old(data)
    {
      if pos < 0 || pos > |data| {
        return -1;
      }
      if src == [] {
        return 0;
      }
      ret := 0;
      if pos + |src| > |data| {
        ret := pos + |src| - |data|;
        data := data + Zeros(ret);
      }
      data := data[..pos] + src + data[pos + |src|..];
    }
  }

  /** Body of the loop below: one segment goes to the header, to the trailer, or nowhere. */
  method CopySegment(header: Buffer, trailer: Buffer, seg: Segment, start: int64) returns (ret: int)
    requires header != trailer && start >= 0
    modifies header, trailer
    ensures match Apply(Parts(old(header.data), old(trailer.data), 0), start, seg)
            case None => ret == -1
            case Some(p) => header.data == p.header && trailer.data == p.trailer && ret == p.added >= 0
  {
    hide FileWrite;
    FileWriteGrows(header.data, seg.pos, seg.data);
    FileWriteGrows(trailer.data, seg.pos - start, seg.data);
    if 0 <= seg.pos <= |header.data| {
      ret := header.CopyToPosition(seg.data, seg.pos);
    } else if seg.pos >= start {
      ret := trailer.CopyToPosition(seg.data, seg.pos - start);
    } else {
      ret := -1;
    }
  }

  lemma FileWriteGrows(f: seq<byte>, pos: int, data: seq<byte>)
    ensures pos >= 0 ==> |FileWrite(f, pos, data)| >= |f|
  {
  }

  /** mp4_header_trailer_from_evbuf: finds the markers in the raw stream and replays it. */
  method HeaderTrailerFromEvbuf(header: Buffer, trailer: Buffer, evbuf: seq<byte>, start: int64,
                                ghost segs: seq<Segment>)
      returns (bytesAdded: int)
    requires header != trailer && start >= 0
    requires segs != [] && segs[0].pos == start && evbuf == Marked(segs) && Unmarked(segs)
    modifies header, trailer
    ensures match Rebuilt(Parts(old(header.data), old(trailer.data), 0), start, segs)
            case None => bytesAdded == -1
            case Some(p) => header.data == p.header && trailer.data == p.trailer && bytesAdded == p.added
  {
    hide Marked, Unmarked, FirstMatch, FileWrite, FromPosBytes;
    var buf, pos := evbuf, start;
    bytesAdded := 0;
    ghost var goal, rest := Rebuilt(Parts(header.data, trailer.data, 0), start, segs), segs;
    while |buf| > 0
      invariant rest != [] && rest[0].pos == pos && buf == Marked(rest) && Unmarked(rest)
      invariant Rebuilt(Parts(header.data, trailer.data, bytesAdded), start, rest) == goal
      decreases |buf|
    {
      NextMarker(rest);
      var marker := FirstMatch(buf, XCODE_SEEK_MARKER);
      var len := if marker.Some? then marker.value else |buf|;
      ghost var p := Parts(header.data, trailer.data, bytesAdded);
      ApplyFromZero(p, start, rest[0]);
      var ret := CopySegment(header, trailer, Segment(pos, buf[..len]), start);
      if ret < 0 {
        return -1;
      }
      bytesAdded := bytesAdded + ret;
      assert Apply(p, start, rest[0]) == Some(Parts(header.data, trailer.data, bytesAdded));
      if marker.None? {
        return;
      }
      pos := FromPosBytes(buf[len + 8..len + 16]);
      buf := buf[len + 16..];
      rest := rest[1..];
    }
    EmptyStream(rest);
  }

  lemma ApplyFromZero(p: Parts, start: int64, seg: Segment)
    ensures match Apply(p.(added := 0), start, seg)
            case None => Apply(p, start, seg) == None
            case Some(q) => Apply(p, start, seg) == Some(q.(added := p.added + q.added))
  {
  }

  lemma EmptyStream(segs: seq<Segment>)
    requires segs != [] && Marked(segs) == []
    ensures |segs| == 1 && segs[0].data == []
  {
    SeekedLength(segs[1..]);
  }

  lemma SeekedLength(segs: seq<Segment>)
    ensures segs != [] ==> |Seeked(segs)| >= 16
  {
  }

  /** Where the search stops in a stream, and what it finds there. */
  lemma NextMarker(segs: seq<Segment>)
    requires segs != [] && Unmarked(segs)
    ensures var buf, n := Marked(segs), |segs[0].data|; var marker := FirstMatch(buf, XCODE_SEEK_MARKER);
            && n <= |buf| && buf[..n] == segs[0].data
            && if |segs| == 1 then marker.None? && n == |buf|
               else marker == Some(n) && n + 16 <= |buf| && FromPosBytes(buf[n + 8..n + 16]) == segs[1].pos
                    && buf[n + 16..] == Marked(segs[1..]) && Unmarked(segs[1..])
  {
    hide FirstMatch, PosBytes, FromPosBytes;
    var d := segs[0].data;
    if |segs| == 1 {
      assert d + [] == d;
    } else {
      var s, after := segs[1], Marked(segs[1..]);
      Layout(d, XCODE_SEEK_MARKER, PosBytes(s.pos), after);
      assert segs[1..][1..] == segs[2..];
      Regroup(d, XCODE_SEEK_MARKER, PosBytes(s.pos), s.data, Seeked(segs[2..]));
      MarkerEndsSegment(d, PosBytes(s.pos) + after);
      PosRoundTrip(s.pos);
    }
  }

  lemma Regroup(a: seq<byte>, b: seq<byte>, c: seq<byte>, d: seq<byte>, e: seq<byte>)
    ensures a + (b + c + d + e) == a + b + (c + (d + e))
  {
  }

  lemma Layout(d: seq<byte>, m: seq<byte>, p: seq<byte>, after: seq<byte>)
    requires |m| == |p| == 8
    ensures var buf := d + m + (p + after);
            |buf| >= |d| + 16 && buf[..|d|] == d && buf[|d| + 8..|d| + 16] == p && buf[|d| + 16..] == after
  {
  }
}
