/** The TLV codec of src/pair_ap/pair-tlv.c, used for pairing messages: a printer that splits a
    value into chunks of at most 255 bytes, and a parser that joins them again. The two are
    inverse to each other between the buffers the parser can read and the lists it can yield. */
module Tlv {
  import opened Words

  const CHUNK := 255
  const PAIR_TLV_ERROR_INSUFFICIENT_SIZE := -2

  datatype Tlv = Tlv(tag: byte, value: seq<byte>)

  /** The chunks of one value. An empty value still gives one, empty, chunk. */
  function Chunks(tag: byte, value: seq<byte>): seq<byte> {
    if |value| <= CHUNK then Chunk(tag, value) else Chunk(tag, value[..CHUNK]) + Chunks(tag, value[CHUNK..])
  }

  function Chunk(tag: byte, data: seq<byte>): seq<byte>
    requires |data| <= CHUNK
  {
    [tag, |data|] + data
  }

  function Formatted(vs: seq<Tlv>): seq<byte> {
    if vs == [] then [] else Chunks(vs[0].tag, vs[0].value) + Formatted(vs[1..])
  }

  /** The size pair_tlv_format reports. */
  function RequiredSize(vs: seq<Tlv>): nat {
    if vs == [] then 0 else |vs[0].value| + 2 * ((|vs[0].value| + 254) / 255) + RequiredSize(vs[1..])
  }

  function Empties(vs: seq<Tlv>): nat {
    if vs == [] then 0 else (if vs[0].value == [] then 1 else 0) + Empties(vs[1..])
  }

  /** The first chunk's data, and the buffer behind it. */
  function Data(b: seq<byte>): seq<byte>
    requires |b| >= 2 && |b| >= 2 + b[1] as int
  {
    b[2..2 + b[1] as int]
  }

  function Behind(b: seq<byte>): seq<byte>
    requires |b| >= 2 && |b| >= 2 + b[1] as int
  {
    b[2 + b[1] as int..]
  }

  /** A buffer of complete chunks, and one without empty chunks. */
  predicate Complete(b: seq<byte>) {
    b == [] || (|b| >= 2 && |b| >= 2 + b[1] as int && Complete(Behind(b)))
  }

  predicate NoEmptyChunk(b: seq<byte>)
    requires Complete(b)
  {
    b == [] || (b[1] > 0 && NoEmptyChunk(Behind(b)))
  }

  predicate WellFormed(b: seq<byte>) { Complete(b) && NoEmptyChunk(b) }

  /** One turn of the parser's outer loop goes on past a full chunk as long as the type stays. */
  predicate Continues(b: seq<byte>)
    requires b != [] && Complete(b)
  {
    b[1] == CHUNK && Behind(b) != [] && Behind(b)[0] == b[0]
  }

  /** How far one turn of the outer loop advances; it stops short of an empty chunk. */
  function Consumed(b: seq<byte>): (n: nat)
    requires b != [] && Complete(b)
    ensures n <= |b|
    ensures n == 0 <==> b[1] == 0
  {
    if b[1] == 0 then 0
    else 2 + b[1] as int + if Continues(b) then Consumed(Behind(b)) else 0
  }

  /** The buffer one turn leaves. */
  function Left(b: seq<byte>): (rest: seq<byte>)
    requires b != [] && Complete(b)
    ensures rest == b[Consumed(b)..] && Complete(rest)
  {
    if b[1] == 0 then b
    else if Continues(b) then
      DropDrop(b, 2 + b[1] as int, Consumed(Behind(b)));
      Left(Behind(b))
    else Behind(b)
  }

  /** The value it collects on the way. */
  function Joined(b: seq<byte>): seq<byte>
    requires b != [] && Complete(b)
  {
    Data(b) + if Continues(b) then Joined(Behind(b)) else []
  }

  function Parsed(b: seq<byte>): seq<Tlv>
    requires WellFormed(b)
    decreases |b|
  {
    if b == [] then []
    else
      LeftIsWellFormed(b);
      [Tlv(b[0], Joined(b))] + Parsed(Left(b))
  }

  lemma LeftIsWellFormed(b: seq<byte>)
    requires b != [] && WellFormed(b)
    ensures WellFormed(Left(b)) && |Left(b)| < |b|
  {
    if Continues(b) {
      LeftIsWellFormed(Behind(b));
    }
  }

  /** The parser gets through a buffer: every turn of its outer loop advances. */
  predicate Terminates(b: seq<byte>)
    requires Complete(b)
    decreases |b|
  {
    b == [] || (Consumed(b) > 0 && Terminates(Left(b)))
  }

  /** On complete chunks it does so exactly when no chunk is empty. */
  lemma {:induction false} TerminatesIffNoEmptyChunk(b: seq<byte>)
    requires Complete(b)
    ensures Terminates(b) <==> NoEmptyChunk(b)
    decreases |b|
  {
    if b != [] && b[1] > 0 {
      TerminatesIffNoEmptyChunk(Behind(b));
    }
  }

  // ----- Where the parser reads -----

  /** The parser's first inner loop, from place j on, reads inside the buffer only. It looks at j
      after comparing it with the length, and then at j + 1. */
  predicate ScanInside(b: seq<byte>, tag: byte, j: nat)
    decreases |b| - j
  {
    j < |b| && b[j] == tag ==> j + 1 < |b| && (b[j + 1] == CHUNK ==> ScanInside(b, tag, j + CHUNK + 2))
  }

  /** The size it comes to. */
  function ScanSize(b: seq<byte>, tag: byte, j: nat): nat
    decreases |b| - j
  {
    if j + 1 >= |b| || b[j] != tag then 0
    else if b[j + 1] == CHUNK then CHUNK + ScanSize(b, tag, j + CHUNK + 2)
    else b[j + 1]
  }

  /** The second inner loop, with so much still to copy, reads inside the buffer only. */
  predicate CopyInside(b: seq<byte>, i: nat, remaining: nat)
    decreases remaining
  {
    remaining == 0 || (
      && i + 1 < |b| && i + 2 + b[i + 1] as int <= |b|
      && (0 < b[i + 1] <= remaining ==> CopyInside(b, i + 2 + b[i + 1] as int, remaining - b[i + 1])))
  }

  /** One turn of the outer loop at place i. */
  predicate TurnInside(b: seq<byte>, i: nat)
    requires i < |b|
  {
    ScanInside(b, b[i], i) && CopyInside(b, i, ScanSize(b, b[i], i))
  }

  /** The chunks that the turn joins are all there. */
  predicate RunComplete(b: seq<byte>, i: nat)
    requires i < |b|
    decreases |b| - i
  {
    && i + 2 <= |b| && i + 2 + b[i + 1] as int <= |b|
    && (RunGoesOn(b, i) ==> RunComplete(b, i + CHUNK + 2))
  }

  predicate RunGoesOn(b: seq<byte>, i: nat)
    requires i < |b|
  {
    i + CHUNK + 2 < |b| && b[i + 1] == CHUNK && b[i + CHUNK + 2] == b[i]
  }

  /** Where the turn leaves off. */
  function RunEnd(b: seq<byte>, i: nat): (e: nat)
    requires i < |b| && RunComplete(b, i)
    ensures i <= e <= |b| && (e == i <==> b[i + 1] == 0)
    decreases |b| - i
  {
    if b[i + 1] == 0 then i
    else if RunGoesOn(b, i) then RunEnd(b, i + CHUNK + 2)
    else i + 2 + b[i + 1] as int
  }

  lemma {:induction false} TurnInsideIff(b: seq<byte>, i: nat)
    requires i < |b|
    ensures TurnInside(b, i) <==> RunComplete(b, i)
    decreases |b| - i
  {
    if RunGoesOn(b, i) {
      TurnInsideIff(b, i + CHUNK + 2);
      assert ScanSize(b, b[i], i) == CHUNK + ScanSize(b, b[i], i + CHUNK + 2);
    } else if i + 1 < |b| && b[i + 1] == CHUNK {
      assert ScanInside(b, b[i], i + CHUNK + 2) && ScanSize(b, b[i], i + CHUNK + 2) == 0;
      assert ScanInside(b, b[i], i) && ScanSize(b, b[i], i) == CHUNK;
      assert CopyInside(b, i, CHUNK) <==> i + 2 + CHUNK <= |b| && CopyInside(b, i + CHUNK + 2, 0);
    } else if i + 1 < |b| {
      var size: nat := b[i + 1];
      assert CopyInside(b, i, size) <==> size == 0 || (i + 2 + size <= |b| && CopyInside(b, i + 2 + size, 0));
    }
  }

  /** From place i on the parser reads inside the buffer only. At an empty chunk it stays for ever. */
  predicate ParseInside(b: seq<byte>, i: nat)
    decreases |b| - i
  {
    i >= |b| || (TurnInside(b, i) && (TurnInsideIff(b, i); b[i + 1] == 0 || ParseInside(b, RunEnd(b, i))))
  }

  /** From place i on chunks are complete, up to an empty one or the end. */
  predicate CompleteUpToEmpty(b: seq<byte>, i: nat)
    decreases |b| - i
  {
    i >= |b| || (
      && i + 2 <= |b|
      && (b[i + 1] == 0 || (i + 2 + b[i + 1] as int <= |b| && CompleteUpToEmpty(b, i + 2 + b[i + 1] as int))))
  }

  lemma {:induction false} RunThenRest(b: seq<byte>, i: nat)
    requires i < |b|
    ensures CompleteUpToEmpty(b, i) <==> RunComplete(b, i) && (b[i + 1] == 0 || CompleteUpToEmpty(b, RunEnd(b, i)))
    decreases |b| - i
  {
    if RunGoesOn(b, i) {
      RunThenRest(b, i + CHUNK + 2);
    }
  }

  /** The parser stays inside a buffer exactly when no chunk is cut short before an empty one. */
  lemma {:induction false} ParseInsideIff(b: seq<byte>, i: nat)
    ensures ParseInside(b, i) <==> CompleteUpToEmpty(b, i)
    decreases |b| - i
  {
    if i < |b| {
      TurnInsideIff(b, i);
      RunThenRest(b, i);
      if RunComplete(b, i) && b[i + 1] != 0 {
        ParseInsideIff(b, RunEnd(b, i));
      }
    }
  }

  /** From place i on the parser gets to the end, reading inside the buffer only. */
  predicate GetsThrough(b: seq<byte>, i: nat)
    decreases |b| - i
  {
    i >= |b| || (TurnInside(b, i) && (TurnInsideIff(b, i); b[i + 1] != 0 && GetsThrough(b, RunEnd(b, i))))
  }

  /** It does so exactly on well-formed buffers. */
  lemma {:induction false} GetsThroughIff(b: seq<byte>, i: nat)
    requires i <= |b|
    ensures GetsThrough(b, i) <==> WellFormed(b[i..])
    decreases |b| - i
  {
    if i < |b| {
      TurnInsideIff(b, i);
      WellFormedRun(b, i);
      if RunComplete(b, i) && b[i + 1] != 0 {
        GetsThroughIff(b, RunEnd(b, i));
      }
    }
  }

  lemma {:induction false} WellFormedRun(b: seq<byte>, i: nat)
    requires i < |b|
    ensures WellFormed(b[i..]) <==> RunComplete(b, i) && b[i + 1] != 0 && WellFormed(b[RunEnd(b, i)..])
    decreases |b| - i
  {
    if i + 2 <= |b| && i + 2 + b[i + 1] as int <= |b| {
      assert Behind(b[i..]) == b[i + 2 + b[i + 1] as int..];
      if RunGoesOn(b, i) {
        WellFormedRun(b, i + CHUNK + 2);
      }
    }
  }

  lemma DropDrop(b: seq<byte>, i: nat, j: nat)
    requires i + j <= |b|
    ensures b[i..][j..] == b[i + j..] && b[..i] + b[i..][..j] == b[..i + j]
  {
  }

  /** Lists that survive the round trip: no empty value, and no value that ends on a full chunk
      before another of its type. */
  predicate Separable(vs: seq<Tlv>) {
    && (forall i :: 0 <= i < |vs| ==> vs[i].value != [])
    && (forall i :: 0 <= i < |vs| - 1 ==> !(|vs[i].value| % CHUNK == 0 && vs[i + 1].tag == vs[i].tag))
  }

  /** A chunk in front of other chunks. */
  lemma ChunkThen(tag: byte, data: seq<byte>, more: seq<byte>)
    requires 0 < |data| <= CHUNK && WellFormed(more)
    ensures var b := Chunk(tag, data) + more;
            |b| >= 2 + b[1] as int && Data(b) == data && Behind(b) == more && b[0] == tag && b[1] == |data|
  {
    var b := Chunk(tag, data) + more;
    assert Data(b) == data;
    assert Behind(b) == more;
  }

  /** What one value's chunks give back, in front of anything that does not continue it. */
  lemma {:induction false} JoinedChunks(tag: byte, value: seq<byte>, more: seq<byte>)
    requires value != [] && WellFormed(more)
    requires !(|value| % CHUNK == 0 && more != [] && more[0] == tag)
    ensures var b := Chunks(tag, value) + more;
            WellFormed(b) && b != [] && b[0] == tag && Joined(b) == value && Left(b) == more
    decreases |value|
  {
    hide Chunk, Data, Behind;
    if |value| <= CHUNK {
      ChunkThen(tag, value, more);
    } else {
      var data := value[..CHUNK];
      var rest := Chunks(tag, value[CHUNK..]) + more;
      JoinedChunks(tag, value[CHUNK..], more);
      ChunkThen(tag, data, rest);
      assert Chunks(tag, value) + more == Chunk(tag, data) + rest;
      assert value == data + value[CHUNK..];
    }
  }

  /** Parsing undoes formatting on separable lists. */
  lemma {:induction false} ParseOfFormat(vs: seq<Tlv>)
    requires Separable(vs)
    ensures WellFormed(Formatted(vs)) && Parsed(Formatted(vs)) == vs
    ensures vs != [] ==> Formatted(vs) != [] && Formatted(vs)[0] == vs[0].tag
  {
    if vs != [] {
      hide Chunks, Joined, Left, Consumed, Continues, Data, Behind, Complete, NoEmptyChunk;
      assert Separable(vs[1..]);
      ParseOfFormat(vs[1..]);
      JoinedChunks(vs[0].tag, vs[0].value, Formatted(vs[1..]));
    }
  }

  /** One turn of the parser read exactly the chunks of the value it yields. */
  lemma {:induction false} ChunksOfJoined(b: seq<byte>)
    requires b != [] && WellFormed(b)
    ensures Joined(b) != [] && Chunks(b[0], Joined(b)) + Left(b) == b
    ensures |Joined(b)| % CHUNK == 0 && Left(b) != [] ==> Left(b)[0] != b[0]
    decreases |b|
  {
    SplitChunk(b);
    ChunksOfShort(b[0], Data(b));
    hide Chunk, Data, Behind, Chunks;
    if Continues(b) {
      var data, rest := Data(b), Behind(b);
      ChunksOfJoined(rest);
      FullChunkFirst(b[0], data, Joined(rest));
      Assoc(Chunk(b[0], data), Chunks(b[0], Joined(rest)), Left(rest));
    }
  }

  lemma ChunksOfShort(tag: byte, data: seq<byte>)
    requires |data| <= CHUNK
    ensures Chunks(tag, data) == Chunk(tag, data)
  {
  }

  lemma Assoc(a: seq<byte>, b: seq<byte>, c: seq<byte>)
    ensures a + b + c == a + (b + c)
  {
  }

  lemma SplitChunk(b: seq<byte>)
    requires b != [] && WellFormed(b)
    ensures |Data(b)| == b[1] && b == Chunk(b[0], Data(b)) + Behind(b)
  {
  }

  lemma FullChunkFirst(tag: byte, data: seq<byte>, value: seq<byte>)
    requires |data| == CHUNK && value != []
    ensures Chunks(tag, data + value) == Chunk(tag, data) + Chunks(tag, value)
    ensures |data + value| % CHUNK == |value| % CHUNK
  {
    assert (data + value)[..CHUNK] == data && (data + value)[CHUNK..] == value;
  }

  lemma SeparableCons(v: Tlv, vs: seq<Tlv>)
    requires Separable(vs) && v.value != []
    requires vs != [] && |v.value| % CHUNK == 0 ==> vs[0].tag != v.tag
    ensures Separable([v] + vs) && ([v] + vs)[1..] == vs
    ensures Formatted([v] + vs) == Chunks(v.tag, v.value) + Formatted(vs)
  {
  }

  /** Formatting undoes parsing on every buffer the parser can read, and every list it yields
      is separable. */
  lemma {:induction false} FormatOfParse(b: seq<byte>)
    requires WellFormed(b)
    ensures Formatted(Parsed(b)) == b && Separable(Parsed(b))
    ensures b != [] ==> Parsed(b) != [] && Parsed(b)[0].tag == b[0]
    decreases |b|
  {
    if b != [] {
      hide Data, Behind, Continues, Separable;
      LeftIsWellFormed(b);
      ChunksOfJoined(b);
      FormatOfParse(Left(b));
      SeparableCons(Tlv(b[0], Joined(b)), Parsed(Left(b)));
    }
  }

  /** So a list survives the round trip exactly when it is separable. */
  lemma RoundTripIffSeparable(vs: seq<Tlv>)
    ensures WellFormed(Formatted(vs)) && Parsed(Formatted(vs)) == vs <==> Separable(vs)
  {
    if Separable(vs) {
      ParseOfFormat(vs);
    } else if WellFormed(Formatted(vs)) {
      FormatOfParse(Formatted(vs));
    }
  }

  lemma {:induction false} ChunksSize(tag: byte, value: seq<byte>)
    ensures |Chunks(tag, value)| == |value| + 2 * ((|value| + 254) / 255) + if value == [] then 2 else 0
    decreases |value|
  {
    if |value| > CHUNK {
      ChunksSize(tag, value[CHUNK..]);
    }
  }

  /** The reported size is two bytes short for every empty value, and exact otherwise. */
  lemma {:induction false} ReportedSize(vs: seq<Tlv>)
    ensures |Formatted(vs)| == RequiredSize(vs) + 2 * Empties(vs)
  {
    if vs != [] {
      ReportedSize(vs[1..]);
      ChunksSize(vs[0].tag, vs[0].value);
    }
  }

  /** The first value of a type. */
  function Found(vs: seq<Tlv>, tag: byte): (r: Option<seq<byte>>)
    ensures r.None? <==> forall i :: 0 <= i < |vs| ==> vs[i].tag != tag
  {
    if vs == [] then None else if vs[0].tag == tag then Some(vs[0].value) else Found(vs[1..], tag)
  }

  /** The last value ends on a full chunk of this type, so another one would be taken for more of
      it. */
  predicate Continued(vs: seq<Tlv>, tag: byte) {
    vs != [] && |vs[|vs| - 1].value| % CHUNK == 0 && vs[|vs| - 1].tag == tag
  }

  lemma {:induction false} FormattedSnoc(vs: seq<Tlv>, v: Tlv)
    ensures Formatted(vs + [v]) == Formatted(vs) + Chunks(v.tag, v.value)
    ensures RequiredSize(vs + [v]) == RequiredSize(vs) + |v.value| + 2 * ((|v.value| + 254) / 255)
  {
    hide Chunks;
    if vs == [] {
      assert vs + [v] == [v] && [v][1..] == [];
    } else {
      FormattedSnoc(vs[1..], v);
      assert (vs + [v])[1..] == vs[1..] + [v];
      Assoc(Chunks(vs[0].tag, vs[0].value), Formatted(vs[1..]), Chunks(v.tag, v.value));
    }
  }

  lemma {:induction false} FoundOneMore(vs: seq<Tlv>, v: Tlv, tag: byte)
    ensures Found(vs + [v], tag) == if v.tag == tag && Found(vs, tag).None? then Some(v.value) else Found(vs, tag)
  {
    if vs == [] {
      assert vs + [v] == [v] && [v][1..] == [];
    } else {
      FoundOneMore(vs[1..], v, tag);
      assert (vs + [v])[1..] == vs[1..] + [v];
    }
  }

  lemma FoundSnoc(vs: seq<Tlv>, v: Tlv)
    ensures forall tag :: Found(vs + [v], tag)
                          == if v.tag == tag && Found(vs, tag).None? then Some(v.value) else Found(vs, tag)
  {
    forall tag
      ensures Found(vs + [v], tag) == if v.tag == tag && Found(vs, tag).None? then Some(v.value) else Found(vs, tag)
    {
      FoundOneMore(vs, v, tag);
    }
  }

  lemma SeparableSnoc(vs: seq<Tlv>, v: Tlv)
    ensures Separable(vs) ==> (Separable(vs + [v]) <==> v.value != [] && !Continued(vs, v.tag))
  {
    var all := vs + [v];
    if Separable(vs) {
      assert all[|vs|] == v;
      assert vs != [] ==> all[|vs| - 1] == vs[|vs| - 1];
    }
  }

  /** A buffer after src was written to place `at`. */
  function Overwritten(b: seq<byte>, at: nat, src: seq<byte>): (r: seq<byte>)
    requires at + |src| <= |b|
    ensures |r| == |b|
  {
    b[..at] + src + b[at + |src|..]
  }

  /** memcpy into an array. */
  method Copy(dst: array<byte>, at: nat, src: seq<byte>)
    requires at + |src| <= dst.Length
    modifies dst
    ensures dst[..] == Overwritten(old(dst[..]), at, src)
  {
    forall k | 0 <= k < |src| {
      dst[at + k] := src[k];
    }
  }

  /** Writing the next piece of a text into an array that holds the pieces before it. */
  lemma WrittenSoFar(before: seq<byte>, after: seq<byte>, orig: seq<byte>, text: seq<byte>, at: nat, piece: seq<byte>)
    requires |before| == |orig| && at + |piece| <= |text| <= |orig|
    requires before == text[..at] + orig[at..] && piece == text[at..at + |piece|]
    requires after == Overwritten(before, at, piece)
    ensures after == text[..at + |piece|] + orig[at + |piece|..]
  {
  }

  /** Type, size and data of one chunk. */
  method WriteChunk(buffer: array<byte>, at: nat, tag: byte, data: seq<byte>)
    requires |data| <= CHUNK && at + 2 + |data| <= buffer.Length
    modifies buffer
    ensures |Chunk(tag, data)| == 2 + |data| && buffer[..] == Overwritten(old(buffer[..]), at, Chunk(tag, data))
  {
    hide Chunk, Overwritten;
    ChunkParts(tag, data);
    var head: seq<byte> := [tag, |data|];
    TwoCopies(buffer[..], at, head, data);
    Copy(buffer, at, head);
    Copy(buffer, at + |head|, data);
  }

  lemma ChunkParts(tag: byte, data: seq<byte>)
    requires |data| <= CHUNK
    ensures Chunk(tag, data) == [tag, |data|] + data && |Chunk(tag, data)| == 2 + |data|
  {
  }

  lemma PieceOf(text: seq<byte>, start: nat, piece: seq<byte>, more: seq<byte>)
    requires start <= |text| && text[start..] == piece + more
    ensures start + |piece| <= |text| && piece == text[start..start + |piece|] && text[start + |piece|..] == more
  {
    assert |text[start..]| == |piece| + |more|;
    assert text[start..][..|piece|] == text[start..start + |piece|];
    assert text[start..][|piece|..] == text[start + |piece|..];
  }

  lemma TwoCopies(b: seq<byte>, at: nat, x: seq<byte>, y: seq<byte>)
    requires at + |x| + |y| <= |b|
    ensures Overwritten(Overwritten(b, at, x), at + |x|, y) == Overwritten(b, at, x + y)
  {
    var once := Overwritten(b, at, x);
    assert once[..at + |x|] == b[..at] + x && once[at + |x| + |y|..] == b[at + |x| + |y|..];
  }

  /** What the inner loop of the printer still has to write of one value. */
  function Pending(tag: byte, data: seq<byte>): seq<byte> {
    if data == [] then [] else Chunks(tag, data)
  }

  class Values {
    var list: seq<Tlv>

    constructor ()
      ensures list == []
    {
      list := [];
    }

    /** pair_tlv_add_value: what is formatted grows by the chunks of the value, at its end, and the
        size reported with it. A list that survives the round trip goes on doing so exactly when
        the value is not empty and does not continue a full chunk of its type. Values already
        there are found as before. */
    method Add(tag: byte, value: seq<byte>)
      modifies this
      ensures list == old(list) + [Tlv(tag, value)]
      ensures Formatted(list) == Formatted(old(list)) + Chunks(tag, value)
      ensures RequiredSize(list) == RequiredSize(old(list)) + |value| + 2 * ((|value| + 254) / 255)
      ensures Separable(old(list)) ==>
                var survives := WellFormed(Formatted(list)) && Parsed(Formatted(list)) == list;
                survives <==> value != [] && !Continued(old(list), tag)
      ensures forall other :: Found(list, other) ==
                if other == tag && Found(old(list), tag).None? then Some(value) else Found(old(list), other)
    {
      hide Formatted, RequiredSize, Separable, Found, WellFormed, Parsed, Chunks;
      FormattedSnoc(list, Tlv(tag, value));
      FoundSnoc(list, Tlv(tag, value));
      RoundTripIffSeparable(list + [Tlv(tag, value)]);
      SeparableSnoc(list, Tlv(tag, value));
      list := list + [Tlv(tag, value)];
    }

    /** pair_tlv_get_value: the first value of the type. */
    method GetValue(tag: byte) returns (value: Option<seq<byte>>)
      ensures value == Found(list, tag)
    {
      var t := 0;
      while t < |list|
        invariant t <= |list| && Found(list[t..], tag) == Found(list, tag)
      {
        assert list[t..][1..] == list[t + 1..];
        if list[t].tag == tag {
          return Some(list[t].value);
        }
        t := t + 1;
      }
      return None;
    }

    /** pair_tlv_format. The buffer has to take what is written, which is more than the size
        checked when values are empty. */
    method Format(buffer: array<byte>, size: nat) returns (ret: int, newSize: nat)
      requires size <= buffer.Length
      requires RequiredSize(list) <= size ==> |Formatted(list)| <= buffer.Length
      modifies buffer
      ensures newSize == RequiredSize(list)
      ensures ret == if size < newSize then PAIR_TLV_ERROR_INSUFFICIENT_SIZE else 0
      ensures buffer[..] == if size < newSize then old(buffer[..])
                            else Formatted(list) + old(buffer[..])[|Formatted(list)|..]
    {
      hide Formatted, RequiredSize;
      newSize := ComputeSize();
      if size < newSize {
        return PAIR_TLV_ERROR_INSUFFICIENT_SIZE, newSize;
      }
      ret := 0;
      FormatAll(buffer);
    }

    /** The second loop of pair_tlv_format. */
    method FormatAll(buffer: array<byte>)
      requires |Formatted(list)| <= buffer.Length
      modifies buffer
      ensures buffer[..] == Formatted(list) + old(buffer[..])[|Formatted(list)|..]
    {
      hide Chunks, Pending;
      ghost var text, orig := Formatted(list), buffer[..];
      var at: nat, t := 0, 0;
      assert text[..0] + orig[0..] == orig;
      while t < |list|
        invariant t <= |list| && at <= |text| && text[at..] == Formatted(list[t..])
        invariant buffer[..] == text[..at] + orig[at..]
      {
        assert list[t..][1..] == list[t + 1..];
        at := FormatOne(buffer, at, list[t], text, orig, Formatted(list[t + 1..]));
        t := t + 1;
      }
      assert text[..at] == text;
    }

    /** The first loop of pair_tlv_format. */
    method ComputeSize() returns (size: nat)
      ensures size == RequiredSize(list)
    {
      size := 0;
      var t := 0;
      while t < |list|
        invariant t <= |list| && size + RequiredSize(list[t..]) == RequiredSize(list)
      {
        assert list[t..][1..] == list[t + 1..];
        size := size + |list[t].value| + 2 * ((|list[t].value| + 254) / 255);
        t := t + 1;
      }
    }

    /** Body of the printer's loop over the list. */
    method FormatOne(buffer: array<byte>, start: nat, v: Tlv, ghost text: seq<byte>, ghost orig: seq<byte>,
                     ghost more: seq<byte>)
        returns (at: nat)
      requires start <= |text| <= |orig| && text[start..] == Chunks(v.tag, v.value) + more
      requires buffer[..] == text[..start] + orig[start..]
      modifies buffer
      ensures at <= |text| && text[at..] == more
      ensures buffer[..] == text[..at] + orig[at..]
    {
      hide Chunk;
      at := start;
      if v.value == [] {
        at := CopyChunk(buffer, at, v.tag, [], text, orig, more);
        return;
      }
      var data := v.value;
      while data != []
        invariant at <= |text| && text[at..] == Pending(v.tag, data) + more
        invariant buffer[..] == text[..at] + orig[at..]
        decreases |data|
      {
        var chunkSize := if |data| > CHUNK then CHUNK else |data|;
        assert Pending(v.tag, data) == Chunk(v.tag, data[..chunkSize]) + Pending(v.tag, data[chunkSize..]) by {
          assert |data| <= CHUNK ==> data[..chunkSize] == data;
          ChunksOfShort(v.tag, data[..chunkSize]);
        }
        Assoc(Chunk(v.tag, data[..chunkSize]), Pending(v.tag, data[chunkSize..]), more);
        at := CopyChunk(buffer, at, v.tag, data[..chunkSize], text, orig, Pending(v.tag, data[chunkSize..]) + more);
        data := data[chunkSize..];
      }
    }

    method CopyChunk(buffer: array<byte>, start: nat, tag: byte, data: seq<byte>, ghost text: seq<byte>,
                     ghost orig: seq<byte>, ghost more: seq<byte>)
        returns (at: nat)
      requires |data| <= CHUNK && start <= |text| <= |orig| && text[start..] == Chunk(tag, data) + more
      requires buffer[..] == text[..start] + orig[start..]
      modifies buffer
      ensures at <= |text| && text[at..] == more
      ensures buffer[..] == text[..at] + orig[at..]
    {
      hide Chunk, Overwritten;
      ghost var before, piece := buffer[..], Chunk(tag, data);
      ChunkParts(tag, data);
      PieceOf(text, start, piece, more);
      WriteChunk(buffer, start, tag, data);
      at := start + 2 + |data|;
      WrittenSoFar(before, buffer[..], orig, text, start, piece);
    }

    /** pair_tlv_parse. The source reads past the end of a buffer of incomplete chunks and does
        not get past an empty one (TerminatesIffNoEmptyChunk). */
    method Parse(b: seq<byte>)
      requires WellFormed(b)
      modifies this
      ensures list == old(list) + Parsed(b)
    {
      var i := 0;
      while i < |b|
        invariant i <= |b| && WellFormed(b[i..])
        invariant list + Parsed(b[i..]) == old(list) + Parsed(b)
      {
        ghost var turn := b[i..];
        LeftIsWellFormed(turn);
        var tag := b[i];
        var size := ScanRun(b, i);
        var data: seq<byte>;
        data, i := CopyRun(b, i, size);
        Assoc3(list, Tlv(tag, data), Parsed(Left(turn)));
        list := list + [Tlv(tag, data)];
      }
    }

    /** The parser's first inner loop: the total size of a run of chunks of one type. */
    method ScanRun(b: seq<byte>, i: nat) returns (size: nat)
      requires i < |b| && WellFormed(b[i..])
      ensures size == |Joined(b[i..])|
    {
      var tag, j := b[i], i;
      size := 0;
      while j < |b| && b[j] == tag && b[j + 1] == CHUNK
        invariant j <= |b| && WellFormed(b[j..])
        invariant size + (if j < |b| && b[j] == tag then |Joined(b[j..])| else 0) == |Joined(b[i..])|
        decreases |b| - j
      {
        assert Behind(b[j..]) == b[j + 2 + CHUNK..];
        size, j := size + CHUNK, j + CHUNK + 2;
      }
      if j < |b| && b[j] == tag {
        size := size + b[j + 1];
      }
    }

    /** The parser's second inner loop: the data of the run, and where it leaves off. */
    method CopyRun(b: seq<byte>, start: nat, size: nat) returns (data: seq<byte>, i: nat)
      requires start < |b| && WellFormed(b[start..]) && size == |Joined(b[start..])|
      ensures data == Joined(b[start..]) && i <= |b| && i > start && b[i..] == Left(b[start..])
    {
      hide Complete, NoEmptyChunk, Joined, Left, Continues, Data, Behind;
      var remaining := size;
      data, i := [], start;
      ghost var run := b[start..];
      JoinedNonEmpty(run);
      while remaining > 0
        invariant start <= i <= |b| && WellFormed(b[i..]) && (remaining < size ==> start < i)
        invariant if remaining > 0
                  then
                    && b[i..] != [] && data + Joined(b[i..]) == Joined(run)
                    && Left(b[i..]) == Left(run) && remaining == |Joined(b[i..])|
                  else data == Joined(run) && b[i..] == Left(run)
      {
        CopyStep(b, i);
        var chunkSize: int := b[i + 1];
        ghost var here := b[i..];
        var piece := b[i + 2..i + 2 + chunkSize];
        if Continues(here) {
          Assoc(data, piece, Joined(Behind(here)));
        }
        data := data + piece;
        i := i + 2 + chunkSize;
        remaining := remaining - chunkSize;
      }
    }
  }

  lemma Assoc3(list: seq<Tlv>, v: Tlv, rest: seq<Tlv>)
    ensures list + ([v] + rest) == list + [v] + rest
  {
  }

  lemma JoinedNonEmpty(b: seq<byte>)
    requires b != [] && WellFormed(b)
    ensures |Joined(b)| > 0
  {
  }

  /** One chunk of a run, by its place in the buffer. */
  lemma CopyStep(b: seq<byte>, i: nat)
    requires i < |b| && WellFormed(b[i..])
    ensures i + 2 + b[i + 1] as int <= |b| && b[i + 1] > 0
    ensures var c, n := b[i..], b[i + 1] as int;
            && WellFormed(b[i + 2 + n..])
            && if Continues(c)
               then Behind(c) == b[i + 2 + n..] != [] && Joined(c) == b[i + 2..i + 2 + n] + Joined(b[i + 2 + n..])
                    && Left(c) == Left(b[i + 2 + n..]) && |Joined(b[i + 2 + n..])| > 0
               else Joined(c) == b[i + 2..i + 2 + n] && Left(c) == b[i + 2 + n..]
  {
    var c, n := b[i..], b[i + 1] as int;
    assert Data(c) == b[i + 2..i + 2 + n];
    assert Behind(c) == b[i + 2 + n..];
  }
}
