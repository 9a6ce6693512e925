/** The byte ring buffer of src/misc.c: a queue of bytes in a fixed buffer. */
module ByteRing {
  import opened Words

  const INT_MAX := 0x7fff_ffff

  /** A position that has gone round at most once. */
  function Wrap(x: nat, size: nat): nat { if x < size then x else x - size }

  /** The n bytes of a circular buffer that start at `from`. */
  function Circular(bytes: seq<byte>, from: nat, n: nat): (r: seq<byte>)
    requires from < |bytes| && n <= |bytes|
    ensures |r| == n
  {
    if from + n <= |bytes| then bytes[from..from + n] else bytes[from..] + bytes[..from + n - |bytes|]
  }

  /** Taking n from the front leaves what starts n further on. */
  lemma CircularDrop(bytes: seq<byte>, from: nat, avail: nat, n: nat)
    requires from < |bytes| && n <= avail <= |bytes|
    ensures Circular(bytes, Wrap(from + n, |bytes|), avail - n) == Circular(bytes, from, avail)[n..]
  {
  }

  lemma CircularFront(bytes: seq<byte>, from: nat, avail: nat, n: nat)
    requires from + n <= |bytes| && from < |bytes| && n <= avail <= |bytes|
    ensures bytes[from..from + n] == Circular(bytes, from, avail)[..n]
  {
  }

  lemma Handed(exposed: seq<byte>, waiting: seq<byte>, n: nat)
    requires n <= |waiting|
    ensures exposed + waiting == exposed + waiting[..n] + waiting[n..]
  {
    assert waiting == waiting[..n] + waiting[n..];
  }

  /** The buffer after src has been copied to position `at`, in one piece or in two. */
  function CopiedIn(bytes: seq<byte>, at: nat, src: seq<byte>): (r: seq<byte>)
    requires at < |bytes| && |src| <= |bytes|
    ensures |r| == |bytes|
  {
    var room := |bytes| - at;
    if |src| <= room then bytes[..at] + src + bytes[at + |src|..]
    else src[room..] + bytes[|src| - room..at] + src[..room]
  }

  lemma OnePiece(bytes: seq<byte>, at: nat, src: seq<byte>)
    requires at < |bytes| && at + |src| <= |bytes|
    ensures CopiedIn(bytes, at, src) == bytes[..at] + src + bytes[at + |src|..]
  {
  }

  lemma TwoPieces(bytes: seq<byte>, at: nat, src: seq<byte>, first: seq<byte>)
    requires at < |bytes| && |bytes| - at < |src| <= |bytes|
    requires var room := |bytes| - at; first == bytes[..at] + src[..room] + bytes[at + room..]
    ensures var room := |bytes| - at; CopiedIn(bytes, at, src) == first[..0] + src[room..] + first[0 + |src[room..]|..]
  {
    var room := |bytes| - at;
    assert first == bytes[..at] + src[..room];
    assert first[|src| - room..] == bytes[|src| - room..at] + src[..room];
  }

  /** Bytes copied in behind those that wait are appended to them. */
  lemma CircularAppend(bytes: seq<byte>, from: nat, avail: nat, src: seq<byte>)
    requires from < |bytes| && avail + |src| <= |bytes| && src != []
    ensures Circular(CopiedIn(bytes, Wrap(from + avail, |bytes|), src), from, avail + |src|)
            == Circular(bytes, from, avail) + src
  {
    hide Circular, CopiedIn;
    if from + avail >= |bytes| {
      AppendWrapped(bytes, from, avail, src);
    } else if from + avail + |src| <= |bytes| {
      AppendStraight(bytes, from, avail, src);
    } else {
      AppendAround(bytes, from, avail, src);
    }
  }

  /** The bytes that wait already go round the end. */
  lemma AppendWrapped(bytes: seq<byte>, from: nat, avail: nat, src: seq<byte>)
    requires from < |bytes| <= from + avail && avail + |src| <= |bytes|
    ensures Circular(CopiedIn(bytes, from + avail - |bytes|, src), from, avail + |src|)
            == Circular(bytes, from, avail) + src
  {
    hide Circular, CopiedIn;
    var over := from + avail - |bytes|;
    var front, tail := bytes[..over] + src, bytes[over + |src|..];
    var gap := from - over - |src|;
    OnePiece(bytes, over, src);
    TwoParts(front, tail, gap);
    assert tail[gap..] == bytes[from..];
    CircularAround(bytes, from, avail);
    CircularAround(front + tail, from, avail + |src|);
    assert bytes[from..] + (bytes[..over] + src) == bytes[from..] + bytes[..over] + src;
  }

  lemma TwoParts(a: seq<byte>, b: seq<byte>, n: nat)
    requires n <= |b|
    ensures (a + b)[..|a|] == a && (a + b)[|a| + n..] == b[n..]
  {
  }

  lemma CircularAround(bytes: seq<byte>, from: nat, n: nat)
    requires from < |bytes| <= from + n && n <= |bytes|
    ensures Circular(bytes, from, n) == bytes[from..] + bytes[..from + n - |bytes|]
  {
  }

  /** Neither they nor the new ones do. */
  lemma AppendStraight(bytes: seq<byte>, from: nat, avail: nat, src: seq<byte>)
    requires from + avail < |bytes| && from + avail + |src| <= |bytes|
    ensures Circular(CopiedIn(bytes, from + avail, src), from, avail + |src|) == Circular(bytes, from, avail) + src
  {
    var after := CopiedIn(bytes, from + avail, src);
    assert after == bytes[..from + avail] + src + bytes[from + avail + |src|..];
    assert after[from..from + avail + |src|] == bytes[from..from + avail] + src;
  }

  /** The new ones do. */
  lemma AppendAround(bytes: seq<byte>, from: nat, avail: nat, src: seq<byte>)
    requires from + avail < |bytes| < from + avail + |src| && avail + |src| <= |bytes|
    ensures Circular(CopiedIn(bytes, from + avail, src), from, avail + |src|) == Circular(bytes, from, avail) + src
  {
    var room := |bytes| - from - avail;
    var after := CopiedIn(bytes, from + avail, src);
    var rest := |src| - room;
    assert after == src[room..] + bytes[rest..from + avail] + src[..room];
    AroundParts(src[room..], bytes[rest..from + avail], src[..room], from - rest);
    assert bytes[rest..from + avail][from - rest..] == bytes[from..from + avail];
    assert src == src[..room] + src[room..];
    assert bytes[from..from + avail] + src[..room] + src[room..] == bytes[from..from + avail] + src;
  }

  lemma AroundParts(a: seq<byte>, b: seq<byte>, c: seq<byte>, n: nat)
    requires n <= |b|
    ensures (a + b + c)[..|a|] == a && (a + b + c)[|a| + n..] == b[n..] + c
  {
  }

  class RingBuffer {
    const size: nat
    const buffer: array<byte>
    var writeAvail: nat
    var readAvail: nat
    var writePos: nat
    var readPos: nat
    /** All bytes that writes have accepted, and all that reads have exposed. */
    ghost var accepted: seq<byte>
    ghost var exposed: seq<byte>

    ghost predicate Positions()
      reads this
    {
      && 1 <= size <= INT_MAX && buffer.Length == size
      && readAvail + writeAvail == size
      && readPos < size && writePos == Wrap(readPos + readAvail, size)
    }

    /** The bytes waiting to be read, oldest first. */
    ghost function Contents(): seq<byte>
      requires Positions()
      reads this, buffer
    {
      Circular(buffer[..], readPos, readAvail)
    }

    ghost predicate Valid()
      reads this, buffer
    {
      Positions() && accepted == exposed + Contents()
    }

    lemma WritePosition()
      requires Positions()
      ensures (readPos + readAvail) % size == writePos
    {
      ModOnce(readPos + readAvail, size);
    }

    /** ringbuffer_init */
    constructor (size: nat)
      requires 1 <= size <= INT_MAX
      ensures Valid() && this.size == size && Contents() == [] && accepted == [] && fresh(buffer)
    {
      this.size := size;
      buffer := new byte[size](_ => 0);
      writeAvail, readAvail, writePos, readPos := size, 0, 0, 0;
      accepted, exposed := [], [];
    }

    method CopyIn(at: nat, src: seq<byte>)
      requires at + |src| <= buffer.Length
      modifies buffer
      ensures buffer[..] == old(buffer[..])[..at] + src + old(buffer[..])[at + |src|..]
    {
      forall k | 0 <= k < |src| {
        buffer[at + k] := src[k];
      }
    }

    /** The copying of a write, in one piece or in two. */
    method CopyAround(src: seq<byte>)
      requires buffer.Length == size && writePos < size && |src| <= size
      modifies buffer
      ensures buffer[..] == CopiedIn(old(buffer[..]), writePos, src)
    {
      hide CopiedIn;
      ghost var was := buffer[..];
      var remaining := size - writePos;
      if |src| > remaining {
        CopyIn(writePos, src[..remaining]);
        ghost var first := buffer[..];
        CopyIn(0, src[remaining..]);
        TwoPieces(was, writePos, src, first);
      } else {
        OnePiece(was, writePos, src);
        CopyIn(writePos, src);
      }
    }

    /** ringbuffer_write */
    method Write(src: seq<byte>) returns (n: nat)
      requires Valid()
      modifies this, buffer
      ensures Valid()
      ensures n == if |src| <= old(writeAvail) then |src| else old(writeAvail)
      ensures Contents() == old(Contents()) + src[..n] && readPos == old(readPos)
      ensures accepted == old(accepted) + src[..n] && exposed == old(exposed)
    {
      hide Circular, CopiedIn;
      if writeAvail == 0 || |src| == 0 {
        return 0;
      }
      n := |src|;
      if n > writeAvail {
        n := writeAvail;
      }
      CopyAround(src[..n]);
      CircularAppend(old(buffer[..]), readPos, readAvail, src[..n]);
      ModOnce(writePos + n, size);
      writePos := (writePos + n) % size;
      writeAvail := writeAvail - n;
      readAvail := readAvail + n;
      accepted := accepted + src[..n];
    }

    /** ringbuffer_read: the n bytes at offset `at` of the buffer are handed out. It stops short of
        what is asked and waiting only at the end of the buffer. */
    method Read(want: nat) returns (at: nat, n: nat)
      requires Valid()
      modifies this
      ensures Valid()
      ensures at == old(readPos) && n <= want && at + n <= size
      ensures n == want || n == |old(Contents())| || at + n == size
      ensures n == 0 ==> want == 0 || old(Contents()) == []
      ensures n <= |old(Contents())| && buffer[at..at + n] == old(Contents())[..n] && Contents() == old(Contents())[n..]
      ensures accepted == old(accepted) && exposed == old(exposed) + buffer[at..at + n]
    {
      hide Circular;
      at, n := readPos, 0;
      if readAvail == 0 || want == 0 {
        return;
      }
      var remaining := size - readPos;
      n := want;
      if n > remaining {
        n := remaining;
      }
      if n > readAvail {
        n := readAvail;
      }
      CircularDrop(buffer[..], readPos, readAvail, n);
      CircularFront(buffer[..], readPos, readAvail, n);
      ModOnce(readPos + n, size);
      ghost var waiting := Contents();
      readPos := (readPos + n) % size;
      writeAvail := writeAvail + n;
      readAvail := readAvail - n;
      Handed(exposed, waiting, n);
      exposed := exposed + buffer[at..at + n];
    }
  }
}
