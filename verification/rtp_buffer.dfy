/** The RTP retransmit buffer of src/rtp_common.c: a ring of reusable packet slots that is
    searched by a wrapping 16-bit sequence number, and the resend loop of src/airplay.c on it.
    The reference is `Stream`, the unbounded log of every packet ever committed. */
module RtpBuffer {
  import opened Words

  const RTP_HEADER_LEN := 12

  /** What a caller decides about one packet: its samples, the byte holding marker and payload
      type, and the payload. Everything else on the wire follows from its place in the stream. */
  datatype Entry = Entry(samples: int, header1: byte, payload: seq<byte>)

  /** The header of section 5.1 of RFC 3550, with the byte holding marker and payload type given. */
  function RtpHeader(header1: byte, seqnum: uint16, rtptime: uint32, ssrc: uint32): (h: seq<byte>)
    ensures |h| == RTP_HEADER_LEN && h[1] == header1
  {
    [0x80, header1] + BigEndian16(seqnum) + BigEndian32(rtptime) + BigEndian32(ssrc)
  }

  /** What a receiver reads in the bytes of a packet: version 2 without padding, extension or
      contributing sources, then these values, and from byte 12 on the payload. */
  predicate Spells(b: seq<byte>, header1: byte, seqnum: int, rtptime: int, ssrc: int, payload: seq<byte>) {
    && |b| >= 12
    && b[0] == 0x80 && b[1] == header1
    && 256 * b[2] as int + b[3] as int == seqnum
    && 16777216 * b[4] as int + 65536 * b[5] as int + 256 * b[6] as int + b[7] as int == rtptime
    && 16777216 * b[8] as int + 65536 * b[9] as int + 256 * b[10] as int + b[11] as int == ssrc
    && b[12..] == payload
  }

  lemma HeaderSpells(header1: byte, seqnum: uint16, rtptime: uint32, ssrc: uint32, payload: seq<byte>)
    ensures Spells(RtpHeader(header1, seqnum, rtptime, ssrc) + payload, header1, seqnum, rtptime, ssrc, payload)
  {
    hide BigEndian16, BigEndian32;
    var two, four, last := BigEndian16(seqnum), BigEndian32(rtptime), BigEndian32(ssrc);
    TwoBytes(seqnum);
    FourBytes(rtptime);
    FourBytes(ssrc);
    var b := RtpHeader(header1, seqnum, rtptime, ssrc) + payload;
    assert b[2..4] == two && b[4..8] == four && b[8..12] == last && b[12..] == payload;
    assert b[2] == two[0] && b[3] == two[1];
    assert b[4] == four[0] && b[5] == four[1] && b[6] == four[2] && b[7] == four[3];
    assert b[8] == last[0] && b[9] == last[1] && b[10] == last[2] && b[11] == last[3];
  }

  lemma TwoBytes(w: uint16)
    ensures var b := BigEndian16(w); 256 * b[0] as int + b[1] as int == w
  {
    hide BigEndian16;
    BigEndianRoundTrip(w, 0);
  }

  lemma FourBytes(w: uint32)
    ensures var b := BigEndian32(w);
            16777216 * b[0] as int + 65536 * b[1] as int + 256 * b[2] as int + b[3] as int == w
  {
    hide BigEndian32;
    BigEndianRoundTrip(0, w);
  }

  function Samples(log: seq<Entry>): int {
    if log == [] then 0 else Samples(log[..|log| - 1]) + log[|log| - 1].samples
  }

  /** Every packet committed since the session began, with the random starting points. */
  datatype Stream = Stream(ssrc: uint32, seq0: uint16, pos0: uint32, log: seq<Entry>) {
    function Seqnum(k: nat): uint16 { Wrap16(seq0 + k) }

    function RtpTime(k: nat): uint32
      requires k <= |log|
    {
      Wrap32(pos0 + Samples(log[..k]))
    }

    function Header(k: nat): seq<byte>
      requires k < |log|
    {
      RtpHeader(log[k].header1, Seqnum(k), RtpTime(k), ssrc)
    }

    /** The bytes of packet k. */
    function Wire(k: nat): seq<byte>
      requires k < |log|
    {
      Header(k) + log[k].payload
    }

    function Append(e: Entry): Stream { this.(log := log + [e]) }

    /** Search the last n packets of the log, oldest first, for sequence number q. */
    function Find(n: nat, q: uint16): (r: Option<nat>)
      requires n <= |log|
      ensures r.Some? ==> |log| - n <= r.value < |log| && Seqnum(r.value) == q
      ensures r.None? ==> forall k :: |log| - n <= k < |log| ==> Seqnum(k) != q
    {
      if n == 0 then None
      else if Seqnum(|log| - n) == q then Some(|log| - n)
      else Find(n - 1, q)
    }

    /** Packets to send for a request of n numbers from s on, when the last m are buffered. */
    function Resent(m: nat, s: uint16, n: nat): seq<seq<byte>>
      requires m <= |log|
    {
      if n == 0 then []
      else Resent(m, s, n - 1) + match Find(m, Wrap16(s + n - 1)) case None => [] case Some(k) => [Wire(k)]
    }

    /** The bytes of the packets lo..hi of the log. */
    function Wires(lo: nat, hi: nat): seq<seq<byte>>
      requires lo <= hi <= |log|
    {
      seq(hi - lo, i requires 0 <= i < hi - lo => Wire(lo + i))
    }
  }

  /** The bytes of packet k: its number counts up from the first one, and its time is the samples
      of the packets before it behind the first position. */
  predicate IsPacket(b: seq<byte>, st: Stream, k: nat)
    requires k < |st.log|
  {
    Spells(b, st.log[k].header1, (st.seq0 + k) % 65536, (st.pos0 + Samples(st.log[..k])) % 4294967296, st.ssrc,
           st.log[k].payload)
  }

  lemma WireSpells(st: Stream, k: nat)
    requires k < |st.log|
    ensures IsPacket(st.Wire(k), st, k)
  {
    hide Spells, RtpHeader, Samples;
    HeaderSpells(st.log[k].header1, st.Seqnum(k), st.RtpTime(k), st.ssrc, st.log[k].payload);
  }

  lemma {:induction false} ResentSpells(st: Stream, m: nat, s: uint16, n: nat)
    requires m <= |st.log|
    ensures forall b :: b in st.Resent(m, s, n) ==> exists k :: |st.log| - m <= k < |st.log| && IsPacket(b, st, k)
  {
    hide IsPacket, Stream.Resent, Stream.Wire, Stream.Find, Found, Stream.Seqnum;
    if n == 0 {
      NothingAsked(st, m, s);
    } else {
      ResentSpells(st, m, s, n - 1);
      ResentStep(st, m, s, n - 1);
      FoundIs(st, m, Wrap16(s + n - 1));
      match st.Find(m, Wrap16(s + n - 1))
      case None =>
      case Some(k) => WireSpells(st, k);
    }
  }

  lemma AppendKeeps(st: Stream, e: Entry, k: nat)
    requires k < |st.log|
    ensures st.Append(e).Header(k) == st.Header(k) && st.Append(e).log[k] == st.log[k]
  {
    assert st.Append(e).log[..k] == st.log[..k];
  }

  lemma AppendTime(st: Stream, e: Entry)
    ensures st.Append(e).RtpTime(|st.log|) == st.RtpTime(|st.log|)
    ensures st.Append(e).RtpTime(|st.log| + 1) == Wrap32(st.RtpTime(|st.log|) + e.samples)
  {
    var l := st.Append(e).log;
    assert l[..|st.log|] == st.log[..|st.log|] == st.log;
    assert l[..|st.log| + 1] == l && l[..|l| - 1] == st.log;
    WrapAdd32(st.pos0 + Samples(st.log), e.samples);
  }

  lemma NextSeqnum(st: Stream, e: Entry)
    ensures st.Append(e).Seqnum(|st.log| + 1) == Wrap16(st.Seqnum(|st.log|) as int + 1)
  {
    WrapAdd16(st.seq0 + |st.log|, 1);
  }

  /** The last n packets carry distinct numbers, for n up to 65536. */
  lemma FindUnique(st: Stream, n: nat, q: uint16, k: nat)
    requires n <= |st.log| && n <= 0x1_0000
    requires |st.log| - n <= k < |st.log| && st.Seqnum(k) == q
    ensures st.Find(n, q) == Some(k)
  {
    var j := st.Find(n, q).value;
    assert st.Seqnum(j) == st.Seqnum(k);
  }

  /** A number asked for is found exactly when the position it stands for is buffered. */
  lemma FindByPosition(st: Stream, m: nat, q: uint16, k: int)
    requires m <= |st.log| && m <= 0x1_0000
    requires Wrap16(st.seq0 + k) == q
    requires |st.log| - 0x1_0000 <= k < |st.log| - m + 0x1_0000
    ensures st.Find(m, q) == if |st.log| - m <= k < |st.log| then Some(k) else None
  {
    if |st.log| - m <= k < |st.log| {
      FindUnique(st, m, q, k);
    }
  }

  /** The part of the positions kLo..kLo+n that lies among the last m of the log. */
  function BufferedPart(st: Stream, m: nat, kLo: int, n: nat): seq<seq<byte>>
    requires m <= |st.log|
  {
    var lo := if kLo < |st.log| - m then |st.log| - m else kLo;
    var hi := if kLo + n < |st.log| then kLo + n else |st.log|;
    if lo <= hi then st.Wires(lo, hi) else []
  }

  lemma BufferedPartStep(st: Stream, m: nat, kLo: int, n: nat)
    requires m <= |st.log|
    ensures BufferedPart(st, m, kLo, n + 1) == BufferedPart(st, m, kLo, n) +
            if |st.log| - m <= kLo + n < |st.log| then [st.Wire(kLo + n)] else []
  {
    hide Stream.Wires, Stream.Wire;
    var lo := if kLo < |st.log| - m then |st.log| - m else kLo;
    if lo <= kLo + n < |st.log| {
      WiresStep(st, lo, kLo + n);
    } else if kLo + n + 1 == lo {
      NoWires(st, lo);
    }
  }

  lemma WiresStep(st: Stream, lo: nat, hi: nat)
    requires lo <= hi < |st.log|
    ensures st.Wires(lo, hi + 1) == st.Wires(lo, hi) + [st.Wire(hi)]
  {
    hide Stream.Wire;
  }

  lemma NoWires(st: Stream, lo: nat)
    requires lo <= |st.log|
    ensures st.Wires(lo, lo) == []
  {
  }

  /** A run of numbers that meets the buffer at most once is answered with exactly the buffered
      part of it, in order; kLo is the position in the log that its first number stands for. */
  lemma {:induction false} ResentIsBufferedPart(st: Stream, m: nat, s: uint16, n: nat, kLo: int)
    requires m <= |st.log| && m <= 0x1_0000
    requires Wrap16(st.seq0 + kLo) == s
    requires |st.log| - 0x1_0000 <= kLo && kLo + n <= |st.log| - m + 0x1_0000
    ensures st.Resent(m, s, n) == BufferedPart(st, m, kLo, n)
  {
    hide Stream.Wire, Stream.Resent, Stream.Find, BufferedPart;
    if n > 0 {
      ResentIsBufferedPart(st, m, s, n - 1, kLo);
      ResentStep(st, m, s, n - 1);
      WrapAdd16(st.seq0 + kLo, n - 1);
      FindByPosition(st, m, Wrap16(s + n - 1), kLo + n - 1);
      BufferedPartStep(st, m, kLo, n - 1);
    } else {
      NothingAsked(st, m, s);
      NoPart(st, m, kLo);
    }
  }

  lemma NoPart(st: Stream, m: nat, kLo: int)
    requires m <= |st.log|
    ensures BufferedPart(st, m, kLo, 0) == []
  {
  }

  /** A request in two halves. */
  lemma {:induction false} ResentSplit(st: Stream, m: nat, s: uint16, a: nat, b: nat)
    requires m <= |st.log|
    ensures st.Resent(m, s, a + b) == st.Resent(m, s, a) + st.Resent(m, Wrap16(s + a), b)
  {
    hide Stream.Resent, Found;
    if b > 0 {
      ResentSplit(st, m, s, a, b - 1);
      WrapAdd16(s + a, b - 1);
      ResentStep(st, m, s, a + b - 1);
      ResentStep(st, m, Wrap16(s + a), b - 1);
    } else {
      NothingAsked(st, m, Wrap16(s + a));
    }
  }

  lemma ResentStep(st: Stream, m: nat, s: uint16, n: nat)
    requires m <= |st.log|
    ensures st.Resent(m, s, n + 1) == st.Resent(m, s, n) + Found(st, m, Wrap16(s + n))
  {
  }

  function Found(st: Stream, m: nat, q: uint16): seq<seq<byte>>
    requires m <= |st.log|
  {
    match st.Find(m, q) case None => [] case Some(k) => [st.Wire(k)]
  }

  /** The one position that a number stands for among the last 65536 of the log, counting those
      before its beginning. */
  function PositionOf(st: Stream, s: uint16): (k: int)
    ensures |st.log| - 0x1_0000 <= k < |st.log| && Wrap16(st.seq0 + k) == s
  {
    var ahead := Wrap16(s - st.Seqnum(|st.log|));
    assert Wrap16(st.seq0 + (|st.log| - 0x1_0000 + ahead)) == s by {
      WrapAdd16(st.seq0 + |st.log|, ahead);
    }
    |st.log| - 0x1_0000 + ahead
  }

  /** Every request: the buffered packets from the first number on up to the newest, and then,
      when the numbers asked for go all the way round, the oldest buffered ones up to the last
      number. */
  lemma ResentIsTwoParts(st: Stream, m: nat, s: uint16, n: nat)
    requires m <= |st.log| && m <= 0x1_0000 && n <= 0x1_0000
    ensures var k := PositionOf(st, s);
            st.Resent(m, s, n) == BufferedPart(st, m, k, n) + BufferedPart(st, m, k - 0x1_0000, n)
  {
    hide Stream.Resent, BufferedPart;
    var k, total := PositionOf(st, s), |st.log|;
    var a: nat := if k + n <= total then n else total - k;
    var b := n - a;
    ResentSplit(st, m, s, a, b);
    ResentIsBufferedPart(st, m, s, a, k);
    WrapAdd16(st.seq0 + k, a);
    PartsAgree(st, m, k, n, a);
    if b > 0 {
      AllTheWayRound(st.seq0 + total);
      ResentIsBufferedPart(st, m, Wrap16(s + a), b, total - 0x1_0000);
    } else {
      NothingAsked(st, m, Wrap16(s + a));
    }
  }

  lemma AllTheWayRound(x: int)
    ensures Wrap16(x - 0x1_0000) == Wrap16(x)
  {
  }

  lemma PartsAgree(st: Stream, m: nat, k: int, n: nat, a: nat)
    requires m <= |st.log| && m <= 0x1_0000 && n <= 0x1_0000 && |st.log| - 0x1_0000 <= k < |st.log|
    requires a == if k + n <= |st.log| then n else |st.log| - k
    ensures BufferedPart(st, m, k, a) == BufferedPart(st, m, k, n)
    ensures BufferedPart(st, m, k - 0x1_0000, n)
            == if a < n then BufferedPart(st, m, |st.log| - 0x1_0000, n - a) else []
  {
    hide Stream.Wire;
  }

  lemma NothingAsked(st: Stream, m: nat, s: uint16)
    requires m <= |st.log|
    ensures st.Resent(m, s, 0) == []
  {
  }

  /** The XOR test of rtp_packet_get. */
  predicate InWindow(first: uint16, last: uint16, q: uint16) {
    ((first <= last) != (first <= q)) != (q <= last)
  }

  /** It decides membership in a wrapping window of 1 to 65536 numbers ending before cur, and
      the 16-bit distance then tells how far back the packet is (0 standing for 65536). */
  lemma WindowTest(cur: uint16, len: nat, q: uint16)
    requires 1 <= len <= 0x1_0000
    ensures var delta := Wrap16(cur - q);
            InWindow(Wrap16(cur - len), Wrap16(cur - 1), q) <==> 1 <= (if delta == 0 then 0x1_0000 else delta) <= len
  {
  }

  lemma AgeOf(x: int, q: uint16)
    ensures var delta := Wrap16(Wrap16(x) - q); Wrap16(x - if delta == 0 then 0x1_0000 else delta) == q
  {
  }

  lemma WindowIsFind(st: Stream, len: nat, q: uint16)
    requires 1 <= len <= 0x1_0000 && len <= |st.log|
    ensures var cur := st.Seqnum(|st.log|);
            var delta := Wrap16(cur - q);
            if InWindow(Wrap16(cur - len), Wrap16(cur - 1), q)
            then delta <= len && (delta == 0 ==> len == 0x1_0000)
                 && st.Find(len, q) == Some(|st.log| - if delta == 0 then 0x1_0000 else delta)
            else st.Find(len, q) == None
  {
    hide InWindow, Stream.Find;
    var delta := Wrap16(st.Seqnum(|st.log|) - q);
    var age := if delta == 0 then 0x1_0000 else delta;
    WindowTest(st.Seqnum(|st.log|), len, q);
    AgeOf(st.seq0 + |st.log|, q);
    FindByPosition(st, len, q, |st.log| - age);
  }

  /** Beyond that size the test no longer finds the newest packets: with 65537 buffered it
      accepts one number only. This is why the size is bounded. */
  lemma WindowTestFailsAbove65536(cur: uint16, q: uint16)
    ensures InWindow(Wrap16(cur - 0x1_0001), Wrap16(cur - 1), q) <==> q == Wrap16(cur - 1)
  {
  }

  /** struct rtp_packet: `header` and `payload` are the two parts of the slot's memory, both []
      while it is not allocated. */
  datatype Packet = Packet(seqnum: uint16, samples: int, header: seq<byte>, payload: seq<byte>, payloadLen: nat) {
    predicate Allocated() { |header| == RTP_HEADER_LEN && payloadLen <= |payload| }

    function Wire(): seq<byte>
      requires Allocated()
    {
      header + payload[..payloadLen]
    }

    function ToEntry(): Entry
      requires Allocated()
    {
      Entry(samples, header[1], payload[..payloadLen])
    }
  }

  lemma HeldWire(st: Stream, slot: Packet, k: nat)
    requires k < |st.log| && Holds(st, slot, k)
    ensures slot.Allocated() && slot.Wire() == st.Wire(k)
  {
  }

  /** Slot of the packet committed `age` packets ago, in a ring whose next slot is `next`. */
  function Back(next: nat, age: nat, size: nat): (i: nat)
    requires next < size && 1 <= age <= size
    ensures i < size
  {
    if age <= next then next - age else next + size - age
  }

  /** The slot holds packet k of the stream. */
  ghost predicate Holds(st: Stream, slot: Packet, k: nat)
    requires k < |st.log|
  {
    && slot.Allocated() && slot.seqnum == st.Seqnum(k)
    && slot.header == st.Header(k) && slot.ToEntry() == st.log[k]
  }

  /** The slot carries the header of the packet that comes next. */
  ghost predicate Stamped(st: Stream, slot: Packet) {
    && slot.Allocated() && slot.seqnum == st.Seqnum(|st.log|)
    && slot.header == RtpHeader(slot.header[1], st.Seqnum(|st.log|), st.RtpTime(|st.log|), st.ssrc)
  }

  /** The last len packets of the stream sit in the ring, newest just before slot next. While
      slot next is being rewritten a full ring has lost its oldest packet. */
  ghost predicate RingHolds(st: Stream, slots: seq<Packet>, next: nat, len: nat, open: bool)
    requires next < |slots| && len <= |slots| && len <= |st.log|
  {
    forall age :: 1 <= age <= len && (open ==> age < |slots|) ==>
      Holds(st, slots[Back(next, age, |slots|)], |st.log| - age)
  }

  lemma BackShifts(next: nat, age: nat, size: nat)
    requires next < size && 1 <= age <= size
    ensures Back((next + 1) % size, age, size) == if age == 1 then next else Back(next, age - 1, size)
  {
    ModOnce(next + 1, size);
  }

  lemma StampedBecomesNewest(st: Stream, slot: Packet)
    requires Stamped(st, slot)
    ensures Holds(st.Append(slot.ToEntry()), slot, |st.log|)
  {
    AppendTime(st, slot.ToEntry());
  }

  lemma OlderStays(st: Stream, e: Entry, slot: Packet, k: nat)
    requires k < |st.log| && Holds(st, slot, k)
    ensures Holds(st.Append(e), slot, k)
  {
    AppendKeeps(st, e, k);
  }

  lemma CommitKeepsRing(st: Stream, slots: seq<Packet>, next: nat, len: nat)
    requires next < |slots| && len <= |slots| && len <= |st.log|
    requires RingHolds(st, slots, next, len, true)
    requires Stamped(st, slots[next])
    ensures RingHolds(st.Append(slots[next].ToEntry()), slots, (next + 1) % |slots|,
                      if len < |slots| then len + 1 else len, false)
  {
    var e, next' := slots[next].ToEntry(), (next + 1) % |slots|;
    var st' := st.Append(e);
    StampedBecomesNewest(st, slots[next]);
    forall age | 1 <= age <= len + 1 && age <= |slots|
      ensures Holds(st', slots[Back(next', age, |slots|)], |st'.log| - age)
    {
      BackShifts(next, age, |slots|);
      if age > 1 {
        OlderStays(st, e, slots[Back(next, age - 1, |slots|)], |st.log| - (age - 1));
      }
    }
  }

  class Session {
    const pktbuf: array<Packet>
    const ssrcId: uint32
    var pktbufNext: nat
    var pktbufLen: nat
    var seqnum: uint16
    var pos: uint32
    var syncCounter: int

    ghost var stream: Stream
    // A packet was handed out by Next and not committed yet, so slot pktbufNext is being rewritten.
    ghost var open: bool

    ghost predicate Valid()
      reads this, pktbuf
    {
      && 1 <= pktbuf.Length <= 0x1_0000
      && pktbufNext < pktbuf.Length
      && pktbufLen <= pktbuf.Length && pktbufLen <= |stream.log|
      && stream.ssrc == ssrcId
      && seqnum == stream.Seqnum(|stream.log|)
      && pos == stream.RtpTime(|stream.log|)
      && (forall i :: 0 <= i < pktbuf.Length ==> pktbuf[i].header == pktbuf[i].payload == [] || pktbuf[i].Allocated())
      && (open ==> Stamped(stream, pktbuf[pktbufNext]))
      && RingHolds(stream, pktbuf[..], pktbufNext, pktbufLen, open)
    }

    /** rtp_session_new: the three random starting points are parameters. */
    constructor (ssrc: uint32, pos0: uint32, seq0: uint16, size: nat)
      requires 1 <= size <= 0x1_0000
      ensures Valid() && fresh(pktbuf) && pktbuf.Length == size && pktbufLen == 0 && !open
      ensures stream == Stream(ssrc, seq0, pos0, []) && pos == pos0 && seqnum == seq0 && syncCounter == 0
    {
      pktbuf := new Packet[size](_ => Packet(0, 0, [], [], 0));
      ssrcId, pos, seqnum := ssrc, pos0, seq0;
      pktbufNext, pktbufLen, syncCounter := 0, 0, 0;
      stream, open := Stream(ssrc, seq0, pos0, []), false;
    }

    /** rtp_session_flush: forgets the buffered packets, not the counters. */
    method Flush()
      requires Valid()
      modifies this`pktbufLen, this`syncCounter
      ensures Valid() && pktbufLen == 0 && syncCounter == 0
    {
      pktbufLen, syncCounter := 0, 0;
    }

    /** rtp_packet_next: hands out the next slot, reusing its memory when it is large enough,
        and stamps the RTP header. The payload bytes are whatever the memory held. */
    method Next(payloadLen: nat, samples: int, payloadType: byte, marker: bool) returns (pkt: nat)
      requires Valid()
      modifies this`open, pktbuf
      ensures Valid() && open && pkt == pktbufNext
      ensures pktbuf[pkt].payloadLen == payloadLen && pktbuf[pkt].samples == samples
      ensures pktbuf[pkt].header[1] == if marker && payloadType < 0x80 then 0x80 + payloadType else payloadType
      ensures forall i :: 0 <= i < pktbuf.Length && i != pkt ==> pktbuf[i] == old(pktbuf[i])
      ensures Spells(pktbuf[pkt].header, pktbuf[pkt].header[1], seqnum, pos, ssrcId, [])
    {
      hide RtpHeader, Stream.RtpTime, Spells;
      pkt := pktbufNext;
      var slot := pktbuf[pkt];
      var memory := slot.payload;
      if slot.header == [] || payloadLen > |slot.payload| {
        // realloc: the added bytes are arbitrary
        assert slot.payload <= slot.payload + seq(payloadLen - |slot.payload|, i => 0);
        memory :| |memory| == payloadLen && slot.payload <= memory;
      }
      var header1 := if marker && payloadType < 0x80 then 0x80 + payloadType else payloadType;
      var header := RtpHeader(header1, seqnum, pos, ssrcId);
      HeaderSpells(header1, seqnum, pos, ssrcId, []);
      assert header + [] == header;
      pktbuf[pkt] := Packet(seqnum, samples, header, memory, payloadLen);
      open := true;
    }

    /** What the caller does with the packet before committing it: sets the marker byte and
        copies the payload in. */
    method Fill(pkt: nat, header1: byte, payload: seq<byte>)
      requires Valid() && open && pkt == pktbufNext && |payload| == pktbuf[pkt].payloadLen
      modifies pktbuf
      ensures Valid() && pktbuf[pkt].payloadLen == |payload|
      ensures pktbuf[pkt].ToEntry() == Entry(old(pktbuf[pkt].samples), header1, payload)
      ensures forall i :: 0 <= i < pktbuf.Length && i != pkt ==> pktbuf[i] == old(pktbuf[i])
    {
      var slot := pktbuf[pkt];
      pktbuf[pkt] := slot.(header := slot.header[1 := header1], payload := payload + slot.payload[|payload|..]);
    }

    /** rtp_packet_commit: the open packet becomes the newest of the log. */
    method Commit(pkt: nat)
      requires Valid() && open && pkt == pktbufNext
      modifies this
      ensures Valid() && !open
      ensures stream == old(stream).Append(pktbuf[pkt].ToEntry())
      ensures pktbufLen == if old(pktbufLen) < pktbuf.Length then old(pktbufLen) + 1 else pktbuf.Length
      ensures pos == Wrap32(old(pos) + pktbuf[pkt].samples)
      ensures syncCounter == old(syncCounter) + pktbuf[pkt].samples
    {
      hide RtpHeader, Stream.RtpTime, Stream.Seqnum, RingHolds, Holds;
      var slot := pktbuf[pkt];
      ghost var st := stream.Append(slot.ToEntry());
      CommitKeepsRing(stream, pktbuf[..], pktbufNext, pktbufLen);
      AppendTime(stream, slot.ToEntry());
      NextSeqnum(stream, slot.ToEntry());
      stream, open := st, false;
      if pktbufLen < pktbuf.Length {
        pktbufLen := pktbufLen + 1;
      }
      pktbufNext := (pktbufNext + 1) % pktbuf.Length;
      seqnum := Wrap16(seqnum as int + 1);
      pos := Wrap32(pos + slot.samples);
      syncCounter := syncCounter + slot.samples;
    }

    /** rtp_packet_get: finds a slot exactly when the number is one of the last pktbufLen
        packets of the log, and the slot then holds that packet. The one slot that may be
        under rewriting is the oldest of a full ring while a packet is open. */
    method Get(q: uint16) returns (r: Option<nat>)
      requires Valid()
      ensures r.Some? <==> stream.Find(pktbufLen, q).Some?
      ensures r.Some? ==> r.value < pktbuf.Length
      ensures r.Some? ==> var k := stream.Find(pktbufLen, q).value;
              if open && k == |stream.log| - pktbuf.Length then r.value == pktbufNext
              else Holds(stream, pktbuf[r.value], k)
    {
      hide RtpHeader, Stream.RtpTime, Stream.Find, Stream.Seqnum, RingHolds, Stamped, InWindow, Holds, Back, Wrap16;
      if pktbufLen == 0 {
        NothingBuffered(stream, q);
        return None;
      }
      var last := Wrap16(seqnum - 1);
      var first := Wrap16(seqnum - pktbufLen);
      WindowIsFind(stream, pktbufLen, q);
      if !InWindow(first, last, q) {
        return None;
      }
      var delta := Wrap16(seqnum - q);
      var idx := (pktbufNext + pktbuf.Length - delta) % pktbuf.Length;
      RingIndex(pktbufNext, delta, pktbuf.Length);
      InRing(stream, pktbuf[..], pktbufNext, pktbufLen, open, if delta == 0 then 0x1_0000 else delta);
      return Some(idx);
    }

    /** packets_resend of src/airplay.c: answers a retransmit request for len numbers from q on. */
    method Resend(q: uint16, len: uint16) returns (sent: seq<seq<byte>>)
      requires Valid() && !open
      ensures sent == stream.Resent(pktbufLen, q, len)
      ensures var k := PositionOf(stream, q);
              sent == BufferedPart(stream, pktbufLen, k, len) + BufferedPart(stream, pktbufLen, k - 0x1_0000, len)
      ensures pktbufLen <= |stream.log|
      ensures forall b :: b in sent ==>
                exists k :: |stream.log| - pktbufLen <= k < |stream.log| && IsPacket(b, stream, k)
    {
      hide RtpHeader, Stream.RtpTime, Stream.Wire, Stream.Resent, Stream.Find, BufferedPart, PositionOf, Valid, Holds;
      hide Found, IsPacket;
      Buffered();
      NothingAsked(stream, pktbufLen, q);
      sent := [];
      var i: nat, s := 0, q;
      while i < len as nat
        invariant i <= len && s == Wrap16(q + i)
        invariant sent == stream.Resent(pktbufLen, q, i)
      {
        var pkt := Get(s);
        ResentStep(stream, pktbufLen, q, i);
        FoundIs(stream, pktbufLen, s);
        if pkt.Some? {
          HeldWire(stream, pktbuf[pkt.value], stream.Find(pktbufLen, s).value);
          sent := sent + [pktbuf[pkt.value].Wire()];
        }
        WrapAdd16(q + i, 1);
        i, s := i + 1, Wrap16(s as int + 1);
      }
      ResentIsTwoParts(stream, pktbufLen, q, len);
      ResentSpells(stream, pktbufLen, q, len);
    }

    lemma Buffered()
      requires Valid()
      ensures pktbufLen <= |stream.log| && pktbufLen <= 0x1_0000
    {
    }
  }

  lemma FoundIs(st: Stream, m: nat, q: uint16)
    requires m <= |st.log|
    ensures Found(st, m, q) == match st.Find(m, q) case None => [] case Some(k) => [st.Wire(k)]
  {
  }

  lemma NothingBuffered(st: Stream, q: uint16)
    ensures st.Find(0, q) == None
  {
  }

  /** The packet committed `age` packets ago, unless its slot is being rewritten. */
  lemma InRing(st: Stream, slots: seq<Packet>, next: nat, len: nat, open: bool, age: nat)
    requires next < |slots| && len <= |slots| && len <= |st.log| && 1 <= age <= len
    requires RingHolds(st, slots, next, len, open)
    ensures Back(next, age, |slots|) < |slots|
    ensures if open && age == |slots| then Back(next, age, |slots|) == next
            else Holds(st, slots[Back(next, age, |slots|)], |st.log| - age)
  {
    hide Holds;
  }

  /** The index computed from the 16-bit distance, for a ring of at most 65536 slots. */
  lemma RingIndex(next: nat, delta: uint16, size: nat)
    requires next < size <= 0x1_0000
    requires delta <= size && (delta == 0 ==> size == 0x1_0000)
    ensures (next + size - delta) % size == Back(next, if delta == 0 then 0x1_0000 else delta, size)
  {
    ModOnce(next + size - delta, size);
  }
}
