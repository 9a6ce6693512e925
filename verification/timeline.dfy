/** The sample timeline of src/airplay.c: airplay_write cuts the player's audio into packets of
    352 samples, encodes and commits them, and derives from the RTP position which sample a
    device plays now. Whatever the player writes and whenever the encoder fails, every byte and
    sample received is in exactly one encoder input or still buffered; but the samples of an input
    that could not be encoded are missing from RTP time from then on. */
module Timeline {
  import opened Words
  import opened MediaQuality
  import RtpBuffer

  const AIRPLAY_SAMPLES_PER_PACKET := 352
  const AIRPLAY_RTP_PAYLOADTYPE: byte := 0x60
  const AIRPLAY_PACKET_BUFFER_SIZE := 1000
  const OUTPUTS_BUFFER_DURATION := 2

  /** The STOB macro of src/misc.h. */
  function Stob(samples: nat, q: Quality): nat
    requires q.channels >= 0 && q.bitsPerSample >= 0
  {
    samples * q.channels * q.bitsPerSample / 8
  }

  /** One element of the output buffer: the same audio in one of the qualities subscribed to. */
  datatype Element = Element(quality: Quality, buffer: seq<byte>, samples: nat)

  /** ALAC encoder, foreign code: what it makes of its newest input may depend on all before. */
  type Encoder = seq<seq<byte>> -> Option<seq<byte>>

  /** States of a device session that packets_send tells apart. */
  datatype Listener = Connected | Streaming | Other

  function Concat(parts: seq<seq<byte>>): seq<byte> {
    if parts == [] then [] else Concat(parts[..|parts| - 1]) + parts[|parts| - 1]
  }

  /** The outputs of an encoder fed with these inputs, failures left out. */
  function Encoded(encode: Encoder, inputs: seq<seq<byte>>): seq<seq<byte>> {
    if inputs == [] then []
    else Encoded(encode, inputs[..|inputs| - 1]) + match encode(inputs) case None => [] case Some(bytes) => [bytes]
  }

  /** How many inputs could not be encoded. */
  function Failures(encode: Encoder, inputs: seq<seq<byte>>): nat {
    if inputs == [] then 0 else Failures(encode, inputs[..|inputs| - 1]) + if encode(inputs).None? then 1 else 0
  }

  lemma {:induction false} EncodedOrFailed(encode: Encoder, inputs: seq<seq<byte>>)
    ensures |Encoded(encode, inputs)| + Failures(encode, inputs) == |inputs|
  {
    if inputs != [] {
      EncodedOrFailed(encode, inputs[..|inputs| - 1]);
    }
  }

  /** 352 samples for each failure add up to nothing modulo 2^32 exactly when the failures are a
      multiple of 2^27. */
  lemma LostNothingIff(failures: nat)
    ensures Wrap32(AIRPLAY_SAMPLES_PER_PACKET * failures) == 0 <==> failures % 0x800_0000 == 0
  {
    if Wrap32(352 * failures) == 0 {
      OnlyMultiples(failures, 352 * failures / 0x1_0000_0000);
    }
    if failures % 0x800_0000 == 0 {
      Multiples(failures, failures / 0x800_0000);
    }
  }

  lemma Multiples(failures: nat, q: nat)
    requires failures == 0x800_0000 * q
    ensures Wrap32(352 * failures) == 0
  {
    assert 352 * failures == 0x1_0000_0000 * (11 * q);
    NoRemainder(11 * q);
  }

  lemma NoRemainder(k: nat)
    ensures Wrap32(0x1_0000_0000 * k) == 0
  {
  }

  /** 36604835 is the inverse of 11 modulo 2^27. */
  lemma OnlyMultiples(failures: nat, k: nat)
    requires 352 * failures == 0x1_0000_0000 * k
    ensures failures % 0x800_0000 == 0
  {
    assert failures == 0x800_0000 * (36604835 * k - 3 * failures);
  }

  /** Place of the last element of quality q. */
  function LastPicked(data: seq<Element>, q: Quality): (r: Option<nat>)
    ensures r.Some? ==> r.value < |data| && QualityIsEqual(data[r.value].quality, q)
    ensures forall i :: 0 <= i < |data| && QualityIsEqual(data[i].quality, q) ==> r.Some? && i <= r.value
  {
    if data == [] then None
    else if QualityIsEqual(data[|data| - 1].quality, q) then Some(|data| - 1)
    else LastPicked(data[..|data| - 1], q)
  }

  function Payloads(log: seq<RtpBuffer.Entry>): seq<seq<byte>> {
    seq(|log|, i requires 0 <= i < |log| => log[i].payload)
  }

  /** Bytes and samples of the elements a session of quality q picks up. */
  function PickedBytes(data: seq<Element>, q: Quality): seq<byte> {
    if data == [] then []
    else PickedBytes(data[..|data| - 1], q) +
         if QualityIsEqual(data[|data| - 1].quality, q) then data[|data| - 1].buffer else []
  }

  function PickedSamples(data: seq<Element>, q: Quality): nat {
    if data == [] then 0
    else PickedSamples(data[..|data| - 1], q) +
         if QualityIsEqual(data[|data| - 1].quality, q) then data[|data| - 1].samples else 0
  }

  /** Who gets the packet just made, and with which second header byte: a device that has just
      joined sees the marker bit set. */
  function Deliveries(listeners: seq<Listener>): seq<(nat, byte)> {
    if listeners == [] then []
    else
      var i := |listeners| - 1;
      Deliveries(listeners[..i]) +
      match listeners[i]
      case Connected => [(i, 0x80 + AIRPLAY_RTP_PAYLOADTYPE)]
      case Streaming => [(i, AIRPLAY_RTP_PAYLOADTYPE)]
      case Other => []
  }

  /** How often listener i gets the packet with that header byte. */
  function Received(sent: seq<(nat, byte)>, i: nat, header1: byte): nat {
    if sent == [] then 0
    else Received(sent[..|sent| - 1], i, header1) + if sent[|sent| - 1] == (i, header1) then 1 else 0
  }

  lemma {:induction false} ReceivedBoth(a: seq<(nat, byte)>, b: seq<(nat, byte)>, i: nat, header1: byte)
    ensures Received(a + b, i, header1) == Received(a, i, header1) + Received(b, i, header1)
  {
    if b == [] {
      assert a + b == a;
    } else {
      assert (a + b)[..|a + b| - 1] == a + b[..|b| - 1];
      ReceivedBoth(a, b[..|b| - 1], i, header1);
    }
  }

  /** Each device gets the packet once at most: with byte 0xE0 if it is connected, with 0x60 if it
      is streaming, and not at all in any other state or when there is no such device. */
  lemma {:induction false} DeliveredOnce(listeners: seq<Listener>, i: nat, header1: byte)
    ensures Received(Deliveries(listeners), i, header1) ==
            if i < |listeners| && ((listeners[i] == Connected && header1 == 0xE0)
                                   || (listeners[i] == Streaming && header1 == 0x60)) then 1 else 0
  {
    if listeners != [] {
      var n := |listeners| - 1;
      var last := match listeners[n]
        case Connected => [(n, 0xE0 as byte)]
        case Streaming => [(n, 0x60 as byte)]
        case Other => [];
      DeliveredOnce(listeners[..n], i, header1);
      assert Deliveries(listeners) == Deliveries(listeners[..n]) + last;
      ReceivedBoth(Deliveries(listeners[..n]), last, i, header1);
      assert last != [] ==> last[..0] == [];
    }
  }

  /** The same deliveries for each of n packets. */
  function Repeated(sent: seq<(nat, byte)>, n: nat): seq<(nat, byte)> {
    if n == 0 then [] else Repeated(sent, n - 1) + sent
  }

  lemma {:induction false} RepeatedAdds(sent: seq<(nat, byte)>, m: nat, n: nat)
    ensures Repeated(sent, m) + Repeated(sent, n) == Repeated(sent, m + n)
  {
    if n > 0 {
      RepeatedAdds(sent, m, n - 1);
    }
  }

  lemma RepeatedOnce(sent: seq<(nat, byte)>)
    ensures Repeated(sent, 1) == sent
  {
    assert Repeated(sent, 0) + sent == sent;
  }

  lemma {:induction false} UniformSamples(log: seq<RtpBuffer.Entry>, n: int)
    requires forall i :: 0 <= i < |log| ==> log[i].samples == n
    ensures RtpBuffer.Samples(log) == n * |log|
  {
    if log != [] {
      UniformSamples(log[..|log| - 1], n);
    }
  }

  /** How concatenation, encoding and the payload list grow by one at the end. */
  lemma Grow(encode: Encoder, inputs: seq<seq<byte>>, raw: seq<byte>, log: seq<RtpBuffer.Entry>, e: RtpBuffer.Entry)
    ensures Concat(inputs + [raw]) == Concat(inputs) + raw
    ensures Encoded(encode, inputs + [raw]) == Encoded(encode, inputs) +
              match encode(inputs + [raw]) case None => [] case Some(bytes) => [bytes]
    ensures Payloads(log + [e]) == Payloads(log) + [e.payload]
  {
    assert (inputs + [raw])[..|inputs|] == inputs;
  }

  /** Nothing lost: the encoder's inputs and the buffer are the bytes written, and the samples
      received are n for each input plus the buffered ones. */
  ghost predicate Balanced(written: seq<byte>, received: nat, inputs: seq<seq<byte>>, buffer: seq<byte>,
                           samples: int, rawbufSize: nat, n: nat)
  {
    && written == Concat(inputs) + buffer
    && (forall i :: 0 <= i < |inputs| ==> |inputs[i]| == rawbufSize)
    && received == n * |inputs| + samples
  }

  /** The encoder was given all of the bytes but less than a packet. */
  ghost predicate Drained(bytes: seq<byte>, inputs: seq<seq<byte>>, rawbufSize: nat) {
    exists rest: seq<byte> :: |rest| < rawbufSize && bytes == Concat(inputs) + rest
  }

  lemma CutKeepsBalance(written: seq<byte>, received: nat, inputs: seq<seq<byte>>, buffer: seq<byte>,
                        samples: int, rawbufSize: nat, n: nat)
    requires Balanced(written, received, inputs, buffer, samples, rawbufSize, n)
    requires rawbufSize <= |buffer|
    ensures Balanced(written, received, inputs + [buffer[..rawbufSize]], buffer[rawbufSize..], samples - n,
                     rawbufSize, n)
  {
    var raw := buffer[..rawbufSize];
    assert (inputs + [raw])[..|inputs|] == inputs;
    assert buffer == raw + buffer[rawbufSize..];
    assert n * (|inputs| + 1) == n * |inputs| + n;
  }

  lemma {:induction false} ConcatLength(parts: seq<seq<byte>>, n: nat)
    requires forall i :: 0 <= i < |parts| ==> |parts[i]| == n
    ensures |Concat(parts)| == n * |parts|
  {
    if parts != [] {
      ConcatLength(parts[..|parts| - 1], n);
      assert n * |parts| == n * (|parts| - 1) + n;
    }
  }

  /** With whole bytes per sample the macro is linear. */
  lemma StobLinear(samples: nat, q: Quality)
    requires q.channels >= 0 && q.bitsPerSample >= 0 && q.bitsPerSample % 8 == 0
    ensures Stob(samples, q) == samples * (q.channels * (q.bitsPerSample / 8))
  {
    var w := q.bitsPerSample / 8;
    calc {
      samples * q.channels * q.bitsPerSample;
      { assert q.bitsPerSample == w * 8; }
      samples * q.channels * (w * 8);
      (samples * q.channels * w) * 8;
      { assert samples * q.channels * w == samples * (q.channels * w); }
      samples * (q.channels * w) * 8;
    }
  }

  /** When the bytes written are the samples received, the buffer holds less than a packet
      exactly when the encoder was given every full packet: received / 352 of them, and the
      counter of buffered samples is the remainder. */
  lemma EncodedInputsAreQuotient(written: seq<byte>, received: nat, inputs: seq<seq<byte>>, buffer: seq<byte>,
                                 samples: int, rawbufSize: nat, q: Quality)
    requires Balanced(written, received, inputs, buffer, samples, rawbufSize, AIRPLAY_SAMPLES_PER_PACKET)
    requires q.channels > 0 && q.bitsPerSample > 0 && q.bitsPerSample % 8 == 0
    requires rawbufSize == Stob(AIRPLAY_SAMPLES_PER_PACKET, q)
    requires |written| == Stob(received, q)
    ensures |buffer| < rawbufSize <==>
            |inputs| == received / AIRPLAY_SAMPLES_PER_PACKET && samples == received % AIRPLAY_SAMPLES_PER_PACKET
  {
    var n, frame := AIRPLAY_SAMPLES_PER_PACKET, q.channels * (q.bitsPerSample / 8);
    assert frame > 0;
    ConcatLength(inputs, rawbufSize);
    StobLinear(n, q);
    StobLinear(received, q);
    FactorOut(received, n, |inputs|, frame);
    ScaledCompare(samples, n, frame);
  }

  lemma FactorOut(received: int, n: int, k: int, frame: int)
    ensures received * frame - n * frame * k == (received - n * k) * frame
  {
    assert n * frame * k == n * k * frame;
  }

  lemma ScaledCompare(samples: int, n: nat, frame: nat)
    requires frame > 0
    ensures samples * frame < n * frame <==> samples < n
    ensures samples * frame >= 0 ==> samples >= 0
  {
  }

  class MasterSession {
    const quality: Quality
    const encode: Encoder
    const rtp: RtpBuffer.Session
    const rawbufSize: nat
    const samplesPerPacket: nat
    const outputBufferSamples: int
    var inputBuffer: seq<byte>
    var inputBufferSamples: int
    var curStampPos: uint32
    // The encoder's state: all it was given so far.
    var encodeCtx: seq<seq<byte>>

    // Everything the player handed over so far.
    ghost var written: seq<byte>
    ghost var received: nat

    /** The log carries exactly the successful encodings, in order, 352 samples each. */
    ghost predicate PacketsValid()
      reads this, rtp, rtp.pktbuf
    {
      && rtp.Valid() && !rtp.open
      && samplesPerPacket == AIRPLAY_SAMPLES_PER_PACKET
      && Payloads(rtp.stream.log) == Encoded(encode, encodeCtx)
      && (forall i :: 0 <= i < |rtp.stream.log| ==> rtp.stream.log[i].samples == samplesPerPacket)
    }

    ghost predicate Valid()
      reads this, rtp, rtp.pktbuf
    {
      && PacketsValid()
      && quality.channels > 0 && quality.bitsPerSample > 0
      && rawbufSize == Stob(samplesPerPacket, quality)
      && Balanced(written, received, encodeCtx, inputBuffer, inputBufferSamples, rawbufSize, samplesPerPacket)
    }

    /** The RTP time now playing when n samples were received and the encoder was given these
        inputs: the samples of those that failed are missing. */
    ghost function StampFor(n: nat, inputs: seq<seq<byte>>): uint32
      reads this, rtp
    {
      Wrap32(rtp.stream.pos0 + n - samplesPerPacket * Failures(encode, inputs) - outputBufferSamples)
    }

    /** The time that is meant. */
    ghost function Intended(n: nat): uint32
      reads this, rtp
    {
      Wrap32(rtp.stream.pos0 + n - outputBufferSamples)
    }

    /** The stamp left by a write of data, which found the session as given: that of the last
        element picked, for what was received and encoded when its turn came. All that was
        received before it had gone to the encoder, except for less than a packet; or it was the
        first. */
    ghost predicate StampedBy(data: seq<Element>, stamped: seq<seq<byte>>,
                              written0: seq<byte>, received0: nat, inputs0: seq<seq<byte>>, stamp0: uint32)
      reads this, rtp
    {
      match LastPicked(data, quality)
      case None => curStampPos == stamp0
      case Some(l) =>
        && curStampPos == StampFor(received0 + PickedSamples(data[..l], quality), stamped)
        && inputs0 <= stamped <= encodeCtx
        && if LastPicked(data[..l], quality).None? then stamped == inputs0
           else Drained(written0 + PickedBytes(data[..l], quality), stamped, rawbufSize)
    }

    /** master_session_make; the random starting points of rtp_session_new are parameters. */
    constructor (q: Quality, encode: Encoder, ssrc: uint32, pos0: uint32, seq0: uint16)
      requires q.channels > 0 && q.bitsPerSample > 0
      ensures Valid() && fresh(rtp) && fresh(rtp.pktbuf) && rtp.stream.pos0 == pos0
      ensures quality == q && this.encode == encode && written == [] && received == 0 && encodeCtx == []
      ensures rtp.pktbuf.Length == 1000
      ensures outputBufferSamples == OUTPUTS_BUFFER_DURATION * q.sampleRate
    {
      quality, this.encode := q, encode;
      rtp := new RtpBuffer.Session(ssrc, pos0, seq0, AIRPLAY_PACKET_BUFFER_SIZE);
      samplesPerPacket, rawbufSize := AIRPLAY_SAMPLES_PER_PACKET, Stob(AIRPLAY_SAMPLES_PER_PACKET, q);
      outputBufferSamples := OUTPUTS_BUFFER_DURATION * q.sampleRate;
      inputBuffer, inputBufferSamples, curStampPos := [], 0, 0;
      written, received, encodeCtx := [], 0, [];
    }

    /** timestamp_set: the RTP time playing now is the starting point plus everything received,
        less the output buffer, less 352 samples for each failed encoding. So it is the intended
        time exactly when the failures are a multiple of 2^27. */
    method TimestampSet()
      requires Valid()
      modifies this`curStampPos
      ensures Valid() && curStampPos == StampFor(received, encodeCtx)
      ensures curStampPos == Intended(received) <==> Failures(encode, encodeCtx) % 0x800_0000 == 0
    {
      hide RtpBuffer.Session.Valid, Failures;
      Position();
      WrapLess32(rtp.stream.pos0 + received - outputBufferSamples, samplesPerPacket * Failures(encode, encodeCtx));
      LostNothingIff(Failures(encode, encodeCtx));
      curStampPos := Wrap32(rtp.pos + inputBufferSamples - outputBufferSamples);
    }

    /** The RTP position is where the packets committed have got to. */
    lemma Position()
      requires Valid()
      ensures Wrap32(rtp.pos + inputBufferSamples - outputBufferSamples) == StampFor(received, encodeCtx)
    {
      hide RtpBuffer.RingHolds, RtpBuffer.Stamped, Failures, Encoded;
      ghost var log, sent := rtp.stream.log, |rtp.stream.log|;
      UniformSamples(log, samplesPerPacket);
      assert log[..|log|] == log;
      WrapAdd32(rtp.stream.pos0 + RtpBuffer.Samples(log), inputBufferSamples - outputBufferSamples);
      EncodedOrFailed(encode, encodeCtx);
      assert |Payloads(log)| == |log|;
      ghost var failures := Failures(encode, encodeCtx);
      assert samplesPerPacket * |encodeCtx| == samplesPerPacket * |log| + samplesPerPacket * failures;
    }

    /** The loop of packets_send over the device sessions. It leaves the header byte that was
        sent last. */
    static method Deliver(listeners: seq<Listener>) returns (sent: seq<(nat, byte)>, header1: byte)
      ensures sent == Deliveries(listeners)
      ensures forall i: nat, byte1: byte :: Received(sent, i, byte1) ==
                if i < |listeners| && ((listeners[i] == Connected && byte1 == 0xE0)
                                       || (listeners[i] == Streaming && byte1 == 0x60)) then 1 else 0
      ensures header1 == if sent == [] then AIRPLAY_RTP_PAYLOADTYPE else sent[|sent| - 1].1
    {
      sent, header1 := [], AIRPLAY_RTP_PAYLOADTYPE;
      var i := 0;
      while i < |listeners|
        invariant i <= |listeners| && sent == Deliveries(listeners[..i])
        invariant header1 == if sent == [] then AIRPLAY_RTP_PAYLOADTYPE else sent[|sent| - 1].1
      {
        assert listeners[..i + 1][..i] == listeners[..i];
        if listeners[i] == Connected {
          header1 := 0x80 + AIRPLAY_RTP_PAYLOADTYPE;
          sent := sent + [(i, header1)];
        } else if listeners[i] == Streaming {
          header1 := AIRPLAY_RTP_PAYLOADTYPE;
          sent := sent + [(i, header1)];
        }
        i := i + 1;
      }
      assert listeners[..i] == listeners;
      forall k: nat, byte1: byte
        ensures Received(sent, k, byte1) ==
                if k < |listeners| && ((listeners[k] == Connected && byte1 == 0xE0)
                                       || (listeners[k] == Streaming && byte1 == 0x60)) then 1 else 0
      {
        DeliveredOnce(listeners, k, byte1);
      }
    }

    /** packets_send: encodes one packet's worth of audio and, if that succeeds, delivers the
        packet and commits it to the retransmit buffer. */
    method PacketsSend(rawbuf: seq<byte>, listeners: seq<Listener>) returns (sent: seq<(nat, byte)>)
      requires PacketsValid()
      modifies this`encodeCtx, rtp, rtp.pktbuf
      ensures PacketsValid() && encodeCtx == old(encodeCtx) + [rawbuf]
      ensures var n := if encode(encodeCtx).Some? then 1 else 0;
              |rtp.stream.log| == |old(rtp.stream.log)| + n && sent == Repeated(Deliveries(listeners), n)
      ensures rtp.stream.pos0 == old(rtp.stream.pos0)
    {
      hide RtpBuffer.Session.Valid, Deliveries;
      Grow(encode, encodeCtx, rawbuf, rtp.stream.log, RtpBuffer.Entry(0, 0, []));
      sent, encodeCtx := [], encodeCtx + [rawbuf];
      var encoded := encode(encodeCtx);
      if encoded.None? {
        return;
      }
      var pkt := rtp.Next(|encoded.value|, samplesPerPacket, AIRPLAY_RTP_PAYLOADTYPE, false);
      var header1: byte;
      sent, header1 := Deliver(listeners);
      RepeatedOnce(sent);
      rtp.Fill(pkt, header1, encoded.value);
      Grow(encode, old(encodeCtx), rawbuf, rtp.stream.log, RtpBuffer.Entry(samplesPerPacket, header1, encoded.value));
      rtp.Commit(pkt);
    }

    /** The inner loop of airplay_write: as many packets as there is data for. */
    method SendPackets(listeners: seq<Listener>) returns (sent: seq<(nat, byte)>)
      requires Valid()
      modifies this`inputBuffer, this`inputBufferSamples, this`encodeCtx, rtp, rtp.pktbuf
      ensures Valid() && |inputBuffer| < rawbufSize
      ensures old(encodeCtx) <= encodeCtx && rtp.stream.pos0 == old(rtp.stream.pos0)
      ensures |rtp.stream.log| >= |old(rtp.stream.log)|
      ensures sent == Repeated(Deliveries(listeners), |rtp.stream.log| - |old(rtp.stream.log)|)
    {
      hide RtpBuffer.Session.Valid;
      sent := [];
      while |inputBuffer| >= rawbufSize
        invariant Valid() && rtp.stream.pos0 == old(rtp.stream.pos0) && old(encodeCtx) <= encodeCtx
        invariant |rtp.stream.log| >= |old(rtp.stream.log)|
        invariant sent == Repeated(Deliveries(listeners), |rtp.stream.log| - |old(rtp.stream.log)|)
        decreases |inputBuffer|
      {
        ghost var n := |rtp.stream.log|;
        CutKeepsBalance(written, received, encodeCtx, inputBuffer, inputBufferSamples, rawbufSize, samplesPerPacket);
        var rawbuf := inputBuffer[..rawbufSize];
        inputBuffer, inputBufferSamples := inputBuffer[rawbufSize..], inputBufferSamples - samplesPerPacket;
        var s := PacketsSend(rawbuf, listeners);
        RepeatedAdds(Deliveries(listeners), n - |old(rtp.stream.log)|, |rtp.stream.log| - n);
        sent := sent + s;
      }
    }

    /** The work of airplay_write on one element of the session's quality. */
    method Take(e: Element, listeners: seq<Listener>) returns (sent: seq<(nat, byte)>)
      requires Valid()
      modifies this, rtp, rtp.pktbuf
      ensures Valid() && |inputBuffer| < rawbufSize
      ensures written == old(written) + e.buffer && received == old(received) + e.samples
      ensures curStampPos == old(StampFor(received, encodeCtx)) && rtp.stream.pos0 == old(rtp.stream.pos0)
      ensures old(encodeCtx) <= encodeCtx && |rtp.stream.log| >= |old(rtp.stream.log)|
      ensures sent == Repeated(Deliveries(listeners), |rtp.stream.log| - |old(rtp.stream.log)|)
    {
      hide RtpBuffer.Session.Valid;
      TimestampSet();
      inputBuffer, inputBufferSamples := inputBuffer + e.buffer, inputBufferSamples + e.samples;
      written, received := written + e.buffer, received + e.samples;
      sent := SendPackets(listeners);
    }

    /** airplay_write for this session: every element of its quality is taken, in order. With one
        such element the stamp is that of the samples received before the write. */
    method Write(data: seq<Element>, listeners: seq<Listener>)
        returns (sent: seq<(nat, byte)>, ghost stamped: seq<seq<byte>>)
      requires Valid()
      modifies this, rtp, rtp.pktbuf
      ensures Valid()
      ensures written == old(written) + PickedBytes(data, quality)
      ensures received == old(received) + PickedSamples(data, quality)
      ensures LastPicked(data, quality).Some? ==> |inputBuffer| < rawbufSize
      ensures old(encodeCtx) <= encodeCtx && rtp.stream.pos0 == old(rtp.stream.pos0)
      ensures |rtp.stream.log| >= |old(rtp.stream.log)|
      ensures sent == Repeated(Deliveries(listeners), |rtp.stream.log| - |old(rtp.stream.log)|)
      ensures StampedBy(data, stamped, old(written), old(received), old(encodeCtx), old(curStampPos))
    {
      hide RtpBuffer.Session.Valid, Failures, Deliveries, Repeated, PickedBytes, PickedSamples, Stob, StampedBy;
      hide LastPicked, Encoded, Concat, Payloads, Valid, PacketsValid, QualityIsEqual;
      sent, stamped := [], encodeCtx;
      ghost var written0, received0, inputs0, stamp0 := written, received, encodeCtx, curStampPos;
      var i := 0;
      StartOfWrite(data, listeners, stamped, written0, received0, inputs0, stamp0);
      while i < |data|
        invariant i <= |data| && Valid()
        invariant written == written0 + PickedBytes(data[..i], quality)
        invariant received == received0 + PickedSamples(data[..i], quality)
        invariant LastPicked(data[..i], quality).Some? ==> |inputBuffer| < rawbufSize
        invariant LastPicked(data[..i], quality).None? ==> encodeCtx == inputs0
        invariant inputs0 <= encodeCtx && rtp.stream.pos0 == old(rtp.stream.pos0)
        invariant |rtp.stream.log| >= |old(rtp.stream.log)|
        invariant sent == Repeated(Deliveries(listeners), |rtp.stream.log| - |old(rtp.stream.log)|)
        invariant StampedBy(data[..i], stamped, written0, received0, inputs0, stamp0)
      {
        PickedNext(data, i, quality);
        if QualityIsEqual(data[i].quality, quality) {
          ghost var n := |rtp.stream.log|;
          stamped := encodeCtx;
          Before(data[..i], written0);
          var s := Take(data[i], listeners);
          RepeatedAdds(Deliveries(listeners), n - |old(rtp.stream.log)|, |rtp.stream.log| - n);
          sent := sent + s;
          StampTaken(data, i, stamped, written0, received0, inputs0, stamp0);
        } else {
          StampKept(data, i, stamped, written0, received0, inputs0, stamp0);
        }
        i := i + 1;
      }
      assert data[..i] == data;
    }

    lemma StartOfWrite(data: seq<Element>, listeners: seq<Listener>, stamped: seq<seq<byte>>, written0: seq<byte>,
                       received0: nat, inputs0: seq<seq<byte>>, stamp0: uint32)
      requires curStampPos == stamp0
      ensures StampedBy(data[..0], stamped, written0, received0, inputs0, stamp0)
      ensures LastPicked(data[..0], quality).None? && PickedBytes(data[..0], quality) == []
      ensures PickedSamples(data[..0], quality) == 0
      ensures Repeated(Deliveries(listeners), 0) == []
    {
    }

    /** After an element was taken nothing but less than a packet is left. */
    lemma Before(data: seq<Element>, written0: seq<byte>)
      requires Valid() && written == written0 + PickedBytes(data, quality)
      ensures |inputBuffer| < rawbufSize ==> Drained(written0 + PickedBytes(data, quality), encodeCtx, rawbufSize)
    {
    }

    lemma StampTaken(data: seq<Element>, i: nat, stamped: seq<seq<byte>>, written0: seq<byte>, received0: nat,
                     inputs0: seq<seq<byte>>, stamp0: uint32)
      requires i < |data| && QualityIsEqual(data[i].quality, quality)
      requires curStampPos == StampFor(received0 + PickedSamples(data[..i], quality), stamped)
      requires inputs0 <= stamped <= encodeCtx
      requires if LastPicked(data[..i], quality).None? then stamped == inputs0
               else Drained(written0 + PickedBytes(data[..i], quality), stamped, rawbufSize)
      ensures StampedBy(data[..i + 1], stamped, written0, received0, inputs0, stamp0)
    {
      hide Drained, StampFor;
      assert data[..i + 1][..i] == data[..i] && data[..i + 1][i] == data[i];
      assert LastPicked(data[..i + 1], quality) == Some(i);
    }

    lemma StampKept(data: seq<Element>, i: nat, stamped: seq<seq<byte>>, written0: seq<byte>, received0: nat,
                    inputs0: seq<seq<byte>>, stamp0: uint32)
      requires i < |data| && !QualityIsEqual(data[i].quality, quality)
      requires StampedBy(data[..i], stamped, written0, received0, inputs0, stamp0)
      ensures StampedBy(data[..i + 1], stamped, written0, received0, inputs0, stamp0)
    {
      hide Drained, StampFor;
      assert data[..i + 1][..i] == data[..i] && data[..i + 1][i] == data[i];
      var l := LastPicked(data[..i], quality);
      assert LastPicked(data[..i + 1], quality) == l;
      assert l.Some? ==> data[..i + 1][..l.value] == data[..i][..l.value];
    }
  }

  /** What the next element adds. */
  lemma PickedNext(data: seq<Element>, i: nat, q: Quality)
    requires i < |data|
    ensures var picked := QualityIsEqual(data[i].quality, q);
            && PickedBytes(data[..i + 1], q) == PickedBytes(data[..i], q) + (if picked then data[i].buffer else [])
            && PickedSamples(data[..i + 1], q) == PickedSamples(data[..i], q) + (if picked then data[i].samples else 0)
            && LastPicked(data[..i + 1], q) == if picked then Some(i) else LastPicked(data[..i], q)
  {
    assert data[..i + 1][..i] == data[..i] && data[..i + 1][i] == data[i];
  }

  /** One failed encoding is enough: 352 samples were received, the encoder failed on them, and
      what the stamp says is played is 352 samples behind what is meant. */
  method OneFailureShiftsStamp(silence: seq<byte>, pos0: uint32) returns (session: MasterSession)
    requires |silence| == 1408
    ensures session.received == 352 && session.encodeCtx == [silence]
    ensures session.curStampPos == Wrap32(session.Intended(352) - 352) != session.Intended(352)
    ensures session.curStampPos == (pos0 - 88200) % 0x1_0000_0000 && session.rtp.pktbuf.Length == 1000
  {
    var q := Quality(44100, 16, 2, 0);
    session := new MasterSession(q, inputs => None, 0, pos0, 0);
    var data := [Element(q, silence, 352)];
    OneElement(q, silence);
    hide PickedBytes, PickedSamples, LastPicked, RtpBuffer.Session.Valid, Deliveries, Repeated, Encoded, Payloads;
    var sent, stamped := session.Write(data, []);
    ConcatLength(session.encodeCtx, 1408);
    OneInput(session.encodeCtx, session.inputBuffer, silence);
    session.TimestampSet();
    assert session.encodeCtx[..0] == [];
    assert Failures(session.encode, session.encodeCtx) == 1;
    WrapAdd32(session.rtp.stream.pos0 + 352 - session.outputBufferSamples, -352);
  }

  lemma OneElement(q: Quality, bytes: seq<byte>)
    ensures var data := [Element(q, bytes, 352)];
            PickedBytes(data, q) == bytes && PickedSamples(data, q) == 352 && LastPicked(data, q) == Some(0)
  {
    var data := [Element(q, bytes, 352)];
    assert data[..0] == [] && data[..1] == data;
    PickedNext(data, 0, q);
  }

  lemma OneInput(inputs: seq<seq<byte>>, rest: seq<byte>, bytes: seq<byte>)
    requires |bytes| == 1408 && |rest| < 1408 && bytes == Concat(inputs) + rest && |Concat(inputs)| == 1408 * |inputs|
    ensures inputs == [bytes]
  {
    assert |inputs| == 1 && rest == [];
    assert inputs[..0] == [] && Concat(inputs[..0]) == [];
    assert Concat(inputs) == [] + inputs[0] == inputs[0];
    assert bytes == Concat(inputs) + [] == inputs[0];
  }
}
