# An AirPlay 2 sender: protocol machinery and in-place algorithms

This project models the parts of the sender that keep state or transform data: the RTSP client,
the RTP retransmit buffer, the session engine with its startup sequences and its sample timeline,
the rebuilding of MP4 headers, the TLV codec, the SRP-6a client, and the lists, buffers and tables
of `misc.c` and `outputs.c`. Each file holds one module. Where the C code updates something in
place the model is a class or works on an array, and every method is proved against a
specification that is written independently of it.

- `rtp_buffer.dfy`: the ring of packet slots against an unbounded log of all packets ever
  committed; the XOR window test on 16-bit numbers is exact up to 65536 slots and fails beyond.
- `timeline.dfy`: `airplay_write`. The bytes and samples received are exactly those in encoder
  inputs plus those still buffered, and the RTP time now playing is the intended one exactly when
  the number of failed encodings is a multiple of 2^27.
- `rtsp_text.dfy`, `rtsp_parser.dfy`: the incremental response parser. Cutting any bytes into
  reads changes nothing as long as no cut falls inside the run of CR and LF characters behind the
  status line; and exactly then, unless one read makes a failure or a complete response without a
  header of them.
- `rtsp_printer.dfy`: which headers survive printing and parsing (an exact condition), and when
  the added Content-Length gives the body back.
- `rtsp_response.dfy`: status line, whole response, folded headers and request line, each as the
  bytes that spell it against what is read in them.
- `rtsp_connection.dfy`, `rtsp_session.dfy`: the connection state machine with its request queue,
  and the in-flight counter and close callback that the session keeps on top of it.
- `airplay_startup.dfy`: the request tables and response handlers of startup, with a measure that
  every answer decreases, and where each answer leads, by sequence, place and code.
- `mp4.dfy`, `mp4_faststart.dfy`: the stream with seek markers against the random-access file the
  encoder believes in, and the move of the moov atom.
- `tlv.dfy`: printer and parser as inverses on exactly described domains.
- `srp.dfy`: agreement of client and server of RFC 5054 for any group and exponents; the client
  against a server that holds a verifier only and computes its side on its own.
- `keyval.dfy`, `device_list.dfy`: linked lists that are sorted by relinking their nodes.
- `media_quality.dfy`: the audio quality that `timeline.dfy` and `subscriptions.dfy` compare.
- `deferred_callbacks.dfy`, `subscriptions.dfy`, `byte_ring.dfy`, `snreplace.dfy`: the callback
  register, the subscription table, the byte queue, and the in-place replacement.
- `words.dfy`, `search.dfy`: machine words and pattern search, used by the others.

## Findings

Some expectations one might have of the code do not hold as stated; the exact conditions are
proved instead.

- The headers of a response are lost if a read ends inside the CR/LF run behind the status line
  (`RtspParser.FragmentationIff`; `RtspPrinter.CutExample` is an input). A response without headers
  and body, on the other hand, is never complete when it arrives in one read, and is when the read
  ends behind the status line (`RtspParser.HeaderlessResponse`).
- The client reads the salt as a number, so zeros in front of it are lost before it is hashed. With
  the same PIN, B and u not 0, its proof is the one that an honest server of RFC 5054 expects, and
  it accepts the server's, exactly when the salt does not start with a zero; that a proof from such
  a salt differs presumes that the hash tells the two hashed texts apart (`Srp.HonestExchange`;
  `Srp.ZeroSaltRefused` is a run with the salt 0).
- The length buffer of the request printer holds 11 digits, and the body comes back exactly when
  that is enough (`RtspPrinter.MessageRoundTrip`), which is below 10^11 bytes
  (`RtspResponse.LengthFits`).
- `mp4_header_trailer_from_evbuf` returns the growth of the file plus that of the header, which is
  the growth of the file exactly when no segment written to the header runs over the end it has at
  that moment (`Mp4.TotalIsFileGrowthIff`; `Mp4.TotalIsNotFileGrowth` is an input).
- The adjusted chunk offset `off + n` is the place that the chunk moved to exactly when the chunk
  lies behind the free atom and the sum fits 32 bits, or in front of it with n a multiple of 2^32
  (`Mp4FastStart.ShiftFollowsMove`, and for the whole table in the contract of
  `Mp4FastStart.MakeMp4Header`).
- A failed encoding loses 352 samples of RTP time for good; the time is the intended one exactly
  when the failures are a multiple of 2^27 (`Timeline.MasterSession.TimestampSet`;
  `Timeline.OneFailureShiftsStamp` is a run).
- A sequence context is lost, rather than freed, exactly when the session ends while other
  metadata requests are in flight: freeing the connection drops its queue without callbacks
  (`AirplayStartup.Session.OnMetadataAnswer`, `OnDeferredFailure`; `AirplayStartup.LostContext` is
  a run).
- The size that `pair_tlv_format` reports is two bytes short for every empty value
  (`Tlv.ReportedSize`), and the parser gets through a buffer of complete chunks exactly when no
  chunk is empty (`Tlv.TerminatesIffNoEmptyChunk`). On any buffer, it reads inside the buffer only
  exactly when no chunk is cut short before an empty one (`Tlv.ParseInsideIff`), and gets through
  doing so exactly when all chunks are complete and none is empty (`Tlv.GetsThroughIff`).
- When the peer ends the stream in the middle of a response, `evrtsp_connection_done` marks the
  connection idle again. As long as the stream has not ended before, reading dispatches a request
  on an ended stream exactly when the end arrives with a second request queued
  (`RtspConnection.Connection.OnRead`; `RtspConnection.DispatchedTooLate` is a run). Making a
  request does so exactly on an idle connection whose stream has ended and whose close detection
  has not run (`RtspConnection.Connection.MakeRequest`; `RtspConnection.MadeTooLate` is a run).
  No other kind of event does.
- A backend's answer is addressed to a slot of the callback register. It reaches the registration
  it was meant for exactly as long as that has been neither replaced nor called; after that it
  goes to whoever holds the slot, or nowhere (`DeferredCallbacks.AnswerReachesIff`;
  `DeferredCallbacks.LateAnswer` is a run).

## Model

| member | source | states |
|---|---|---|
| `RtpBuffer.Session.constructor` | src/rtp_common.c:67-91 | a new session has an empty log that starts at the random sequence number and position |
| `RtpBuffer.Session.Flush` | src/rtp_common.c:106-111 | forgets what is buffered and keeps the log, the numbers and the position |
| `RtpBuffer.Session.Next` | src/rtp_common.c:115-169 | hands out the next slot with its header stamped: byte by byte, version 2, the number, position and SSRC of the session in network order; changes no other slot, and all but the oldest packet of a full ring stay retrievable |
| `RtpBuffer.Session.Commit` | src/rtp_common.c:171-183 | the log grows by the packet; the ring holds the last pktbuf_len packets of it, also across wrap-around |
| `RtpBuffer.Session.Get` | src/rtp_common.c:185-221 | finds a slot exactly when the number belongs to one of the last pktbuf_len packets, and the slot holds that packet |
| `RtpBuffer.Session.Resend` | src/airplay.c:1948-1975 | for any first number and count: the buffered packets from the first number on up to the newest, then, if the numbers go all the way round, the oldest ones up to the last number; each spells, byte by byte, the number, time, SSRC and payload of its packet |
| `RtpBuffer.WireSpells` | src/rtp_common.c:160-169 | the bytes of packet k: 0x80, marker and type, first number plus k, first position plus the samples before it, SSRC, and the payload from byte 12 on |
| `RtpBuffer.ResentSpells` | src/airplay.c:1948-1975 | whatever is resent is such a packet from among those buffered |
| `RtpBuffer.FindUnique` | src/rtp_common.c:185-221 | the numbers of the last 65536 packets are unambiguous |
| `RtpBuffer.FindByPosition` | src/rtp_common.c:185-221 | a wrapping number is found exactly when the position it stands for is buffered |
| `RtpBuffer.WindowTest` | src/rtp_common.c:199-212 | the XOR test is membership in a wrapping window of 1 to 65536 numbers |
| `RtpBuffer.WindowIsFind` | src/rtp_common.c:199-220 | window test plus 16-bit distance give the same packet as a linear search of the log |
| `RtpBuffer.WindowTestFailsAbove65536` | src/rtp_common.c:199-212 | with 65537 packets the test would accept one number only, so the bound on the size is needed |
| `RtpBuffer.ResentIsBufferedPart` | src/airplay.c:1948-1975 | a run of numbers that meets the buffer once is answered with exactly its buffered part, in order |
| `RtpBuffer.ResentIsTwoParts` | src/airplay.c:1948-1975 | every request of up to 65536 numbers is answered with at most two buffered stretches, in order |
| `RtpBuffer.CommitKeepsRing` | src/rtp_common.c:171-183 | committing turns the open slot into the newest entry and keeps all others in place relative to the log |
| `RtpBuffer.AppendTime` | src/rtp_common.c:171-183 | RTP time advances by the packet's samples modulo 2^32 and earlier times stay |
| `RtpBuffer.RingIndex` | src/rtp_common.c:214-220 | the index arithmetic on the 16-bit distance is the slot that many commits back |
| `Timeline.MasterSession.constructor` | src/airplay.c:1100-1170 | a master session starts with nothing received and nothing encoded |
| `Timeline.MasterSession.TimestampSet` | src/airplay.c:2025-2052 | the RTP time now playing is X + received - 352 * failures - output buffer, and is the documented X + received - output buffer exactly when the failed encodings are a multiple of 2^27 |
| `Timeline.MasterSession.Deliver` | src/airplay.c:1990-2008 | each connected or streaming device of the session gets the packet, the marker bit set for the connected ones |
| `Timeline.DeliveredOnce` | src/airplay.c:1990-2008 | each device gets a packet once at most: with byte 0xE0 when connected, 0x60 when streaming, and not otherwise |
| `Timeline.MasterSession.PacketsSend` | src/airplay.c:1977-2014 | the log holds exactly the successful encodings in order, and a failed one delivers nothing |
| `Timeline.MasterSession.SendPackets` | src/airplay.c:3996-4002 | sends as many packets as there is data for; what stays buffered is less than a packet |
| `Timeline.MasterSession.Take` | src/airplay.c:3982-4002 | one element is stamped with the time before it and then taken whole |
| `Timeline.MasterSession.Write` | src/airplay.c:3970-4004 | every element of the session's quality is taken, in order, and nothing else; conservation of bytes and samples holds after it; the stamp left is that of the samples received before the last such element, with one element before the write |
| `Timeline.CutKeepsBalance` | src/airplay.c:3996-4002 | cutting one packet off the buffer keeps bytes written = encoder inputs + buffer, and samples likewise |
| `Timeline.EncodedInputsAreQuotient` | src/airplay.c:3995-4002 | when bytes match samples, less than a packet is buffered exactly when received / 352 packets were encoded and the counter is the remainder |
| `Timeline.UniformSamples` | src/rtp_common.c:171-183 | the RTP position advances 352 per packet |
| `Timeline.LostNothingIff` | src/airplay.c:1983-1985 | lost samples are nothing modulo 2^32 exactly when the failures are a multiple of 2^27 |
| `Timeline.EncodedOrFailed` | src/airplay.c:1983-1985 | every encoder input became a packet or failed |
| `Timeline.OneFailureShiftsStamp` | src/airplay.c:1977-2052 | a run: one failed encoding leaves the stamp 352 samples behind the intended time |
| `RtspText.ReadLnCrlfMore` | src/evrtsp/rtsp.c:1094-1138 | a header line that was found stays the same when more bytes arrive |
| `RtspText.ReadLnAnyMore` | src/evrtsp/rtsp.c:1181-1203 | so does a status line unless the new bytes go on with its CR/LF run |
| `RtspText.DecimalRoundTrip` | src/evrtsp/rtsp.c:325-345 | printed lengths read back |
| `RtspText.DecimalReads` | src/evrtsp/rtsp.c:908-913 | white space, a sign and whatever follows the digits do not keep a number from being read |
| `RtspText.IgnoreCaseIff` | src/evrtsp/rtsp.c:921-932 | names are compared letter by letter, a capital being its small letter |
| `RtspParser.ParseHeadersMore` | src/evrtsp/rtsp.c:1094-1138 | the header loop, interrupted anywhere and resumed, gives what one pass over all bytes gives |
| `RtspParser.AdvanceHeadersMore` | src/evrtsp/rtsp.c:1205-1237 | the same for headers and body together |
| `RtspParser.TwoReads` | src/evrtsp/rtsp.c:573-655 | from any parser state two reads are as good as one unless they cut the run behind the status line |
| `RtspParser.ManyReads` | src/evrtsp/rtsp.c:573-655 | any number of reads gives status, headers, body and success of a single read, without such a cut |
| `RtspParser.CutLosesHeaders` | src/evrtsp/rtsp.c:1094-1138 | with such a cut the parser finds no header, whatever comes, and until it fails or completes the rest of the run stays in front of it |
| `RtspParser.FragmentationIff` | src/evrtsp/rtsp.c:551-655 | for all bytes of which one read does not make a failure or a complete response without a header: the outcome is that of one read exactly when no cut falls in the run |
| `RtspParser.EolEndsHeaders` | src/evrtsp/rtsp.c:1094-1138 | what is left of the run ends the headers, breaks them or stays, without a header |
| `RtspParser.OneReadFinds` | src/evrtsp/rtsp.c:1181-1203 | a read from the beginning never leaves the rest of the run in front |
| `RtspParser.HeaderlessResponse` | src/evrtsp/rtsp.c:1181-1203 | a response without headers and body never completes in one read but does when cut behind the status line |
| `RtspPrinter.HeadersRoundTrip` | src/evrtsp/rtsp.c:347-363 | surviving headers come back in order and the parser stops behind the empty line |
| `RtspPrinter.HeadersReturnIffSurvive` | src/evrtsp/rtsp.c:976-1138 | accepted headers are parsed back exactly when no key has a colon or a leading blank and no value a line feed or a leading space |
| `RtspPrinter.OnlySurvivorsReturn` | src/evrtsp/rtsp.c:1094-1138 | single-line headers come back unchanged only if all survive |
| `RtspPrinter.ParsedSingleLines` | src/evrtsp/rtsp.c:1071-1138 | parsing never yields a value with a line feed |
| `RtspPrinter.AddedLength` | src/evrtsp/rtsp.c:325-345 | the length added for a body is read as its size exactly when its digits fit |
| `RtspPrinter.CutNumber` | src/evrtsp/rtsp.c:325-345 | a number cut short reads as a smaller one |
| `RtspPrinter.MessageRoundTrip` | src/evrtsp/rtsp.c:325-363 | headers and body are recovered, with the rest of the buffer left alone, exactly when the length fits 11 digits |
| `RtspPrinter.BodilessRoundTrip` | src/evrtsp/rtsp.c:1140-1166 | without a body nothing is added, and an absent length means 0 |
| `RtspPrinter.MakeHeader` | src/evrtsp/rtsp.c:325-363 | prints the request line and every header in order, a length added when a body has none |
| `RtspPrinter.CutExample` | src/evrtsp/rtsp.c:1094-1138 | an input: one read yields a header, two reads that cut the CR/LF run yield none |
| `RtspPrinter.PrintAll` | src/evrtsp/rtsp.c:354-358 | every header is printed, in order |
| `RtspResponse.StatusLineRead` | src/evrtsp/rtsp.c:882-919 | a line that splits at its first two spaces is read as the version, number and reason it spells, or refused with another protocol or the number 0 |
| `RtspResponse.RefusedIff` | src/evrtsp/rtsp.c:882-919 | a status line is refused exactly when it has no space, another protocol, or a number that reads as 0 |
| `RtspResponse.CodeRead` | src/evrtsp/rtsp.c:882-919 | every code from 1 on, printed behind RTSP/1.0 or RTSP/1.1, is read as that very code, with that very reason |
| `RtspResponse.ResponseRead` | src/evrtsp/rtsp.c:1181-1237 | one read of a whole response gives the version, code, reason, headers and body that its bytes spell, and leaves alone what follows |
| `RtspResponse.ContinuationRead` | src/evrtsp/rtsp.c:1071-1112 | a line that starts with a blank goes on with the value before it, blank included |
| `RtspResponse.FoldedHeader` | src/evrtsp/rtsp.c:1071-1138 | a header folded over two lines is read as one whose value is both parts with the blank between |
| `RtspResponse.ValidValueIff` | src/evrtsp/rtsp.c:976-1009 | a value is accepted exactly when each CR or LF in it is followed by another or by a blank |
| `RtspResponse.FindsFirst` | src/evrtsp/rtsp.c:921-932 | the first header of the name is found, and none exactly when there is none |
| `RtspResponse.LengthRead` | src/evrtsp/rtsp.c:1140-1166 | a length counts however its name is spelled; a negative or empty one is illegal, one beyond 64 bits saturates |
| `RtspResponse.LengthFits` | src/evrtsp/rtsp.c:340-342 | a length fits the size buffer exactly below 10^11 |
| `RtspResponse.RequestLineRead` | src/evrtsp/rtsp.c:325-363 | the text of a request up to the first CR LF splits at its first two spaces into method, URI and RTSP/major.minor; headers and body follow |
| `RtspConnection.FifoPop` | src/evrtsp/rtsp.c:424-527 | taking the head out and answering it keeps the order of callbacks equal to the order of requests |
| `RtspConnection.OrderDispatch` | src/evrtsp/rtsp.c:725-752 | dispatching the head keeps dispatches in queue order, each at most once |
| `RtspConnection.Connection.constructor` | src/evrtsp/rtsp.c:1249-1327 | a new connection is disconnected with an empty queue |
| `RtspConnection.Connection.Reset` | src/evrtsp/rtsp.c:755-779 | closes and empties everything; the close callback runs only if it is installed and the connection was up |
| `RtspConnection.Connection.ConnectTo` | src/evrtsp/rtsp.c:1422-1450 | an attempt that starts leaves the connection connecting; one that cannot be started leaves it disconnected and returns -1 |
| `RtspConnection.Connection.Dispatch` | src/evrtsp/rtsp.c:725-752 | the head of the queue is printed and written, once; an empty queue leaves the connection idle; the request goes to an ended stream exactly when the stream has ended |
| `RtspConnection.Connection.Done` | src/evrtsp/rtsp.c:495-527 | the head is answered with what was received and the next request dispatched, or the connection is idle |
| `RtspConnection.Connection.Fail` | src/evrtsp/rtsp.c:424-452 | the head is answered without a response, the rest stays queued in order and a new connection is tried for it |
| `RtspConnection.Connection.MakeRequest` | src/evrtsp/rtsp.c:1458-1498 | the request joins the end of the queue and is dispatched if it is alone on an open connection; -1 is returned exactly when a connection was needed and could not be started; it goes to an ended stream exactly when the idle connection's peer has ended it |
| `RtspConnection.Connection.OnConnect` | src/evrtsp/rtsp.c:814-865 | once connected the head is dispatched; when connecting failed every queued request is answered, in order |
| `RtspConnection.Connection.SignalAll` | src/evrtsp/rtsp.c:852-864 | the drain loop answers each waiting request once, in order, with nothing |
| `RtspConnection.Connection.OnWrite` | src/evrtsp/rtsp.c:454-488 | partial writes leave the rest to be written; a complete one starts reading; a failed one answers the head and tries a new connection for the rest |
| `RtspConnection.Connection.WriteConnectionCb` | src/evrtsp/rtsp.c:657-670 | its assertions hold, and the head turns into the response being read |
| `RtspConnection.Connection.ReadBody` | src/evrtsp/rtsp.c:551-571 | takes exactly the body's bytes and completes the head, or waits |
| `RtspConnection.Connection.TakeBody` | src/evrtsp/rtsp.c:551-571 | exactly the body's bytes are taken off the buffer and handed over |
| `RtspConnection.Connection.GetBody` | src/evrtsp/rtsp.c:1140-1179 | an illegal length fails the request; an absent one means 0 |
| `RtspConnection.Connection.ParseHeaderLines` | src/evrtsp/rtsp.c:1094-1138 | the loop on the buffer computes the header list, status and rest of the specification |
| `RtspConnection.Connection.ReadHeader` | src/evrtsp/rtsp.c:1205-1237 | headers take the connection where the parser specification says |
| `RtspConnection.Connection.ReadFirstline` | src/evrtsp/rtsp.c:1181-1203 | the status line likewise |
| `RtspConnection.Connection.ReadMessage` | src/evrtsp/rtsp.c:573-597 | the illegal-state branch is unreachable, and the outcome is that of the parser specification |
| `RtspConnection.Connection.OnRead` | src/evrtsp/rtsp.c:606-655 | a read event advances the parser by its bytes and answers the head exactly when the response is over; a failure tries a new connection for the rest; the end of the stream answers the head with what there is and dispatches the next one; a request goes to an ended stream exactly when the end arrives with a second request queued |
| `RtspConnection.Connection.OnPeerClose` | src/evrtsp/rtsp.c:781-787 | close detection fires only on an idle connection with an empty queue |
| `RtspConnection.Connection.QueueInvariant` | src/evrtsp/rtsp.c:424-527 | in every reachable state exactly the first requests made were answered, once and in order; the rest wait in order; the head is being served when the state says so, and idle means an empty queue |
| `RtspConnection.DispatchedTooLate` | src/evrtsp/rtsp.c:495-527 | a run: the second of two requests is written to the stream that the peer has ended |
| `RtspConnection.MadeTooLate` | src/evrtsp/rtsp.c:495-527 | a run: a request made before close detection goes to the stream that the peer has ended |
| `RtspConnection.ReadResponse` | src/evrtsp/rtsp.c:573-655 | when the bytes of a response are complete, the callback of the request being served gets the code, reason, headers and body they spell |
| `RtspConnection.Exchange` | src/evrtsp/rtsp.c:495-655 | a run, for every request and every response: made, written, and answered with what the response spells, whatever its code |
| `RtspSession.Session.SendRequest` | src/airplay.c:3520-3582 | sending counts up and removes the close callback |
| `RtspSession.Session.RequestCallback` | src/airplay.c:3451-3461 | each answer counts down once and the close callback returns only at 0 |
| `RtspSession.Session.OnRead` | src/airplay.c:3451-3518 | over a read event the counter stays the length of the queue, whatever the callback sends, and the close callback does not run |
| `RtspSession.Session.OnWrite` | src/airplay.c:3451-3518 | the same for a write event |
| `RtspSession.Session.OnConnected` | src/airplay.c:3520-3582 | the same when the connection comes up |
| `RtspSession.Session.OnPeerClose` | src/airplay.c:1264-1272 | when the close callback runs, no request is outstanding |
| `RtspSession.Session.NoneStranded` | src/airplay.c:3520-3582 | while a request waits, an event is pending that will serve or end it |
| `AirplayStartup.Session.constructor` | src/airplay.c:1506-1574 | startup begins with one context and at most 13 answers to come |
| `AirplayStartup.Session.SequenceStart` | src/airplay.c:3600-3617 | one context is made, and is in flight, or freed with the session failing |
| `AirplayStartup.Session.SequenceContinue` | src/airplay.c:3520-3597 | a request is sent with authentication if there is a realm, or the context freed and the session set to fail |
| `AirplayStartup.Session.Handle` | src/airplay.c:2931-3332 | what each response handler asks for is what the place and the answer call for, and authentication is set up exactly by the first 401 to SETUP |
| `AirplayStartup.RowAt` | src/airplay.c:3385-3449 | which handler stands at each place of the tables, and that four places let negative answers through |
| `AirplayStartup.Session.PairSuccess` | src/airplay.c:1290-1301 | pairing goes on to the sequence waiting for it, or ends the session |
| `AirplayStartup.Session.MetadataStartupSend` | src/airplay.c:1648-1674 | exactly the metadata wanted whose requests can be built and sent is in flight; the session fails later if any could not |
| `AirplayStartup.Session.OnMainAnswer` | src/airplay.c:3451-3518 | where every answer leads, by sequence, place and code: the first 401 to SETUP sends it again with authentication and a second ends the session, 470 to transient pairing asks for a PIN, the flags of /info choose the pairing, any other negative answer ends the session but at the places that proceed, and the last answer starts playback with the metadata; what is still to come gets strictly less, and no context is lost |
| `AirplayStartup.Session.FollowUp` | src/airplay.c:3483-3518 | a verdict ends the session, starts the sequence asked for, or goes on to the next place |
| `AirplayStartup.Session.OnMetadataAnswer` | src/airplay.c:3451-3518 | the same for metadata; without an answer the contexts of the others in flight are lost |
| `AirplayStartup.Session.OnDeferredFailure` | src/airplay.c:1243-1250 | a deferred failure ends the session and loses exactly the metadata contexts in flight |
| `AirplayStartup.Session.Cleanup` | src/airplay.c:1208-1229 | the session's connection goes with what is queued on it |
| `AirplayStartup.Session.StartupInvariant` | src/airplay.c:3364-3617 | in every reachable state at most 10 requests of its own and 3 for metadata were sent, and all contexts are accounted for |
| `AirplayStartup.Startup` | src/airplay.c:3364-3617 | whatever the device answers and whatever fails, startup ends after at most 13 answers with every context freed or lost with the session |
| `AirplayStartup.SmoothStartup` | src/airplay.c:3364-3617 | with transient pairing and nothing but 200, playback starts after exactly 8 requests |
| `AirplayStartup.LostContext` | src/airplay.c:1208-1229 | a run: with two metadata requests in flight, no answer to one loses the context of the other |
| `Mp4.PosRoundTrip` | src/transcode.c:546-562 | a seek position survives being copied into the stream |
| `Mp4.MarkerEndsSegment` | src/transcode.c:1147-1184 | the first marker found is the one that ends the segment, since no part of it can be mistaken for its start |
| `Mp4.NextMarker` | src/transcode.c:1160-1179 | each search splits the stream into segment, position and rest |
| `Mp4.EncodeCtx.Write` | src/transcode.c:994-1004 | the output buffer is the marked stream of what was written so far |
| `Mp4.EncodeCtx.DummySeek` | src/transcode.c:546-562 | a seek writes the eight marker bytes and the position, which starts a new segment; the other kinds leave the stream alone |
| `Mp4.Buffer.CopyToPosition` | src/transcode.c:524-543 | a write of the random-access file, returning its growth, or an error past the end |
| `Mp4.CopySegment` | src/transcode.c:1163-1171 | a segment goes to the header, to the trailer, or is an error |
| `Mp4.HeaderTrailerFromEvbuf` | src/transcode.c:1147-1184 | the loop over the raw bytes replays the segments of the stream |
| `Mp4.ApplyTracksFile` | src/transcode.c:1147-1184 | one segment keeps header and trailer the two ends of the file |
| `Mp4.RebuiltRefinesFile` | src/transcode.c:1147-1184 | header and trailer are prefix and suffix of the file the encoder wrote, the middle untouched, and the total is the growth of file plus header |
| `Mp4.TotalIsFileGrowthIff` | src/transcode.c:1147-1184 | the total returned is the growth of the file exactly when no segment written to the header runs over its end at that moment |
| `Mp4.TotalIsNotFileGrowth` | src/transcode.c:1147-1184 | an input: a header grows by one byte while the file does not grow |
| `Mp4.HeaderGrowsIff` | src/transcode.c:524-543 | the header grows exactly when a segment runs over its end |
| `Mp4.FirstPassIsHeader` | src/transcode.c:1234-1243 | the first pass puts the whole file in the header and returns its size |
| `Mp4FastStart.AdjustMoovStcoOffset` | src/transcode.c:1115-1145 | succeeds exactly when the bytes are some prefix, the first tag "stco" with four zeros, four count bytes, that many entries of four bytes and some suffix; then each entry, as a big-endian number, has grown by the length modulo 2^32, and prefix, tag, count and suffix are as before |
| `Mp4FastStart.TableFound` | src/transcode.c:1126-1131 | the table that the bytes spell is the one that is found and read |
| `Mp4FastStart.AdjustedTable` | src/transcode.c:1132-1142 | what the loop leaves is the same bytes with the entries moved |
| `Mp4FastStart.ShiftOneMore` | src/transcode.c:1132-1142 | writing one entry shifts that one and no other byte |
| `Mp4FastStart.MovedByte` | src/transcode.c:1268-1280 | where each byte of the file is after the trailer moved |
| `Mp4FastStart.ShiftFollowsMove` | src/transcode.c:1115-1145 | a shifted offset is the place its byte moves to exactly when its chunk lies behind the insertion and the sum is below 2^32, or in front of it with a shift that is nothing modulo 2^32 |
| `Mp4FastStart.FastStartKeepsAddresses` | src/transcode.c:1115-1145 | for every entry of the table, as bytes: the byte that the offset addressed in the file is the byte that the adjusted offset addresses in the stream a client gets, for chunks behind the free atom and sums below 2^32 |
| `Mp4FastStart.SpliceTrailer` | src/transcode.c:1268-1280 | the trailer is inserted in front of the free atom, or an error |
| `Mp4FastStart.FreeFound` | src/transcode.c:1268-1275 | the free atom is the first tag "free" with at least four bytes in front of it |
| `Mp4FastStart.SpliceGivesFastStart` | src/transcode.c:1253-1280 | header and shifted trailer of a file form its fast-start header, and all its offsets are as they should be |
| `Mp4FastStart.MoveTrailer` | src/transcode.c:1253-1280 | succeeds exactly with a complete table and a free atom, and then every adjusted offset addresses the byte it addressed before |
| `Mp4FastStart.MakeMp4Header` | src/transcode.c:1194-1304 | from the two raw streams to the fast-start header of the file the encoder meant, with every adjusted chunk offset addressing the byte it addressed before |
| `Tlv.ParseOfFormat` | src/pair_ap/pair-tlv.c:115-207 | parsing undoes formatting on separable lists |
| `Tlv.FormatOfParse` | src/pair_ap/pair-tlv.c:115-207 | formatting undoes parsing on every well-formed buffer, and parsed lists are separable |
| `Tlv.RoundTripIffSeparable` | src/pair_ap/pair-tlv.c:115-207 | a list survives the round trip exactly when it has no empty value and no value that ends on a full chunk before one of its type |
| `Tlv.TerminatesIffNoEmptyChunk` | src/pair_ap/pair-tlv.c:160-207 | on complete chunks the parser gets through exactly when none is empty |
| `Tlv.TurnInsideIff` | src/pair_ap/pair-tlv.c:164-197 | one turn of the parser reads inside the buffer only exactly when the chunks it joins are complete |
| `Tlv.ParseInsideIff` | src/pair_ap/pair-tlv.c:160-207 | the parser stays inside any buffer exactly when no chunk is cut short before an empty one |
| `Tlv.GetsThroughIff` | src/pair_ap/pair-tlv.c:160-207 | it gets to the end of a buffer, inside it, exactly when the buffer is well-formed, which is what parsing is specified on |
| `Tlv.ReportedSize` | src/pair_ap/pair-tlv.c:115-158 | the size reported is exact but for two bytes for every empty value |
| `Tlv.JoinedChunks` | src/pair_ap/pair-tlv.c:165-200 | the chunks of one value are joined to it again, up to where they end |
| `Tlv.ChunksOfJoined` | src/pair_ap/pair-tlv.c:165-200 | what one turn of the parser read is the chunks of the value it yields |
| `Tlv.Values.Add` | src/pair_ap/pair-tlv.c:87-102 | what is formatted grows by the chunks of the value and the reported size with it; a list that survives the round trip goes on doing so exactly when the value is not empty and does not continue a full chunk of its type; lookups of values already there do not change |
| `Tlv.Values.GetValue` | src/pair_ap/pair-tlv.c:104-113 | the first value of a type is found |
| `Tlv.Values.Format` | src/pair_ap/pair-tlv.c:115-158 | writes the formatted list and not one byte more, or reports the size and writes nothing |
| `Tlv.Values.FormatOne` | src/pair_ap/pair-tlv.c:132-155 | writes the chunks of one value behind what is there |
| `Tlv.Values.Parse` | src/pair_ap/pair-tlv.c:160-207 | appends the parsed list |
| `Tlv.Values.ScanRun` | src/pair_ap/pair-tlv.c:169-180 | the first inner loop finds the size of the joined value |
| `Tlv.Values.CopyRun` | src/pair_ap/pair-tlv.c:182-199 | the second inner loop copies it and stops behind the run |
| `Srp.Agreement` | src/pair_ap/pair_fruit.c:366-379 | client and server compute the same secret for any modulus above 1, generator, and exponents |
| `Srp.CongruentPow` | src/pair_ap/pair_fruit.c:366-379 | powers may be taken of remainders |
| `Srp.PowPow` | src/pair_ap/pair_fruit.c:366-379 | a power of a power multiplies the exponents |
| `Srp.BytesRoundTrip` | src/pair_ap/pair_fruit.c:315-337 | a number sent as bytes is read back |
| `Srp.ZerosInFront` | src/pair_ap/pair.c:193-216 | zeros in front of the shortest form are the big-endian form of a fixed length |
| `Srp.CanonicalBytes` | src/pair_ap/pair_fruit.c:346-352 | a byte string survives as a number exactly when it has no leading zero |
| `Srp.NumberShortens` | src/pair_ap/pair_fruit.c:352-352 | going through a number shortens a byte string exactly when it starts with a zero |
| `Srp.ProofsAgreeIff` | src/pair_ap/pair_fruit.c:177-207 | unless the hash collides, the proof over the salt as a number is the proof over the salt as sent exactly when the salt does not start with a zero |
| `Srp.ZeroSaltDiffers` | src/pair_ap/pair_fruit.c:177-207 | an input: with the salt 0 and a hash that tells lengths apart the proofs differ for every group and all keys |
| `Srp.SrpUser.StartAuthentication` | src/pair_ap/pair_fruit.c:315-337 | A is g^a mod N, and the bytes returned read as it |
| `Srp.SrpUser.CalculateX` | src/pair_ap/pair_fruit.c:138-152 | x is the number that the hash of the salt and of the hash of name, colon and PIN spells |
| `Srp.SrpUser.HashPadded` | src/pair_ap/pair.c:193-216 | the hash of the two numbers in the fixed length of the group, as a number |
| `Srp.SrpUser.HashSessionKey` | src/pair_ap/pair_fruit.c:154-175 | the key is the hash of the secret with 0,0,0,0 and that with 0,0,0,1 |
| `Srp.SrpUser.CalculateM` | src/pair_ap/pair_fruit.c:177-207 | the loop builds the proof of the combined group hashes, name, salt, A, B and key |
| `Srp.SrpUser.CalculateHAmk` | src/pair_ap/pair_fruit.c:209-221 | the answer waited for is the hash of A, proof and key |
| `Srp.SrpUser.ProcessChallenge` | src/pair_ap/pair_fruit.c:340-401 | a zero B or u yields no proof; otherwise secret, key, proof and expected answer follow RFC 5054 |
| `Srp.SrpUser.VerifySession` | src/pair_ap/pair_fruit.c:403-408 | authenticated exactly on the expected answer |
| `Srp.ServerFollows` | src/pair_ap/pair_fruit.c:138-221 | k, u, key, proof text and answer, as the server writes them out, are what the client is proved to compute |
| `Srp.SecretOfPower` | src/pair_ap/pair_fruit.c:366-379 | the secret (A * v^u)^b mod N of the server may be taken of the remainder of v^u |
| `Srp.HonestExchange` | src/pair_ap/pair_fruit.c:315-408 | against a server that holds the verifier of the PIN and writes out its own k, u, secret, key and proofs, for every salt, hashed by it as sent: with non-zero B and u, the client has the secret, key and proof of the server and accepts its answer if the salt does not start with a zero, and only then unless the hash collides |
| `Srp.ZeroSaltRefused` | src/pair_ap/pair_fruit.c:315-408 | a run: the exchange with a server whose salt is 0 ends without acceptance |
| `KeyVal.LessTotal` | src/misc.c:1400-1439 | the order of names is strict and total |
| `KeyVal.LessIff` | src/misc.c:1400-1439 | a name is less when it has the smaller character at the first difference, or ends there |
| `KeyVal.LookupByMembers` | src/misc.c:1359-1374 | with names distinct ignoring case, lookup does not depend on the order of the list |
| `KeyVal.LookupAnyCase` | src/misc.c:1359-1374 | names of the same letters find the same value |
| `KeyVal.FoundInAnyCase` | src/misc.c:1258-1374 | a run: what is added under a name is got under the same letters in any case |
| `KeyVal.KeyVal.Get` | src/misc.c:1359-1374 | finds the first value whose name matches ignoring case |
| `KeyVal.KeyVal.AddSize` | src/misc.c:1258-1319 | a new name goes to the end; a known one is accepted with the same value only and changes nothing |
| `KeyVal.KeyVal.Append` | src/misc.c:1300-1319 | linking a node at the end keeps head, tail and links |
| `KeyVal.KeyVal.Remove` | src/misc.c:1327-1357 | unlinks the node of that name; all other lookups stay |
| `KeyVal.KeyVal.Sort` | src/misc.c:1400-1439 | a strictly increasing permutation of the same nodes, with correct head, tail and end, and all lookups unchanged |
| `KeyVal.KeyVal.FindSuccessors` | src/misc.c:1410-1426 | every node gets its successor in name order, and the least node is found |
| `KeyVal.KeyVal.Relink` | src/misc.c:1428-1432 | the successors become the links |
| `KeyVal.KeyVal.Walk` | src/misc.c:1434-1436 | following the successors visits every node, in order, and ends at the tail |
| `KeyVal.WalkStep` | src/misc.c:1434-1436 | each step of the walk reaches a new node of the list |
| `KeyVal.ChainStep` | src/misc.c:1400-1439 | one successor further the chain is still increasing and without gaps |
| `KeyVal.ChainComplete` | src/misc.c:1400-1439 | a chain that ends has reached every node |
| `KeyVal.ChainIsSorted` | src/misc.c:1400-1439 | and then it is the list, with the same lookups |
| `KeyVal.RemovedLookup` | src/misc.c:1327-1357 | taking out the node of a name takes out that name and no other |
| `DeviceList.AfterLaws` | src/outputs.c:445-446 | priority and then name ignoring case is an order |
| `DeviceList.GreaterIff` | src/outputs.c:445-446 | a name comes after another when its letter at the first difference is later in the alphabet, or the other ends there |
| `DeviceList.SortedIff` | src/outputs.c:430-462 | sorted means that priorities never decrease and equal ones have their names in alphabetical order whatever the case |
| `DeviceList.SwapRemovesInversion` | src/outputs.c:430-462 | each swap removes exactly one inversion |
| `DeviceList.SwapIsStable` | src/outputs.c:430-462 | and keeps ties in their order |
| `DeviceList.StableSortUnique` | src/outputs.c:430-462 | sortedness, ties and elements leave only one possible result |
| `DeviceList.Outputs.Sort` | src/outputs.c:430-462 | terminates with priorities never decreasing along the list and names of equal priority in alphabetical order whatever the case; a stable rearrangement of the same nodes |
| `DeviceList.Outputs.Pass` | src/outputs.c:436-459 | a pass without swaps finds the list sorted; any other has fewer inversions after it |
| `DeviceList.Outputs.SwapNodes` | src/outputs.c:448-454 | relinking swaps two neighbours and nothing else |
| `DeviceList.Outputs.Find` | src/outputs.c:767-771 | finds the first device of an id, or none is there |
| `DeviceList.Outputs.Remove` | src/outputs.c:856-896 | unlinks the device if it is in the list and keeps the rest in order |
| `DeviceList.Outputs.Add` | src/outputs.c:760-854 | the list is the stable sort of the old one with the device added, renamed, replaced or ignored, ids unique and order kept |
| `DeviceList.StableKeepsIds` | src/outputs.c:430-462 | sorting keeps the devices and their ids apart |
| `DeferredCallbacks.Outputs.CallbackRemove` | src/outputs.c:143-159 | blanks the slot of the device, and no other |
| `DeferredCallbacks.Outputs.CallbackAdd` | src/outputs.c:161-199 | replaces what the device has registered and takes the lowest slot free then; fails exactly without a callback or with all slots taken for other devices, and then changes nothing |
| `DeferredCallbacks.Outputs.OutputsCb` | src/outputs.c:720-738 | makes the slot ready if it is taken, for the registration that holds it, and sees to it that a pass is pending; an illegal id changes nothing |
| `DeferredCallbacks.Outputs.DeferredCb` | src/outputs.c:201-244 | whatever the callbacks do while they run, each registration that was ready is called in this pass unless replaced, and none twice; what is ready when it ends has another pass pending |
| `DeferredCallbacks.Outputs.MakeCall` | src/outputs.c:211-237 | the callback is the registered one with the reported state, for no device or one that is in the list after departed ones are taken off |
| `DeferredCallbacks.Outputs.Run` | src/outputs.c:213-214 | any registrations, answers and list changes a callback makes keep the register consistent and lose nothing |
| `DeferredCallbacks.MadeKeeps` | src/outputs.c:201-244 | blanking the slot before the call keeps every registration from firing twice |
| `DeferredCallbacks.ClearedKeeps` | src/outputs.c:143-159 | at most one slot for a device, and every registration held, called or replaced |
| `DeferredCallbacks.RegisteredKeeps` | src/outputs.c:161-199 | the same when a slot is filled |
| `DeferredCallbacks.ReportedKeeps` | src/outputs.c:720-738 | the same when a slot becomes ready |
| `DeferredCallbacks.SupersededBy` | src/outputs.c:161-199 | only a later registration for the same device replaces one |
| `DeferredCallbacks.PassCalls` | src/outputs.c:207-237 | calling one slot settles it and leaves those ahead as they were |
| `DeferredCallbacks.PassQuietly` | src/outputs.c:207-237 | what the callback does leaves those ahead as they were, or replaced |
| `DeferredCallbacks.PassEnds` | src/outputs.c:207-237 | everything ready at the start of a pass was called in it, unless replaced |
| `DeferredCallbacks.AnswerReachesIff` | src/outputs.c:720-738 | in any later state an answer reaches the registration it is meant for exactly when that has been neither replaced nor called |
| `DeferredCallbacks.LaterTransitive` | src/outputs.c:143-244 | over any run a registration stays in its slot until it is replaced or called |
| `DeferredCallbacks.LateAnswer` | src/outputs.c:161-199 | a run: a device registers twice, and a late answer for the first makes the second ready |
| `Subscriptions.Outputs.Subscribe` | src/outputs.c:646-682 | one more subscriber of the quality; refused exactly for a sixth distinct quality; every quality keeps its encoder |
| `Subscriptions.Outputs.Unsubscribe` | src/outputs.c:684-715 | one less; with the last subscriber the encoder of that very quality is released, and every other quality keeps its own |
| `Subscriptions.Outputs.EncodingReset` | src/outputs.c:303-318 | every old encoder is released and new ones set up, the subscriptions unchanged |
| `Subscriptions.Outputs.Find` | src/outputs.c:653-662 | the scan ends within the table, at the entry of the quality or the first blank one |
| `Subscriptions.Outputs.Shift` | src/outputs.c:712-714 | closing the gap keeps live entries a prefix and the last one blank |
| `Subscriptions.CountIsExact` | src/outputs.c:105-124 | the count of an entry is the number of its subscribers |
| `Subscriptions.EntriesAreDistinctQualities` | src/outputs.c:105-124 | live entries are as many as distinct qualities wanted |
| `Subscriptions.WantedWithout` | src/outputs.c:712-714 | leaving an entry out takes its subscribers out and no others |
| `Subscriptions.EncodersWithout` | src/outputs.c:710-714 | leaving an entry out takes its encoder out and no other |
| `Subscriptions.ServingWithout` | src/outputs.c:710-714 | closing the gap leaves every other quality its encoder |
| `ByteRing.RingBuffer.constructor` | src/misc.c:1444-1453 | an empty queue |
| `ByteRing.RingBuffer.Write` | src/misc.c:1469-1497 | appends as many bytes as there is room for; bytes exposed by reads and contents are all bytes accepted |
| `ByteRing.RingBuffer.Read` | src/misc.c:1499-1523 | exposes the oldest bytes in place, stopping short only at the end of the buffer, and removes them |
| `ByteRing.RingBuffer.WritePosition` | src/misc.c:1469-1523 | write position = (read position + bytes waiting) mod size, always |
| `ByteRing.RingBuffer.CopyAround` | src/misc.c:1480-1489 | a write that passes the end continues at the front |
| `ByteRing.CircularAppend` | src/misc.c:1469-1497 | bytes copied behind those waiting are appended to the queue |
| `ByteRing.CircularDrop` | src/misc.c:1499-1523 | moving the read position removes from the front |
| `SnReplace.SafeSnReplace` | src/misc.c:872-915 | missing arguments change nothing; otherwise as for the next row |
| `SnReplace.Replace` | src/misc.c:886-914 | returns 0 exactly when the full replacement fits, and then the string is it; otherwise -1 with exactly the replacements that fit done |
| `SnReplace.ReplaceAt` | src/misc.c:893-911 | the overlapping move and the copy replace one occurrence |
| `SnReplace.PartialThenAll` | src/misc.c:890-912 | replacing in what is left of a partly done text gives the whole |
| `SnReplace.TooLongForAll` | src/misc.c:897-899 | a replacement that does not fit means that the full result would not |
| `SnReplace.NeverFailsShrinking` | src/misc.c:872-915 | a replacement no longer than the pattern never makes the string longer, so never fails |

## Left out

- Sockets, event loops, threads, clocks, configuration, logging, the database, device volume, metadata contents, mDNS: input and output, or thin wrappers. What the network, the encoder or a user does is a parameter or an arbitrary choice.
- Hashes, ciphers, ALAC and ffmpeg: arbitrary functions. Responses are modelled as plaintext; the cipher callback appears only as a read that cannot be deciphered.
- libevent buffers are byte or character sequences; the request queue holds records as values, so aliasing between a request and its requester is not modelled.
- `atoi` and length values are read as unbounded numbers (`evutil_strtoll` saturates as in the source); the result of `atoi` on numbers beyond `int` is not modelled.
- RtspConnection.Connection.MakeRequest: a connection attempt that fails at once leaves the request queued, as in the source; RtspSession excludes that case, as it excludes attempts that fail later.
- RtspConnection.Connection.OnConnect: as for RtspConnection.Connection.SignalAll when the attempt failed.
- RtspConnection.Connection.SignalAll: callbacks run from the drain loop are taken not to make requests or free the connection; in the source nothing prevents that.
- Freeing a connection with requests queued is modelled only where a session ends.
- Timeline.MasterSession.Write: one master session; the source repeats this for each in its list. Sync packets and NTP are not modelled.
- AirplayStartup.Startup: one session; the new session that a retry makes is not followed. The answers to requests in flight may come in any order, which includes the order of the queue.
- RtpBuffer.Session.Next: memory is never refused; sizes are unbounded.
- Mp4FastStart.MakeMp4Header: the packets between header and trailer are one stretch of bytes without seeks; only the first stco atom is adjusted, as in the source.
- Tlv.Values.Format: requires room for the two extra bytes of each empty value, since the source checks for less than it writes.
- Tlv.Values.Parse: the list is specified on well-formed buffers only; `Tlv.GetsThroughIff` says that these are the ones that the source gets through without reading outside.
- Srp.HonestExchange: a proof from a salt with leading zeros could still be the expected one if the hash collides; whether a real hash does is not modelled.
- SRP group tables, the pairing state machines around it, and HomeKit pairing; `pair_homekit.c` is not part of this model.
- Subscriptions.Outputs.Subscribe: counts are unbounded.
- Tlv.Values.Add: the list is a sequence; the walk to its tail is not modelled.
- SnReplace.Replace: as for SnReplace.SafeSnReplace.
- SnReplace.SafeSnReplace: an empty pattern with an empty replacement is excluded, because the source loops for ever on it; `sz` is the length of the array.
- ByteRing.RingBuffer.constructor: sizes from 1 to `INT_MAX`; the source keeps a difference of sizes in an `int`.
- DeviceList.Outputs.Add: addresses, passwords, selection and volume of a device are not modelled, only id, type, priority, name and place in the list; a stop started for a removed device is not followed.
- DeferredCallbacks: device addresses are only compared, so reuse of an address after a device was freed looks like the same device, as it does in the source.
- RTSP requests received by the client, trailers and chunked bodies, which the source does not handle either.
- DMAP encoders, the WAV header, hashing helpers and volume arithmetic: each is one straight computation of its arguments, without state, loops that need an invariant, or a counterpart to agree with.
