/** The connection of src/evrtsp/rtsp.c: a state machine driven by events, with a queue of
    requests of which the first is being served. Each event handler of the source is a method;
    what the network does is a parameter. A request's callback is the last thing its handler
    does, so whatever the callback does to the connection comes as later calls. */
module RtspConnection {
  import opened Words
  import opened RtspText
  import opened RtspParser
  import opened RtspPrinter
  import opened RtspResponse

  datatype State =
    | Disconnected | Connecting | Idle
    | ReadingFirstline | ReadingHeadersState | ReadingBodyState | ReadingTrailer | Writing

  /** The handler that the connection's event is pending for. */
  datatype Pending = Nothing | Connect | Write | Read

  datatype Kind = RequestKind | ResponseKind

  /** struct evrtsp_request. The header list in `message` is the one given to the request; that
      printing adds the length to it does not matter, as no request is printed twice. */
  datatype Request = Request(id: nat, message: Message, kind: Kind, status: Option<StatusLine>,
                             inputHeaders: seq<Header>, ntoread: nat, input: string)

  /** What a request's callback is given: no request at all, or one with what was received. */
  datatype Reply = NoResponse | Response(status: Option<StatusLine>, headers: seq<Header>, body: string)

  function ReplyOf(r: Request): Reply { Response(r.status, r.inputHeaders, r.input) }

  datatype ConnectResult = ConnectTimeout | ConnectError | Connected
  datatype WriteResult = WriteTimeout | WriteError | WroteNothing | Wrote(n: nat)
  datatype ReadResult = ReadTimeout | ReadError | ReadAgain | ReadEof | ReadUndecipherable | ReadData(bytes: string)

  /** The queue is what was made and not yet taken out; callbacks come in the same order. */
  ghost predicate FifoSeq(made: seq<nat>, popped: nat, requests: seq<Request>, answered: seq<(nat, Reply)>) {
    && popped <= |made| && |requests| == |made| - popped && |answered| <= popped
    && (forall i :: 0 <= i < |requests| ==> requests[i].id == made[popped + i])
    && (forall i :: 0 <= i < |answered| ==> answered[i].0 == made[i])
  }

  lemma FifoMake(made: seq<nat>, popped: nat, requests: seq<Request>, answered: seq<(nat, Reply)>, req: Request)
    requires FifoSeq(made, popped, requests, answered)
    ensures FifoSeq(made + [req.id], popped, requests + [req], answered)
  {
  }

  lemma FifoPop(made: seq<nat>, popped: nat, requests: seq<Request>, answered: seq<(nat, Reply)>, reply: Reply)
    requires FifoSeq(made, popped, requests, answered) && requests != []
    ensures FifoSeq(made, popped + 1, requests[1..], answered)
    ensures |answered| == popped ==> FifoSeq(made, popped + 1, requests[1..], answered + [(requests[0].id, reply)])
  {
  }

  lemma FifoHead(made: seq<nat>, popped: nat, requests: seq<Request>, answered: seq<(nat, Reply)>, head: Request)
    requires FifoSeq(made, popped, requests, answered) && requests != [] && head.id == requests[0].id
    ensures FifoSeq(made, popped, requests[0 := head], answered) && requests[0 := head][1..] == requests[1..]
  {
  }

  /** Dispatching goes through the queue in order, each request at most once; when one is being
      served it is the head, the request number `popped`. */
  ghost predicate OrderSeq(dispatched: seq<nat>, popped: nat, serving: bool) {
    && (forall i, j :: 0 <= i < j < |dispatched| ==> dispatched[i] < dispatched[j])
    && (forall i :: 0 <= i < |dispatched| ==> dispatched[i] < popped || (serving && dispatched[i] == popped))
    && (serving ==> dispatched != [] && dispatched[|dispatched| - 1] == popped)
  }

  lemma OrderPop(dispatched: seq<nat>, popped: nat, serving: bool)
    requires OrderSeq(dispatched, popped, serving)
    ensures OrderSeq(dispatched, popped + 1, false)
  {
  }

  lemma OrderDispatch(dispatched: seq<nat>, popped: nat)
    requires OrderSeq(dispatched, popped, false)
    ensures OrderSeq(dispatched + [popped], popped, true)
  {
  }

  /** Requests as they were made. */
  predicate Fresh(r: Request) {
    r.kind == RequestKind && r.status.None? && r.inputHeaders == [] && r.input == ""
  }

  ghost predicate FreshSeq(requests: seq<Request>) { forall i :: 0 <= i < |requests| ==> Fresh(requests[i]) }

  lemma FreshMore(requests: seq<Request>, req: Request)
    requires Fresh(req)
    ensures FreshSeq(requests) ==> FreshSeq(requests + [req])
    ensures requests != [] ==> (requests + [req])[1..] == requests[1..] + [req] && (requests + [req])[0] == requests[0]
    ensures requests != [] && FreshSeq(requests[1..]) ==> FreshSeq((requests + [req])[1..])
  {
  }

  lemma FreshParts(requests: seq<Request>)
    requires FreshSeq(requests) && requests != []
    ensures Fresh(requests[0]) && FreshSeq(requests[1..])
  {
  }

  lemma NothingBefore(a: string, b: string)
    requires a == ""
    ensures a + b == b
  {
  }

  ghost predicate LateSeq(late: set<nat>, dispatched: seq<nat>) { forall n :: n in late ==> n in dispatched }

  lemma LateDispatch(late: set<nat>, dispatched: seq<nat>, popped: nat)
    requires LateSeq(late, dispatched)
    ensures LateSeq(late, dispatched + [popped]) && LateSeq(late + {popped}, dispatched + [popped])
  {
  }

  class Connection {
    var state: State
    var requests: seq<Request>
    var fdOpen: bool
    var ev: Pending
    var closeEv: bool
    var closecb: bool
    var inputBuffer: string
    var outputRaw: string

    // The requests made, in order; how many of them left the queue; which were dispatched, by
    // their place in `made`; the callbacks run, in order; how often the close callback ran.
    ghost var made: seq<nat>
    ghost var popped: nat
    ghost var dispatched: seq<nat>
    ghost var answered: seq<(nat, Reply)>
    ghost var closeCalls: nat
    // The peer has ended the stream that is open; and which requests were dispatched on such a
    // stream, by their place in `made`.
    ghost var peerEnded: bool
    ghost var late: set<nat>

    predicate IsConnected()
      reads this`state
    {
      state != Disconnected && state != Connecting
    }

    /** The head of the queue was dispatched and waits for its response. */
    predicate Serving()
      reads this`state
    {
      IsConnected() && state != Idle
    }

    predicate Reading()
      reads this`state
    {
      state == ReadingFirstline || state == ReadingHeadersState || state == ReadingBodyState
    }

    ghost predicate Fifo()
      reads this`made, this`popped, this`requests, this`answered
    {
      FifoSeq(made, popped, requests, answered)
    }

    ghost predicate InOrder()
      reads this`dispatched, this`popped, this`state
    {
      OrderSeq(dispatched, popped, Serving())
    }

    /** Requests that are not being read are as they were made. */
    ghost predicate Untouched()
      reads this`requests, this`state
    {
      if Reading() then requests != [] && FreshSeq(requests[1..]) else FreshSeq(requests)
    }

    /** Late requests were dispatched, and only an open stream has ended. */
    ghost predicate LateOk()
      reads this`late, this`dispatched, this`peerEnded, this`state
    {
      LateSeq(late, dispatched) && (peerEnded ==> IsConnected())
    }

    /** What an event does about late requests: one that is dispatched is late exactly when the
        stream has ended. */
    ghost predicate LateStep(dispatched0: seq<nat>, late0: set<nat>, ended0: bool)
      reads this`late, this`dispatched, this`peerEnded, this`state, this`popped
    {
      && late == (if dispatched != dispatched0 && peerEnded then late0 + {popped} else late0)
      && peerEnded == (IsConnected() && ended0)
    }

    /** How state, queue, socket and close detection go together. */
    ghost predicate Shape()
      reads this`requests, this`state, this`fdOpen, this`closeEv, this`outputRaw
    {
      && state != ReadingTrailer
      && (state == Idle ==> requests == [])
      && (Serving() ==> requests != [])
      && (fdOpen <==> state != Disconnected)
      && (closeEv ==> state == Idle)
      && (state != Writing ==> outputRaw == "")
      && Untouched()
      && (Reading() ==>
            var head := requests[0];
            && head.kind == ResponseKind && head.input == ""
            && if state == ReadingFirstline then head.status.None? && head.inputHeaders == [] else head.status.Some?)
    }

    /** The pending event is the one the state waits for. */
    ghost predicate Waits()
      reads this`ev, this`state
    {
      ev == (match state
             case Connecting => Connect
             case Writing => Write
             case Disconnected => Nothing
             case Idle => Nothing
             case _ => Read)
    }

    ghost predicate Core()
      reads this
    {
      Fifo() && InOrder() && Shape() && LateOk() && |answered| == popped
    }

    ghost predicate Valid()
      reads this
    {
      Core() && Waits()
    }

    /** The parser's view of the response being read. */
    ghost function View(): Reader
      reads this
      requires Shape() && Reading()
    {
      var head := requests[0];
      if state == ReadingFirstline then ReadingFirstLine(inputBuffer)
      else if state == ReadingHeadersState then ReadingHeaders(head.status.value, head.inputHeaders, inputBuffer)
      else ReadingBody(head.status.value, head.inputHeaders, head.ntoread, inputBuffer)
    }

    /** evrtsp_connection_new. */
    constructor ()
      ensures Valid() && state == Disconnected && requests == [] && made == [] && !closecb && closeCalls == 0
      ensures answered == [] && dispatched == [] && popped == 0 && late == {} && !peerEnded && inputBuffer == ""
    {
      state, requests, fdOpen, ev, closeEv, closecb := Disconnected, [], false, Nothing, false, false;
      inputBuffer, outputRaw := "", "";
      made, popped, dispatched, answered, closeCalls := [], 0, [], [], 0;
      peerEnded, late := false, {};
    }

    /** evrtsp_connection_reset. */
    method Reset()
      modifies this`state, this`fdOpen, this`ev, this`inputBuffer, this`outputRaw, this`closeCalls, this`peerEnded
      ensures state == Disconnected && !fdOpen && ev == Nothing && inputBuffer == "" && outputRaw == "" && !peerEnded
      ensures closeCalls == old(closeCalls) + if old(fdOpen && IsConnected() && closecb) then 1 else 0
    {
      ev := Nothing;
      if fdOpen {
        if IsConnected() && closecb {
          closeCalls := closeCalls + 1;
        }
        fdOpen := false;
      }
      state := Disconnected;
      inputBuffer, outputRaw := "", "";
      peerEnded := false;
    }
  
    /** evrtsp_connection_connect; `ok` tells whether the connection attempt could be started. */
    method ConnectTo(ok: bool) returns (ret: int)
      requires Fifo() && InOrder() && Shape() && Waits() && LateOk() && !IsConnected()
      modifies this`state, this`fdOpen, this`ev, this`inputBuffer, this`outputRaw, this`closeCalls, this`peerEnded
      ensures Fifo() && InOrder() && Shape() && Waits() && LateOk() && !IsConnected()
      ensures closeCalls == old(closeCalls)
      ensures if ok || old(state) == Connecting then state == Connecting && ret == 0
              else state == Disconnected && ret == -1
      ensures inputBuffer == if old(state) == Connecting then old(inputBuffer) else ""
    {
      if state == Connecting {
        return 0;
      }
      Reset();
      if !ok {
        return -1;
      }
      fdOpen, ev, state := true, Connect, Connecting;
      ret := 0;
    }

    /** Connected, nothing being served, and requests may be waiting. */
    ghost predicate Free()
      reads this
    {
      && Fifo() && InOrder() && LateOk() && state == Idle && fdOpen && ev == Nothing && outputRaw == ""
      && FreshSeq(requests)
    }

    /** What a free connection is like, and what it takes to be busy. */
    lemma Freely()
      requires Free()
      ensures Fifo() && OrderSeq(dispatched, popped, false) && LateSeq(late, dispatched) && FreshSeq(requests)
      ensures state == Idle && fdOpen && ev == Nothing && outputRaw == ""
    {
    }

    lemma BecomesFree()
      requires Fifo() && OrderSeq(dispatched, popped, false) && LateSeq(late, dispatched) && FreshSeq(requests)
      requires state == Idle && fdOpen && ev == Nothing && outputRaw == ""
      ensures Free()
    {
      hide FifoSeq, OrderSeq, LateSeq, FreshSeq;
    }

    /** Without a stream, whatever waits in the queue. */
    lemma IsDown()
      requires Fifo() && OrderSeq(dispatched, popped, false) && LateSeq(late, dispatched) && FreshSeq(requests)
      requires state == Disconnected && !fdOpen && ev == Nothing && !closeEv && outputRaw == "" && !peerEnded
      ensures Fifo() && InOrder() && Shape() && Waits() && LateOk()
    {
      hide FifoSeq, OrderSeq, LateSeq, FreshSeq;
    }

    lemma Whole()
      requires Fifo() && InOrder() && Shape() && Waits() && LateOk() && |answered| == popped
      ensures Valid()
    {
      hide Fifo, InOrder, Shape, Waits, LateOk;
    }

    lemma StaysIdle()
      requires Free() && requests == []
      ensures Fifo() && InOrder() && Shape() && Waits() && LateOk()
    {
      hide FifoSeq, OrderSeq, LateSeq, FreshSeq, Fresh;
    }

    lemma IsWriting()
      requires Fifo() && OrderSeq(dispatched, popped, true) && LateSeq(late, dispatched) && FreshSeq(requests)
      requires requests != [] && state == Writing && fdOpen && !closeEv && ev == Write
      ensures Fifo() && InOrder() && Shape() && Waits() && LateOk()
    {
      hide FifoSeq, OrderSeq, LateSeq, FreshSeq, Fresh;
    }

    /** evrtsp_request_dispatch: the head of the queue is written. Its assertion holds. */
    method Dispatch()
      requires Free()
      modifies this`state, this`ev, this`closeEv, this`outputRaw, this`dispatched, this`late
      ensures Fifo() && InOrder() && Shape() && Waits() && LateOk()
      ensures if requests == [] then state == Idle && dispatched == old(dispatched)
              else state == Writing && dispatched == old(dispatched) + [popped]
                   && outputRaw == RequestText(requests[0].message)
      ensures late == if requests != [] && peerEnded then old(late) + {popped} else old(late)
    {
      hide *;
      Freely();
      if requests == [] {
        StaysIdle();
        return;
      }
      OrderDispatch(dispatched, popped);
      LateDispatch(late, dispatched, popped);
      closeEv := false;
      assert state == Idle;
      state := Writing;
      var text, _ := MakeHeader(requests[0].message);
      NothingBefore(outputRaw, text);
      outputRaw := outputRaw + text;
      ev := Write;
      dispatched := dispatched + [popped];
      if peerEnded {
        late := late + {popped};
      }
      IsWriting();
    }

    /** evrtsp_connection_done: the head is taken out, the next request dispatched, and then the
        head's callback run. */
    method Done()
      requires Fifo() && OrderSeq(dispatched, popped, true) && |answered| == popped && requests != []
      requires fdOpen && ev == Nothing && !closeEv && LateSeq(late, dispatched)
      requires outputRaw == "" && FreshSeq(requests[1..])
      modifies this`state, this`requests, this`ev, this`closeEv, this`outputRaw, this`popped, this`dispatched
      modifies this`answered, this`late
      ensures Valid() && IsConnected()
      ensures late == if requests != [] && peerEnded then old(late) + {popped} else old(late)
      ensures requests != [] ==> outputRaw == RequestText(requests[0].message)
      ensures requests == old(requests)[1..]
      ensures answered == old(answered) + [(old(requests)[0].id, ReplyOf(old(requests)[0]))]
      ensures dispatched == if requests == [] then old(dispatched) else old(dispatched) + [popped]
      ensures state == if requests == [] then Idle else Writing
    {
      hide FifoSeq, OrderSeq, LateSeq, FreshSeq, Fresh, RequestText, Shape, Waits, LateOk, InOrder, Free, Core, Valid;
      hide ReplyOf;
      var req := requests[0];
      FifoPop(made, popped, requests, answered, ReplyOf(req));
      OrderPop(dispatched, popped, true);
      requests := requests[1..];
      popped := popped + 1;
      state := Idle;
      BecomesFree();
      if requests != [] {
        // The state was just set, so the connection counts as connected.
        assert IsConnected();
        Dispatch();
      } else {
        closeEv := true;
        BecomesFree();
        StaysIdle();
      }
      answered := answered + [(req.id, ReplyOf(req))];
      Whole();
    }

    /** evrtsp_connection_fail: the head is taken out, the connection reset and, for the requests
        that are left, tried again; then the head's callback is run without a request. Its
        assertion is the precondition here. */
    method Fail(ok: bool)
      requires Fifo() && OrderSeq(dispatched, popped, true) && |answered| == popped && requests != [] && !closeEv
      requires FreshSeq(requests[1..]) && LateSeq(late, dispatched)
      modifies this
      ensures Valid() && !IsConnected() && closecb == old(closecb) && made == old(made)
      ensures requests == old(requests)[1..] && answered == old(answered) + [(old(requests)[0].id, NoResponse)]
      ensures dispatched == old(dispatched) && late == old(late) && !peerEnded
      ensures closeCalls == old(closeCalls) + if old(fdOpen && IsConnected() && closecb) then 1 else 0
      ensures state == if ok && requests != [] then Connecting else Disconnected
    {
      hide FifoSeq, OrderSeq, LateSeq, FreshSeq, Fresh, Shape, Waits, LateOk, InOrder, Core, Valid;
      var req := requests[0];
      FifoPop(made, popped, requests, answered, NoResponse);
      OrderPop(dispatched, popped, true);
      requests := requests[1..];
      popped := popped + 1;
      Reset();
      IsDown();
      if requests != [] {
        var _ := ConnectTo(ok);
      }
      answered := answered + [(req.id, NoResponse)];
      Whole();
    }

    /** evrtsp_make_request. A connection attempt that cannot be started leaves the request in
        the queue, and says so. A request made on an idle connection is dispatched at once, even
        when the peer has ended the stream and close detection has not run yet. */
    method MakeRequest(id: nat, message: Message, ok: bool) returns (ret: int)
      requires Valid() && id !in made
      modifies this
      ensures Valid() && made == old(made) + [id] && answered == old(answered) && closecb == old(closecb)
      ensures requests == old(requests) + [Request(id, message, RequestKind, None, [], 0, "")]
      ensures closeCalls == old(closeCalls)
      ensures ret == if !ok && old(state) == Disconnected then -1 else 0
      ensures ret == -1 <==> state == Disconnected
      ensures dispatched == if old(state) == Idle then old(dispatched) + [popped] else old(dispatched)
      ensures state == if old(state) == Idle then Writing else if old(IsConnected()) then old(state) else state
      ensures !old(IsConnected()) && ret == 0 ==> state == Connecting
      ensures LateStep(old(dispatched), old(late), old(peerEnded)) && popped == old(popped)
      ensures late != old(late) <==> old(state == Idle && peerEnded)
      ensures if old(state) == Disconnected then inputBuffer == "" else inputBuffer == old(inputBuffer)
    {
      hide FifoSeq, OrderSeq, LateSeq, FreshSeq, Fresh, RequestText;
      NotLateYet();
      var req := Request(id, message, RequestKind, None, [], 0, "");
      FifoMake(made, popped, requests, answered, req);
      FreshMore(requests, req);
      IdsFresh(id);
      requests, made := requests + [req], made + [id];
      if !IsConnected() {
        ret := ConnectTo(ok);
        return;
      }
      if requests[0] == req {
        Dispatch();
      }
      ret := 0;
    }
  
    lemma IdsFresh(id: nat)
      requires Fifo() && id !in made
      ensures forall i :: 0 <= i < |requests| ==> requests[i].id != id
    {
      assert forall i :: 0 <= i < |requests| ==> requests[i].id in made;
    }
  
    // ----- Events -----

    /** evrtsp_connectioncb: the connection attempt ended. On failure the whole queue is answered
        with requests that carry nothing; callbacks are taken not to make requests here. */
    method OnConnect(result: ConnectResult)
      requires Valid() && ev == Connect
      modifies this
      ensures Valid() && made == old(made) && closecb == old(closecb) && closeCalls == old(closeCalls)
      ensures old(answered) <= answered && late == old(late) && !peerEnded
      ensures if result == Connected then
                answered == old(answered) && requests == old(requests)
                && state == (if requests == [] then Idle else Writing) && popped == old(popped)
                && (requests != [] ==> outputRaw == RequestText(requests[0].message)) && inputBuffer == old(inputBuffer)
              else
                requests == [] && state == Disconnected && |answered| == |made| && dispatched == old(dispatched)
                && (forall i :: |old(answered)| <= i < |answered| ==> answered[i].1 == Response(None, [], ""))
    {
      hide FifoSeq, OrderSeq, LateSeq, FreshSeq, Fresh;
      ev := Nothing;
      if result == Connected {
        state := Idle;
        Dispatch();
        return;
      }
      Reset();
      SignalAll();
    }

    /** The end of evrtsp_connectioncb when the attempt failed. */
    method SignalAll()
      requires Valid() && state == Disconnected
      modifies this`requests, this`popped, this`answered
      ensures Valid() && requests == [] && |answered| == |made| && old(answered) <= answered
      ensures forall i :: |old(answered)| <= i < |answered| ==> answered[i].1 == Response(None, [], "")
    {
      hide FifoSeq, OrderSeq, LateSeq, FreshSeq, Fresh;
      while requests != []
        invariant Valid() && old(answered) <= answered
        invariant forall i :: |old(answered)| <= i < |answered| ==> answered[i].1 == Response(None, [], "")
        decreases |requests|
      {
        var request := requests[0];
        FreshParts(requests);
        FifoPop(made, popped, requests, answered, ReplyOf(request));
        OrderPop(dispatched, popped, false);
        requests := requests[1..];
        popped := popped + 1;
        answered := answered + [(request.id, ReplyOf(request))];
      }
      AllAnswered();
    }

    lemma AllAnswered()
      requires Valid()
      ensures |answered| + |requests| == |made|
    {
    }

    /** evrtsp_write, and evrtsp_write_connectioncb once everything is written. */
    method OnWrite(result: WriteResult, ok: bool)
      requires Valid() && ev == Write
      requires result.Wrote? ==> 0 < result.n <= |outputRaw|
      modifies this
      ensures Valid() && made == old(made) && closecb == old(closecb)
      ensures !old(closecb) ==> closeCalls == old(closeCalls)
      ensures Tried(ok)
      ensures late == old(late) && dispatched == old(dispatched)
      ensures result.Wrote? ==> peerEnded == old(peerEnded) && popped == old(popped)
      ensures if result.Wrote? then
                answered == old(answered) && dispatched == old(dispatched) && |requests| == |old(requests)|
                && requests[0].id == old(requests)[0].id && requests[1..] == old(requests)[1..]
                && closeCalls == old(closeCalls) && inputBuffer == old(inputBuffer)
                && if result.n < |old(outputRaw)| then state == Writing && outputRaw == old(outputRaw)[result.n..]
                   else state == ReadingFirstline
              else requests == old(requests)[1..] && answered == old(answered) + [(old(requests)[0].id, NoResponse)]
    {
      hide FifoSeq, OrderSeq, LateSeq, FreshSeq, Fresh;
      ev := Nothing;
      FreshParts(requests);
      if !result.Wrote? {
        Fail(ok);
        return;
      }
      outputRaw := outputRaw[result.n..];
      if outputRaw != "" {
        ev := Write;
        return;
      }
      WriteConnectionCb();
    }

    /** evrtsp_write_connectioncb, with its assertions, and evrtsp_start_read. */
    method WriteConnectionCb()
      requires Core() && state == Writing && outputRaw == ""
      modifies this`state, this`requests, this`ev
      ensures Valid() && state == ReadingFirstline
      ensures requests == old(requests)[0 := old(requests)[0].(kind := ResponseKind)]
    {
      hide FifoSeq, OrderSeq, LateSeq, FreshSeq, Fresh;
      assert requests != [];
      assert state == Writing;
      FreshParts(requests);
      FifoHead(made, popped, requests, answered, requests[0].(kind := ResponseKind));
      requests := requests[0 := requests[0].(kind := ResponseKind)];
      ev := Read;
      state := ReadingFirstline;
    }

    /** A connection that went down is tried again for the requests that are left, if that can be
        started. */
    ghost predicate Tried(ok: bool)
      reads this`state, this`requests
    {
      !IsConnected() ==> state == if ok && requests != [] then Connecting else Disconnected
    }

    /** The connection has read up to `target`, from a queue `queue` and answers `before`. */
    ghost predicate Reached(target: Reader, queue: seq<Request>, before: seq<(nat, Reply)>)
      reads this
      requires queue != []
    {
      match target
      case Failed => requests == queue[1..] && answered == before + [(queue[0].id, NoResponse)] && !IsConnected()
      case Complete(status, headers, body, left) =>
        && requests == queue[1..] && answered == before + [(queue[0].id, Response(Some(status), headers, body))]
        && inputBuffer == left && IsConnected()
      case _ =>
        && Shape() && Reading() && View() == target && answered == before
        && requests[0].id == queue[0].id && requests[1..] == queue[1..]
    }

    /** What the methods that read share: they start with no event pending, and end up where the
        parser gets with the bytes there are. */
    ghost predicate ReadyToRead(at: State)
      reads this
    {
      Core() && state == at && Reading() && ev == Nothing
    }

    /** evrtsp_read_body. */
    method ReadBody(ok: bool)
      requires ReadyToRead(ReadingBodyState)
      modifies this
      ensures Valid()
      ensures Reached(AdvanceBody(old(requests[0].status.value), old(requests[0].inputHeaders),
                                  old(requests[0].ntoread), old(inputBuffer)),
                                 old(requests), old(answered))
      ensures made == old(made) && closecb == old(closecb) && (!old(closecb) ==> closeCalls == old(closeCalls))
      ensures Tried(ok)
      ensures LateStep(old(dispatched), old(late), old(peerEnded))
    {
      hide FifoSeq, OrderSeq, LateSeq, FreshSeq, Fresh;
      if |inputBuffer| >= requests[0].ntoread {
        TakeBody();
        return;
      }
      ev := Read;
    }

    /** The body is all there. */
    method TakeBody()
      requires ReadyToRead(ReadingBodyState) && |inputBuffer| >= requests[0].ntoread
      modifies this`state, this`requests, this`ev, this`closeEv, this`inputBuffer, this`outputRaw
      modifies this`popped, this`dispatched, this`answered, this`late
      ensures Valid() && IsConnected() && requests == old(requests)[1..]
      ensures var head := old(requests)[0];
              && var body := old(inputBuffer)[..head.ntoread];
              && answered == old(answered) + [(head.id, Response(head.status, head.inputHeaders, body))]
              && inputBuffer == old(inputBuffer)[head.ntoread..]
      ensures LateStep(old(dispatched), old(late), old(peerEnded))
    {
      WhileReading();
      hide FifoSeq, OrderSeq, LateSeq, FreshSeq, Fresh, RequestText, Shape, Valid, Core, ReadyToRead;
      var head := requests[0];
      var body := inputBuffer[..head.ntoread];
      assert head.input + body == body;
      var done := head.(input := head.input + body, ntoread := 0);
      FifoHead(made, popped, requests, answered, done);
      requests := requests[0 := done];
      inputBuffer := inputBuffer[head.ntoread..];
      Done();
    }

    lemma WhileReading()
      requires ReadyToRead(state)
      ensures requests != [] && Fifo() && OrderSeq(dispatched, popped, true)
      ensures LateSeq(late, dispatched) && |answered| == popped
      ensures FreshSeq(requests[1..]) && requests[0].input == ""
      ensures outputRaw == "" && !closeEv && fdOpen && ev == Nothing
      ensures peerEnded ==> IsConnected()
    {
    }

    /** evrtsp_get_body, with evrtsp_get_body_length. */
    method GetBody(ok: bool)
      requires ReadyToRead(ReadingHeadersState)
      modifies this
      ensures Valid() && Reached(match BodyLength(old(requests[0].inputHeaders))
                                 case None => Failed
                                 case Some(n) => AdvanceBody(old(requests[0].status.value),
                                                             old(requests[0].inputHeaders), n, old(inputBuffer)),
                                 old(requests), old(answered))
      ensures made == old(made) && closecb == old(closecb) && (!old(closecb) ==> closeCalls == old(closeCalls))
      ensures Tried(ok)
      ensures LateStep(old(dispatched), old(late), old(peerEnded))
    {
      hide FifoSeq, OrderSeq, LateSeq, FreshSeq, Fresh, BodyLength;
      state := ReadingBodyState;
      var length := BodyLength(requests[0].inputHeaders);
      if length.None? {
        Fail(ok);
        return;
      }
      var head := requests[0].(ntoread := length.value);
      FifoHead(made, popped, requests, answered, head);
      requests := requests[0 := head];
      ReadBody(ok);
    }

    /** evrtsp_parse_headers. */
    method ParseHeaderLines() returns (status: ReadStatus)
      requires Core() && state == ReadingHeadersState
      modifies this`requests, this`inputBuffer
      ensures Core()
      ensures var (st, headers, rest) := ParseHeaders(old(requests[0].inputHeaders), old(inputBuffer));
              && status == st && inputBuffer == rest
              && requests == old(requests)[0 := old(requests)[0].(inputHeaders := headers)]
    {
      hide FifoSeq, OrderSeq, LateSeq, FreshSeq, Fresh, ReadLnCrlf, CStr, ParseHeaderLine;
      ghost var goal := ParseHeaders(requests[0].inputHeaders, inputBuffer);
      while true
        invariant Core() && ParseHeaders(requests[0].inputHeaders, inputBuffer) == goal
        invariant requests == old(requests)[0 := old(requests)[0].(inputHeaders := requests[0].inputHeaders)]
        decreases |inputBuffer|
      {
        var next := ReadLnCrlf(inputBuffer);
        if next.None? {
          return MoreDataExpected;
        }
        var line := CStr(next.value.0);
        inputBuffer := next.value.1;
        if line == "" {
          return AllDataRead;
        }
        var headers := ParseHeaderLine(requests[0].inputHeaders, line);
        if headers.None? {
          return DataCorrupted;
        }
        FifoHead(made, popped, requests, answered, requests[0].(inputHeaders := headers.value));
        requests := requests[0 := requests[0].(inputHeaders := headers.value)];
      }
    }

    /** evrtsp_read_header. */
    method ReadHeader(ok: bool)
      requires ReadyToRead(ReadingHeadersState)
      modifies this
      ensures Valid()
      ensures Reached(AdvanceHeaders(old(requests[0].status.value), old(requests[0].inputHeaders), old(inputBuffer)),
                                 old(requests), old(answered))
      ensures made == old(made) && closecb == old(closecb) && (!old(closecb) ==> closeCalls == old(closeCalls))
      ensures Tried(ok)
      ensures LateStep(old(dispatched), old(late), old(peerEnded))
    {
      hide FifoSeq, OrderSeq, LateSeq, FreshSeq, Fresh, BodyLength, ParseHeaders;
      var status := ParseHeaderLines();
      if status == DataCorrupted {
        Fail(ok);
      } else if status == MoreDataExpected {
        ev := Read;
      } else {
        assert requests[0].kind == ResponseKind;
        GetBody(ok);
      }
    }

    /** evrtsp_read_firstline, with evrtsp_parse_firstline. */
    method ReadFirstline(ok: bool)
      requires ReadyToRead(ReadingFirstline)
      modifies this
      ensures Valid() && Reached(AdvanceFirstLine(old(inputBuffer)), old(requests), old(answered))
      ensures made == old(made) && closecb == old(closecb) && (!old(closecb) ==> closeCalls == old(closeCalls))
      ensures Tried(ok)
      ensures LateStep(old(dispatched), old(late), old(peerEnded))
    {
      hide FifoSeq, OrderSeq, LateSeq, FreshSeq, Fresh, ReadLnAny, CStr, ParseResponseLine, AdvanceHeaders;
      var line := ReadLnAny(inputBuffer);
      if line.None? {
        ev := Read;
        return;
      }
      inputBuffer := line.value.1;
      assert requests[0].kind == ResponseKind;
      var status := ParseResponseLine(CStr(line.value.0));
      if status.None? {
        Fail(ok);
        return;
      }
      var head := requests[0].(status := status);
      FifoHead(made, popped, requests, answered, head);
      requests := requests[0 := head];
      state := ReadingHeadersState;
      ReadHeader(ok);
    }

    /** evrtsp_read_message: the illegal-state branch cannot be reached. */
    method ReadMessage(ok: bool)
      requires ReadyToRead(state)
      modifies this
      ensures Valid() && Reached(Advance(old(View())), old(requests), old(answered))
      ensures made == old(made) && closecb == old(closecb) && (!old(closecb) ==> closeCalls == old(closeCalls))
      ensures Tried(ok)
      ensures LateStep(old(dispatched), old(late), old(peerEnded))
    {
      hide FifoSeq, OrderSeq, LateSeq, FreshSeq, Fresh, AdvanceFirstLine, AdvanceHeaders, AdvanceBody, Shape, Reached;
      match state
      case ReadingFirstline => ReadFirstline(ok);
      case ReadingHeadersState => ReadHeader(ok);
      case ReadingBodyState => ReadBody(ok);
    }
  
    /** evrtsp_read: one read event. Data takes the response as far as the parser gets with it;
        it is answered when the parser is through, and without a response when it fails. The end
        of the stream answers it with what there is so far. */
    method OnRead(result: ReadResult, ok: bool)
      requires Valid() && ev == Read
      modifies this
      ensures Valid() && made == old(made) && closecb == old(closecb)
      ensures (!old(closecb) ==> closeCalls == old(closeCalls))
      ensures Tried(ok)
      ensures match result
              case ReadData(bytes) => Reached(Feed(old(View()), bytes), old(requests), old(answered))
              case ReadAgain => Reached(old(View()), old(requests), old(answered))
              case ReadEof =>
                && requests == old(requests)[1..]
                && answered == old(answered) + [(old(requests)[0].id, ReplyOf(old(requests)[0]))]
                && peerEnded && state == (if requests == [] then Idle else Writing)
                && dispatched == (if requests == [] then old(dispatched) else old(dispatched) + [popped])
                && (requests != [] ==> outputRaw == RequestText(requests[0].message))
              case _ => Reached(Failed, old(requests), old(answered))
      ensures LateStep(old(dispatched), old(late), old(peerEnded) || result == ReadEof)
      ensures !old(peerEnded) ==> (late != old(late) <==> result == ReadEof && |old(requests)| > 1)
    {
      hide FifoSeq, OrderSeq, LateSeq, FreshSeq, Fresh, Advance, ReplyOf, RequestText, WithLength;
      NotLateYet();
      ev := Nothing;
      match result
      case ReadTimeout => Fail(ok);
      case ReadError => Fail(ok);
      case ReadAgain => ev := Read;
      case ReadEof =>
        // evrtsp_connection_done overrides this
        peerEnded := true;
        state := Disconnected;
        Done();
      case ReadUndecipherable => Fail(ok);
      case ReadData(bytes) =>
        inputBuffer := inputBuffer + bytes;
        ReadMessage(ok);
    }

    /** What comes next in the queue has not been dispatched. */
    lemma NotLateYet()
      requires InOrder() && LateOk()
      ensures popped + 1 !in late && (!Serving() ==> popped !in late)
    {
    }

    /** evrtsp_detect_close_cb: the peer closed an idle connection. */
    method OnPeerClose()
      requires Valid() && closeEv
      modifies this
      ensures Valid() && state == Disconnected && requests == [] == old(requests)
      ensures made == old(made) && closecb == old(closecb) && answered == old(answered)
      ensures closeCalls == old(closeCalls) + if closecb then 1 else 0
      ensures late == old(late) && !peerEnded
    {
      closeEv := false;
      Reset();
    }

    /** evrtsp_connection_set_closecb. */
    method SetCloseCb(install: bool)
      requires Valid()
      modifies this`closecb
      ensures Valid() && closecb == install
    {
      closecb := install;
    }

    lemma WaitsFor()
      requires Valid()
      ensures ev == (match state
                     case Connecting => Connect
                     case Writing => Write
                     case Disconnected => Nothing
                     case Idle => Nothing
                     case _ => Read)
      ensures closeEv ==> state == Idle
    {
    }

    lemma WaitsForAnswer()
      requires Valid() && state == ReadingFirstline
      ensures ev == Read && requests != [] && Shape() && Reading() && View() == ReadingFirstLine(inputBuffer)
    {
      hide FifoSeq, OrderSeq, LateSeq, FreshSeq, Fresh;
    }

    /** What every reachable state promises: exactly the first |answered| requests made had their
        callback run, once each and in order; the rest wait in the queue, in order. Each request
        was dispatched at most once, in order, and the one being served is the head. */
    lemma QueueInvariant()
      requires Valid()
      ensures popped == |answered|
      ensures forall n :: n in late ==> n in dispatched
      ensures |made| == |answered| + |requests|
      ensures forall i :: 0 <= i < |answered| ==> answered[i].0 == made[i]
      ensures forall i :: 0 <= i < |requests| ==> requests[i].id == made[|answered| + i]
      ensures forall i, j :: 0 <= i < j < |dispatched| ==> dispatched[i] < dispatched[j]
      ensures Serving() ==> requests != [] && |answered| in dispatched
      ensures !Serving() ==> forall i :: 0 <= i < |dispatched| ==> dispatched[i] < |answered|
      ensures state == Idle ==> requests == []
    {
    }
  }

  /** A request that goes to a stream the peer has ended: two are made, the first is written, and
      instead of an answer comes the end of the stream. */
  method DispatchedTooLate(first: Message, second: Message) returns (c: Connection)
    ensures c.Valid() && c.peerEnded && c.late == {1} && c.state == Writing
    ensures |c.requests| == 1 && c.requests[0].message == second && c.outputRaw == RequestText(second)
  {
    hide Connection.Valid, Connection.Reached, RequestText, Feed;
    c := new Connection();
    var _ := c.MakeRequest(0, first, true);
    c.WaitsFor();
    var _ := c.MakeRequest(1, second, true);
    c.WaitsFor();
    c.OnConnect(Connected);
    c.WaitsFor();
    NotEmpty(first);
    c.OnWrite(Wrote(|c.outputRaw|), true);
    c.WaitsFor();
    c.OnRead(ReadEof, true);
    c.QueueInvariant();
  }

  lemma NotEmpty(m: Message)
    ensures RequestText(m) != ""
  {
    hide PrintMessage, PrintDecimal;
  }

  /** The other way there: the only request is ended by the end of the stream, and another is made
      before close detection runs. */
  method MadeTooLate(first: Message, second: Message) returns (c: Connection)
    ensures c.Valid() && c.peerEnded && c.late == {1} && c.state == Writing && c.closeEv == false
  {
    hide Connection.Valid, Connection.Reached, RequestText, Feed;
    c := new Connection();
    var _ := c.MakeRequest(0, first, true);
    c.WaitsFor();
    c.OnConnect(Connected);
    c.WaitsFor();
    NotEmpty(first);
    c.OnWrite(Wrote(|c.outputRaw|), true);
    c.WaitsFor();
    c.OnRead(ReadEof, true);
    c.QueueInvariant();
    var _ := c.MakeRequest(1, second, true);
    c.QueueInvariant();
    c.WaitsFor();
  }

  /** A response, or the rest of one, arrives for the request being served: its callback gets the
      code, the reason, the headers and the body that the bytes spell. */
  method ReadResponse(c: Connection, bytes: string, minor: nat, code: nat, reason: string,
                      headers: seq<Header>, body: string, rest: string, ok: bool)
    requires c.Valid() && c.state == ReadingFirstline
    requires minor <= 1 && code >= 1 && OnOneLine(reason) && Sendable(headers, body)
    requires var line := (if minor == 0 then "RTSP/1.0 " else "RTSP/1.1 ") + PrintDecimal(code) + " " + reason;
             c.inputBuffer + bytes == line + "\r\n" + PrintMessage(headers, body) + rest
    modifies c
    ensures c.Valid() && c.IsConnected() && c.requests == old(c.requests)[1..] && c.inputBuffer == rest
    ensures var status := StatusLine(1, minor, code, reason);
            c.answered == old(c.answered)
              + [(old(c.requests)[0].id, Response(Some(status), WithLength(headers, body), body))]
  {
    hide Connection.Valid, Connection.Core, Feed, WithLength, PrintMessage, PrintDecimal, Sendable;
    c.WaitsForAnswer();
    ResponseRead(minor, code, reason, headers, body, rest);
    FedRest(c.inputBuffer, bytes);
    c.OnRead(ReadData(bytes), ok);
  }

  lemma FedRest(before: string, bytes: string)
    ensures Feed(ReadingFirstLine(before), bytes) == Feed(START, before + bytes)
  {
    hide AdvanceFirstLine;
    assert "" + (before + bytes) == before + bytes;
  }

  /** A whole exchange: a request is made and written, and every response to it is heard as it
      was sent, whatever its code. */
  method Exchange(m: Message, minor: nat, code: nat, reason: string, headers: seq<Header>, body: string)
    returns (c: Connection)
    requires minor <= 1 && code >= 1 && OnOneLine(reason) && Sendable(headers, body)
    ensures c.Valid() && c.requests == []
    ensures c.answered == [(0, Response(Some(StatusLine(1, minor, code, reason)), WithLength(headers, body), body))]
  {
    hide Connection.Valid, RequestText, WithLength, PrintMessage, PrintDecimal, Sendable;
    c := new Connection();
    var _ := c.MakeRequest(0, m, true);
    c.WaitsFor();
    c.OnConnect(Connected);
    c.WaitsFor();
    NotEmpty(m);
    c.OnWrite(Wrote(|c.outputRaw|), true);
    var line := (if minor == 0 then "RTSP/1.0 " else "RTSP/1.1 ") + PrintDecimal(code) + " " + reason;
    var bytes := line + "\r\n" + PrintMessage(headers, body) + "";
    assert "" + bytes == bytes;
    ReadResponse(c, bytes, minor, code, reason, headers, body, "", true);
  }
}
