/** The in-flight protocol of src/airplay.c on top of the connection: a session counts the
    requests it has outstanding and has the close callback installed only while there are none.
    Connection attempts are taken to start (`ok` of RtspConnection is true). */
module RtspSession {
  import opened RtspConnection
  import opened RtspPrinter

  class Session {
    const ctrl: Connection
    var reqsInFlight: int
    var cseq: nat

    /** Request numbers are used once. */
    ghost predicate Numbered()
      reads this`cseq, ctrl
    {
      forall i :: 0 <= i < |ctrl.made| ==> ctrl.made[i] < cseq
    }

    /** Between events: the counter is the length of the queue, a close callback means that nothing
        is outstanding, and without a connection nothing waits for one. */
    ghost predicate Valid()
      reads this, ctrl
    {
      && ctrl.Valid() && Numbered()
      && reqsInFlight == |ctrl.requests|
      && (ctrl.closecb ==> reqsInFlight == 0)
      && (ctrl.state == Disconnected ==> ctrl.requests == [])
    }

    /** session_make, as far as the control connection goes. */
    constructor ()
      ensures Valid() && fresh(ctrl) && reqsInFlight == 0 && ctrl.closeCalls == 0
    {
      ctrl := new Connection();
      reqsInFlight, cseq := 0, 1;
    }

    /** The sending half of sequence_continue. */
    method SendRequest(message: Message)
      requires Valid()
      modifies this, ctrl
      ensures Valid() && reqsInFlight == old(reqsInFlight) + 1
      ensures ctrl.closeCalls == old(ctrl.closeCalls) && ctrl.answered == old(ctrl.answered)
    {
      hide Connection.Valid;
      var id := cseq;
      cseq := cseq + 1;
      var _ := ctrl.MakeRequest(id, message, true);
      ctrl.SetCloseCb(false);
      reqsInFlight := reqsInFlight + 1;
    }

    /** sequence_continue_cb: counts down first, and then may send any requests. */
    method RequestCallback(reaction: seq<Message>)
      requires ctrl.Valid() && Numbered() && reqsInFlight == |ctrl.requests| + 1 && !ctrl.closecb
      requires ctrl.state == Disconnected ==> ctrl.requests == []
      modifies this, ctrl
      ensures Valid() && reqsInFlight == old(reqsInFlight) - 1 + |reaction|
      ensures ctrl.closeCalls == old(ctrl.closeCalls) && ctrl.answered == old(ctrl.answered)
    {
      reqsInFlight := reqsInFlight - 1;
      if reqsInFlight == 0 {
        ctrl.SetCloseCb(true);
      }
      for i := 0 to |reaction|
        invariant Valid() && reqsInFlight == old(reqsInFlight) - 1 + i
        invariant ctrl.closeCalls == old(ctrl.closeCalls) && ctrl.answered == old(ctrl.answered)
      {
        SendRequest(reaction[i]);
      }
    }

    /** The connection was established. */
    method OnConnected()
      requires Valid() && ctrl.ev == Connect
      modifies this, ctrl
      ensures Valid() && reqsInFlight == old(reqsInFlight) && ctrl.closeCalls == old(ctrl.closeCalls)
    {
      ctrl.OnConnect(Connected);
    }

    /** A read or write event; when it ends a request, that request's callback runs. */
    method OnRead(result: ReadResult, reaction: seq<Message>)
      requires Valid() && ctrl.ev == Read
      modifies this, ctrl
      ensures Valid() && ctrl.closeCalls == old(ctrl.closeCalls)
      ensures if |ctrl.answered| == |old(ctrl.answered)| then reqsInFlight == old(reqsInFlight)
              else |ctrl.answered| == |old(ctrl.answered)| + 1 && reqsInFlight == old(reqsInFlight) - 1 + |reaction|
    {
      hide Connection.Valid;
      QueueFacts();
      var waiting := |ctrl.requests|;
      ctrl.OnRead(result, true);
      QueueFacts();
      if |ctrl.requests| < waiting {
        RequestCallback(reaction);
      }
    }

    method OnWrite(result: WriteResult, reaction: seq<Message>)
      requires Valid() && ctrl.ev == Write
      requires result.Wrote? ==> 0 < result.n <= |ctrl.outputRaw|
      modifies this, ctrl
      ensures Valid() && ctrl.closeCalls == old(ctrl.closeCalls)
      ensures reqsInFlight == if result.Wrote? then old(reqsInFlight) else old(reqsInFlight) - 1 + |reaction|
    {
      hide Connection.Valid;
      QueueFacts();
      ctrl.OnWrite(result, true);
      if !result.Wrote? {
        RequestCallback(reaction);
      }
    }

    /** No request is ever stranded: while one waits an event is pending that will serve or end it. */
    lemma NoneStranded()
      requires Valid()
      ensures ctrl.requests != [] ==> ctrl.ev != Nothing
      ensures reqsInFlight > 0 ==> ctrl.ev != Nothing
    {
    }

    /** What the event contracts are used with: while an event is pending for it a request waits. */
    lemma QueueFacts()
      requires ctrl.Valid()
      ensures ctrl.ev == Write || ctrl.ev == Read ==> ctrl.requests != []
      ensures |ctrl.made| == |ctrl.answered| + |ctrl.requests|
    {
      ctrl.QueueInvariant();
    }

    /** The peer closed the connection: rtsp_close_cb runs, and nothing was outstanding. */
    method OnPeerClose()
      requires Valid() && ctrl.closeEv
      modifies this, ctrl
      ensures Valid() && reqsInFlight == old(reqsInFlight) == 0 && ctrl.requests == []
      ensures ctrl.closeCalls == old(ctrl.closeCalls) + if old(ctrl.closecb) then 1 else 0
    {
      ctrl.OnPeerClose();
    }
  }
}
