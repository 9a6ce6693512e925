/** Startup of one AirPlay session in src/airplay.c: table-driven sequences of requests whose
    response handlers may start other sequences. Whatever the device answers, and whatever fails
    on the way (both are arbitrary here), startup ends after at most 10 requests of its own and
    3 for metadata, and no sequence context is lost track of. */
module AirplayStartup {
  import opened Words

  const RTSP_OK := 200
  const RTSP_UNAUTHORIZED := 401
  const RTSP_CONNECTION_AUTH_REQUIRED := 470

  /** The sequences that startup can get to. */
  datatype Sequence = Start | StartPlayback | PinStart | PairSetup | PairVerify | PairTransient
                    | SendProgress | SendText | SendArtwork
  {
    predicate IsMetadata() { SendProgress? || SendText? || SendArtwork? }
  }

  datatype Handler = NoHandler | InfoStart | SetupSession | SetupStream | Record | VolumeStart | PinStarted
                   | PairSetup1 | PairStep

  /** struct airplay_seq_request: its name, whether a negative answer is passed on to the
      handler, and the handler. */
  datatype Step = Step(name: string, proceedOnNotOk: bool, handler: Handler)

  /** How many requests a sequence has. */
  function Count(s: Sequence): nat {
    match s
    case StartPlayback => 5
    case PairSetup => 3
    case PairVerify => 2
    case PairTransient => 2
    case _ => 1
  }

  /** The rows of airplay_seq_request. */
  function Table(s: Sequence): (steps: seq<Step>)
    ensures |steps| == Count(s)
  {
    match s
    case Start => [Step("GET /info", false, InfoStart)]
    case StartPlayback => [
      Step("SETUP (session)", true, SetupSession), Step("SETPEERS", false, NoHandler),
      Step("SETUP (stream)", false, SetupStream), Step("RECORD", false, Record),
      Step("SET_PARAMETER (volume)", true, VolumeStart)]
    case PinStart => [Step("PIN start", false, PinStarted)]
    case PairSetup => [
      Step("pair setup 1", false, PairSetup1), Step("pair setup 2", false, PairStep),
      Step("pair setup 3", false, PairStep)]
    case PairVerify => [Step("pair verify 1", true, PairStep), Step("pair verify 2", false, PairStep)]
    case PairTransient => [Step("pair setup 1", true, PairSetup1), Step("pair setup 2", false, PairStep)]
    case SendProgress => [Step("SET_PARAMETER (progress)", true, NoHandler)]
    case SendText => [Step("SET_PARAMETER (text)", true, NoHandler)]
    case SendArtwork => [Step("SET_PARAMETER (artwork)", true, NoHandler)]
  }

  /** What a response handler asks for. */
  datatype Verdict = Continue | Abort | Run(s: Sequence)

  /** struct airplay_seq_ctx: a sequence and the request it is at. */
  datatype Context = Context(s: Sequence, at: nat)

  datatype Answer = NoAnswer | Answer(code: int)

  /** What the device's answer says and what else is up to the outside when it comes: whether it
      can be used at all, the flags of its /info, whether a key or password is at hand, which
      metadata it wants and there is, and for which sequences a request can be built and sent. */
  datatype Choice = Choice(good: bool, oneTime: bool, pin: bool, password: bool, haveKey: bool, havePassword: bool,
                           progress: bool, text: bool, artwork: bool, built: set<Sequence>, sent: set<Sequence>)
  {
    /** Nothing is in the way, and the device wants transient pairing. */
    ghost predicate Smooth() {
      good && !oneTime && !pin && !password && forall s: Sequence :: s in built && s in sent
    }

    /** A request of the sequence can be built, and be sent. */
    predicate Goes(s: Sequence) { s in built && s in sent }

    function Metadata(): seq<Context> {
      (if progress then [Context(SendProgress, 0)] else [])
      + (if text then [Context(SendText, 0)] else [])
      + (if artwork then [Context(SendArtwork, 0)] else [])
    }

    /** The part of it whose requests go out. */
    function MetadataSent(): seq<Context> {
      (if progress && Goes(SendProgress) then [Context(SendProgress, 0)] else [])
      + (if text && Goes(SendText) then [Context(SendText, 0)] else [])
      + (if artwork && Goes(SendArtwork) then [Context(SendArtwork, 0)] else [])
    }
  }

  /** Where an answer leads: the end of the session, another request, or playback. */
  datatype Next = End | Send(c: Context) | Playing

  /** What startup does about an answer with this code to the request of this place; `auth` tells
      whether a request has carried authentication already. Only 200 goes on, except that 401 to
      the first SETUP asks for authentication, 470 to transient pairing for a PIN, the first
      request of a verification and of transient pairing are judged by their contents, and the
      code that answers the volume does not matter. */
  function NextOf(c: Context, code: int, e: Choice, auth: bool): Next {
    match c.s
    case Start =>
      if code != 200 || !e.good then End
      else if e.oneTime then Send(Context(if e.haveKey then PairVerify else PinStart, 0))
      else if e.pin then Send(Context(PinStart, 0))
      else if !e.password then Send(Context(PairTransient, 0))
      else if !e.havePassword then End
      else Send(Context(if e.haveKey then PairVerify else PairSetup, 0))
    case PairSetup =>
      if code != 200 || !e.good then End
      else if c.at < 2 then Send(Context(PairSetup, c.at + 1))
      else Send(Context(StartPlayback, 0))
    case PairVerify =>
      if !e.good then End
      else if c.at == 0 then Send(Context(PairVerify, 1))
      else if code == 200 then Send(Context(StartPlayback, 0))
      else End
    case PairTransient =>
      if !e.good then End
      else if c.at == 0 then Send(if code == 470 then Context(PinStart, 0) else Context(PairTransient, 1))
      else if code == 200 then Send(Context(StartPlayback, 0))
      else End
    case StartPlayback =>
      if c.at == 0 then
        if code == 401 && !auth && e.good then Send(Context(StartPlayback, 0))
        else if code == 200 && e.good then Send(Context(StartPlayback, 1))
        else End
      else if c.at == 1 then if code == 200 then Send(Context(StartPlayback, 2)) else End
      else if c.at == 2 then if code == 200 && e.good then Send(Context(StartPlayback, 3)) else End
      else if c.at == 3 then if code == 200 then Send(Context(StartPlayback, 4)) else End
      else Playing
    case _ => End
  }

  /** The next place of a sequence, or what follows it when it succeeds. */
  function Onwards(c: Context): Next {
    if c.at + 1 < Count(c.s) then Send(Context(c.s, c.at + 1))
    else match c.s
      case StartPlayback => Playing
      case PairSetup => Send(Context(StartPlayback, 0))
      case PairVerify => Send(Context(StartPlayback, 0))
      case PairTransient => Send(Context(StartPlayback, 0))
      case _ => End
  }

  /** The places of startup whose handler sees negative answers too. */
  predicate ProceedsAt(c: Context) {
    c in {Context(StartPlayback, 0), Context(StartPlayback, 4), Context(PairVerify, 0), Context(PairTransient, 0)}
  }

  /** The places that a handler of startup deals with. */
  predicate IsPlaceOf(h: Handler, c: Context) {
    match h
    case InfoStart => c == Context(Start, 0)
    case SetupSession => c == Context(StartPlayback, 0)
    case NoHandler => c == Context(StartPlayback, 1)
    case SetupStream => c == Context(StartPlayback, 2)
    case Record => c == Context(StartPlayback, 3)
    case VolumeStart => c == Context(StartPlayback, 4)
    case PinStarted => c == Context(PinStart, 0)
    case PairSetup1 => c == Context(PairSetup, 0) || c == Context(PairTransient, 0)
    case PairStep =>
      || c == Context(PairSetup, 1) || c == Context(PairSetup, 2)
      || c == Context(PairVerify, 0) || c == Context(PairVerify, 1) || c == Context(PairTransient, 1)
  }

  /** The rows of startup, by place. */
  lemma RowAt(c: Context)
    requires c.at < |Table(c.s)| && !c.s.IsMetadata()
    ensures IsPlaceOf(Table(c.s)[c.at].handler, c)
    ensures Table(c.s)[c.at].proceedOnNotOk <==> ProceedsAt(c)
  {
  }

  const ALL := {Start, StartPlayback, PinStart, PairSetup, PairVerify, PairTransient,
                SendProgress, SendText, SendArtwork}

  const MAX_OWN := 10
  const MAX_METADATA := 3

  class Session {
    var alive: bool
    // deferred_session_failure was called, so its timer will free the session.
    var failing: bool
    // realm and nonce are set, and a request with an auth header was sent.
    var hasRealm: bool
    var reqHasAuth: bool
    var transient: bool
    var nextSeq: Option<Sequence>
    // The contexts whose request is in flight: of startup itself, and of metadata.
    var main: Option<Context>
    var metadata: seq<Context>

    // Requests sent so far, and contexts created, freed, and dropped with the session.
    ghost var ownSent: nat
    ghost var metadataSent: nat
    ghost var created: nat
    ghost var freed: nat
    ghost var dropped: nat

    /** Requests that StartPlayback takes from its start: a 401 to the first one makes it run
        again, but not once a request carried authentication. */
    function PlaybackCost(): nat
      reads this`reqHasAuth
    {
      if reqHasAuth then 5 else 6
    }

    function PairedCost(): nat
      reads this`reqHasAuth, this`nextSeq
    {
      if nextSeq == Some(StartPlayback) then PlaybackCost() else 0
    }

    /** Requests of its own that startup may still send when c is in flight. */
    function After(c: Context): int
      reads this`reqHasAuth, this`nextSeq
    {
      match c.s
      case Start => 3 + PlaybackCost()
      case StartPlayback => if c.at == 0 then PlaybackCost() - 1 else 4 - c.at
      case PairSetup => 2 - c.at + PairedCost()
      case PairVerify => 1 - c.at + PairedCost()
      case PairTransient => 1 - c.at + PairedCost()
      case _ => 0
    }

    /** What is still to come, counted in answers. */
    function Pending(): int
      reads this`main, this`metadata, this`reqHasAuth, this`nextSeq
    {
      |metadata| + match main case None => 0 case Some(c) => 1 + After(c) + MAX_METADATA
    }

    /** Every context created is freed, dropped, in flight or one of those in hand. */
    ghost predicate Accounted(inHand: nat)
      reads this`main, this`metadata, this`created, this`freed, this`dropped
    {
      created == freed + dropped + |metadata| + inHand + if main.Some? then 1 else 0
    }

    ghost predicate Valid()
      reads this
    {
      Sound(0)
    }

    ghost predicate Sound(inHand: nat)
      reads this
    {
      && Accounted(inHand)
      && ownSent <= MAX_OWN && metadataSent <= MAX_METADATA
      && |metadata| + dropped <= metadataSent
      && (nextSeq.None? || nextSeq == Some(StartPlayback))
      && (!alive ==> main.None? && metadata == [])
      && (alive ==> dropped == 0)
      && (main.Some? ==>
            var c := main.value;
            && !c.s.IsMetadata() && c.at < |Table(c.s)| && After(c) >= 0
            && ownSent + After(c) <= MAX_OWN
            && metadataSent == 0 && !failing
            && (hasRealm ==> reqHasAuth)
            && Fits(c.s))
      && OnlyMetadata()
    }

    /** Pairing is on the way to playback, and only transient pairing is transient. */
    ghost predicate Fits(s: Sequence)
      reads this`nextSeq, this`transient
    {
      match s
      case Start => nextSeq == None
      case StartPlayback => nextSeq == None
      case PinStart => true
      case PairTransient => nextSeq == Some(StartPlayback) && transient
      case _ => nextSeq == Some(StartPlayback) && !transient
    }

    /** The session went where an answer leads, with own0 requests of its own sent before. A
        request that cannot be built or sent makes the session fail later. */
    ghost predicate Went(next: Next, e: Choice, own0: nat)
      reads this
    {
      match next
      case End => !alive
      case Send(c) =>
        && alive && metadata == []
        && if e.Goes(c.s) then main == Some(c) && ownSent == own0 + 1 && !failing
           else main == None && ownSent == own0 && failing
      case Playing =>
        && alive && main == None && ownSent == own0 && metadata == e.MetadataSent()
        && (failing <==> |e.MetadataSent()| < |e.Metadata()|)
    }

    /** session_make, and airplay_device_start: the sequence START begins. */
    constructor (e: Choice)
      ensures Valid() && alive && Pending() <= MAX_OWN + MAX_METADATA
      ensures created == 1 && ownSent <= 1 && metadataSent == 0
      ensures Went(Send(Context(Start, 0)), e, 0) && !hasRealm && !reqHasAuth
      ensures dropped == 0
    {
      alive, failing, hasRealm, reqHasAuth, transient := true, false, false, false, false;
      nextSeq, main, metadata := None, None, [];
      ownSent, metadataSent, created, freed, dropped := 0, 0, 0, 0, 0;
      new;
      SequenceStart(Start, e);
    }

    /** session_cleanup: the connection goes with the session, and requests still queued on it
        never call back. */
    method Cleanup()
      modifies this`alive, this`main, this`metadata, this`dropped
      ensures !alive && main.None? && metadata == []
      ensures dropped == old(dropped) + |old(metadata)| + if old(main).Some? then 1 else 0
    {
      dropped := dropped + |metadata| + if main.Some? then 1 else 0;
      alive, main, metadata := false, None, [];
    }

    /** sequence_start, for a sequence of startup itself or of metadata. */
    method SequenceStart(s: Sequence, e: Choice, ghost inHand: nat := 0)
      requires Accounted(inHand)
      requires s.IsMetadata() || main.None?
      modifies this`main, this`metadata, this`reqHasAuth, this`failing, this`ownSent, this`metadataSent, this`created
      modifies this`freed
      ensures Accounted(inHand) && created == old(created) + 1
      ensures SentOrFailed(Context(s, 0), e, old(main), old(metadata), old(ownSent), old(metadataSent),
                           old(reqHasAuth), old(failing))
    {
      created := created + 1;
      SequenceContinue(Context(s, 0), e, inHand);
    }

    /** The outcome of sequence_continue: the request is in flight, or the session will fail. */
    ghost predicate SentOrFailed(c: Context, e: Choice, main0: Option<Context>, metadata0: seq<Context>, own0: nat,
                                 meta0: nat, auth0: bool, failing0: bool)
      reads this
    {
      && reqHasAuth == (auth0 || (hasRealm && c.s in e.built))
      && if !e.Goes(c.s) then
           main == main0 && metadata == metadata0 && failing && ownSent == own0 && metadataSent == meta0
         else if c.s.IsMetadata() then
           && metadata == metadata0 + [c] && main == main0
           && metadataSent == meta0 + 1 && ownSent == own0 && failing == failing0
         else
           && main == Some(c) && metadata == metadata0
           && ownSent == own0 + 1 && metadataSent == meta0 && failing == failing0
    }

    /** sequence_continue: builds the current request and sends it. Building can fail before or
        after the headers; no payload builder asks to skip its request, because the one that
        could (auth-setup) is compiled out. */
    method SequenceContinue(c: Context, e: Choice, ghost inHand: nat)
      requires c.s.IsMetadata() || main.None?
      requires Accounted(inHand + 1)
      modifies this`main, this`metadata, this`reqHasAuth, this`failing, this`ownSent, this`metadataSent, this`freed
      ensures Accounted(inHand)
      ensures SentOrFailed(c, e, old(main), old(metadata), old(ownSent), old(metadataSent), old(reqHasAuth),
                           old(failing))
    {
      var headersOk, sentOk := c.s in e.built, c.s in e.sent;
      if headersOk && hasRealm {
        reqHasAuth := true;
      }
      if !headersOk || !sentOk {
        // deferred_session_failure, then the context is freed
        failing := true;
        freed := freed + 1;
        return;
      }
      if c.s.IsMetadata() {
        metadata := metadata + [c];
        metadataSent := metadataSent + 1;
      } else {
        main := Some(c);
        ownSent := ownSent + 1;
      }
    }
  
    ghost predicate OnlyMetadata()
      reads this`metadata
    {
      forall i :: 0 <= i < |metadata| ==> metadata[i].s.IsMetadata() && metadata[i].at == 0
    }

    /** airplay_metadata_startup_send: up to three sequences, if the device wants metadata and
        there is any. */
    method MetadataStartupSend(e: Choice)
      requires Accounted(1) && metadata == [] && metadataSent == 0 && main.None? && !failing
      requires hasRealm ==> reqHasAuth
      modifies this`main, this`metadata, this`reqHasAuth, this`failing, this`ownSent, this`metadataSent, this`created
      modifies this`freed
      ensures Accounted(1) && main.None? && ownSent == old(ownSent) && reqHasAuth == old(reqHasAuth)
      ensures metadata == e.MetadataSent() && metadataSent == |metadata| <= MAX_METADATA && OnlyMetadata()
      ensures failing <==> |e.MetadataSent()| < |e.Metadata()|
    {
      if e.progress {
        SequenceStart(SendProgress, e, 1);
      }
      if e.text {
        SequenceStart(SendText, e, 1);
      }
      if e.artwork {
        SequenceStart(SendArtwork, e, 1);
      }
    }

    /** The response handlers of startup, by the table. What a handler reads from the response is
        arbitrary: its flags, its property lists, the outcome of a pairing step. */
    method Handle(handler: Handler, ghost c: Context, code: int, e: Choice) returns (v: Verdict)
      requires Accounted(1) && main.None?
      requires IsPlaceOf(handler, c) && (code == RTSP_OK || ProceedsAt(c)) && Fits(c.s)
      requires metadata == [] && metadataSent == 0 && !failing && (hasRealm ==> reqHasAuth)
      modifies this`hasRealm, this`nextSeq, this`transient
      modifies this`main, this`metadata, this`reqHasAuth, this`failing, this`ownSent, this`metadataSent, this`created
      modifies this`freed
      ensures Accounted(1) && main.None? && ownSent == old(ownSent) && reqHasAuth == old(reqHasAuth)
      ensures if c == Context(StartPlayback, 4) then
                && metadata == e.MetadataSent() && metadataSent == |metadata| <= MAX_METADATA && OnlyMetadata()
                && (failing <==> |e.MetadataSent()| < |e.Metadata()|)
              else metadata == [] && metadataSent == 0 && !failing
      ensures hasRealm == (old(hasRealm) || Reruns(c, code, e, reqHasAuth))
      ensures Reruns(c, code, e, reqHasAuth) ==> v == Run(StartPlayback)
      ensures nextSeq == old(nextSeq) || nextSeq == Some(StartPlayback)
      ensures match v
              case Abort => NextOf(c, code, e, reqHasAuth) == End && c != Context(StartPlayback, 4)
              case Run(s) =>
                && NextOf(c, code, e, reqHasAuth) == Send(Context(s, 0)) && Fits(s)
                && s != Start && !s.IsMetadata() && RunCost(s) <= old(After(c)) && c != Context(StartPlayback, 4)
              case Continue =>
                && NextOf(c, code, e, reqHasAuth) == Onwards(c) && c.s != Start && hasRealm == old(hasRealm)
                && nextSeq == old(nextSeq) && transient == old(transient)
    {
      hide OnlyMetadata, Choice.Metadata, Choice.MetadataSent;
      var good := e.good;
      v := Continue;
      match handler {
        case NoHandler =>
        case PinStarted =>
        case Record =>
        case InfoStart =>
          transient := false;
          if !good {
            return Abort;
          } else if e.oneTime {
            v := if e.haveKey then Run(PairVerify) else Run(PinStart);
          } else if e.pin {
            v := Run(PinStart);
          } else if e.password {
            if !e.havePassword {
              return Abort;
            }
            v := if e.haveKey then Run(PairVerify) else Run(PairSetup);
          } else {
            transient := true;
            v := Run(PairTransient);
          }
          if v != Run(PinStart) {
            nextSeq := Some(StartPlayback);
          }
        case SetupSession =>
          if code == RTSP_UNAUTHORIZED {
            if reqHasAuth {
              return Abort;
            }
            // auth_header_parse
            hasRealm := good;
            return if good then Run(StartPlayback) else Abort;
          }
          v := if code == RTSP_OK && good then Continue else Abort;
        case SetupStream =>
          v := if good then Continue else Abort;
        case VolumeStart =>
          MetadataStartupSend(e);
        case PairSetup1 =>
          if transient && code == RTSP_CONNECTION_AUTH_REQUIRED {
            if !good {
              return Abort;
            }
            transient := false;
            return Run(PinStart);
          }
          v := if good then Continue else Abort;
        case PairStep =>
          v := if good then Continue else Abort;
      }
    }

    static predicate IsPairing(s: Sequence) { s == PairSetup || s == PairVerify || s == PairTransient }

    /** The first SETUP is answered with 401 and is sent again with authentication. */
    static predicate Reruns(c: Context, code: int, e: Choice, auth: bool) {
      c == Context(StartPlayback, 0) && code == 401 && e.good && !auth
    }

    /** session_pair_success, at the end of a pairing sequence. */
    method PairSuccess(e: Choice)
      requires Sound(1) && alive && main.None? && metadataSent == 0 && !failing && (hasRealm ==> reqHasAuth)
      requires ownSent + PairedCost() <= MAX_OWN
      modifies this
      ensures Sound(1) && Pending() <= old(PairedCost()) + MAX_METADATA
      ensures dropped == old(dropped) && hasRealm == old(hasRealm) && reqHasAuth == old(reqHasAuth)
      ensures if old(nextSeq) == None then !alive
              else Went(Send(Context(StartPlayback, 0)), e, old(ownSent)) && nextSeq == None
    {
      hide Table;
      if nextSeq.Some? {
        SequenceStart(nextSeq.value, e, 1);
        nextSeq := None;
        return;
      }
      Cleanup();
    }

    /** The on_success functions of airplay_seq_definition. */
    method OnSuccess(s: Sequence, e: Choice)
      requires Sound(1) && alive && main.None? && !s.IsMetadata() && (hasRealm ==> reqHasAuth)
      requires s != StartPlayback ==> metadataSent == 0 && !failing && s != Start
      requires IsPairing(s) ==> ownSent + PairedCost() <= MAX_OWN
      modifies this
      ensures Sound(1) && Pending() <= old(|metadata|) + if IsPairing(s) then old(PairedCost()) + MAX_METADATA else 0
      ensures dropped == old(dropped) && hasRealm == old(hasRealm) && reqHasAuth == old(reqHasAuth)
      ensures s == PinStart ==> !alive
      ensures IsPairing(s) && old(nextSeq) == Some(StartPlayback) ==>
                Went(Send(Context(StartPlayback, 0)), e, old(ownSent))
      ensures s == StartPlayback ==>
                main.None? && metadata == old(metadata) && alive && failing == old(failing) && ownSent == old(ownSent)
    {
      match s
      case StartPlayback => // session_connected
      case PinStart => Cleanup();
      case PairSetup => PairSuccess(e);
      case PairVerify => PairSuccess(e);
      case PairTransient => PairSuccess(e);
    }

    /** sequence_continue_cb for startup's own request: the answer is dealt with, and what is
        still to come gets less. No context is lost, even when the session ends. */
    method OnMainAnswer(answer: Answer, e: Choice)
      requires Valid() && alive && main.Some?
      modifies this
      ensures Valid() && 0 <= Pending() < old(Pending())
      ensures dropped == old(dropped)
      ensures Went(if answer.NoAnswer? then End else NextOf(old(main).value, answer.code, e, old(reqHasAuth)),
                   e, old(ownSent))
      ensures var rerun := answer.Answer? && Reruns(old(main).value, answer.code, e, old(reqHasAuth));
              && hasRealm == (old(hasRealm) || rerun)
              && reqHasAuth == (old(reqHasAuth) || (rerun && StartPlayback in e.built))
    {
      hide Table, NextOf, IsPlaceOf, ProceedsAt, Reruns, RunCost, Choice.Metadata, Choice.MetadataSent, Fits;
      var c := main.value;
      main := None;
      var step := Table(c.s)[c.at];
      RowAt(c);
      if answer.NoAnswer? || (answer.code != RTSP_OK && !step.proceedOnNotOk) {
        NotProceeded(c, answer, e, reqHasAuth);
        OnError();
        return;
      }
      var v := Handle(step.handler, c, answer.code, e);
      FollowUp(c, v, e, old(After(c)));
    }

    /** What sequence_continue_cb does about a handler's verdict. */
    method FollowUp(c: Context, v: Verdict, e: Choice, ghost after: int)
      requires Sound(1) && alive && main.None? && !c.s.IsMetadata() && c.at < Count(c.s)
      requires (hasRealm ==> reqHasAuth) || v == Run(StartPlayback)
      requires c != Context(StartPlayback, 4) ==> metadata == [] && metadataSent == 0 && !failing
      requires 0 <= after && ownSent + after <= MAX_OWN
      requires match v
               case Abort => c != Context(StartPlayback, 4)
               case Run(s) =>
                 c != Context(StartPlayback, 4) && Fits(s) && s != Start && !s.IsMetadata() && RunCost(s) <= after
               case Continue => c.s != Start && Fits(c.s) && after == After(c)
      modifies this
      ensures Valid() && dropped == old(dropped) && hasRealm == old(hasRealm)
      ensures Pending() <= old(|metadata|) + if c == Context(StartPlayback, 4) then 0 else after + MAX_METADATA
      ensures reqHasAuth == (old(reqHasAuth) || (hasRealm && v.Run? && v.s in e.built))
      ensures match v
              case Abort => Went(End, e, old(ownSent))
              case Run(s) => Went(Send(Context(s, 0)), e, old(ownSent))
              case Continue =>
                if c == Context(StartPlayback, 4) then
                  && main.None? && metadata == old(metadata) && alive
                  && failing == old(failing) && ownSent == old(ownSent)
                else Went(Onwards(c), e, old(ownSent))
    {
      hide Onwards;
      match v {
        case Abort => OnError();
        case Run(s) => RunNext(c, s, e);
        case Continue => Proceed(c, e);
      }
    }

    static lemma NotProceeded(c: Context, answer: Answer, e: Choice, auth: bool)
      requires c.at < Count(c.s)
      ensures answer.Answer? && answer.code != RTSP_OK && !ProceedsAt(c) ==>
                NextOf(c, answer.code, e, auth) == End && !Reruns(c, answer.code, e, auth)
    {
    }

    /** A handler wanted another sequence: the new context is made before the old one is freed. */
    method RunNext(c: Context, s: Sequence, e: Choice)
      requires Sound(1) && alive && main.None? && !s.IsMetadata() && s != Start && Fits(s)
      requires metadataSent == 0 && !failing
      requires ownSent + RunCost(s) <= MAX_OWN
      modifies this
      ensures Valid() && Pending() <= old(RunCost(s)) + MAX_METADATA
      ensures dropped == old(dropped) && hasRealm == old(hasRealm)
      ensures reqHasAuth == (old(reqHasAuth) || (hasRealm && s in e.built))
      ensures Went(Send(Context(s, 0)), e, old(ownSent))
    {
      hide Table;
      SequenceStart(s, e, 1);
      freed := freed + 1;
    }

    /** Requests that a sequence may take from its start, once authentication is set up for the
        request if there is a realm. */
    function RunCost(s: Sequence): int
      reads this`reqHasAuth, this`nextSeq, this`hasRealm
    {
      var playback := if reqHasAuth || hasRealm then 5 else 6;
      var paired := if nextSeq == Some(StartPlayback) then playback else 0;
      match s
      case Start => 4 + playback
      case StartPlayback => playback
      case PairSetup => 3 + paired
      case PairVerify => 2 + paired
      case PairTransient => 2 + paired
      case _ => 1
    }

    /** The next request of the sequence, or its end. */
    method Proceed(c: Context, e: Choice)
      requires Sound(1) && alive && main.None? && !c.s.IsMetadata() && c.s != Start && c.at < Count(c.s)
      requires if c == Context(StartPlayback, 4) then true else metadataSent == 0 && !failing
      requires (hasRealm ==> reqHasAuth) && Fits(c.s)
      requires ownSent + After(c) <= MAX_OWN
      modifies this
      ensures Valid() && dropped == old(dropped) && hasRealm == old(hasRealm) && reqHasAuth == old(reqHasAuth)
      ensures Pending() <= old(|metadata|)
                           + if c == Context(StartPlayback, 4) then 0 else old(After(c)) + MAX_METADATA
      ensures if c == Context(StartPlayback, 4) then
                main.None? && metadata == old(metadata) && alive && failing == old(failing) && ownSent == old(ownSent)
              else Went(Onwards(c), e, old(ownSent))
    {
      hide Table;
      if c.at + 1 < Count(c.s) {
        SequenceContinue(Context(c.s, c.at + 1), e, 0);
      } else {
        OnSuccess(c.s, e);
        freed := freed + 1;
      }
    }

    /** The on_error functions end the session (start_retry may make another one). */
    method OnError()
      requires Sound(1) && alive && main.None?
      modifies this
      ensures Valid() && !alive && Pending() == 0 && dropped == old(dropped + |metadata|)
      ensures hasRealm == old(hasRealm) && reqHasAuth == old(reqHasAuth)
    {
      Cleanup();
      freed := freed + 1;
    }

    /** The same for a metadata request, any of those in flight. Without an answer the session
        ends, and the contexts of the others in flight are lost. */
    method OnMetadataAnswer(i: nat, answer: Answer)
      requires Valid() && alive && i < |metadata|
      modifies this
      ensures Valid() && 0 <= Pending() < old(Pending())
      ensures dropped == old(dropped) + if answer.NoAnswer? then |old(metadata)| - 1 else 0
    {
      metadata := metadata[..i] + metadata[i + 1..];
      if answer.NoAnswer? {
        OnError();
      } else {
        // no handler, nothing on success; a negative answer is proceeded on
        freed := freed + 1;
      }
    }

    /** deferred_session_failure_cb: loses the contexts of all metadata requests in flight. */
    method OnDeferredFailure()
      requires Valid() && alive && failing
      modifies this
      ensures Valid() && !alive && Pending() == 0 && dropped == old(dropped + |metadata|)
    {
      Cleanup();
    }

    /** What every reachable state promises. Contexts are dropped, without being freed, only by a
        session that ends with metadata requests in flight; while it lives all are accounted
        for, and contexts of startup itself are never dropped. */
    lemma StartupInvariant()
      requires Valid()
      ensures ownSent <= MAX_OWN && metadataSent <= MAX_METADATA
      ensures created == freed + dropped + |metadata| + if main.Some? then 1 else 0
      ensures dropped <= metadataSent && (alive ==> dropped == 0)
    {
    }
  }

  /** Startup as a whole: the answers come in any order the requests allow, until none is
      outstanding or the session is gone. It takes at most 13 of them. */
  method Startup() returns (s: Session, answers: nat)
    ensures s.Valid() && answers <= MAX_OWN + MAX_METADATA
    ensures s.main.None? && s.metadata == []
    ensures s.ownSent <= MAX_OWN && s.metadataSent <= MAX_METADATA
    ensures s.created == s.freed + s.dropped
  {
    var e0: Choice := *;
    s := new Session(e0);
    answers := 0;
    while s.alive && (s.main.Some? || s.metadata != [])
      invariant s.Valid() && fresh(s)
      invariant 0 <= s.Pending() <= MAX_OWN + MAX_METADATA - answers
      decreases s.Pending()
    {
      var code: int := *;
      var e: Choice := *;
      var answered: bool, mainFirst: bool, timer: bool := *, *, *;
      var answer := if answered then Answer(code) else NoAnswer;
      if s.failing && timer {
        s.OnDeferredFailure();
        break;
      } else if s.main.Some? && (mainFirst || s.metadata == []) {
        s.OnMainAnswer(answer, e);
      } else {
        var i :| 0 <= i < |s.metadata|;
        s.OnMetadataAnswer(i, answer);
      }
      answers := answers + 1;
    }
  }

  /** A device that answers everything with 200 and does transient pairing is playing after 8
      requests: /info, two for pairing and five for playback. */
  method SmoothStartup(e: Choice) returns (s: Session)
    requires e.Smooth()
    ensures s.Valid() && fresh(s) && s.alive && s.main.None? && !s.failing
    ensures s.ownSent == 8 && s.metadata == e.Metadata() && s.dropped == 0
  {
    s := new Session(e);
    hide Session.Valid;
    var answers := 0;
    while answers < 7
      invariant answers <= 7 && s.Valid() && fresh(s) && s.alive && !s.reqHasAuth && s.ownSent == 1 + answers
      invariant s.dropped == 0 && !s.hasRealm && s.main == Some(Track(answers))
    {
      SmoothNext(answers, e);
      s.OnMainAnswer(Answer(RTSP_OK), e);
      answers := answers + 1;
    }
    SmoothNext(7, e);
    s.OnMainAnswer(Answer(RTSP_OK), e);
  }

  lemma SmoothNext(n: nat, e: Choice)
    requires n <= 7 && e.Smooth()
    ensures NextOf(Track(n), 200, e, false) == if n == 7 then Playing else Send(Track(n + 1))
    ensures n < 7 ==> e.Goes(Track(n + 1).s)
    ensures e.MetadataSent() == e.Metadata()
  {
  }

  /** What a smooth startup waits for after n answers. */
  function Track(n: nat): Context
    requires n <= 7
  {
    if n == 0 then Context(Start, 0)
    else if n <= 2 then Context(PairTransient, n - 1)
    else Context(StartPlayback, n - 3)
  }

  /** A context that is lost: with two metadata requests in flight the first is not answered, and
      the session ends. */
  method LostContext() returns (s: Session)
    ensures s.Valid() && !s.alive && s.dropped == 1 && s.created == s.freed + 1
  {
    var e := Choice(true, false, false, false, false, false, true, true, false, ALL, ALL);
    forall s: Sequence ensures s in e.built && s in e.sent {
      Everything(s);
    }
    s := SmoothStartup(e);
    s.OnMetadataAnswer(0, NoAnswer);
    s.StartupInvariant();
  }

  lemma Everything(s: Sequence)
    ensures s in ALL
  {
    match s
    case Start =>
    case StartPlayback =>
    case PinStart =>
    case PairSetup =>
    case PairVerify =>
    case PairTransient =>
    case SendProgress =>
    case SendText =>
    case SendArtwork =>
  }
}
