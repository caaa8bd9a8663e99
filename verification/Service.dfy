/** The request/reply service of CommandSocket.m as functions of the native socket's state: one
    pass of the processRequests loop, and, independently of any socket, the answer a request
    deserves.  The lemmas say that the loop gives every request exactly that answer. */
module Service {
  import opened Native
  import opened Framing

  /** What user code (a handler or a callback) does with the socket, in order. */
  datatype Action =
    | Reply(data: Value, text: string)  // sendResponse
    | Throw(why: string)
    | StopLoop                          // Running = false

  type Handler = (nat, Value) -> seq<Action>

  /** Handlers and callbacks may depend on everything that went before: their first argument, the
      number of frames read so far, is different in each dispatch.  A callback that is not set is
      one that does nothing. */
  datatype Config = Config(
    codec: Codec,
    handlers: map<string, Handler>,
    onMessage: (nat, string, Value) -> seq<Action>,
    onCommand: (nat, string, Value) -> seq<Action>,
    onError: (nat, string) -> seq<Action>)
  {
    /** The struct sent as an error response can always be serialized. */
    ghost predicate ErrorsEncodable() {
      forall why :: Encode(codec, ErrorData(why), ERROR_RESPONSE).Some?
    }
  }

  const ERROR_RESPONSE := "errorresponse"

  /** The messages of the exceptions raised by a refused send or receive, and by a response that
      cannot be sent at all. */
  const EFSM := "Operation cannot be accomplished in current state"
  const UNSENDABLE := "The response cannot be serialized or is empty"

  function ErrorData(why: string): Value {
    Struct([("error", Flag(true)), ("message", Text(why)), ("stack", Opaque(0))])
  }

  function UnknownCommand(text: string, known: set<string>): Value {
    Struct([("error", Flag(true)), ("message", Text("Unknown command: " + text)), ("validCommands", Names(known))])
  }

  function LowerChar(c: char): char {
    if 'A' <= c <= 'Z' then (c as int + 32) as char else c
  }

  function Lower(s: string): (t: string)
    ensures |t| == |s|
  {
    seq(|s|, i requires 0 <= i < |s| => LowerChar(s[i]))
  }

  /** Names are looked up in any letter case: two have the same lower-case form exactly when they agree
      up to case, and that form has no upper-case letter. */
  lemma LowerFolds(s: string, t: string)
    ensures Lower(s) == Lower(t) <==> |s| == |t| && forall i | 0 <= i < |s| :: SameLetter(s[i], t[i])
    ensures forall i | 0 <= i < |s| :: !('A' <= Lower(s)[i] <= 'Z') && SameLetter(s[i], Lower(s)[i])
  {
    if Lower(s) == Lower(t) {
      assert |s| == |t|;
      forall i | 0 <= i < |s| ensures SameLetter(s[i], t[i]) { assert Lower(s)[i] == Lower(t)[i]; }
    }
  }

  /** Everything user code does between the receipt of a command and the end of its handler. */
  function Dispatch(cfg: Config, n: nat, obj: Value, text: string): seq<Action> {
    cfg.onMessage(n, text, obj) + cfg.onCommand(n, text, obj)
    + (if Lower(text) in cfg.handlers then cfg.handlers[Lower(text)](n, obj)
       else [Reply(UnknownCommand(text, cfg.handlers.Keys), ERROR_RESPONSE)])
  }

  const ECHO_RESPONSE := "echoresponse"

  function EchoOf(data: Value): Value {
    if !IsEmpty(data) then data else Struct([("message", Text("No object received"))])
  }

  /** The default handlers that do not depend on the outside world. */
  function HandleEcho(data: Value): seq<Action> {
    [Reply(EchoOf(data), ECHO_RESPONSE)]
  }

  const QUIT_DATA := Struct([("message", Text("Server shutting down"))])

  function HandleQuit(data: Value): seq<Action> {
    [Reply(QUIT_DATA, "quitresponse"), StopLoop]
  }

  function HandlePrint(data: Value): seq<Action> {
    [Reply(if !IsEmpty(data)
           then Struct([("success", Flag(true)), ("message", Text("Object printed"))])
           else Struct([("success", Flag(false)), ("message", Text("No object received"))]), "printresponse")]
  }

  function HandleGetTime(now: nat): seq<Action> {
    [Reply(Struct([("serverTime", Opaque(now)), ("timeString", Opaque(now)), ("timeZone", Text("Local"))]),
           "timeresponse")]
  }

  const DEFAULTS := {"echo", "print", "gettime", "quit"}

  ghost predicate HasDefaults(handlers: map<string, Handler>, now: nat -> nat) {
    && DEFAULTS <= handlers.Keys
    && forall n, v ::
         && handlers["echo"](n, v) == HandleEcho(v)
         && handlers["print"](n, v) == HandlePrint(v)
         && handlers["gettime"](n, v) == HandleGetTime(now(n))
         && handlers["quit"](n, v) == HandleQuit(v)
  }

  /** The default handlers and nothing else. */
  ghost predicate Fresh(cfg: Config, now: nat -> nat) {
    && HasDefaults(cfg.handlers, now) && cfg.handlers.Keys == DEFAULTS
    && (forall n, t, v :: cfg.onMessage(n, t, v) == [] && cfg.onCommand(n, t, v) == [])
    && (forall n, why :: cfg.onError(n, why) == [])
  }

  // ---------------------------------------------------------------- the loop

  /** The number of frames in a log. */
  function FramesIn(log: seq<Envelope>): nat {
    if log == [] then 0 else FramesIn(log[..|log| - 1]) + |log[|log| - 1].body|
  }

  /** The number of frames read so far. */
  function Clock(s: Sock): nat
    requires s.Ok()
  {
    FramesIn(s.arrived[..s.taken]) + s.at
  }

  datatype Receipt = Item(obj: Value, text: string) | Waiting | Refused

  /** CommandSocket.receiveObject: a first frame, and a second one if RCVMORE says so. */
  function Receive(c: Codec, s: Sock): (r: (Sock, Receipt))
    requires s.Ok()
    ensures r.0.Ok() && r.0 == s.(sending := r.0.sending, taken := r.0.taken, at := r.0.at)
    ensures r.1.Item? || r.0 == s
    ensures r.1.Refused? <==> s.sending
    ensures r.1.Waiting? <==> !s.sending && s.taken == |s.arrived|
  {
    match s.RecvFrame()
    case (_, WouldBlock) => (s, Waiting)
    case (_, OutOfTurn) => (s, Refused)
    case (s1, Got(first)) =>
      if !s1.RcvMore() then
        var (obj, text) := Decode(c, [first]);
        (s1, Item(obj, text))
      else
        var (s2, second) := s1.RecvFrame();
        var (obj, text) := Decode(c, [first, second.frame]);
        (s2, Item(obj, text))
  }

  datatype Execution = Execution(sock: Sock, running: bool, thrown: Option<string>)

  /** User code runs until it ends or something throws. */
  function Run(c: Codec, s: Sock, running: bool, acts: seq<Action>): (e: Execution)
    requires s.Ok()
    ensures e.sock.Ok()
    ensures e.sock == s.(sending := e.sock.sending, partial := e.sock.partial, sent := e.sock.sent, fate := e.sock.fate)
    decreases |acts|
  {
    if acts == [] then Execution(s, running, None)
    else match acts[0]
      case Throw(why) => Execution(s, running, Some(why))
      case StopLoop => Run(c, s, false, acts[1..])
      case Reply(data, text) =>
        match Encode(c, data, text)
        case None => Execution(s, running, Some(UNSENDABLE))
        case Some(m) =>
          var (s', ok) := s.SendAll(m);
          if ok then Run(c, s', running, acts[1..]) else Execution(s', running, Some(EFSM))
  }

  datatype Verdict = Continue | Blocked | Escaped
  datatype Round = Round(sock: Sock, running: bool, verdict: Verdict)

  /** The catch block: OnError, then an error response whose own failure is ignored.  Only an
      exception from OnError leaves processRequests. */
  function Recover(cfg: Config, s: Sock, running: bool, why: string): (r: Round)
    requires s.Ok()
    ensures r.sock.Ok() && !r.verdict.Blocked?
    ensures r.sock == s.(sending := r.sock.sending, partial := r.sock.partial, sent := r.sock.sent, fate := r.sock.fate)
  {
    var e := Run(cfg.codec, s, running, cfg.onError(Clock(s), why));
    if e.thrown.Some? then Round(e.sock, e.running, Escaped)
    else match Encode(cfg.codec, ErrorData(why), ERROR_RESPONSE)
      case None => Round(e.sock, e.running, Continue)
      case Some(m) => Round(e.sock.SendAll(m).0, e.running, Continue)
  }

  /** What follows a receive: callbacks and handler, and the catch block if they throw. */
  function AfterReceive(cfg: Config, t: Sock, running: bool, obj: Value, text: string): (r: Round)
    requires t.Ok()
    ensures r.sock.Ok() && !r.verdict.Blocked?
    ensures r.sock == t.(sending := r.sock.sending, partial := r.sock.partial, sent := r.sock.sent, fate := r.sock.fate)
  {
    var e := Run(cfg.codec, t, running, Dispatch(cfg, Clock(t), obj, text));
    match e.thrown
    case None => Round(e.sock, e.running, Continue)
    case Some(why) => Recover(cfg, e.sock, e.running, why)
  }

  /** One pass of the loop: processOneRequest inside try, and the catch block. */
  function Pass(cfg: Config, s: Sock, running: bool): (r: Round)
    requires s.Ok()
    ensures r.sock.Ok() && r.sock.arrived == s.arrived && r.sock.buffer == s.buffer
  {
    match Receive(cfg.codec, s)
    case (_, Waiting) => Round(s, running, Blocked)
    case (_, Refused) => Recover(cfg, s, running, EFSM)
    case (s1, Item(obj, text)) => AfterReceive(cfg, s1, running, obj, text)
  }

  // ---------------------------------------------------------------- safety, whatever fails

  /** A REP socket between two passes: no half-sent answer, only one- or two-frame answers, and
      requests read in pairs of frames. */
  ghost predicate Safe(s: Sock) {
    s.IsRep() && s.partial == [] && s.at % 2 == 0 && forall i | 0 <= i < |s.sent| :: |s.sent[i].body| <= 2
  }

  lemma {:induction false} SafeRun(c: Codec, s: Sock, running: bool, acts: seq<Action>)
    requires Safe(s)
    ensures Safe(Run(c, s, running, acts).sock)
    decreases |acts|
  {
    if acts != [] {
      match acts[0]
      case Throw(_) =>
      case StopLoop => SafeRun(c, s, false, acts[1..]);
      case Reply(data, text) =>
        var m := Encode(c, data, text);
        if m.Some? {
          SafeSend(s, m.value);
          SafeRun(c, s.SendAll(m.value).0, running, acts[1..]);
        }
    }
  }

  lemma SafeSend(s: Sock, m: Message)
    requires Safe(s) && |m| <= 2
    ensures Safe(s.SendAll(m).0)
  {
    assert s.partial + m == m;
  }

  lemma SafeReceive(c: Codec, s: Sock)
    requires Safe(s)
    ensures Safe(Receive(c, s).0)
  {
  }

  lemma SafeRecover(cfg: Config, s: Sock, running: bool, why: string)
    requires Safe(s)
    ensures Safe(Recover(cfg, s, running, why).sock)
  {
    SafeRun(cfg.codec, s, running, cfg.onError(Clock(s), why));
    var e := Run(cfg.codec, s, running, cfg.onError(Clock(s), why));
    var m := Encode(cfg.codec, ErrorData(why), ERROR_RESPONSE);
    if m.Some? { SafeSend(e.sock, m.value); }
  }

  /** Whatever the handlers and callbacks do, however many frames a request has, and whichever
      sends libzmq refuses, one pass of the loop keeps replies <= requests <= replies + 1 and
      routes every reply to its own requester. */
  lemma SafePass(cfg: Config, s: Sock, running: bool)
    requires Safe(s)
    ensures Safe(Pass(cfg, s, running).sock)
  {
    hide Run, Recover, Dispatch, Receive;
    SafeReceive(cfg.codec, s);
    match Receive(cfg.codec, s)
    case (_, Waiting) =>
    case (_, Refused) => SafeRecover(cfg, s, running, EFSM);
    case (s1, Item(obj, text)) =>
      var acts := Dispatch(cfg, Clock(s1), obj, text);
      SafeRun(cfg.codec, s1, running, acts);
      var e := Run(cfg.codec, s1, running, acts);
      if e.thrown.Some? { SafeRecover(cfg, e.sock, e.running, e.thrown.value); }
  }

  // ---------------------------------------------------------------- the answer a request deserves

  datatype Effect = Answered(m: Message) | Threw(why: string) | Silent

  /** What user code amounts to while an answer is owed: its first successful reply, or the
      exception that came first, or neither. */
  function EffectOf(c: Codec, acts: seq<Action>): (e: Effect)
    ensures e.Answered? ==> |e.m| <= 2
    decreases |acts|
  {
    if acts == [] then Silent
    else match acts[0]
      case Throw(why) => Threw(why)
      case StopLoop => EffectOf(c, acts[1..])
      case Reply(data, text) =>
        match Encode(c, data, text)
        case None => Threw(UNSENDABLE)
        case Some(m) => Answered(m)
  }

  predicate OnlyStops(acts: seq<Action>) {
    forall i | 0 <= i < |acts| :: acts[i].StopLoop?
  }

  lemma {:induction false} StopsAreSilent(c: Codec, stops: seq<Action>, acts: seq<Action>)
    requires OnlyStops(stops)
    ensures EffectOf(c, stops + acts) == EffectOf(c, acts)
    decreases |stops|
  {
    if stops == [] {
      assert stops + acts == acts;
    } else {
      assert (stops + acts)[1..] == stops[1..] + acts;
      StopsAreSilent(c, stops[1..], acts);
    }
  }

  /** The answer given by the catch block; None if OnError itself throws. */
  function ErrorAnswer(cfg: Config, n: nat, why: string): (a: Option<Message>)
    ensures a.Some? ==> |a.value| <= 2
  {
    match EffectOf(cfg.codec, cfg.onError(n, why))
    case Answered(m) => Some(m)
    case Threw(_) => None
    case Silent => Encode(cfg.codec, ErrorData(why), ERROR_RESPONSE)
  }

  /** The one answer to a command, given what user code made of it: its first reply, else the error
      response to its exception, else (it was silent, or OnError threw) the error response to the
      out-of-turn receive that follows. */
  function Settle(cfg: Config, n: nat, e: Effect): (a: Option<Message>)
    requires e.Answered? ==> |e.m| <= 2
    ensures a.Some? ==> |a.value| <= 2
  {
    match e
    case Answered(m) => Some(m)
    case Threw(why) =>
      var first := ErrorAnswer(cfg, n, why);
      if first.Some? then first else ErrorAnswer(cfg, n, EFSM)
    case Silent => ErrorAnswer(cfg, n, EFSM)
  }

  /** receiveObject reads frames in pairs, so of a longer request only the last one or two frames
      are read when it is the server's turn to send. */
  function LastUnit(m: Message): (u: seq<Frame>)
    ensures 1 <= |u| <= 2
    ensures |m| <= 2 ==> u == m
  {
    m[LastStart(m)..]
  }

  function LastStart(m: Message): (j: nat)
    ensures j < |m| <= j + 2 && j % 2 == 0
  {
    if |m| % 2 == 1 then |m| - 1 else |m| - 2
  }

  lemma LastUnitFrom(m: Message, at: nat)
    requires at % 2 == 0 && at < |m| <= at + 2
    ensures at == LastStart(m) && m[at..|m|] == LastUnit(m)
  {
    assert |m| % 2 == 1 <==> at + 1 == |m|;
  }

  /** What user code makes of request i of a log. */
  function EffectOn(cfg: Config, log: seq<Envelope>, buffer: nat, i: nat): (e: Effect)
    requires i < |log|
    ensures e.Answered? ==> |e.m| <= 2
  {
    var (obj, text) := Decode(cfg.codec, CutAll(LastUnit(log[i].body), buffer));
    EffectOf(cfg.codec, Dispatch(cfg, FramesIn(log[..i + 1]), obj, text))
  }

  /** The answer to request i of a log: a function of the requests alone. */
  function AnswerTo(cfg: Config, log: seq<Envelope>, buffer: nat, i: nat): Option<Message>
    requires i < |log|
  {
    Settle(cfg, FramesIn(log[..i + 1]), EffectOn(cfg, log, buffer, i))
  }

  // ---------------------------------------------------------------- the loop gives exactly that answer

  lemma {:induction false} RunIdle(c: Codec, s: Sock, running: bool, acts: seq<Action>)
    requires s.Ok() && !s.sending
    ensures Run(c, s, running, acts).sock == s
    decreases |acts|
  {
    if acts != [] {
      match acts[0]
      case Throw(_) =>
      case StopLoop => RunIdle(c, s, false, acts[1..]);
      case Reply(data, text) =>
        var m := Encode(c, data, text);
    }
  }

  /** Whether libzmq accepts the next message sent in turn, and what is left of its choices then. */
  predicate Accepts(s: Sock) { s.fate == [] || s.fate[0] }

  function Rest(fate: seq<bool>): seq<bool> { if fate == [] then [] else fate[1..] }

  /** The socket after answer m has been accepted; and after an answer has been refused. */
  ghost function Replied(s: Sock, m: Message): Sock
    requires s.Ok()
  {
    s.(sending := false, sent := s.sent + [Envelope(s.Peer(), m)], fate := Rest(s.fate))
  }

  ghost function Refusal(s: Sock): Sock {
    s.(fate := Rest(s.fate))
  }

  lemma SendOwing(s: Sock, m: Message)
    requires s.Ok() && s.sending && s.partial == []
    ensures s.SendAll(m) == if Accepts(s) then (Replied(s, m), true) else (Refusal(s), false)
  {
    assert s.partial + m == m;
  }

  /** While an answer is owed, only the effect of user code matters: nothing after the first reply,
      accepted or refused, or the first exception reaches the socket. */
  lemma {:induction false} RunOwing(c: Codec, s: Sock, running: bool, acts: seq<Action>)
    requires s.Ok() && s.sending && s.partial == []
    ensures var e := Run(c, s, running, acts);
            match EffectOf(c, acts)
            case Answered(m) =>
              if Accepts(s) then e.sock == Replied(s, m) else e.sock == Refusal(s) && e.thrown == Some(EFSM)
            case Threw(why) => e.sock == s && e.thrown == Some(why)
            case Silent => e.sock == s && e.thrown == None
    decreases |acts|
  {
    if acts != [] {
      match acts[0]
      case Throw(_) =>
      case StopLoop => RunOwing(c, s, false, acts[1..]);
      case Reply(data, text) =>
        var m := Encode(c, data, text);
        if m.Some? {
          SendOwing(s, m.value);
          if Accepts(s) { RunIdle(c, Replied(s, m.value), running, acts[1..]); }
        }
    }
  }

  /** What the catch block does with an answer owed: one attempt at the error answer, or none if
      OnError throws. */
  ghost function Caught(cfg: Config, s: Sock, why: string): Sock
    requires s.Ok()
  {
    match ErrorAnswer(cfg, Clock(s), why)
    case None => s
    case Some(m) => if Accepts(s) then Replied(s, m) else Refusal(s)
  }

  lemma RecoverOwing(cfg: Config, s: Sock, running: bool, why: string)
    requires s.Ok() && s.sending && s.partial == [] && cfg.ErrorsEncodable()
    ensures var r := Recover(cfg, s, running, why);
            && r.sock == Caught(cfg, s, why)
            && (ErrorAnswer(cfg, Clock(s), why).None? ==> r.verdict == Escaped)
  {
    var acts := cfg.onError(Clock(s), why);
    RunOwing(cfg.codec, s, running, acts);
    var e := Run(cfg.codec, s, running, acts);
    var m := Encode(cfg.codec, ErrorData(why), ERROR_RESPONSE).value;
    if EffectOf(cfg.codec, acts) == Silent { SendOwing(s, m); }
  }

  /** Entered with no answer owed, the catch block sends nothing. */
  lemma RecoverIdle(cfg: Config, s: Sock, running: bool, why: string)
    requires s.Ok() && !s.sending
    ensures Recover(cfg, s, running, why).sock == s
  {
    RunIdle(cfg.codec, s, running, cfg.onError(Clock(s), why));
    var m := Encode(cfg.codec, ErrorData(why), ERROR_RESPONSE);
  }

  /** What one pass does about a request just read, given what user code makes of it: one attempt at
      the reply, and one more at the error answer if that was refused or user code threw. */
  ghost function Attempted(cfg: Config, t: Sock, e: Effect): Sock
    requires t.Ok()
  {
    match e
    case Answered(m) => if Accepts(t) then Replied(t, m) else Caught(cfg, Refusal(t), EFSM)
    case Threw(why) => Caught(cfg, t, why)
    case Silent => t
  }

  lemma AttemptedOnce(cfg: Config, t: Sock, e: Effect)
    requires t.Ok() && t.sending
    ensures var u := Attempted(cfg, t, e);
            && u.Ok() && |t.sent| <= |u.sent| <= |t.sent| + 1
            && (u.sending <==> |u.sent| == |t.sent|)
            && (Accepts(t) && (e.Answered? || (e.Threw? && ErrorAnswer(cfg, Clock(t), e.why).Some?)) ==> !u.sending)
            && (e.Silent? ==> u.sending)
  {
    hide ErrorAnswer;
  }

  /** How many sends libzmq is still going to refuse. */
  function Refusals(fate: seq<bool>): nat {
    if fate == [] then 0 else (if fate[0] then 0 else 1) + Refusals(fate[1..])
  }

  /** Why a pass leaves an answer owed: user code was silent, OnError threw, or libzmq refused. */
  ghost predicate Excused(cfg: Config, n: nat, e: Effect, verdict: Verdict) {
    match e
    case Answered(_) => false
    case Threw(why) => verdict == Escaped && ErrorAnswer(cfg, n, why).None?
    case Silent => verdict == Continue
  }

  lemma DispatchOwing(cfg: Config, t: Sock, running: bool, obj: Value, text: string)
    requires t.Ok() && t.sending && t.partial == [] && cfg.ErrorsEncodable()
    ensures var r := AfterReceive(cfg, t, running, obj, text);
            var effect := EffectOf(cfg.codec, Dispatch(cfg, Clock(t), obj, text));
            && r.sock == Attempted(cfg, t, effect)
            && (r.sock.sending ==>
                  Excused(cfg, Clock(t), effect, r.verdict) || Refusals(r.sock.fate) < Refusals(t.fate))
  {
    hide ErrorAnswer, Dispatch;
    var acts := Dispatch(cfg, Clock(t), obj, text);
    RunOwing(cfg.codec, t, running, acts);
    var e := Run(cfg.codec, t, running, acts);
    if e.thrown.Some? {
      if e.sock.sending { RecoverOwing(cfg, e.sock, e.running, e.thrown.value); }
      else { RecoverIdle(cfg, e.sock, e.running, e.thrown.value); }
    }
  }

  lemma DispatchIdle(cfg: Config, t: Sock, running: bool, obj: Value, text: string)
    requires t.Ok() && !t.sending
    ensures AfterReceive(cfg, t, running, obj, text).sock == t
  {
    var acts := Dispatch(cfg, Clock(t), obj, text);
    RunIdle(cfg.codec, t, running, acts);
    var e := Run(cfg.codec, t, running, acts);
    if e.thrown.Some? { RecoverIdle(cfg, t, e.running, e.thrown.value); }
  }

  /** One request, one reply, for every handler.  The pass that reads a request to its end does just
      what Attempted says: if libzmq accepts, it sends exactly one complete reply, to its peer, when
      user code replies (whatever follows: a throw, a second reply) or throws first; a silent handler
      gets none.  While an answer stays owed the next pass reads no further request and makes one
      attempt at the error answer. */
  lemma OneReplyPerRequest(cfg: Config, s: Sock, t: Sock, obj: Value, text: string, running: bool, still: bool)
    requires Safe(s) && cfg.ErrorsEncodable()
    requires Receive(cfg.codec, s) == (t, Item(obj, text)) && t.sending
    ensures var r := Pass(cfg, s, running);
            var e := EffectOf(cfg.codec, Dispatch(cfg, Clock(t), obj, text));
            && r.sock == Attempted(cfg, t, e)
            && |t.sent| <= |r.sock.sent| <= |t.sent| + 1
            && (Accepts(t) && (e.Answered? || (e.Threw? && ErrorAnswer(cfg, Clock(t), e.why).Some?)) ==>
                  |r.sock.sent| == |t.sent| + 1)
            && (r.sock.sending ==> Pass(cfg, r.sock, still).sock == Caught(cfg, r.sock, EFSM))
  {
    hide ErrorAnswer, Dispatch, Recover, EffectOf, Attempted, Caught, AfterReceive;
    SafeReceive(cfg.codec, s);
    DispatchOwing(cfg, t, running, obj, text);
    var e := EffectOf(cfg.codec, Dispatch(cfg, Clock(t), obj, text));
    AttemptedOnce(cfg, t, e);
    AttemptedKeeps(cfg, t, e);
    var r := Pass(cfg, s, running);
    if r.sock.sending { RecoverOwing(cfg, r.sock, still, EFSM); }
  }

  lemma AttemptedKeeps(cfg: Config, t: Sock, e: Effect)
    requires t.Ok()
    ensures var u := Attempted(cfg, t, e); u.partial == t.partial && u.taken == t.taken
  {
    hide ErrorAnswer;
  }

  /** receiveObject takes one or two frames off the message at hand, and the turn passes exactly
      when that leaves none. */
  lemma ReceiveReads(c: Codec, s: Sock)
    requires s.Ok() && !s.sending && s.taken < |s.arrived|
    ensures var (t, item) := Receive(c, s);
            var body := s.arrived[s.taken].body;
            var end := if s.at + 1 == |body| then s.at + 1 else s.at + 2;
            && t == (if end == |body| then s.(sending := true, taken := s.taken + 1, at := 0) else s.(at := end))
            && item.Item? && (item.obj, item.text) == Decode(c, CutAll(body[s.at..end], s.buffer))
  {
    var body := s.arrived[s.taken].body;
    var (s1, first) := s.RecvFrame();
    if s.at + 1 == |body| {
      assert CutAll(body[s.at..s.at + 1], s.buffer) == [first.frame];
    } else {
      assert CutAll(body[s.at..s.at + 2], s.buffer) == [first.frame, Cut(body[s.at + 1], s.buffer)];
    }
  }

  /** A receive that completes a request has read exactly its last one or two frames, which are the
      ones its answer is about. */
  lemma ReceiveUnit(cfg: Config, s: Sock, t: Sock, obj: Value, text: string)
    requires s.Ok() && s.at % 2 == 0 && Receive(cfg.codec, s) == (t, Item(obj, text))
    ensures t == s.(sending := t.sending, taken := t.taken, at := t.at) && t.at % 2 == 0
    ensures t.sending ==> t.taken == s.taken + 1 && t.at == 0
    ensures !t.sending ==> t.taken == s.taken
    ensures t.sending ==>
              && Clock(t) == FramesIn(t.arrived[..s.taken + 1])
              && EffectOn(cfg, t.arrived, t.buffer, s.taken) == EffectOf(cfg.codec, Dispatch(cfg, Clock(t), obj, text))
  {
    hide EffectOf, Dispatch, Receive, FramesIn, LastUnit;
    ReceiveReads(cfg.codec, s);
    var body := s.arrived[s.taken].body;
    if t.sending { LastUnitFrom(body, s.at); }
  }

  /** Nothing an answer depends on changes when a message arrives. */
  lemma AnswersStand(cfg: Config, log: seq<Envelope>, more: seq<Envelope>, buffer: nat, i: nat)
    requires i < |log|
    ensures AnswerTo(cfg, log + more, buffer, i) == AnswerTo(cfg, log, buffer, i)
    ensures Fallback(cfg, log + more, i) == Fallback(cfg, log, i)
  {
    assert (log + more)[..i + 1] == log[..i + 1];
  }

  /** The answer to request i when a send about it has been refused. */
  function Fallback(cfg: Config, log: seq<Envelope>, i: nat): Option<Message>
    requires i < |log|
  {
    ErrorAnswer(cfg, FramesIn(log[..i + 1]), EFSM)
  }

  /** Every answer sent is the one its request deserves or, where libzmq has refused a send, the
      error answer to that. */
  ghost predicate Honest(cfg: Config, s: Sock) {
    Safe(s) && forall i | 0 <= i < |s.sent| ::
      Some(s.sent[i].body) in {AnswerTo(cfg, s.arrived, s.buffer, i), Fallback(cfg, s.arrived, i)}
  }

  /** Libzmq refuses nothing more, every answer sent is the one its request deserves, and an answer
      still owed is the error response to the coming out-of-turn receive. */
  ghost predicate Faithful(cfg: Config, s: Sock) {
    && Safe(s) && s.fate == []
    && (forall i | 0 <= i < |s.sent| :: AnswerTo(cfg, s.arrived, s.buffer, i) == Some(s.sent[i].body))
    && (s.sending ==> AnswerTo(cfg, s.arrived, s.buffer, s.taken - 1) == Fallback(cfg, s.arrived, s.taken - 1))
  }

  lemma SafeReplied(s: Sock, m: Message)
    requires Safe(s) && s.sending && |m| <= 2
    ensures Safe(Replied(s, m)) && Safe(Refusal(s))
  {
  }

  lemma HonestCaught(cfg: Config, s: Sock, why: string)
    requires Honest(cfg, s) && s.sending
    requires ErrorAnswer(cfg, Clock(s), why) in
               {None, AnswerTo(cfg, s.arrived, s.buffer, s.taken - 1), Fallback(cfg, s.arrived, s.taken - 1)}
    ensures Honest(cfg, Caught(cfg, s, why)) && Honest(cfg, Refusal(s))
  {
    hide AnswerTo, Fallback, ErrorAnswer;
    var m := ErrorAnswer(cfg, Clock(s), why);
    SafeReplied(s, if m.Some? then m.value else [[]]);
  }

  /** Every pass, on requests of any length, with any handlers and callbacks and any refusals, keeps
      the answers honest. */
  lemma HonestPass(cfg: Config, s: Sock, running: bool)
    requires Honest(cfg, s) && cfg.ErrorsEncodable()
    ensures Honest(cfg, Pass(cfg, s, running).sock)
  {
    hide AnswerTo, Settle, EffectOn, EffectOf, ErrorAnswer, Dispatch, Receive, AfterReceive, Recover, Attempted, Caught;
    match Receive(cfg.codec, s)
    case (_, Waiting) =>
    case (_, Refused) =>
      RecoverOwing(cfg, s, running, EFSM);
      HonestCaught(cfg, s, EFSM);
    case (t, Item(obj, text)) =>
      SafeReceive(cfg.codec, s);
      ReceiveUnit(cfg, s, t, obj, text);
      if t.sending {
        DispatchOwing(cfg, t, running, obj, text);
        HonestAttempt(cfg, t);
      } else {
        DispatchIdle(cfg, t, running, obj, text);
      }
  }

  lemma HonestAttempt(cfg: Config, t: Sock)
    requires Honest(cfg, t) && t.sending
    ensures Honest(cfg, Attempted(cfg, t, EffectOn(cfg, t.arrived, t.buffer, t.taken - 1)))
  {
    hide EffectOn, ErrorAnswer, Caught;
    var e := EffectOn(cfg, t.arrived, t.buffer, t.taken - 1);
    match e
    case Answered(m) =>
      SafeReplied(t, m);
      if !Accepts(t) { HonestCaught(cfg, Refusal(t), EFSM); }
    case Threw(why) => HonestCaught(cfg, t, why);
    case Silent =>
  }

  lemma FaithfulReply(cfg: Config, s: Sock, m: Message)
    requires Safe(s) && s.sending && s.fate == [] && |m| <= 2
    requires forall i | 0 <= i < |s.sent| :: AnswerTo(cfg, s.arrived, s.buffer, i) == Some(s.sent[i].body)
    requires AnswerTo(cfg, s.arrived, s.buffer, s.taken - 1) == Some(m)
    ensures Faithful(cfg, Replied(s, m))
  {
    hide AnswerTo;
    SafeReplied(s, m);
    assert |s.sent| == s.taken - 1;
  }

  /** While libzmq refuses nothing, every pass keeps the answers exactly right. */
  lemma FaithfulPass(cfg: Config, s: Sock, running: bool)
    requires Faithful(cfg, s) && cfg.ErrorsEncodable()
    ensures Faithful(cfg, Pass(cfg, s, running).sock)
  {
    hide AnswerTo, Settle, EffectOn, EffectOf, ErrorAnswer, Dispatch, Receive, AfterReceive, Recover, Attempted;
    match Receive(cfg.codec, s)
    case (_, Waiting) =>
    case (_, Refused) =>
      RecoverOwing(cfg, s, running, EFSM);
      var m := ErrorAnswer(cfg, Clock(s), EFSM);
      if m.Some? { FaithfulReply(cfg, s, m.value); }
    case (t, Item(obj, text)) =>
      SafeReceive(cfg.codec, s);
      ReceiveUnit(cfg, s, t, obj, text);
      if t.sending {
        DispatchOwing(cfg, t, running, obj, text);
        FaithfulAttempt(cfg, t);
      } else {
        DispatchIdle(cfg, t, running, obj, text);
      }
  }

  lemma FaithfulAttempt(cfg: Config, t: Sock)
    requires Safe(t) && t.sending && t.fate == []
    requires forall i | 0 <= i < |t.sent| :: AnswerTo(cfg, t.arrived, t.buffer, i) == Some(t.sent[i].body)
    ensures Faithful(cfg, Attempted(cfg, t, EffectOn(cfg, t.arrived, t.buffer, t.taken - 1)))
  {
    hide EffectOn, ErrorAnswer;
    var a := AnswerTo(cfg, t.arrived, t.buffer, t.taken - 1);
    if a.Some? { FaithfulReply(cfg, t, a.value); }
  }

  /** When requests have at most two frames, every receive starts at a message boundary, takes one
      whole message and ends at a boundary. */
  lemma WholeMessages(c: Codec, s: Sock)
    requires s.Ok() && !s.sending && s.at == 0 && s.taken < |s.arrived| && |s.arrived[s.taken].body| <= 2
    ensures var (t, item) := Receive(c, s);
            && t == s.(sending := true, taken := s.taken + 1)
            && item.Item? && (item.obj, item.text) == Decode(c, CutAll(s.arrived[s.taken].body, s.buffer))
  {
    ReceiveReads(c, s);
    var body := s.arrived[s.taken].body;
    assert body[0..|body|] == body;
  }

  // ---------------------------------------------------------------- what a pass does, action by action

  lemma {:induction false} RunIdleEnds(c: Codec, s: Sock, running: bool, acts: seq<Action>)
    requires s.Ok() && !s.sending
    ensures var e := Run(c, s, running, acts);
            && (e.thrown.None? <==> forall i | 0 <= i < |acts| :: acts[i].StopLoop?)
            && (e.thrown.None? ==> e.running == (running && acts == []))
    decreases |acts|
  {
    if acts != [] {
      match acts[0]
      case Throw(_) =>
      case StopLoop => RunIdleEnds(c, s, false, acts[1..]);
      case Reply(data, text) =>
        var m := Encode(c, data, text);
    }
  }

  lemma TailStops(acts: seq<Action>, k: nat)
    requires k < |acts|
    ensures var tail := acts[k + 1..];
            (forall i | 0 <= i < |tail| :: tail[i].StopLoop?) <==> forall i | k < i < |acts| :: acts[i].StopLoop?
  {
    var tail := acts[k + 1..];
    if forall i | 0 <= i < |tail| :: tail[i].StopLoop? {
      forall i | k < i < |acts| ensures acts[i].StopLoop? { assert acts[i] == tail[i - k - 1]; }
    }
  }

  /** User code that owes a reply does what its first action other than setting Running says: a reply
      is sent if it can be and libzmq accepts it, and whatever prevents it is the exception thrown; only
      then is the rest run, and it sends nothing and ends well only if it has nothing else to do. */
  lemma RunFirst(c: Codec, s: Sock, running: bool, acts: seq<Action>, k: nat)
    requires s.Ok() && s.sending && s.partial == []
    requires k <= |acts| && (forall i | 0 <= i < k :: acts[i].StopLoop?) && (k < |acts| ==> !acts[k].StopLoop?)
    ensures var e, still := Run(c, s, running, acts), running && k == 0;
            if k == |acts| then e == Execution(s, still, None)
            else match acts[k]
              case Throw(why) => e == Execution(s, still, Some(why))
              case StopLoop => false
              case Reply(data, text) =>
                match Encode(c, data, text)
                case None => e == Execution(s, still, Some(UNSENDABLE))
                case Some(m) =>
                  if s.fate != [] && !s.fate[0] then e == Execution(s.(fate := s.fate[1..]), still, Some(EFSM))
                  else
                    && !e.sock.sending && e.sock.sent == s.sent + [Envelope(s.Peer(), m)]
                    && e.sock == s.(sending := false, sent := e.sock.sent, fate := e.sock.fate)
                    && (e.thrown.None? <==> forall i | k < i < |acts| :: acts[i].StopLoop?)
                    && (e.thrown.None? ==> e.running == (running && |acts| == 1))
  {
    hide Encode, Sock.Peer;
    var stops, rest := acts[..k], acts[k..];
    assert acts == stops + rest;
    StopsThenRun(c, s, running, stops, rest);
    if k < |acts| && acts[k].Reply? {
      var m := Encode(c, acts[k].data, acts[k].text);
      if m.Some? {
        SendOwing(s, m.value);
        RunIdle(c, Replied(s, m.value), running && k == 0, rest[1..]);
        RunIdleEnds(c, Replied(s, m.value), running && k == 0, rest[1..]);
        assert rest[1..] == acts[k + 1..];
        TailStops(acts, k);
      }
    }
  }

  lemma RecoverRunsOnError(cfg: Config, u: Sock, running: bool, why: string, j: nat)
    requires u.Ok() && u.partial == [] && cfg.ErrorsEncodable()
    requires var hook := cfg.onError(Clock(u), why);
             j <= |hook| && (forall i | 0 <= i < j :: hook[i].StopLoop?) && (j < |hook| ==> !hook[j].StopLoop?)
    ensures var r, hook := Recover(cfg, u, running, why), cfg.onError(Clock(u), why);
            var accepted := u.fate == [] || u.fate[0];
            && (u.sending && j == |hook| ==>
                  && r.verdict == Continue
                  && var m := Encode(cfg.codec, Struct([("error", Flag(true)), ("message", Text(why)),
                                                        ("stack", Opaque(0))]), "errorresponse");
                  && m.Some?
                  && r.sock.sent == if accepted then u.sent + [Envelope(u.Peer(), m.value)] else u.sent)
            && (u.sending && j < |hook| && hook[j].Throw? ==> r.verdict == Escaped && r.sock == u)
            && (u.sending && j < |hook| && hook[j].Reply? ==>
                  match Encode(cfg.codec, hook[j].data, hook[j].text)
                  case None => r.verdict == Escaped && r.sock == u
                  case Some(m) =>
                    if accepted then
                      && r.sock.sent == u.sent + [Envelope(u.Peer(), m)]
                      && (r.verdict == Escaped <==> exists i | j < i < |hook| :: !hook[i].StopLoop?)
                    else r.verdict == Escaped && r.sock.sent == u.sent)
            && (r.sock.sending <==> u.sending && r.sock.sent == u.sent)
            && (!u.sending ==> r.sock == u && (r.verdict == Escaped <==> j < |hook|))
  {
    hide Encode, Sock.Peer, Clock;
    var hook := cfg.onError(Clock(u), why);
    if u.sending {
      RunFirst(cfg.codec, u, running, hook, j);
      var e := Run(cfg.codec, u, running, hook);
      var m := Encode(cfg.codec, ErrorData(why), ERROR_RESPONSE).value;
      if e.sock.sending { SendOwing(e.sock, m); }
    } else {
      RunIdle(cfg.codec, u, running, hook);
      RunIdleEnds(cfg.codec, u, running, hook);
    }
  }

  /** The catch block calls OnError first.  Given the exception `why`, raised by an out-of-turn receive
      or by the user code that has left the socket as u, the first action of OnError (other than setting
      Running) decides: a reply of OnError is the answer; an exception of OnError leaves processRequests;
      and if OnError does nothing, the error struct with that message is sent.  A reply sent before the
      exception is never followed by another. */
  lemma CatchCallsOnError(cfg: Config, s: Sock, running: bool, u: Sock, why: string, j: nat)
    requires Safe(s) && cfg.ErrorsEncodable() && u.Ok()
    requires if s.sending then u == s && why == EFSM
             else
               var (t, item) := Receive(cfg.codec, s);
               item.Item? &&
               var e := Run(cfg.codec, t, running, Dispatch(cfg, Clock(t), item.obj, item.text));
               e.sock == u && e.thrown == Some(why)
    requires var hook := cfg.onError(Clock(u), why);
             j <= |hook| && (forall i | 0 <= i < j :: hook[i].StopLoop?) && (j < |hook| ==> !hook[j].StopLoop?)
    ensures var r, hook := Pass(cfg, s, running), cfg.onError(Clock(u), why);
            var accepted := u.fate == [] || u.fate[0];
            && (u.sending && j == |hook| ==>
                  && r.verdict == Continue
                  && var m := Encode(cfg.codec, Struct([("error", Flag(true)), ("message", Text(why)),
                                                        ("stack", Opaque(0))]), "errorresponse");
                  && m.Some?
                  && r.sock.sent == if accepted then u.sent + [Envelope(u.Peer(), m.value)] else u.sent)
            && (u.sending && j < |hook| && hook[j].Throw? ==> r.verdict == Escaped && r.sock == u)
            && (u.sending && j < |hook| && hook[j].Reply? ==>
                  match Encode(cfg.codec, hook[j].data, hook[j].text)
                  case None => r.verdict == Escaped && r.sock == u
                  case Some(m) =>
                    if accepted then
                      && r.sock.sent == u.sent + [Envelope(u.Peer(), m)]
                      && (r.verdict == Escaped <==> exists i | j < i < |hook| :: !hook[i].StopLoop?)
                    else r.verdict == Escaped && r.sock.sent == u.sent)
            && (r.sock.sending <==> u.sending && r.sock.sent == u.sent)
            && (!u.sending ==> r.sock == u && (r.verdict == Escaped <==> j < |hook|))
  {
    hide Encode, Sock.Peer, Clock, Dispatch, Run, Recover;
    if s.sending {
      RecoverRunsOnError(cfg, s, running, why, j);
    } else {
      var (t, item) := Receive(cfg.codec, s);
      SafeReceive(cfg.codec, s);
      var acts := Dispatch(cfg, Clock(t), item.obj, item.text);
      SafeRun(cfg.codec, t, running, acts);
      RecoverRunsOnError(cfg, u, Run(cfg.codec, t, running, acts).running, why, j);
    }
  }

  /** What a pass does about a request it has read to its end: OnMessage, OnCommand and the handler
      registered for the command, or else the "Unknown command" response, run in this order, and the
      first action other than setting Running decides. */
  lemma PassAnswers(cfg: Config, s: Sock, running: bool, t: Sock, obj: Value, text: string, code: seq<Action>, k: nat)
    requires Safe(s) && Receive(cfg.codec, s) == (t, Item(obj, text)) && t.sending
    requires code == cfg.onMessage(Clock(t), text, obj) + cfg.onCommand(Clock(t), text, obj)
                     + if Lower(text) in cfg.handlers then cfg.handlers[Lower(text)](Clock(t), obj)
                       else [Reply(Struct([("error", Flag(true)), ("message", Text("Unknown command: " + text)),
                                           ("validCommands", Names(cfg.handlers.Keys))]), "errorresponse")]
    requires k <= |code| && (forall i | 0 <= i < k :: code[i].StopLoop?) && (k < |code| ==> !code[k].StopLoop?)
    ensures var r := Pass(cfg, s, running);
            if k == |code| then r == Round(t, running && k == 0, Continue)
            else match code[k]
              case StopLoop => false
              case Throw(why) => cfg.onError(Clock(t), why) != [] && cfg.onError(Clock(t), why)[0].Throw? ==>
                r.sock == t && r.verdict == Escaped
              case Reply(d, x) =>
                var m := Encode(cfg.codec, d, x);
                m.Some? && (t.fate == [] || t.fate[0]) ==>
                  && !r.sock.sending && r.sock.sent == t.sent + [Envelope(t.Peer(), m.value)]
                  && ((forall i | k < i < |code| :: code[i].StopLoop?) ==>
                        r.verdict == Continue && r.running == (running && |code| == 1))
  {
    hide Encode, Sock.Peer, Lower, Clock, Receive;
    assert code == Dispatch(cfg, Clock(t), obj, text);
    SafeReceive(cfg.codec, s);
    PassRuns(cfg, s, running, t, obj, text);
    RunFirst(cfg.codec, t, running, code, k);
    var e := Run(cfg.codec, t, running, code);
    if e.thrown.Some? {
      if !e.sock.sending { RecoverIdle(cfg, e.sock, e.running, e.thrown.value); }
      else if code[k].Throw? {
        var hook := cfg.onError(Clock(t), code[k].why);
        if hook != [] && hook[0].Throw? { RunFirst(cfg.codec, t, e.running, hook, 0); }
      }
    }
  }

  lemma PassRuns(cfg: Config, s: Sock, running: bool, t: Sock, obj: Value, text: string)
    requires s.Ok() && Receive(cfg.codec, s) == (t, Item(obj, text))
    ensures Pass(cfg, s, running) == AfterReceive(cfg, t, running, obj, text)
  {
  }

  /** The reply of a server with the default handlers, and nothing else, to each command. */
  lemma DefaultReplies(cfg: Config, now: nat -> nat, s: Sock, running: bool, t: Sock, obj: Value, text: string,
                       data: Value, reply: string)
    requires Fresh(cfg, now) && Safe(s) && Receive(cfg.codec, s) == (t, Item(obj, text)) && t.sending
    requires (data, reply) ==
             if Lower(text) == "echo" then
               (if !IsEmpty(obj) then obj else Struct([("message", Text("No object received"))]), "echoresponse")
             else if Lower(text) == "print" then
               (Struct([("success", Flag(!IsEmpty(obj))),
                        ("message", Text(if IsEmpty(obj) then "No object received" else "Object printed"))]),
                "printresponse")
             else if Lower(text) == "gettime" then
               (Struct([("serverTime", Opaque(now(Clock(t)))), ("timeString", Opaque(now(Clock(t)))),
                        ("timeZone", Text("Local"))]), "timeresponse")
             else if Lower(text) == "quit" then
               (Struct([("message", Text("Server shutting down"))]), "quitresponse")
             else
               (Struct([("error", Flag(true)), ("message", Text("Unknown command: " + text)),
                        ("validCommands", Names({"echo", "print", "gettime", "quit"}))]), "errorresponse")
    requires Encode(cfg.codec, data, reply).Some? && (t.fate == [] || t.fate[0])
    ensures var r := Pass(cfg, s, running);
            && r.sock.sent == t.sent + [Envelope(t.Peer(), Encode(cfg.codec, data, reply).value)]
            && r.verdict == Continue && (r.running <==> running && Lower(text) != "quit")
  {
    hide Encode, Sock.Peer, Lower, Clock, Receive, Pass;
    var n := Clock(t);
    var code := Dispatch(cfg, n, obj, text);
    DefaultCode(cfg, now, n, obj, text, data, reply);
    PassAnswers(cfg, s, running, t, obj, text, code, 0);
  }

  ghost function DefaultReply(now: nat, obj: Value, text: string): (Value, string) {
    if Lower(text) == "echo" then
      (if !IsEmpty(obj) then obj else Struct([("message", Text("No object received"))]), "echoresponse")
    else if Lower(text) == "print" then
      (Struct([("success", Flag(!IsEmpty(obj))),
               ("message", Text(if IsEmpty(obj) then "No object received" else "Object printed"))]), "printresponse")
    else if Lower(text) == "gettime" then
      (Struct([("serverTime", Opaque(now)), ("timeString", Opaque(now)), ("timeZone", Text("Local"))]), "timeresponse")
    else if Lower(text) == "quit" then
      (Struct([("message", Text("Server shutting down"))]), "quitresponse")
    else
      (Struct([("error", Flag(true)), ("message", Text("Unknown command: " + text)),
               ("validCommands", Names({"echo", "print", "gettime", "quit"}))]), "errorresponse")
  }

  lemma DefaultCode(cfg: Config, now: nat -> nat, n: nat, obj: Value, text: string, data: Value, reply: string)
    requires Fresh(cfg, now)
    requires (data, reply) == DefaultReply(now(n), obj, text)
    ensures Dispatch(cfg, n, obj, text) == [Reply(data, reply)] + if Lower(text) == "quit" then [StopLoop] else []
  {
    hide Lower;
    var calls := cfg.onMessage(n, text, obj) + cfg.onCommand(n, text, obj);
    assert calls == [];
  }

  // ---------------------------------------------------------------- whole runs of processRequests

  datatype Ending = Stopped | TimedOut | Left | StillWaiting
  datatype Finish = Finish(sock: Sock, running: bool, ending: Ending)

  /** The loop of processRequests; `ticks` is how often the clock is found to be before the deadline. */
  function Loop(cfg: Config, s: Sock, running: bool, ticks: nat): (f: Finish)
    requires s.Ok()
    ensures f.sock.Ok()
    decreases ticks
  {
    if !running then Finish(s, running, Stopped)
    else if ticks == 0 then Finish(s, running, TimedOut)
    else
      var r := Pass(cfg, s, running);
      match r.verdict
      case Blocked => Finish(r.sock, r.running, StillWaiting)
      case Escaped => Finish(r.sock, r.running, Left)
      case Continue => Loop(cfg, r.sock, r.running, ticks - 1)
  }

  /** Over every run, however it ends and whatever fails, replies <= requests <= replies + 1, each reply
      goes to its requester and is honest, and exact when libzmq refuses nothing; and a run left
      waiting for a request has answered all there were. */
  lemma {:induction false} LoopIsSafe(cfg: Config, s: Sock, running: bool, ticks: nat)
    requires Safe(s)
    ensures var f := Loop(cfg, s, running, ticks);
            && Safe(f.sock) && f.sock.arrived == s.arrived && f.sock.buffer == s.buffer
            && (Honest(cfg, s) && cfg.ErrorsEncodable() ==> Honest(cfg, f.sock))
            && (Faithful(cfg, s) && cfg.ErrorsEncodable() ==> Faithful(cfg, f.sock))
            && (f.ending.StillWaiting? ==> |f.sock.sent| == f.sock.taken == |s.arrived| && f.sock.at == 0)
    decreases ticks
  {
    hide Honest, Faithful, Pass;
    if running && ticks > 0 {
      SafePass(cfg, s, running);
      if Honest(cfg, s) && cfg.ErrorsEncodable() { HonestPass(cfg, s, running); }
      if Faithful(cfg, s) && cfg.ErrorsEncodable() { FaithfulPass(cfg, s, running); }
      var r := Pass(cfg, s, running);
      BlockedMeansIdle(cfg, s, running);
      if r.verdict.Continue? { LoopIsSafe(cfg, r.sock, r.running, ticks - 1); }
    }
  }

  lemma BlockedMeansIdle(cfg: Config, s: Sock, running: bool)
    requires s.Ok()
    ensures var r := Pass(cfg, s, running);
            r.verdict.Blocked? <==> !s.sending && s.taken == |s.arrived|
    ensures Pass(cfg, s, running).verdict.Blocked? ==> Pass(cfg, s, running) == Round(s, running, Blocked)
  {
    hide Dispatch, Run, Recover, Decode;
  }

  /** The request read last is unanswered, and user code had been silent about it. */
  ghost predicate OwedSilently(cfg: Config, s: Sock) {
    s.sending && s.Ok() && s.taken > 0 && EffectOn(cfg, s.arrived, s.buffer, s.taken - 1) == Silent
  }

  /** The request read last is unanswered, because OnError threw. */
  ghost predicate OwedByOnError(cfg: Config, s: Sock) {
    s.sending && s.Ok() && s.taken > 0 &&
    match EffectOn(cfg, s.arrived, s.buffer, s.taken - 1)
    case Answered(_) => false
    case Threw(why) => ErrorAnswer(cfg, Clock(s), why).None?
    case Silent => ErrorAnswer(cfg, Clock(s), EFSM).None?
  }

  lemma PassLeavesOwed(cfg: Config, s: Sock, running: bool)
    requires Safe(s) && cfg.ErrorsEncodable() && (s.sending ==> OwedSilently(cfg, s))
    ensures var r := Pass(cfg, s, running);
            r.sock.sending ==>
              || Refusals(r.sock.fate) < Refusals(s.fate)
              || (if r.verdict == Escaped then OwedByOnError(cfg, r.sock)
                  else r.verdict == Continue && OwedSilently(cfg, r.sock))
  {
    hide EffectOn, ErrorAnswer, Dispatch, Receive, AfterReceive, Recover, EffectOf;
    match Receive(cfg.codec, s)
    case (_, Waiting) =>
    case (_, Refused) => RecoverOwing(cfg, s, running, EFSM);
    case (t, Item(obj, text)) =>
      SafeReceive(cfg.codec, s);
      ReceiveUnit(cfg, s, t, obj, text);
      if t.sending { DispatchOwing(cfg, t, running, obj, text); }
      else { DispatchIdle(cfg, t, running, obj, text); }
  }

  lemma {:induction false} RefusalsFall(cfg: Config, s: Sock, running: bool, ticks: nat)
    requires Safe(s) && cfg.ErrorsEncodable()
    ensures Refusals(Loop(cfg, s, running, ticks).sock.fate) <= Refusals(s.fate)
    decreases ticks
  {
    hide Pass;
    if running && ticks > 0 {
      SafePass(cfg, s, running);
      PassRefuses(cfg, s, running);
      var r := Pass(cfg, s, running);
      if r.verdict.Continue? { RefusalsFall(cfg, r.sock, r.running, ticks - 1); }
    }
  }

  lemma PassRefuses(cfg: Config, s: Sock, running: bool)
    requires Safe(s) && cfg.ErrorsEncodable()
    ensures Refusals(Pass(cfg, s, running).sock.fate) <= Refusals(s.fate)
  {
    hide ErrorAnswer, Dispatch, Receive, AfterReceive, Recover, EffectOf;
    match Receive(cfg.codec, s)
    case (_, Waiting) =>
    case (_, Refused) => RecoverOwing(cfg, s, running, EFSM);
    case (t, Item(obj, text)) =>
      SafeReceive(cfg.codec, s);
      if t.sending { DispatchOwing(cfg, t, running, obj, text); }
      else { DispatchIdle(cfg, t, running, obj, text); }
  }

  /** A run from a state that owes nothing leaves at most the last request it has read unanswered, and
      that only if its user code was silent and the loop ended (stopped, or past its deadline) before
      the next pass, or if OnError threw, or if libzmq refused a send during the run. */
  lemma {:induction false} UnansweredBecause(cfg: Config, s: Sock, running: bool, ticks: nat)
    requires Safe(s) && cfg.ErrorsEncodable() && (s.sending ==> OwedSilently(cfg, s))
    ensures var f := Loop(cfg, s, running, ticks);
            f.sock.sending ==>
              || Refusals(f.sock.fate) < Refusals(s.fate)
              || match f.ending
                 case StillWaiting => false
                 case Left => OwedByOnError(cfg, f.sock)
                 case _ => OwedSilently(cfg, f.sock)
    decreases ticks
  {
    hide Pass, OwedSilently, OwedByOnError;
    if running && ticks > 0 {
      PassLeavesOwed(cfg, s, running);
      PassRefuses(cfg, s, running);
      SafePass(cfg, s, running);
      BlockedMeansIdle(cfg, s, running);
      var r := Pass(cfg, s, running);
      if r.verdict == Continue {
        RefusalsFall(cfg, r.sock, r.running, ticks - 1);
        if r.sock.sending ==> OwedSilently(cfg, r.sock) { UnansweredBecause(cfg, r.sock, r.running, ticks - 1); }
      }
    }
  }

  // ---------------------------------------------------------------- every request is answered

  /** What user code does about the one or two frames that start at frame j of request i. */
  function CodeAt(cfg: Config, log: seq<Envelope>, buffer: nat, i: nat, j: nat): seq<Action>
    requires i < |log| && j < |log[i].body|
  {
    var body := log[i].body;
    var end := if j + 1 == |body| then j + 1 else j + 2;
    var (obj, text) := Decode(cfg.codec, CutAll(body[j..end], buffer));
    Dispatch(cfg, FramesIn(log[..i]) + end, obj, text)
  }

  /** What user code did about the frames read last. */
  function LastCode(cfg: Config, s: Sock): seq<Action>
    requires s.Ok()
  {
    if s.at >= 2 then CodeAt(cfg, s.arrived, s.buffer, s.taken, s.at - 2)
    else if s.taken == 0 then []
    else CodeAt(cfg, s.arrived, s.buffer, s.taken - 1, LastStart(s.arrived[s.taken - 1].body))
  }

  ghost predicate NoStops(acts: seq<Action>) {
    forall i | 0 <= i < |acts| :: !acts[i].StopLoop?
  }

  /** No frames still to be read lead to user code that stops the loop. */
  ghost predicate NothingStops(cfg: Config, s: Sock)
    requires s.Ok()
  {
    forall i, j | && s.taken <= i < |s.arrived| && 0 <= j < |s.arrived[i].body|
                  && j % 2 == 0 && (i == s.taken ==> s.at <= j) ::
      NoStops(CodeAt(cfg, s.arrived, s.buffer, i, j))
  }

  ghost predicate OnErrorNeverStops(cfg: Config) {
    forall n, why :: NoStops(cfg.onError(n, why))
  }

  /** OnError neither replies nor throws. */
  ghost predicate OnErrorOnlyReports(cfg: Config) {
    forall n, why :: OnlyStops(cfg.onError(n, why))
  }

  lemma {:induction false} RunKeepsRunning(c: Codec, s: Sock, running: bool, acts: seq<Action>)
    requires s.Ok() && NoStops(acts)
    ensures Run(c, s, running, acts).running == running
    decreases |acts|
  {
    if acts != [] {
      match acts[0]
      case Throw(_) =>
      case Reply(data, text) =>
        var m := Encode(c, data, text);
        if m.Some? { RunKeepsRunning(c, s.SendAll(m.value).0, running, acts[1..]); }
    }
  }

  lemma {:induction false} StopsThenRun(c: Codec, s: Sock, running: bool, stops: seq<Action>, acts: seq<Action>)
    requires s.Ok() && OnlyStops(stops)
    ensures Run(c, s, running, stops + acts) == Run(c, s, running && stops == [], acts)
    decreases |stops|
  {
    if stops == [] {
      assert stops + acts == acts;
    } else {
      assert (stops + acts)[1..] == stops[1..] + acts;
      StopsThenRun(c, s, false, stops[1..], acts);
    }
  }

  lemma RecoverGoesOn(cfg: Config, s: Sock, running: bool, why: string)
    requires s.Ok()
    ensures var r := Recover(cfg, s, running, why);
            && (OnErrorNeverStops(cfg) ==> r.running == running)
            && (OnErrorOnlyReports(cfg) ==> r.verdict == Continue)
  {
    var acts := cfg.onError(Clock(s), why);
    if OnErrorNeverStops(cfg) { RunKeepsRunning(cfg.codec, s, running, acts); }
    if OnErrorOnlyReports(cfg) {
      StopsThenRun(cfg.codec, s, running, acts, []);
      assert acts + [] == acts;
    }
  }

  /** The code run after a receive is the code of the frames just read. */
  lemma ReceiveCode(cfg: Config, s: Sock, t: Sock, obj: Value, text: string)
    requires s.Ok() && s.at % 2 == 0 && Receive(cfg.codec, s) == (t, Item(obj, text))
    ensures Dispatch(cfg, Clock(t), obj, text) == CodeAt(cfg, s.arrived, s.buffer, s.taken, s.at) == LastCode(cfg, t)
    ensures t.Ok() && t.arrived == s.arrived && t.buffer == s.buffer
    ensures t.taken > s.taken || (t.taken == s.taken && t.at == s.at + 2)
  {
    hide Dispatch, Receive, Decode, FramesIn, LastStart;
    ReceiveReads(cfg.codec, s);
    OneMoreMessage(s.arrived, s.taken);
    if t.taken > s.taken { LastUnitFrom(s.arrived[s.taken].body, s.at); }
  }

  lemma PassGoesOn(cfg: Config, s: Sock)
    requires Safe(s)
    ensures var r := Pass(cfg, s, true);
            && (NothingStops(cfg, s) && OnErrorNeverStops(cfg) ==> r.running)
            && (!r.running && OnErrorNeverStops(cfg) ==> !NoStops(LastCode(cfg, r.sock)))
            && (OnErrorOnlyReports(cfg) ==> r.verdict != Escaped)
            && (NothingStops(cfg, s) ==> NothingStops(cfg, r.sock))
  {
    hide Dispatch, CodeAt, Receive, Recover, NoStops, OnErrorNeverStops, OnErrorOnlyReports, LastStart;
    match Receive(cfg.codec, s)
    case (_, Waiting) =>
    case (_, Refused) => RecoverGoesOn(cfg, s, true, EFSM);
    case (t, Item(obj, text)) =>
      ReceiveCode(cfg, s, t, obj, text);
      var acts := Dispatch(cfg, Clock(t), obj, text);
      if NoStops(acts) { RunKeepsRunning(cfg.codec, t, true, acts); }
      var e := Run(cfg.codec, t, true, acts);
      if e.thrown.Some? { RecoverGoesOn(cfg, e.sock, e.running, e.thrown.value); }
  }

  /** What is left to do: two passes per frame not yet read, and one for an answer owed. */
  function Work(s: Sock): int
    requires s.Ok()
  {
    2 * (FramesIn(s.arrived) - Clock(s)) + if s.sending then 1 else 0
  }

  lemma OneMoreMessage(log: seq<Envelope>, i: nat)
    requires i < |log|
    ensures FramesIn(log[..i + 1]) == FramesIn(log[..i]) + |log[i].body|
  {
    assert log[..i + 1][..i] == log[..i];
  }

  lemma {:induction false} PrefixHasFewer(log: seq<Envelope>, i: nat)
    requires i <= |log|
    ensures FramesIn(log[..i]) <= FramesIn(log)
    decreases |log| - i
  {
    if i == |log| {
      assert log[..i] == log;
    } else {
      PrefixHasFewer(log, i + 1);
      OneMoreMessage(log, i);
    }
  }

  lemma WorkIsNat(s: Sock)
    requires s.Ok()
    ensures Work(s) >= 0
  {
    if s.at > 0 {
      OneMoreMessage(s.arrived, s.taken);
      PrefixHasFewer(s.arrived, s.taken + 1);
    } else {
      PrefixHasFewer(s.arrived, s.taken);
    }
  }

  lemma ReceiveWorks(c: Codec, s: Sock)
    requires s.Ok() && !s.sending && s.taken < |s.arrived|
    ensures Work(Receive(c, s).0) < Work(s)
  {
    hide Receive, Decode, FramesIn;
    ReceiveReads(c, s);
    OneMoreMessage(s.arrived, s.taken);
  }

  /** The number given to user code is the number of frames read, so it is different in each dispatch. */
  lemma ClockAdvances(c: Codec, s: Sock)
    requires s.Ok() && !s.sending && s.taken < |s.arrived|
    ensures Clock(Receive(c, s).0) == Clock(s) + if s.at + 1 == |s.arrived[s.taken].body| then 1 else 2
  {
    hide Receive, Decode, FramesIn;
    ReceiveReads(c, s);
    OneMoreMessage(s.arrived, s.taken);
  }

  /** Every pass that goes on has done some of the work, or used up one of libzmq's choices. */
  lemma PassWorks(cfg: Config, s: Sock)
    requires Safe(s) && cfg.ErrorsEncodable()
    ensures var r := Pass(cfg, s, true);
            r.verdict == Continue ==> Work(r.sock) + |r.sock.fate| < Work(s) + |s.fate|
  {
    hide ErrorAnswer, Dispatch, Receive, AfterReceive, Recover, EffectOf, FramesIn;
    match Receive(cfg.codec, s)
    case (_, Waiting) =>
    case (_, Refused) => RecoverOwing(cfg, s, true, EFSM);
    case (t, Item(obj, text)) =>
      SafeReceive(cfg.codec, s);
      ReceiveWorks(cfg.codec, s);
      if t.sending { DispatchOwing(cfg, t, true, obj, text); } else { DispatchIdle(cfg, t, true, obj, text); }
  }

  lemma {:induction false} RunEnds(cfg: Config, s: Sock, ticks: nat)
    requires Safe(s) && cfg.ErrorsEncodable() && ticks > Work(s) + |s.fate|
    ensures var f := Loop(cfg, s, true, ticks);
            && !f.ending.TimedOut?
            && (f.ending.Stopped? ==>
                  !OnErrorNeverStops(cfg) || (!NothingStops(cfg, s) && !NoStops(LastCode(cfg, f.sock))))
            && (f.ending.Left? ==> !OnErrorOnlyReports(cfg))
    decreases ticks
  {
    hide Pass, Work, NothingStops, OnErrorNeverStops, OnErrorOnlyReports, NoStops, LastCode;
    WorkIsNat(s);
    SafePass(cfg, s, true);
    PassWorks(cfg, s);
    PassGoesOn(cfg, s);
    var r := Pass(cfg, s, true);
    if r.verdict == Continue && r.running { RunEnds(cfg, r.sock, ticks - 1); }
  }

  /** With no hypothesis on user code or on what libzmq refuses, a run long enough for its work ends
      by itself: waiting for the next request with every request answered, or stopped by the code of
      the frames it read last (or by OnError), or left because OnError replied or threw. */
  lemma LongRunEnds(cfg: Config, s: Sock, ticks: nat)
    requires Safe(s) && cfg.ErrorsEncodable() && ticks > Work(s) + |s.fate|
    ensures var f := Loop(cfg, s, true, ticks);
            match f.ending
            case TimedOut => false
            case StillWaiting => |f.sock.sent| == |s.arrived|
            case Stopped =>
              !OnErrorNeverStops(cfg) || (!NothingStops(cfg, s) && !NoStops(LastCode(cfg, f.sock)))
            case Left => !OnErrorOnlyReports(cfg)
  {
    hide Loop, Work, NothingStops, OnErrorNeverStops, OnErrorOnlyReports, NoStops, LastCode;
    RunEnds(cfg, s, ticks);
    LoopIsSafe(cfg, s, true, ticks);
  }

  /** Every request is answered: if no frames of the log lead to code that stops the loop, and OnError
      only reports, a long enough run ends waiting for the next request, with exactly one reply sent
      to each request there was, in order and to its requester, whatever libzmq refuses on the way.
      Each reply is honest, and if libzmq refuses nothing it is the one its request deserves. */
  lemma EveryRequestAnswered(cfg: Config, s: Sock, ticks: nat)
    requires Safe(s) && cfg.ErrorsEncodable() && ticks > Work(s) + |s.fate|
    requires NothingStops(cfg, s) && OnErrorNeverStops(cfg) && OnErrorOnlyReports(cfg)
    ensures var f := Loop(cfg, s, true, ticks);
            && f.ending == StillWaiting && |f.sock.sent| == |s.arrived|
            && (forall i | 0 <= i < |s.arrived| :: f.sock.sent[i].peer == s.arrived[i].peer)
            && (Honest(cfg, s) ==> forall i | 0 <= i < |s.arrived| ::
                  Some(f.sock.sent[i].body) in {AnswerTo(cfg, s.arrived, s.buffer, i), Fallback(cfg, s.arrived, i)})
            && (Faithful(cfg, s) ==> forall i | 0 <= i < |s.arrived| ::
                  Some(f.sock.sent[i].body) == AnswerTo(cfg, s.arrived, s.buffer, i))
  {
    hide AnswerTo, Fallback, Loop, Work, NothingStops, OnErrorNeverStops, OnErrorOnlyReports;
    LongRunEnds(cfg, s, ticks);
    LoopIsSafe(cfg, s, true, ticks);
  }

  /** The default quit handler, in any letter case: if libzmq accepts its reply, that is the one reply
      and the loop ends; if not, the handler never gets to stop the loop. */
  lemma QuitStops(cfg: Config, s: Sock, t: Sock, obj: Value, text: string, ticks: nat)
    requires Safe(s) && ticks > 0
    requires Receive(cfg.codec, s) == (t, Item(obj, text)) && t.sending && Lower(text) == "quit"
    requires "quit" in cfg.handlers && forall n, v :: cfg.handlers["quit"](n, v) == HandleQuit(v)
    requires OnlyStops(cfg.onMessage(Clock(t), text, obj)) && OnlyStops(cfg.onCommand(Clock(t), text, obj))
    requires Encode(cfg.codec, QUIT_DATA, "quitresponse").Some?
    ensures var m := Encode(cfg.codec, QUIT_DATA, "quitresponse").value;
            var calls := cfg.onMessage(Clock(t), text, obj) + cfg.onCommand(Clock(t), text, obj);
            if Accepts(t) then Loop(cfg, s, true, ticks) == Finish(Replied(t, m), false, Stopped)
            else Pass(cfg, s, true) == Recover(cfg, Refusal(t), calls == [], EFSM)
  {
    hide Encode, Lower, Decode;
    var calls := cfg.onMessage(Clock(t), text, obj) + cfg.onCommand(Clock(t), text, obj);
    var quit := HandleQuit(obj);
    var m := Encode(cfg.codec, QUIT_DATA, "quitresponse").value;
    assert Dispatch(cfg, Clock(t), obj, text) == calls + quit;
    StopsThenRun(cfg.codec, t, true, calls, quit);
    SafeReceive(cfg.codec, s);
    SendOwing(t, m);
    assert quit[1..] == [StopLoop] && [StopLoop][1..] == [];
    assert Run(cfg.codec, t, true, calls + quit)
           == if Accepts(t) then Execution(Replied(t, m), false, None)
              else Execution(Refusal(t), calls == [], Some(EFSM));
  }
}
