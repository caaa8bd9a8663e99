/** The CommandSocket class of lib/+zmq/CommandSocket.m, on a socket that start() has opened.
    MATLAB exceptions are results: a method that throws returns Some(message), or Thrown.  The class
    comes first; what its default handlers mean for a whole run of the server follows it. */
module CommandSockets {
  import opened Native
  import opened Framing
  import opened Service

  datatype Outcome = Done | Thrown(why: string) | Waits

  const WRONG_MODE := "method cannot be used in this mode"

  datatype Reaction = Reaction(running: bool, thrown: Option<string>)

  /** User code on the client, where sendResponse throws: it never touches the socket. */
  function React(running: bool, acts: seq<Action>): Reaction {
    if acts == [] then Reaction(running, None)
    else match acts[0]
      case Throw(why) => Reaction(running, Some(why))
      case StopLoop => React(false, acts[1..])
      case Reply(_, _) => Reaction(running, Some(WRONG_MODE))
  }

  /** What sendCommand runs when a response has been read. */
  function Responses(handlers: map<string, Handler>, onResponse: (nat, string, Value) -> seq<Action>,
                     n: nat, obj: Value, text: string): seq<Action> {
    (if Lower(text) in handlers then handlers[Lower(text)](n, obj) else []) + onResponse(n, text, obj)
  }

  /** After a response the handler registered for it runs, in any letter case, and then OnResponse: the
      first action other than setting Running is the exception that reaches the caller. */
  lemma ResponseThrows(handlers: map<string, Handler>, onResponse: (nat, string, Value) -> seq<Action>,
                       running: bool, n: nat, obj: Value, text: string, code: seq<Action>, k: nat)
    requires code == (if Lower(text) in handlers then handlers[Lower(text)](n, obj) else []) + onResponse(n, text, obj)
    requires k <= |code| && (forall i | 0 <= i < k :: code[i].StopLoop?) && (k < |code| ==> !code[k].StopLoop?)
    ensures React(running, Responses(handlers, onResponse, n, obj, text))
            == Reaction(running && k == 0,
                        if k == |code| then None else if code[k].Throw? then Some(code[k].why) else Some(WRONG_MODE))
  {
    hide Lower;
    assert Responses(handlers, onResponse, n, obj, text) == code;
    ReactFirst(running, code, k);
  }

  lemma {:induction false} ReactFirst(running: bool, code: seq<Action>, k: nat)
    requires k <= |code| && (forall i | 0 <= i < k :: code[i].StopLoop?) && (k < |code| ==> !code[k].StopLoop?)
    ensures React(running, code)
            == Reaction(running && k == 0,
                        if k == |code| then None else if code[k].Throw? then Some(code[k].why) else Some(WRONG_MODE))
    decreases k
  {
    if k > 0 { ReactFirst(false, code[1..], k - 1); }
  }

  const RESPONSES := {ECHO_RESPONSE, "printresponse", "timeresponse", "quitresponse", ERROR_RESPONSE}

  lemma LowerCaseNames()
    ensures forall c | c in DEFAULTS :: Lower(c) == c
    ensures "echo" != "quit"
  {
    assert "echo"[0] != "quit"[0];
  }

  lemma LowerCaseResponses()
    ensures forall c | c in RESPONSES :: Lower(c) == c
  {
  }

  class CommandSocket {
    const isServer: bool
    const codec: Codec
    var running: bool
    var sock: Sock
    var commandHandlers: map<string, Handler>
    var responseHandlers: map<string, Handler>
    var onMessage: (nat, string, Value) -> seq<Action>
    var onCommand: (nat, string, Value) -> seq<Action>
    var onResponse: (nat, string, Value) -> seq<Action>
    var onError: (nat, string) -> seq<Action>

    function Cfg(): Config
      reads this
    {
      Config(codec, commandHandlers, onMessage, onCommand, onError)
    }

    /** A started socket with the default handlers and no callbacks.  `now` is what gettime reports
        in each dispatch. */
    constructor (isServer: bool, codec: Codec, buffer: Size, fate: seq<bool>, now: nat -> nat)
      ensures this.isServer == isServer && this.codec == codec && running == isServer
      ensures sock == if isServer then NewRep(buffer, fate) else NewReq(buffer, fate)
      ensures Fresh(Cfg(), now)
      ensures responseHandlers.Keys == RESPONSES && forall c, n, v | c in RESPONSES :: responseHandlers[c](n, v) == []
      ensures forall n, t, v :: onResponse(n, t, v) == []
    {
      this.isServer, this.codec := isServer, codec;
      running := isServer;
      sock := if isServer then NewRep(buffer, fate) else NewReq(buffer, fate);
      commandHandlers, responseHandlers := map[], map[];
      onMessage, onCommand, onResponse := (n, t, v) => [], (n, t, v) => [], (n, t, v) => [];
      onError := (n, why) => [];
      new;
      RegisterDefaultHandlers(now);
    }

    /** The default response handlers only print. */
    method RegisterDefaultHandlers(now: nat -> nat)
      modifies this`commandHandlers, this`responseHandlers
      ensures HasDefaults(commandHandlers, now)
      ensures commandHandlers.Keys == old(commandHandlers.Keys) + DEFAULTS
      ensures forall c | c in old(commandHandlers) && c !in DEFAULTS :: commandHandlers[c] == old(commandHandlers)[c]
      ensures responseHandlers.Keys == old(responseHandlers.Keys) + RESPONSES
      ensures forall c | c in responseHandlers ::
                if c in RESPONSES then forall n, v :: responseHandlers[c](n, v) == []
                else responseHandlers[c] == old(responseHandlers)[c]
    {
      hide HasDefaults;
      RegisterDefaultCommands(now);
      RegisterDefaultResponses();
    }

    method RegisterDefaultCommands(now: nat -> nat)
      modifies this`commandHandlers
      ensures HasDefaults(commandHandlers, now)
      ensures commandHandlers.Keys == old(commandHandlers.Keys) + DEFAULTS
      ensures forall c | c in old(commandHandlers) && c !in DEFAULTS :: commandHandlers[c] == old(commandHandlers)[c]
    {
      LowerCaseNames();
      hide Lower, HandleEcho, HandlePrint, HandleGetTime, HandleQuit;
      var echo: Handler := (n: nat, v: Value) => HandleEcho(v);
      var display: Handler := (n: nat, v: Value) => HandlePrint(v);
      var gettime: Handler := (n: nat, v: Value) => HandleGetTime(now(n));
      var quit: Handler := (n: nat, v: Value) => HandleQuit(v);
      RegisterCommand("echo", echo);
      RegisterCommand("print", display);
      RegisterCommand("gettime", gettime);
      RegisterCommand("quit", quit);
      assert commandHandlers["echo"] == echo && commandHandlers["print"] == display
             && commandHandlers["gettime"] == gettime && commandHandlers["quit"] == quit;
    }

    method RegisterDefaultResponses()
      modifies this`responseHandlers
      ensures responseHandlers.Keys == old(responseHandlers.Keys) + RESPONSES
      ensures forall c | c in responseHandlers ::
                if c in RESPONSES then forall n, v :: responseHandlers[c](n, v) == []
                else responseHandlers[c] == old(responseHandlers)[c]
    {
      LowerCaseResponses();
      hide Lower;
      var show: Handler := (n: nat, v: Value) => [];
      RegisterResponse(ECHO_RESPONSE, show);
      RegisterResponse("printresponse", show);
      RegisterResponse("timeresponse", show);
      RegisterResponse("quitresponse", show);
      RegisterResponse(ERROR_RESPONSE, show);
    }

    /** Commands are registered, and looked up, in lower case. */
    method RegisterCommand(command: string, handler: Handler)
      modifies this`commandHandlers
      ensures commandHandlers == old(commandHandlers)[Lower(command) := handler]
    {
      commandHandlers := commandHandlers[Lower(command) := handler];
    }

    method RegisterResponse(response: string, handler: Handler)
      modifies this`responseHandlers
      ensures responseHandlers == old(responseHandlers)[Lower(response) := handler]
    {
      responseHandlers := responseHandlers[Lower(response) := handler];
    }

    method SendObject(data: Value, text: string) returns (thrown: Option<string>)
      requires sock.Ok()
      modifies this`sock
      ensures match Encode(codec, data, text)
              case None => sock == old(sock) && thrown == Some(UNSENDABLE)
              case Some(m) =>
                (sock, thrown.None?) == old(sock.SendAll(m)) && (thrown.Some? ==> thrown == Some(EFSM))
    {
      var stream := [];
      if !IsEmpty(data) {
        var s := codec.ser(data);
        if s.None? { return Some(UNSENDABLE); }
        stream := s.value;
      }
      var ok: bool;
      if text != "" && stream != [] {
        SendWhole(sock, [Bytes(text), stream]);
        ok := SendFrame(Bytes(text), true);
        if ok { ok := SendFrame(stream, false); }
      } else if text != "" {
        SendWhole(sock, [Bytes(text)]);
        ok := SendFrame(Bytes(text), false);
      } else if stream != [] {
        SendWhole(sock, [stream]);
        ok := SendFrame(stream, false);
      } else {
        return Some(UNSENDABLE);
      }
      thrown := if ok then None else Some(EFSM);
    }

    method SendResponse(data: Value, responseText: string) returns (thrown: Option<string>)
      requires sock.Ok()
      modifies this`sock
      ensures !isServer ==> thrown == Some(WRONG_MODE) && sock == old(sock)
      ensures isServer ==>
                match Encode(codec, data, responseText)
                case None => sock == old(sock) && thrown == Some(UNSENDABLE)
                case Some(m) =>
                  (sock, thrown.None?) == old(sock.SendAll(m)) && (thrown.Some? ==> thrown == Some(EFSM))
    {
      if !isServer { return Some(WRONG_MODE); }
      thrown := SendObject(data, responseText);
    }

    /** Socket.send */
    method SendFrame(f: Frame, more: bool) returns (ok: bool)
      requires sock.Ok()
      modifies this`sock
      ensures (sock, ok) == old(sock.SendFrame(f, more))
    {
      var r := sock.SendFrame(f, more);
      sock, ok := r.0, r.1;
    }

    method ReceiveObject() returns (r: Receipt)
      requires sock.Ok()
      modifies this`sock
      ensures (sock, r) == old(Receive(codec, sock))
    {
      var d := sock.RecvFrame();
      sock := d.0;
      if d.1.WouldBlock? { return Waiting; }
      if d.1.OutOfTurn? { return Refused; }
      var text := Chars(d.1.frame);
      var obj := Null;
      if sock.RcvMore() {
        var second := sock.RecvFrame();
        sock := second.0;
        var stream := second.1.frame;
        if stream != [] {
          var v := codec.de(stream);
          if v.Some? { obj := v.value; }
        }
      }
      return Item(obj, text);
    }

    /** User code: a handler or a callback. */
    method Perform(acts: seq<Action>) returns (thrown: Option<string>)
      requires sock.Ok()
      modifies this`sock, this`running
      ensures Execution(sock, running, thrown) == old(Run(codec, sock, running, acts))
    {
      var i := 0;
      while i < |acts|
        invariant 0 <= i <= |acts| && sock.Ok()
        invariant old(Run(codec, sock, running, acts)) == Run(codec, sock, running, acts[i..])
      {
        match acts[i] {
          case Throw(why) => return Some(why);
          case StopLoop => running := false;
          case Reply(data, text) =>
            thrown := SendObject(data, text);
            if thrown.Some? { return; }
        }
        i := i + 1;
      }
      return None;
    }

    method ProcessOneRequest() returns (o: Outcome)
      requires sock.Ok()
      modifies this`sock, this`running
      ensures !isServer ==> o == Thrown(WRONG_MODE) && sock == old(sock) && running == old(running)
      ensures isServer ==>
                match old(Receive(codec, sock))
                case (s, Waiting) => o == Waits && sock == old(sock) && running == old(running)
                case (s, Refused) => o == Thrown(EFSM) && sock == old(sock) && running == old(running)
                case (s, Item(obj, text)) =>
                  var e := Run(codec, s, old(running), Dispatch(old(Cfg()), Clock(s), obj, text));
                  sock == e.sock && running == e.running
                  && o == match e.thrown case None => Done case Some(why) => Thrown(why)
    {
      if !isServer { return Thrown(WRONG_MODE); }
      var r := ReceiveObject();
      if r.Waiting? { return Waits; }
      if r.Refused? { return Thrown(EFSM); }
      var known := Lower(r.text) in commandHandlers;
      var acts := onMessage(Clock(sock), r.text, r.obj) + onCommand(Clock(sock), r.text, r.obj)
                  + (if known then commandHandlers[Lower(r.text)](Clock(sock), r.obj)
                     else [Reply(UnknownCommand(r.text, commandHandlers.Keys), ERROR_RESPONSE)]);
      var thrown := Perform(acts);
      return match thrown case None => Done case Some(why) => Thrown(why);
    }

    /** The loop body: try, catch, and the error response. */
    method OnePass(ghost cfg: Config) returns (verdict: Verdict)
      requires isServer && sock.Ok() && cfg == Cfg()
      modifies this`sock, this`running
      ensures Round(sock, running, verdict) == Pass(cfg, old(sock), old(running))
    {
      hide Dispatch, Run, Decode;
      var o := ProcessOneRequest();
      match o {
        case Done => return Continue;
        case Waits => return Blocked;
        case Thrown(why) =>
          var fromHook := Perform(onError(Clock(sock), why));
          if fromHook.Some? { return Escaped; }
          var _ := SendObject(ErrorData(why), ERROR_RESPONSE);
          return Continue;
      }
    }

    /** The server loop; `ticks` is how many times the clock is found to be before the deadline.
        In the wrong mode it throws (None).  What Service.Loop is proved to do (LoopIsSafe,
        LongRunEnds, EveryRequestAnswered, UnansweredBecause), this does. */
    method ProcessRequests(ticks: nat) returns (end: Option<Ending>)
      requires sock.Ok()
      modifies this`sock, this`running
      ensures !isServer ==> end == None && sock == old(sock) && running == old(running)
      ensures isServer ==> end.Some? && Finish(sock, running, end.value) == old(Loop(Cfg(), sock, true, ticks))
    {
      hide Loop;
      if !isServer { return None; }
      running := true;
      var ending := Serve(Cfg(), ticks);
      return Some(ending);
    }

    method Serve(ghost cfg: Config, ticks: nat) returns (ending: Ending)
      requires isServer && sock.Ok() && cfg == Cfg()
      modifies this`sock, this`running
      ensures Finish(sock, running, ending) == Loop(cfg, old(sock), old(running), ticks)
    {
      hide Pass;
      ghost var whole := Loop(cfg, sock, running, ticks);
      var left := ticks;
      while running && left > 0
        invariant sock.Ok() && cfg == Cfg() && whole == Loop(cfg, sock, running, left)
      {
        var verdict := OnePass(cfg);
        if verdict.Blocked? { return StillWaiting; }
        if verdict.Escaped? { return Left; }
        left := left - 1;
      }
      return if running then TimedOut else Stopped;
    }

    /** The client's call: one request out, one reply in, then the response handler and OnResponse.  An
        exception from either reaches the caller, but only after the reply has been read. */
    method SendCommand(command: string, data: Value) returns (o: Outcome, obj: Value, text: string)
      requires sock.Ok()
      modifies this`sock, this`running
      ensures isServer ==> o == Thrown(WRONG_MODE) && sock == old(sock) && running == old(running)
      ensures !isServer ==>
                match Encode(codec, data, command)
                case None => o == Thrown(UNSENDABLE) && sock == old(sock) && running == old(running)
                case Some(m) =>
                  var (s, ok) := old(sock.SendAll(m));
                  if !ok then o == Thrown(EFSM) && sock == s && running == old(running)
                  else
                    var (u, r) := Receive(codec, s);
                    sock == u &&
                    match r
                    case Waiting => o == Waits && running == old(running)
                    case Refused => o == Thrown(EFSM) && running == old(running)
                    case Item(v, t) =>
                      var e := React(old(running), Responses(old(responseHandlers), old(onResponse), Clock(u), v, t));
                      running == e.running
                      && match e.thrown
                         case Some(why) => o == Thrown(why)
                         case None => o == Done && (obj, text) == (v, t)
    {
      hide Encode, Decode, React;
      obj, text := Null, "";
      if isServer { return Thrown(WRONG_MODE), obj, text; }
      var thrown := SendObject(data, command);
      if thrown.Some? { return Thrown(thrown.value), obj, text; }
      var r := ReceiveObject();
      match r {
        case Waiting => return Waits, obj, text;
        case Refused => return Thrown(EFSM), obj, text;
        case Item(v, t) =>
          var known := Lower(t) in responseHandlers;
          var e := Respond((if known then responseHandlers[Lower(t)](Clock(sock), v) else [])
                           + onResponse(Clock(sock), t, v));
          if e.Some? { return Thrown(e.value), obj, text; }
          return Done, v, t;
      }
    }

    /** User code on the client. */
    method Respond(acts: seq<Action>) returns (thrown: Option<string>)
      requires !isServer && sock.Ok()
      modifies this`running, this`sock
      ensures Reaction(running, thrown) == React(old(running), acts) && sock == old(sock)
    {
      var i := 0;
      while i < |acts|
        invariant 0 <= i <= |acts| && sock == old(sock)
        invariant React(old(running), acts) == React(running, acts[i..])
      {
        match acts[i] {
          case Throw(why) => return Some(why);
          case StopLoop => running := false;
          case Reply(data, text) =>
            thrown := SendResponse(data, text);
            return;
        }
        i := i + 1;
      }
      return None;
    }
  }

  // ---------------------------------------------------------------- what the default handlers do to the loop

  /** The text of the frames that start at frame j of request i. */
  function CommandAt(log: seq<Envelope>, buffer: nat, i: nat, j: nat): string
    requires i < |log| && j < |log[i].body|
  {
    Chars(Cut(log[i].body[j], buffer))
  }

  /** The text read last. */
  function LastCommand(s: Sock): Option<string>
    requires s.Ok()
  {
    if s.at >= 2 then Some(CommandAt(s.arrived, s.buffer, s.taken, s.at - 2))
    else if s.taken == 0 then None
    else Some(CommandAt(s.arrived, s.buffer, s.taken - 1, LastStart(s.arrived[s.taken - 1].body)))
  }

  ghost predicate NobodyQuits(s: Sock)
    requires s.Ok()
  {
    forall i, j | && s.taken <= i < |s.arrived| && 0 <= j < |s.arrived[i].body|
                  && j % 2 == 0 && (i == s.taken ==> s.at <= j) ::
      Lower(CommandAt(s.arrived, s.buffer, i, j)) != "quit"
  }

  lemma FreshDispatch(cfg: Config, now: nat -> nat, n: nat, obj: Value, text: string)
    requires Fresh(cfg, now)
    ensures NoStops(Dispatch(cfg, n, obj, text)) <==> Lower(text) != "quit"
  {
    hide Lower, EchoOf, UnknownCommand;
    var code := if Lower(text) in cfg.handlers then cfg.handlers[Lower(text)](n, obj)
                else [Reply(UnknownCommand(text, cfg.handlers.Keys), ERROR_RESPONSE)];
    assert Dispatch(cfg, n, obj, text) == code;
    if Lower(text) == "quit" { assert code[1].StopLoop?; }
  }

  lemma FreshCode(cfg: Config, now: nat -> nat, log: seq<Envelope>, buffer: nat, i: nat, j: nat)
    requires Fresh(cfg, now) && i < |log| && j < |log[i].body|
    ensures NoStops(CodeAt(cfg, log, buffer, i, j)) <==> Lower(CommandAt(log, buffer, i, j)) != "quit"
  {
    hide Dispatch, NoStops, Fresh, Lower, FramesIn;
    var body := log[i].body;
    var end := if j + 1 == |body| then j + 1 else j + 2;
    var (obj, text) := Decode(cfg.codec, CutAll(body[j..end], buffer));
    FreshDispatch(cfg, now, FramesIn(log[..i]) + end, obj, text);
  }

  lemma FreshLog(cfg: Config, now: nat -> nat, s: Sock)
    requires Fresh(cfg, now) && s.Ok()
    ensures NobodyQuits(s) <==> NothingStops(cfg, s)
    ensures NoStops(LastCode(cfg, s)) <==> (LastCommand(s).Some? ==> Lower(LastCommand(s).value) != "quit")
    ensures OnErrorNeverStops(cfg) && OnErrorOnlyReports(cfg)
  {
    hide CodeAt, CommandAt, Lower, HasDefaults;
    forall i, j | 0 <= i < |s.arrived| && 0 <= j < |s.arrived[i].body|
      ensures NoStops(CodeAt(cfg, s.arrived, s.buffer, i, j))
              <==> Lower(CommandAt(s.arrived, s.buffer, i, j)) != "quit"
    {
      FreshCode(cfg, now, s.arrived, s.buffer, i, j);
    }
  }

  /** A server as constructed, given enough passes, ends waiting with every request answered, or
      stopped because the frames it read last say quit; and if no frames it has still to read do,
      the former, each request having exactly one reply, the one it deserves when libzmq refuses
      nothing. */
  lemma FreshServerRuns(cfg: Config, now: nat -> nat, s: Sock, ticks: nat)
    requires Fresh(cfg, now) && cfg.ErrorsEncodable()
    requires Safe(s) && ticks > Work(s) + |s.fate|
    ensures var f := Loop(cfg, s, true, ticks);
            && (|| (f.ending == StillWaiting && |f.sock.sent| == |s.arrived|)
                || (&& f.ending == Stopped && LastCommand(f.sock).Some?
                    && Lower(LastCommand(f.sock).value) == "quit" && !NobodyQuits(s)))
            && (NobodyQuits(s) ==>
                  && f.ending == StillWaiting && |f.sock.sent| == |s.arrived|
                  && (forall i | 0 <= i < |s.arrived| :: f.sock.sent[i].peer == s.arrived[i].peer)
                  && (Faithful(cfg, s) ==> forall i | 0 <= i < |s.arrived| ::
                        Some(f.sock.sent[i].body) == AnswerTo(cfg, s.arrived, s.buffer, i)))
  {
    hide Loop, Work, AnswerTo, NobodyQuits, NothingStops, OnErrorNeverStops, OnErrorOnlyReports, NoStops, LastCode,
         LastCommand, Lower, Fresh;
    LongRunEnds(cfg, s, ticks);
    FreshLog(cfg, now, s);
    FreshLog(cfg, now, Loop(cfg, s, true, ticks).sock);
    if NobodyQuits(s) { EveryRequestAnswered(cfg, s, ticks); }
  }
}
