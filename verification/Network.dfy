/** One server and any number of clients, all interleavings: who holds the token, and which reply
    each sendCommand returns. */
module Network {
  import opened Native
  import opened Framing
  import opened Service

  /** `results[c]` lists what the calls of sendCommand by client c have returned so far. */
  datatype System = System(server: Sock, running: bool, clients: seq<Sock>, results: seq<seq<(Value, string)>>)

  datatype Event =
    | ClientSends(c: nat, m: Message)  // the first half of sendCommand
    | RequestArrives(c: nat)
    | ServerStarts                     // processRequests is called
    | ServerPass                       // one pass of its loop
    | ReplyArrives(c: nat)
    | ClientReceives(c: nat)           // the second half of sendCommand

  /** The messages of a log that concern peer c. */
  function Of(log: seq<Envelope>, c: nat): seq<Message> {
    if log == [] then [] else
      var last := log[|log| - 1];
      Of(log[..|log| - 1], c) + if last.peer == c then [last.body] else []
  }

  function Bodies(log: seq<Envelope>): (b: seq<Message>)
    ensures |b| == |log| && forall i | 0 <= i < |log| :: b[i] == log[i].body
  {
    seq(|log|, i requires 0 <= i < |log| => log[i].body)
  }

  ghost predicate Initial(sys: System) {
    && sys.server == NewRep(sys.server.buffer, sys.server.fate)
    && |sys.results| == |sys.clients|
    && forall c | 0 <= c < |sys.clients| ::
         sys.clients[c] == NewReq(sys.clients[c].buffer, sys.clients[c].fate) && sys.results[c] == []
  }

  ghost predicate WellFormed(sys: System) {
    && sys.server.Ok() && |sys.results| == |sys.clients|
    && forall c | 0 <= c < |sys.clients| :: sys.clients[c].Ok()
  }

  /** What an event does; an event that is not possible does nothing.  Messages between two peers
      arrive in the order sent. */
  function Next(cfg: Config, sys: System, ev: Event): (next: System)
    requires WellFormed(sys)
    ensures |next.clients| == |sys.clients|
  {
    match ev
    case ClientSends(c, m) =>
      if c >= |sys.clients| then sys
      else sys.(clients := sys.clients[c := sys.clients[c].SendAll(m).0])
    case RequestArrives(c) =>
      if c >= |sys.clients| then sys
      else
        var k := |Of(sys.server.arrived, c)|;
        if k >= |sys.clients[c].sent| then sys
        else sys.(server := sys.server.Deliver(Envelope(c, sys.clients[c].sent[k].body)))
    case ServerStarts => sys.(running := true)
    case ServerPass =>
      if !sys.running then sys
      else
        var r := Pass(cfg, sys.server, true);
        sys.(server := r.sock, running := r.running && r.verdict != Escaped)
    case ReplyArrives(c) =>
      if c >= |sys.clients| then sys
      else
        var k := |sys.clients[c].arrived|;
        var replies := Of(sys.server.sent, c);
        if k >= |replies| then sys
        else sys.(clients := sys.clients[c := sys.clients[c].Deliver(Envelope(0, replies[k]))])
    case ClientReceives(c) =>
      if c >= |sys.clients| then sys
      else
        match Receive(cfg.codec, sys.clients[c])
        case (s, Item(obj, text)) =>
          sys.(clients := sys.clients[c := s], results := sys.results[c := sys.results[c] + [(obj, text)]])
        case _ => sys
  }

  /** What holds for client c in every reachable state. */
  ghost predicate ClientInv(codec: Codec, server: Sock, client: Sock, results: seq<(Value, string)>, c: nat) {
    && client.IsReq() && client.partial == [] && client.at == 0
    && Of(server.arrived, c) <= Bodies(client.sent)
    && Bodies(client.arrived) <= Of(server.sent, c)
    && |results| == client.taken
    && (forall i | 0 <= i < |client.arrived| :: |client.arrived[i].body| <= 2)
    && (forall i | 0 <= i < client.taken ::
          results[i] == Decode(codec, CutAll(client.arrived[i].body, client.buffer)))
  }

  ghost predicate Inv(codec: Codec, sys: System) {
    && Safe(sys.server) && |sys.results| == |sys.clients|
    && (forall c | 0 <= c < |sys.clients| :: ClientInv(codec, sys.server, sys.clients[c], sys.results[c], c))
  }

  lemma InvHoldsInitially(codec: Codec, sys: System)
    requires Initial(sys)
    ensures Inv(codec, sys)
  {
  }

  lemma OfAppend(log: seq<Envelope>, e: Envelope, c: nat)
    ensures Of(log + [e], c) == Of(log, c) + if e.peer == c then [e.body] else []
  {
    assert (log + [e])[..|log|] == log;
  }

  lemma {:induction false} OfConcat(log: seq<Envelope>, more: seq<Envelope>, c: nat)
    ensures Of(log + more, c) == Of(log, c) + Of(more, c)
    decreases |more|
  {
    if more == [] {
      assert log + more == log;
    } else {
      var n := |more| - 1;
      var init, last := more[..n], more[n];
      assert init + [last] == more && log + init + [last] == log + more;
      OfConcat(log, init, c);
      OfAppend(log + init, last, c);
      OfAppend(init, last, c);
    }
  }

  lemma {:induction false} OfShort(log: seq<Envelope>, c: nat)
    requires forall i | 0 <= i < |log| :: |log[i].body| <= 2
    ensures forall i | 0 <= i < |Of(log, c)| :: |Of(log, c)[i]| <= 2
  {
    if log != [] { OfShort(log[..|log| - 1], c); }
  }

  lemma InvKept(cfg: Config, sys: System, ev: Event)
    requires Inv(cfg.codec, sys)
    ensures Inv(cfg.codec, Next(cfg, sys, ev))
  {
    var next := Next(cfg, sys, ev);
    if next != sys && !ev.ServerStarts? {
      match ev
      case ClientSends(c, m) => ClientSendsKeeps(cfg, sys, c, m);
      case RequestArrives(c) => RequestArrivesKeeps(cfg, sys, c);
      case ServerPass => ServerPassKeeps(cfg, sys);
      case ReplyArrives(c) => ReplyArrivesKeeps(cfg, sys, c);
      case ClientReceives(c) => ClientReceivesKeeps(cfg, sys, c);
    }
  }

  lemma ClientSendsKeeps(cfg: Config, sys: System, c: nat, m: Message)
    requires Inv(cfg.codec, sys) && c < |sys.clients|
    ensures Inv(cfg.codec, Next(cfg, sys, ClientSends(c, m)))
  {
    hide Decode, Of;
    var before := sys.clients[c];
    var after := before.SendAll(m).0;
    assert Bodies(before.sent) <= Bodies(after.sent);
    assert ClientInv(cfg.codec, sys.server, after, sys.results[c], c);
  }

  lemma SafeDeliver(s: Sock, e: Envelope)
    requires Safe(s)
    ensures Safe(s.Deliver(e))
  {
  }

  lemma RequestArrivesKeeps(cfg: Config, sys: System, c: nat)
    requires Inv(cfg.codec, sys) && c < |sys.clients|
    ensures Inv(cfg.codec, Next(cfg, sys, RequestArrives(c)))
  {
    hide Decode, Of, Safe;
    var k := |Of(sys.server.arrived, c)|;
    if k < |sys.clients[c].sent| {
      var e := Envelope(c, sys.clients[c].sent[k].body);
      forall d | 0 <= d < |sys.clients|
        ensures Of(sys.server.arrived + [e], d) <= Bodies(sys.clients[d].sent)
      {
        assert ClientInv(cfg.codec, sys.server, sys.clients[d], sys.results[d], d);
        OfAppend(sys.server.arrived, e, d);
      }
      SafeDeliver(sys.server, e);
    }
  }

  /** Replies are only ever added. */
  lemma {:induction false} RunAppends(c: Codec, s: Sock, running: bool, acts: seq<Action>)
    requires s.Ok()
    ensures s.sent <= Run(c, s, running, acts).sock.sent
    decreases |acts|
  {
    if acts != [] {
      match acts[0]
      case Throw(_) =>
      case StopLoop => RunAppends(c, s, false, acts[1..]);
      case Reply(data, text) =>
        var m := Encode(c, data, text);
        if m.Some? { RunAppends(c, s.SendAll(m.value).0, running, acts[1..]); }
    }
  }

  lemma RecoverAppends(cfg: Config, s: Sock, running: bool, why: string)
    requires s.Ok()
    ensures s.sent <= Recover(cfg, s, running, why).sock.sent
  {
    RunAppends(cfg.codec, s, running, cfg.onError(Clock(s), why));
  }

  lemma PassAppends(cfg: Config, s: Sock, running: bool)
    requires s.Ok()
    ensures s.sent <= Pass(cfg, s, running).sock.sent
  {
    match Receive(cfg.codec, s)
    case (_, Waiting) =>
    case (_, Refused) => RecoverAppends(cfg, s, running, EFSM);
    case (t, Item(obj, text)) =>
      var acts := Dispatch(cfg, Clock(t), obj, text);
      RunAppends(cfg.codec, t, running, acts);
      var e := Run(cfg.codec, t, running, acts);
      if e.thrown.Some? { RecoverAppends(cfg, e.sock, e.running, e.thrown.value); }
  }

  lemma ServerPassKeeps(cfg: Config, sys: System)
    requires Inv(cfg.codec, sys)
    ensures Inv(cfg.codec, Next(cfg, sys, ServerPass))
  {
    hide Pass;
    if sys.running {
      SafePass(cfg, sys.server, true);
      PassAppends(cfg, sys.server, true);
      var s := Pass(cfg, sys.server, true).sock;
      var more := s.sent[|sys.server.sent|..];
      assert s.sent == sys.server.sent + more;
      forall d | 0 <= d < |sys.clients|
        ensures ClientInv(cfg.codec, s, sys.clients[d], sys.results[d], d)
      {
        OfConcat(sys.server.sent, more, d);
      }
    }
  }

  lemma ReplyArrivesKeeps(cfg: Config, sys: System, c: nat)
    requires Inv(cfg.codec, sys) && c < |sys.clients|
    ensures Inv(cfg.codec, Next(cfg, sys, ReplyArrives(c)))
  {
    var client := sys.clients[c];
    var k := |client.arrived|;
    OfShort(sys.server.sent, c);
    if k < |Of(sys.server.sent, c)| {
      var s := client.Deliver(Envelope(0, Of(sys.server.sent, c)[k]));
      assert Bodies(s.arrived) == Bodies(client.arrived) + [Of(sys.server.sent, c)[k]];
      assert ClientInv(cfg.codec, sys.server, s, sys.results[c], c);
    }
  }

  lemma ClientReceivesKeeps(cfg: Config, sys: System, c: nat)
    requires Inv(cfg.codec, sys) && c < |sys.clients|
    ensures Inv(cfg.codec, Next(cfg, sys, ClientReceives(c)))
  {
    hide Receive, Decode;
    var client := sys.clients[c];
    if Receive(cfg.codec, client).1.Item? {
      ReceiveReads(cfg.codec, client);
      var body := client.arrived[client.taken].body;
      assert body[0..|body|] == body;
      var (s, item) := Receive(cfg.codec, client);
      assert ClientInv(cfg.codec, sys.server, s, sys.results[c] + [(item.obj, item.text)], c);
    }
  }

  // ---------------------------------------------------------------- runs

  /** The state after a sequence of events, starting from a state that satisfies the invariant. */
  ghost function Exec(cfg: Config, sys: System, evs: seq<Event>): (end: System)
    requires Inv(cfg.codec, sys)
    ensures Inv(cfg.codec, end) && |end.clients| == |sys.clients|
    decreases |evs|
  {
    if evs == [] then sys
    else
      InvKept(cfg, sys, evs[0]);
      Exec(cfg, Next(cfg, sys, evs[0]), evs[1..])
  }

  /** The state after a sequence of events from the start. */
  ghost function Reach(cfg: Config, init: System, evs: seq<Event>): (end: System)
    requires Initial(init)
    ensures Inv(cfg.codec, end) && |end.clients| == |init.clients|
  {
    InvHoldsInitially(cfg.codec, init);
    Exec(cfg, init, evs)
  }

  lemma {:induction false} ExecConcat(cfg: Config, sys: System, evs: seq<Event>, more: seq<Event>)
    requires Inv(cfg.codec, sys)
    ensures Exec(cfg, sys, evs + more) == Exec(cfg, Exec(cfg, sys, evs), more)
    decreases |evs|
  {
    if evs == [] {
      assert evs + more == more;
    } else {
      assert (evs + more)[1..] == evs[1..] + more;
      InvKept(cfg, sys, evs[0]);
      ExecConcat(cfg, Next(cfg, sys, evs[0]), evs[1..], more);
    }
  }

  /** The last event acts on the state the others have reached. */
  lemma ReachLast(cfg: Config, init: System, evs: seq<Event>)
    requires Initial(init) && evs != []
    ensures var before, last := Reach(cfg, init, evs[..|evs| - 1]), evs[|evs| - 1];
            WellFormed(before) && Reach(cfg, init, evs) == Next(cfg, before, last)
  {
    hide Next, Inv, Initial;
    var n := |evs| - 1;
    assert evs == evs[..n] + [evs[n]] && [evs[n]][1..] == [];
    InvHoldsInitially(cfg.codec, init);
    ExecConcat(cfg, init, evs[..n], [evs[n]]);
    var before := Exec(cfg, init, evs[..n]);
    InvWellFormed(cfg.codec, before);
    InvKept(cfg, before, evs[n]);
  }

  lemma InvWellFormed(codec: Codec, sys: System)
    requires Inv(codec, sys)
    ensures WellFormed(sys)
  {
  }

  // ---------------------------------------------------------------- what a client has sent

  /** The positions of the events with which client c has sent a request. */
  ghost function SendTimes(cfg: Config, init: System, evs: seq<Event>, c: nat): (at: seq<nat>)
    requires Initial(init) && c < |init.clients|
    ensures forall k | 0 <= k < |at| :: at[k] < |evs|
    ensures forall j, k | 0 <= j < k < |at| :: at[j] < at[k]
    decreases |evs|
  {
    if evs == [] then []
    else
      var n := |evs| - 1;
      var client := Reach(cfg, init, evs[..n]).clients[c];
      SendTimes(cfg, init, evs[..n], c)
      + if evs[n].ClientSends? && evs[n].c == c && client.sending && Accepts(client) then [n] else []
  }

  /** They are, in order, exactly those at which c was asked to send in turn and libzmq accepted; when it
      refuses nothing, exactly those at which c might send.  The requests c has sent are exactly, in
      order, the messages it was given there. */
  lemma SentIsAsked(cfg: Config, init: System, evs: seq<Event>, c: nat)
    requires Initial(init) && c < |init.clients|
    ensures var at, sent := SendTimes(cfg, init, evs, c), Reach(cfg, init, evs).clients[c].sent;
            && |sent| == |at|
            && (forall k | 0 <= k < |at| :: evs[at[k]] == ClientSends(c, sent[k].body))
            && (forall j, k | 0 <= j < k < |at| :: at[j] < at[k])
    ensures forall i | 0 <= i < |evs| ::
              var sys := Reach(cfg, init, evs[..i]);
              && (i in SendTimes(cfg, init, evs, c) <==>
                    && evs[i].ClientSends? && evs[i].c == c && sys.clients[c].sending
                    && (sys.clients[c].fate == [] || sys.clients[c].fate[0]))
              && (init.clients[c].fate == [] ==> sys.clients[c].fate == [])
  {
    hide Reach, SendTimes, Initial;
    SentAt(cfg, init, evs, c);
    forall i | 0 <= i < |evs|
      ensures var sys := Reach(cfg, init, evs[..i]);
              && (i in SendTimes(cfg, init, evs, c) <==>
                    evs[i].ClientSends? && evs[i].c == c && sys.clients[c].sending && Accepts(sys.clients[c]))
              && (init.clients[c].fate == [] ==> sys.clients[c].fate == [])
    {
      SentAt(cfg, init, evs[..i], c);
      AskedAt(cfg, init, evs, c, i);
    }
  }

  lemma {:induction false} SentAt(cfg: Config, init: System, evs: seq<Event>, c: nat)
    requires Initial(init) && c < |init.clients|
    ensures var at, client := SendTimes(cfg, init, evs, c), Reach(cfg, init, evs).clients[c];
            && |client.sent| == |at|
            && (forall k | 0 <= k < |at| :: evs[at[k]] == ClientSends(c, client.sent[k].body))
            && (init.clients[c].fate == [] ==> client.fate == [])
    decreases |evs|
  {
    if evs != [] {
      var n := |evs| - 1;
      hide Next, Inv, Reach, SendTimes, Initial, Sock.Peer, WellFormed;
      SentAt(cfg, init, evs[..n], c);
      TimesGrow(cfg, init, evs, c);
      assert forall i | 0 <= i < n :: evs[..n][i] == evs[i];
    }
  }

  lemma TimesGrow(cfg: Config, init: System, evs: seq<Event>, c: nat)
    requires Initial(init) && c < |init.clients| && evs != []
    ensures var n := |evs| - 1;
            var before, after := Reach(cfg, init, evs[..n]).clients[c], Reach(cfg, init, evs).clients[c];
            var now := evs[n].ClientSends? && evs[n].c == c && before.sending && Accepts(before);
            && SendTimes(cfg, init, evs, c) == SendTimes(cfg, init, evs[..n], c) + (if now then [n] else [])
            && |after.sent| == |before.sent| + (if now then 1 else 0)
            && (forall k | 0 <= k < |before.sent| :: after.sent[k] == before.sent[k])
            && (now ==> after.sent[|before.sent|].body == evs[n].m)
            && (before.fate == [] ==> after.fate == [])
  {
    hide Next, Inv, Reach, Initial, Sock.Peer, WellFormed, Accepts;
    var n := |evs| - 1;
    ReachLast(cfg, init, evs);
    SendsStep(cfg, Reach(cfg, init, evs[..n]), evs[n], c);
  }

  lemma {:induction false} AskedAt(cfg: Config, init: System, evs: seq<Event>, c: nat, i: nat)
    requires Initial(init) && i < |evs| && c < |init.clients|
    ensures var client := Reach(cfg, init, evs[..i]).clients[c];
            i in SendTimes(cfg, init, evs, c) <==>
            evs[i].ClientSends? && evs[i].c == c && client.sending && Accepts(client)
    decreases |evs|
  {
    hide Reach, Initial, Accepts, SendTimes, Inv;
    var n := |evs| - 1;
    TimesGrow(cfg, init, evs, c);
    if i < n {
      assert evs[..i] == evs[..n][..i] && evs[i] == evs[..n][i];
      AskedAt(cfg, init, evs[..n], c, i);
    } else {
      assert n !in SendTimes(cfg, init, evs[..n], c);
    }
  }

  lemma SendsStep(cfg: Config, sys: System, ev: Event, c: nat)
    requires Inv(cfg.codec, sys) && c < |sys.clients|
    ensures WellFormed(sys)
    ensures var before, after := sys.clients[c], Next(cfg, sys, ev).clients[c];
            && after.sent == before.sent
                             + (if ev.ClientSends? && ev.c == c && before.sending && Accepts(before)
                                then [Envelope(before.Peer(), ev.m)] else [])
            && (before.fate == [] ==> after.fate == [])
  {
    hide Pass, Receive, Of, Sock.Peer;
    assert ClientInv(cfg.codec, sys.server, sys.clients[c], sys.results[c], c);
    if ev.ClientSends? && ev.c == c && sys.clients[c].sending { SendOwing(sys.clients[c], ev.m); }
  }

  lemma AnswersStandAll(cfg: Config, s: Sock, e: Envelope)
    requires s.Ok()
    ensures forall i | 0 <= i < |s.arrived| ::
              && AnswerTo(cfg, s.arrived + [e], s.buffer, i) == AnswerTo(cfg, s.arrived, s.buffer, i)
              && Fallback(cfg, s.arrived + [e], i) == Fallback(cfg, s.arrived, i)
  {
    forall i | 0 <= i < |s.arrived|
      ensures AnswerTo(cfg, s.arrived + [e], s.buffer, i) == AnswerTo(cfg, s.arrived, s.buffer, i)
      ensures Fallback(cfg, s.arrived + [e], i) == Fallback(cfg, s.arrived, i)
    {
      AnswersStand(cfg, s.arrived, [e], s.buffer, i);
    }
  }

  lemma AnswersDeliver(cfg: Config, s: Sock, e: Envelope)
    requires Honest(cfg, s)
    ensures Honest(cfg, s.Deliver(e))
    ensures Faithful(cfg, s) ==> Faithful(cfg, s.Deliver(e))
  {
    AnswersStandAll(cfg, s, e);
    hide AnswerTo, Fallback;
    SafeDeliver(s, e);
  }

  /** Answers are honest in every state, and exact as long as libzmq refuses nothing. */
  lemma {:induction false} AnswersExec(cfg: Config, sys: System, evs: seq<Event>)
    requires Inv(cfg.codec, sys) && Honest(cfg, sys.server) && cfg.ErrorsEncodable()
    ensures Honest(cfg, Exec(cfg, sys, evs).server)
    ensures Faithful(cfg, sys.server) ==> Faithful(cfg, Exec(cfg, sys, evs).server)
    decreases |evs|
  {
    hide Faithful, Honest, Pass;
    if evs != [] {
      var next := Next(cfg, sys, evs[0]);
      InvKept(cfg, sys, evs[0]);
      match evs[0] {
        case RequestArrives(c) =>
          if next != sys {
            var k := |Of(sys.server.arrived, c)|;
            AnswersDeliver(cfg, sys.server, Envelope(c, sys.clients[c].sent[k].body));
          }
        case ServerPass =>
          HonestPass(cfg, sys.server, true);
          if Faithful(cfg, sys.server) { FaithfulPass(cfg, sys.server, true); }
        case _ =>
      }
      AnswersExec(cfg, next, evs[1..]);
    }
  }

  // ---------------------------------------------------------------- frame alignment

  ghost predicate Short(log: seq<Envelope>) {
    forall i | 0 <= i < |log| :: |log[i].body| <= 2
  }

  ghost predicate ShortRequests(sys: System) {
    && Short(sys.server.arrived) && sys.server.at == 0
    && forall c | 0 <= c < |sys.clients| :: Short(sys.clients[c].sent)
  }

  lemma RunKeepsPlace(cfg: Config, s: Sock, running: bool)
    requires s.Ok() && Short(s.arrived) && s.at == 0
    ensures Pass(cfg, s, running).sock.at == 0
  {
    hide Dispatch, Decode;
    if !s.sending && s.taken < |s.arrived| { WholeMessages(cfg.codec, s); }
  }

  lemma ShortKept(cfg: Config, sys: System, ev: Event)
    requires Inv(cfg.codec, sys) && ShortRequests(sys)
    requires ev.ClientSends? ==> |ev.m| <= 2
    ensures ShortRequests(Next(cfg, sys, ev))
  {
    hide Pass, Receive, Decode, Of;
    match ev
    case ServerPass => RunKeepsPlace(cfg, sys.server, true);
    case ClientSends(c, m) =>
      if c < |sys.clients| {
        assert ClientInv(cfg.codec, sys.server, sys.clients[c], sys.results[c], c);
        assert Short(sys.clients[c].SendAll(m).0.sent);
      }
    case RequestArrives(c) =>
    case _ =>
  }

  /** If both peers send at most two frames, as sendObject does, then in every reachable state, error
      responses included, server and clients all stand at a message boundary. */
  lemma {:induction false} FramesAligned(cfg: Config, sys: System, evs: seq<Event>)
    requires Inv(cfg.codec, sys) && ShortRequests(sys)
    requires forall i | 0 <= i < |evs| :: evs[i].ClientSends? ==> |evs[i].m| <= 2
    ensures var end := Exec(cfg, sys, evs);
            && ShortRequests(end)
            && forall c | 0 <= c < |end.clients| :: end.clients[c].at == 0 && Short(end.clients[c].arrived)
    decreases |evs|
  {
    hide Pass, Receive;
    if evs == [] {
      forall c | 0 <= c < |sys.clients| ensures sys.clients[c].at == 0 && Short(sys.clients[c].arrived) {
        assert ClientInv(cfg.codec, sys.server, sys.clients[c], sys.results[c], c);
      }
    } else {
      var next := Next(cfg, sys, evs[0]);
      InvKept(cfg, sys, evs[0]);
      ShortKept(cfg, sys, evs[0]);
      FramesAligned(cfg, next, evs[1..]);
    }
  }

  // ---------------------------------------------------------------- tokens

  /** The position in a log of the k-th message of peer c. */
  function Pos(log: seq<Envelope>, c: nat, k: nat): (i: nat)
    requires k < |Of(log, c)|
    ensures i < |log| && log[i].peer == c && log[i].body == Of(log, c)[k]
  {
    var n := |log| - 1;
    if log[n].peer == c && k == |Of(log[..n], c)| then n else Pos(log[..n], c, k)
  }

  lemma {:induction false} PosInPrefix(log: seq<Envelope>, more: seq<Envelope>, c: nat, k: nat)
    requires k < |Of(log, c)|
    ensures k < |Of(log + more, c)| && Pos(log + more, c, k) == Pos(log, c, k)
    decreases |more|
  {
    OfConcat(log, more, c);
    if more == [] {
      assert log + more == log;
    } else {
      var n := |more| - 1;
      PosInPrefix(log, more[..n], c, k);
      assert (log + more)[..|log| + n] == log + more[..n];
    }
  }

  lemma {:induction false} SamePeers(a: seq<Envelope>, b: seq<Envelope>, c: nat)
    requires |a| == |b| && forall i | 0 <= i < |a| :: a[i].peer == b[i].peer
    ensures |Of(a, c)| == |Of(b, c)|
    ensures forall k | 0 <= k < |Of(a, c)| :: Pos(a, c, k) == Pos(b, c, k)
    decreases |a|
  {
    if a != [] {
      var n := |a| - 1;
      SamePeers(a[..n], b[..n], c);
    }
  }

  /** The server's replies to c match, one to one and in order, the first requests of c; */
  lemma RepliesMatch(s: Sock, c: nat)
    requires Safe(s)
    ensures |Of(s.sent, c)| <= |Of(s.arrived, c)|
    ensures forall k | 0 <= k < |Of(s.sent, c)| :: Pos(s.sent, c, k) == Pos(s.arrived, c, k)
  {
    var read := s.arrived[..|s.sent|];
    SamePeers(s.sent, read, c);
    assert read + s.arrived[|s.sent|..] == s.arrived;
    OfConcat(read, s.arrived[|s.sent|..], c);
    forall k | 0 <= k < |Of(s.sent, c)| ensures Pos(s.sent, c, k) == Pos(s.arrived, c, k) {
      PosInPrefix(read, s.arrived[|s.sent|..], c, k);
    }
  }

  /** and at most one request it has read, the last, is still unanswered. */
  lemma RepliesCounted(s: Sock, c: nat)
    requires Safe(s)
    ensures |Of(s.arrived[..s.taken], c)| == |Of(s.sent, c)| + if s.sending && s.Peer() == c then 1 else 0
    ensures |Of(s.arrived[..s.taken], c)| <= |Of(s.arrived, c)|
  {
    var read := s.arrived[..|s.sent|];
    SamePeers(s.sent, read, c);
    if s.sending {
      assert s.arrived[..s.taken] == read + [s.arrived[|s.sent|]];
      OfAppend(read, s.arrived[|s.sent|], c);
    }
    assert s.arrived[..s.taken] + s.arrived[s.taken..] == s.arrived;
    OfConcat(s.arrived[..s.taken], s.arrived[s.taken..], c);
  }

  /** Client c may send; */
  predicate MaySend(sys: System, c: nat)
    requires c < |sys.clients|
  {
    sys.clients[c].sending
  }

  /** or its request is under way: sent, and not yet read to the end by the server; */
  predicate RequestInFlight(sys: System, c: nat)
    requires c < |sys.clients| && sys.server.Ok()
  {
    |sys.clients[c].sent| > |Of(sys.server.arrived[..sys.server.taken], c)|
  }

  /** or the server has read it and owes the reply; */
  predicate Owed(sys: System, c: nat)
    requires sys.server.Ok()
  {
    sys.server.sending && sys.server.Peer() == c
  }

  /** or the reply is under way: sent, and not yet read by the client. */
  predicate ReplyInFlight(sys: System, c: nat)
    requires c < |sys.clients|
  {
    |Of(sys.server.sent, c)| > sys.clients[c].taken
  }

  /** After every sequence of events, whatever the handlers do and libzmq refuses, each client is in
      exactly one of the four phases, with at most one request outstanding. */
  lemma TokenConserved(cfg: Config, init: System, evs: seq<Event>, c: nat)
    requires Initial(init) && c < |init.clients|
    ensures var sys := Reach(cfg, init, evs);
            && (if MaySend(sys, c) then 1 else 0) + (if RequestInFlight(sys, c) then 1 else 0)
               + (if Owed(sys, c) then 1 else 0) + (if ReplyInFlight(sys, c) then 1 else 0) == 1
            && |sys.results[c]| <= |sys.clients[c].sent| <= |sys.results[c]| + 1
  {
    var sys := Reach(cfg, init, evs);
    assert ClientInv(cfg.codec, sys.server, sys.clients[c], sys.results[c], c);
    RepliesCounted(sys.server, c);
  }

  /** After every sequence of events, what the k-th completed sendCommand of client c returned is the
      reply the server sent to the request that call was given; */
  lemma KthReply(cfg: Config, init: System, evs: seq<Event>, c: nat, k: nat)
    requires Initial(init) && c < |init.clients| && k < |Reach(cfg, init, evs).results[c]|
    ensures var sys, at := Reach(cfg, init, evs), SendTimes(cfg, init, evs, c);
            && k < |Of(sys.server.arrived, c)| && k < |at| && evs[at[k]].ClientSends?
            && var i := Pos(sys.server.arrived, c, k);
            && i < |sys.server.sent| && sys.server.sent[i].peer == c && |sys.server.sent[i].body| <= 2
            && sys.server.arrived[i] == Envelope(c, evs[at[k]].m)
            && sys.results[c][k] == Decode(cfg.codec, CutAll(sys.server.sent[i].body, sys.clients[c].buffer))
  {
    hide Decode, Exec, Reach, Initial, SendTimes;
    var sys := Reach(cfg, init, evs);
    SentAt(cfg, init, evs, c);
    ReplyTo(cfg.codec, sys, c, k);
  }

  lemma ReplyTo(codec: Codec, sys: System, c: nat, k: nat)
    requires Inv(codec, sys) && c < |sys.clients| && k < |sys.results[c]|
    ensures k < |Of(sys.server.arrived, c)| && k < |sys.clients[c].sent|
    ensures var i := Pos(sys.server.arrived, c, k);
            && i < |sys.server.sent| && sys.server.sent[i].peer == c && |sys.server.sent[i].body| <= 2
            && sys.server.arrived[i] == Envelope(c, sys.clients[c].sent[k].body)
            && sys.results[c][k] == Decode(codec, CutAll(sys.server.sent[i].body, sys.clients[c].buffer))
  {
    hide Decode;
    var client := sys.clients[c];
    assert ClientInv(codec, sys.server, client, sys.results[c], c);
    RepliesMatch(sys.server, c);
    assert Bodies(client.arrived)[k] == Of(sys.server.sent, c)[k];
  }

  /** What sendCommand returns when it is answered with a. */
  ghost predicate Returns(codec: Codec, result: (Value, string), a: Option<Message>, buffer: nat) {
    a.Some? && |a.value| <= 2 && result == Decode(codec, CutAll(a.value, buffer))
  }

  /** and that reply is the answer the request deserves or, if libzmq refuses some send of the server,
      possibly the error answer to a refusal. */
  lemma KthAnswer(cfg: Config, init: System, evs: seq<Event>, c: nat, k: nat)
    requires Initial(init) && cfg.ErrorsEncodable()
    requires c < |init.clients| && k < |Reach(cfg, init, evs).results[c]|
    ensures var sys, at := Reach(cfg, init, evs), SendTimes(cfg, init, evs, c);
            && k < |Of(sys.server.arrived, c)| && k < |at| && evs[at[k]].ClientSends?
            && var i := Pos(sys.server.arrived, c, k);
            && sys.server.arrived[i] == Envelope(c, evs[at[k]].m)
            && (|| Returns(cfg.codec, sys.results[c][k], AnswerTo(cfg, sys.server.arrived, sys.server.buffer, i),
                           sys.clients[c].buffer)
                || (&& init.server.fate != []
                    && Returns(cfg.codec, sys.results[c][k], Fallback(cfg, sys.server.arrived, i),
                               sys.clients[c].buffer)))
  {
    hide Decode, AnswerTo, Fallback, SendTimes;
    InvHoldsInitially(cfg.codec, init);
    AnswersExec(cfg, init, evs);
    KthReply(cfg, init, evs, c, k);
  }

  // ---------------------------------------------------------------- no deadlock

  function Passes(k: nat): (evs: seq<Event>)
    ensures forall i | 0 <= i < |evs| :: evs[i] == ServerPass
  {
    if k == 0 then [] else [ServerPass] + Passes(k - 1)
  }

  ghost predicate CaughtUp(s: Sock) {
    s.Ok() && !s.sending && s.taken == |s.arrived|
  }

  /** Enough passes of a running server answer all requests that have arrived, and change nothing
      else. */
  lemma {:induction false} PassesCatchUp(cfg: Config, sys: System, k: nat)
    requires Inv(cfg.codec, sys) && sys.running && cfg.ErrorsEncodable()
    requires NothingStops(cfg, sys.server) && OnErrorNeverStops(cfg) && OnErrorOnlyReports(cfg)
    requires CaughtUp(sys.server) || k > Work(sys.server) + |sys.server.fate|
    ensures var end := Exec(cfg, sys, Passes(k));
            && CaughtUp(end.server) && end.server.arrived == sys.server.arrived
            && end.clients == sys.clients && end.results == sys.results
    decreases k
  {
    hide Pass, Work, NothingStops, OnErrorNeverStops, OnErrorOnlyReports;
    var s := sys.server;
    WorkIsNat(s);
    if k > 0 {
      PassWorks(cfg, s);
      PassGoesOn(cfg, s);
      BlockedMeansIdle(cfg, s, true);
      InvKept(cfg, sys, ServerPass);
      assert Passes(k)[0] == ServerPass && Passes(k)[1..] == Passes(k - 1);
      PassesCatchUp(cfg, Next(cfg, sys, ServerPass), k - 1);
    }
  }

  lemma AllAnswered(s: Sock, c: nat)
    requires Safe(s) && CaughtUp(s)
    ensures |Of(s.sent, c)| == |Of(s.arrived, c)|
  {
    RepliesCounted(s, c);
    assert s.arrived[..s.taken] == s.arrived;
  }

  lemma ExecTwo(cfg: Config, sys: System, first: Event, second: Event)
    requires Inv(cfg.codec, sys)
    ensures WellFormed(sys) && WellFormed(Next(cfg, sys, first))
    ensures Exec(cfg, sys, [first, second]) == Next(cfg, Next(cfg, sys, first), second)
  {
    hide Next, Inv, WellFormed;
    var evs := [first, second];
    assert evs[1..] == [second] && [second][1..] == [];
    InvWellFormed(cfg.codec, sys);
    var mid := Next(cfg, sys, first);
    InvKept(cfg, sys, first);
    InvWellFormed(cfg.codec, mid);
    InvKept(cfg, mid, second);
    assert Exec(cfg, mid, [second]) == Next(cfg, mid, second);
  }

  /** The reply to a client whose request has been answered can be delivered and read. */
  lemma ReplyCompletes(cfg: Config, sys: System, c: nat)
    requires Inv(cfg.codec, sys) && c < |sys.clients| && !sys.clients[c].sending
    requires |Of(sys.server.sent, c)| == |sys.clients[c].sent|
    ensures var end := Exec(cfg, sys, [ReplyArrives(c), ClientReceives(c)]);
            |end.clients| == |sys.clients| && end.clients[c].sending && |end.results[c]| == |sys.results[c]| + 1
  {
    hide Receive, Of, Exec, Inv, ClientInv, Safe;
    ExecTwo(cfg, sys, ReplyArrives(c), ClientReceives(c));
    InvParts(cfg.codec, sys, c);
    ReplyReads(cfg.codec, sys.server, sys.clients[c], sys.results[c], c);
  }

  lemma InvParts(codec: Codec, sys: System, c: nat)
    requires Inv(codec, sys) && c < |sys.clients|
    ensures Safe(sys.server) && |sys.results| == |sys.clients|
    ensures ClientInv(codec, sys.server, sys.clients[c], sys.results[c], c)
  {
  }

  lemma ReplyReads(codec: Codec, server: Sock, client: Sock, results: seq<(Value, string)>, c: nat)
    requires ClientInv(codec, server, client, results, c) && Safe(server) && !client.sending
    requires |Of(server.sent, c)| == |client.sent|
    ensures var k := |client.arrived|;
            var s := if k < |client.sent| then client.Deliver(Envelope(0, Of(server.sent, c)[k])) else client;
            s.Ok() && Receive(codec, s).1.Item? && Receive(codec, s).0.sending
  {
    hide Receive, Decode, Of;
    var k := |client.arrived|;
    var s := if k < |client.sent| then client.Deliver(Envelope(0, Of(server.sent, c)[k])) else client;
    if k < |client.sent| { OfShort(server.sent, c); }
    WholeMessages(codec, s);
  }

  /** No deadlock: from every reachable state (every state that satisfies the invariant), whatever
      libzmq still refuses, an outstanding sendCommand can complete: start the server if need be, let
      the request arrive, let the server make finitely many passes, let the reply arrive and be read.
      This needs only that no frames the server will read stop it and that OnError only reports. */
  lemma SendCommandCompletes(cfg: Config, sys: System, c: nat) returns (k: nat)
    requires Inv(cfg.codec, sys) && c < |sys.clients| && !sys.clients[c].sending && cfg.ErrorsEncodable()
    requires OnErrorNeverStops(cfg) && OnErrorOnlyReports(cfg)
    requires WellFormed(Next(cfg, sys, RequestArrives(c)))
    requires NothingStops(cfg, Next(cfg, sys, RequestArrives(c)).server)
    ensures var evs := [ServerStarts, RequestArrives(c)] + Passes(k) + [ReplyArrives(c), ClientReceives(c)];
            var end := Exec(cfg, sys, evs);
            |end.clients| == |sys.clients| && end.clients[c].sending && |end.results[c]| == |sys.results[c]| + 1
  {
    hide Pass, Work, NothingStops, OnErrorNeverStops, OnErrorOnlyReports;
    var first, last := [ServerStarts, RequestArrives(c)], [ReplyArrives(c), ClientReceives(c)];
    var ready := Exec(cfg, sys, first);
    RequestReady(cfg, sys, c);
    WorkIsNat(ready.server);
    k := Work(ready.server) + |ready.server.fate| + 1;
    PassesCatchUp(cfg, ready, k);
    var done := Exec(cfg, ready, Passes(k));
    AllAnswered(done.server, c);
    ReplyCompletes(cfg, done, c);
    ExecConcat(cfg, sys, first, Passes(k));
    ExecConcat(cfg, sys, first + Passes(k), last);
  }

  lemma RequestReady(cfg: Config, sys: System, c: nat)
    requires Inv(cfg.codec, sys) && c < |sys.clients| && !sys.clients[c].sending
    ensures var ready := Exec(cfg, sys, [ServerStarts, RequestArrives(c)]);
            && ready.running && ready.clients == sys.clients && ready.results == sys.results
            && ready.server == Next(cfg, sys, RequestArrives(c)).server
            && |Of(ready.server.arrived, c)| == |sys.clients[c].sent|
  {
    hide Exec, Safe;
    ExecTwo(cfg, sys, ServerStarts, RequestArrives(c));
    assert ClientInv(cfg.codec, sys.server, sys.clients[c], sys.results[c], c);
    RepliesMatch(sys.server, c);
    var k := |Of(sys.server.arrived, c)|;
    if k < |sys.clients[c].sent| { OfAppend(sys.server.arrived, Envelope(c, sys.clients[c].sent[k].body), c); }
  }

  // ---------------------------------------------------------------- stopping

  /** A server that does not run reads and sends nothing until it is started again. */
  lemma {:induction false} StoppedIsSilent(cfg: Config, sys: System, evs: seq<Event>)
    requires Inv(cfg.codec, sys) && !sys.running
    requires forall i | 0 <= i < |evs| :: !evs[i].ServerStarts?
    ensures var end := Exec(cfg, sys, evs);
            !end.running && end.server == sys.server.(arrived := end.server.arrived)
    decreases |evs|
  {
    hide Receive, Inv, Of;
    if evs != [] {
      InvWellFormed(cfg.codec, sys);
      InvKept(cfg, sys, evs[0]);
      StoppedIsSilent(cfg, Next(cfg, sys, evs[0]), evs[1..]);
    }
  }

  /** With the default handlers, an accepted reply to quit, in any letter case, stops the server; no other
      command does. */
  lemma QuitStopsServer(cfg: Config, now: nat -> nat, sys: System, t: Sock, obj: Value, text: string)
    requires Fresh(cfg, now) && Inv(cfg.codec, sys) && sys.running
    requires Receive(cfg.codec, sys.server) == (t, Item(obj, text)) && t.sending && (t.fate == [] || t.fate[0])
    requires var (data, reply) := DefaultReply(now(Clock(t)), obj, text); Encode(cfg.codec, data, reply).Some?
    ensures WellFormed(sys) && (Next(cfg, sys, ServerPass).running <==> Lower(text) != "quit")
  {
    hide Encode, Lower, Receive, Pass, Clock, Sock.Peer, ClientInv;
    InvWellFormed(cfg.codec, sys);
    var (data, reply) := DefaultReply(now(Clock(t)), obj, text);
    DefaultReplies(cfg, now, sys.server, true, t, obj, text, data, reply);
  }

  // ---------------------------------------------------------------- default commands, end to end

  /** A value can be serialized, and the stream fits a buffer. */
  predicate Fits(codec: Codec, v: Value, r: nat) {
    codec.ser(v).Some? && |codec.ser(v).value| <= r
  }

  /** A text is not empty, has only codes up to 255, and fits a buffer. */
  ghost predicate FitsText(text: string, r: nat) {
    text != "" && SingleByte(text) && |text| <= r
  }

  /** The k-th sendCommand of client c was sendCommand(command, d), and it fits the server's buffer. */
  ghost predicate Asked(cfg: Config, init: System, evs: seq<Event>, c: nat, k: nat, command: string, d: Value)
    requires Initial(init) && c < |init.clients|
  {
    var at := SendTimes(cfg, init, evs, c);
    && k < |at| && evs[at[k]].ClientSends? && Encode(cfg.codec, d, command) == Some(evs[at[k]].m)
    && FitsText(command, init.server.buffer) && (IsEmpty(d) || Fits(cfg.codec, d, init.server.buffer))
  }

  /** Buffers do not change. */
  lemma {:induction false} SameBuffers(cfg: Config, sys: System, evs: seq<Event>, c: nat)
    requires Inv(cfg.codec, sys) && c < |sys.clients|
    ensures var end := Exec(cfg, sys, evs);
            end.server.buffer == sys.server.buffer && end.clients[c].buffer == sys.clients[c].buffer
    decreases |evs|
  {
    hide Pass, Receive, Of, Inv;
    if evs != [] {
      InvWellFormed(cfg.codec, sys);
      InvKept(cfg, sys, evs[0]);
      SameBuffers(cfg, Next(cfg, sys, evs[0]), evs[1..], c);
    }
  }

  /** Whatever the handler, when callbacks neither reply nor throw: a completed sendCommand(command, d),
      in any interleaving with other clients, returns the first reply of the command's handler (or of the
      unknown-command response) to d, with [] for an empty d; only if libzmq refuses some send of the
      server may it be the error answer to a refusal instead. */
  lemma CommandEndToEnd(cfg: Config, init: System, evs: seq<Event>, c: nat, k: nat, command: string, d: Value)
    returns (n: nat)
    requires Initial(init) && cfg.ErrorsEncodable() && cfg.codec.Valid() && c < |init.clients|
    requires k < |Reach(cfg, init, evs).results[c]| && Asked(cfg, init, evs, c, k, command, d)
    requires forall n, t, v :: OnlyStops(cfg.onMessage(n, t, v)) && OnlyStops(cfg.onCommand(n, t, v))
    ensures var sys, obj := Reach(cfg, init, evs), if IsEmpty(d) then Null else d;
            && k < |Of(sys.server.arrived, c)|
            && var i := Pos(sys.server.arrived, c, k);
            var code := if Lower(command) in cfg.handlers then cfg.handlers[Lower(command)](n, obj)
                        else [Reply(UnknownCommand(command, cfg.handlers.Keys), "errorresponse")];
            code != [] && code[0].Reply? && FitsText(code[0].text, init.clients[c].buffer)
            && !IsEmpty(code[0].data) && Fits(cfg.codec, code[0].data, init.clients[c].buffer) ==>
              || sys.results[c][k] == (code[0].data, code[0].text)
              || (&& init.server.fate != []
                  && Returns(cfg.codec, sys.results[c][k], Fallback(cfg, sys.server.arrived, i),
                             init.clients[c].buffer))
  {
    hide Decode, AnswerTo, Encode, Fallback, Lower, IsEmpty, SendTimes, Codec.Valid, SingleByte, Pos, Of;
    var sys, obj := Reach(cfg, init, evs), if IsEmpty(d) then Null else d;
    KthAnswer(cfg, init, evs, c, k);
    InvHoldsInitially(cfg.codec, init);
    SameBuffers(cfg, init, evs, c);
    var i := Pos(sys.server.arrived, c, k);
    n := FramesIn(sys.server.arrived[..i + 1]);
    var code := if Lower(command) in cfg.handlers then cfg.handlers[Lower(command)](n, obj)
                else [Reply(UnknownCommand(command, cfg.handlers.Keys), ERROR_RESPONSE)];
    if code != [] && code[0].Reply? && FitsText(code[0].text, init.clients[c].buffer)
       && !IsEmpty(code[0].data) && Fits(cfg.codec, code[0].data, init.clients[c].buffer) {
      ReplyDecoded(cfg.codec, code[0].data, code[0].text, init.clients[c].buffer);
      CommandAnswer(cfg, sys.server.arrived, sys.server.buffer, i, d, command, code[0].data, code[0].text);
    }
  }

  lemma ReplyDecoded(codec: Codec, data: Value, text: string, r: nat)
    requires codec.Valid() && FitsText(text, r) && (IsEmpty(data) || Fits(codec, data, r))
    ensures Encode(codec, data, text).Some?
    ensures Decode(codec, CutAll(Encode(codec, data, text).value, r)) == (if IsEmpty(data) then Null else data, text)
  {
    FramingRoundTrip(codec, data, text, r);
  }

  lemma CommandAnswer(cfg: Config, log: seq<Envelope>, buffer: nat, i: nat, d: Value, command: string,
                      data: Value, text: string)
    requires i < |log| && cfg.codec.Valid() && Encode(cfg.codec, d, command) == Some(log[i].body)
    requires FitsText(command, buffer) && (IsEmpty(d) || Fits(cfg.codec, d, buffer))
    requires forall n, t, v :: OnlyStops(cfg.onMessage(n, t, v)) && OnlyStops(cfg.onCommand(n, t, v))
    requires var code := if Lower(command) in cfg.handlers
                         then cfg.handlers[Lower(command)](FramesIn(log[..i + 1]), if IsEmpty(d) then Null else d)
                         else [Reply(UnknownCommand(command, cfg.handlers.Keys), ERROR_RESPONSE)];
             code != [] && code[0] == Reply(data, text)
    requires Encode(cfg.codec, data, text).Some?
    ensures AnswerTo(cfg, log, buffer, i) == Encode(cfg.codec, data, text)
  {
    hide Decode, Encode, FramesIn, ErrorAnswer, Lower, LastUnit, Dispatch, EffectOf, IsEmpty, Codec.Valid;
    ReplyDecoded(cfg.codec, d, command, buffer);
    FirstReply(cfg, FramesIn(log[..i + 1]), if IsEmpty(d) then Null else d, command, data, text);
  }

  lemma FirstReply(cfg: Config, n: nat, obj: Value, command: string, data: Value, text: string)
    requires forall n, t, v :: OnlyStops(cfg.onMessage(n, t, v)) && OnlyStops(cfg.onCommand(n, t, v))
    requires var code := if Lower(command) in cfg.handlers then cfg.handlers[Lower(command)](n, obj)
                         else [Reply(UnknownCommand(command, cfg.handlers.Keys), ERROR_RESPONSE)];
             code != [] && code[0] == Reply(data, text)
    requires Encode(cfg.codec, data, text).Some?
    ensures EffectOf(cfg.codec, Dispatch(cfg, n, obj, command)) == Answered(Encode(cfg.codec, data, text).value)
  {
    hide Encode, Lower, OnlyStops;
    var calls := cfg.onMessage(n, command, obj) + cfg.onCommand(n, command, obj);
    var code := if Lower(command) in cfg.handlers then cfg.handlers[Lower(command)](n, obj)
                else [Reply(UnknownCommand(command, cfg.handlers.Keys), ERROR_RESPONSE)];
    assert OnlyStops(calls) by { StopsConcat(cfg.onMessage(n, command, obj), cfg.onCommand(n, command, obj)); }
    StopsAreSilent(cfg.codec, calls, code);
    assert Dispatch(cfg, n, obj, command) == calls + code;
  }

  lemma StopsConcat(a: seq<Action>, b: seq<Action>)
    requires OnlyStops(a) && OnlyStops(b)
    ensures OnlyStops(a + b)
  {
  }

  /** With the default echo handler, sendCommand('echo', d), in any letter case, returns d itself, or the
      "No object received" struct when d is empty; only if libzmq refuses some send of the server may it
      be the error answer to a refusal instead. */
  lemma EchoEndToEnd(cfg: Config, init: System, evs: seq<Event>, c: nat, k: nat, command: string, d: Value)
    requires Initial(init) && cfg.ErrorsEncodable() && cfg.codec.Valid() && c < |init.clients|
    requires k < |Reach(cfg, init, evs).results[c]| && Asked(cfg, init, evs, c, k, command, d)
    requires forall n, t, v :: OnlyStops(cfg.onMessage(n, t, v)) && OnlyStops(cfg.onCommand(n, t, v))
    requires Lower(command) == "echo"
    requires "echo" in cfg.handlers && forall n, v :: cfg.handlers["echo"](n, v) == HandleEcho(v)
    requires |"echoresponse"| <= init.clients[c].buffer
    requires Fits(cfg.codec, if IsEmpty(d) then Struct([("message", Text("No object received"))]) else d,
                  init.clients[c].buffer)
    ensures var sys := Reach(cfg, init, evs);
            && k < |Of(sys.server.arrived, c)|
            && (|| (!IsEmpty(d) && sys.results[c][k] == (d, "echoresponse"))
                || (&& IsEmpty(d)
                    && sys.results[c][k] == (Struct([("message", Text("No object received"))]), "echoresponse"))
                || (&& init.server.fate != []
                    && Returns(cfg.codec, sys.results[c][k],
                               Fallback(cfg, sys.server.arrived, Pos(sys.server.arrived, c, k)),
                               init.clients[c].buffer)))
  {
    hide Decode, Encode, Fallback, Lower, Asked, Codec.Valid, Exec, Reach, Initial;
    var n := CommandEndToEnd(cfg, init, evs, c, k, command, d);
    var obj := if IsEmpty(d) then Null else d;
    assert cfg.handlers["echo"](n, obj) == HandleEcho(obj);
  }

  /** The same for every command of a server with the default handlers and nothing else, known or not. */
  lemma DefaultsEndToEnd(cfg: Config, now: nat -> nat, init: System, evs: seq<Event>, c: nat, k: nat,
                         command: string, d: Value)
    returns (n: nat)
    requires Fresh(cfg, now)
    requires Initial(init) && cfg.ErrorsEncodable() && cfg.codec.Valid() && c < |init.clients|
    requires k < |Reach(cfg, init, evs).results[c]| && Asked(cfg, init, evs, c, k, command, d)
    ensures var sys, obj := Reach(cfg, init, evs), if IsEmpty(d) then Null else d;
            var (data, reply) := DefaultReply(now(n), obj, command);
            && k < |Of(sys.server.arrived, c)|
            && (Fits(cfg.codec, data, init.clients[c].buffer) && |reply| <= init.clients[c].buffer ==>
                  || sys.results[c][k] == (data, reply)
                  || (&& init.server.fate != []
                      && Returns(cfg.codec, sys.results[c][k],
                                 Fallback(cfg, sys.server.arrived, Pos(sys.server.arrived, c, k)),
                                 init.clients[c].buffer)))
  {
    hide Decode, Encode, Fallback, Lower, Asked, Codec.Valid, Exec, Reach, Initial, Returns, DefaultReply, SingleByte;
    n := CommandEndToEnd(cfg, init, evs, c, k, command, d);
    DefaultFirst(cfg, now, n, if IsEmpty(d) then Null else d, command);
  }

  lemma DefaultFirst(cfg: Config, now: nat -> nat, n: nat, obj: Value, command: string)
    requires Fresh(cfg, now)
    ensures var code := if Lower(command) in cfg.handlers then cfg.handlers[Lower(command)](n, obj)
                        else [Reply(UnknownCommand(command, cfg.handlers.Keys), "errorresponse")];
            var (data, reply) := DefaultReply(now(n), obj, command);
            && code != [] && code[0] == Reply(data, reply) && !IsEmpty(data)
            && reply != "" && SingleByte(reply)
  {
    hide Lower, IsEmpty, SingleByte;
    var (data, reply) := DefaultReply(now(n), obj, command);
    DefaultCode(cfg, now, n, obj, command, data, reply);
    NoCallbacks(cfg, now, n, obj, command);
    DefaultReplyFits(now(n), obj, command);
  }

  lemma NoCallbacks(cfg: Config, now: nat -> nat, n: nat, obj: Value, command: string)
    requires Fresh(cfg, now)
    ensures Dispatch(cfg, n, obj, command) ==
            if Lower(command) in cfg.handlers then cfg.handlers[Lower(command)](n, obj)
            else [Reply(UnknownCommand(command, cfg.handlers.Keys), "errorresponse")]
  {
    hide Lower, UnknownCommand, HasDefaults;
    assert cfg.onMessage(n, command, obj) + cfg.onCommand(n, command, obj) == [];
  }

  lemma DefaultReplyFits(now: nat, obj: Value, command: string)
    ensures var (data, reply) := DefaultReply(now, obj, command); !IsEmpty(data) && reply != "" && SingleByte(reply)
  {
    hide Lower, SingleByte;
    ReplyNames();
  }

  lemma ReplyNames()
    ensures SingleByte("echoresponse") && SingleByte("printresponse") && SingleByte("timeresponse")
    ensures SingleByte("quitresponse") && SingleByte("errorresponse")
  {
  }
}
