/** ZeroMQBenchmark.m: its own chunker and receiver, and the echo server. */
module Benchmark {
  import opened Native
  import opened Framing
  import opened Transport

  // ---------------------------------------------------------------- the chunker

  /** Chunks of c bytes, the last one shorter, none empty. */
  function CeilChunks(data: Frame, c: Size): (chunks: seq<Frame>)
    ensures forall i | 0 <= i < |chunks| :: chunks[i] != []
  {
    if data == [] then [] else if |data| <= c then [data] else [data[..c]] + CeilChunks(data[c..], c)
  }

  /** The loop of benchmarkChunkSize. */
  method MakeChunks(data: Frame, chunkSize: Size) returns (chunks: seq<Frame>)
    ensures chunks == CeilChunks(data, chunkSize)
  {
    chunks := [];
    var j := 0;
    while j < |data|
      invariant 0 <= j
      invariant j <= |data| ==> CeilChunks(data, chunkSize) == chunks + CeilChunks(data[j..], chunkSize)
      invariant j > |data| ==> CeilChunks(data, chunkSize) == chunks
    {
      var end := Min(j + chunkSize, |data|);
      var left := data[j..];
      assert data[j..end] == left[..end - j];
      if j + chunkSize < |data| { assert left[chunkSize..] == data[j + chunkSize..]; }
      else { assert left[..end - j] == left; }
      chunks := chunks + [data[j..end]];
      j := j + chunkSize;
    }
    if j == |data| { assert data[j..] == []; }
  }

  function NonEmpty(m: seq<Frame>): (n: seq<Frame>)
    ensures |n| <= |m|
  {
    if m == [] then [] else (if m[0] != [] then [m[0]] else []) + NonEmpty(m[1..])
  }

  lemma NonEmptyCons(f: Frame, m: seq<Frame>)
    ensures NonEmpty([f] + m) == (if f != [] then [f] else []) + NonEmpty(m)
  {
    assert ([f] + m)[1..] == m;
  }

  /** The ceiling-style chunks are send_multipart's floor-style chunks without the empty frame, which
      is there exactly when c divides the length. */
  lemma {:induction false} ChunkersAgree(data: Frame, c: Size)
    ensures CeilChunks(data, c) == NonEmpty(FloorChunks(data, c))
    ensures FloorChunks(data, c) == CeilChunks(data, c) + if |data| % c == 0 then [[]] else []
    decreases |data|
  {
    if |data| < c {
      Quotient(|data|, c, 0, |data|);
      NonEmptyCons(data, []);
    } else {
      OneChunkLess(|data|, c);
      ChunkersAgree(data[c..], c);
      NonEmptyCons(data[..c], FloorChunks(data[c..], c));
      if |data| == c {
        assert data[..c] == data && data[c..] == [];
      }
    }
  }

  lemma {:induction false} ChunksFit(data: Frame, c: Size)
    ensures forall i | 0 <= i < |FloorChunks(data, c)| :: |FloorChunks(data, c)[i]| <= c
    decreases |data|
  {
    if |data| >= c { ChunksFit(data[c..], c); }
  }

  /** The benchmark receiver, given what send_multipart sends, yields the benchmark's own chunks. */
  lemma ReceiverYieldsChunks(data: Frame, c: Size, r: nat)
    requires r >= c
    ensures NonEmpty(CutAll(FloorChunks(data, c), r)) == CeilChunks(data, c)
  {
    ChunksFit(data, c);
    CellRoundTrip(FloorChunks(data, c), r);
    ChunkersAgree(data, c);
  }

  // ---------------------------------------------------------------- the receiver

  /** A received part; MinusOne is the int32 that recv returns on a timeout. */
  datatype Part = Row(frame: Frame) | MinusOne

  function Rows(m: seq<Frame>): (p: seq<Part>)
    ensures |p| == |m| && forall i | 0 <= i < |m| :: p[i] == Row(m[i])
  {
    seq(|m|, i requires 0 <= i < |m| => Row(m[i]))
  }

  lemma {:induction false} NonEmptySnoc(m: seq<Frame>, f: Frame)
    ensures NonEmpty(m + [f]) == NonEmpty(m) + if f != [] then [f] else []
    decreases |m|
  {
    if m == [] {
      NonEmptyCons(f, []);
      assert m + [f] == [f] + [];
    } else {
      NonEmptySnoc(m[1..], f);
      assert (m + [f])[0] == m[0] && (m + [f])[1..] == m[1..] + [f];
    }
  }

  lemma OneMorePart(body: Message, n: nat, r: nat, parts: seq<Part>)
    requires n < |body| && parts == Rows(NonEmpty(CutAll(body[..n], r)))
    ensures (if Cut(body[n], r) != [] then parts + [Row(Cut(body[n], r))] else parts)
            == Rows(NonEmpty(CutAll(body[..n + 1], r)))
  {
    NonEmptySnoc(CutAll(body[..n], r), Cut(body[n], r));
    assert CutAll(body[..n + 1], r) == CutAll(body[..n], r) + [Cut(body[n], r)];
  }

  /** recvMultipart: empty frames are dropped, a timeout is kept as a part, an exception is None. */
  method RecvDropping(s: Sock) returns (s': Sock, received: Option<seq<Part>>)
    requires s.Ok()
    ensures s.sending ==> received == None && s' == s
    ensures !s.sending && s.taken == |s.arrived| ==> received == Some([MinusOne]) && s' == s
    ensures !s.sending && s.taken < |s.arrived| ==>
              && received == Some(Rows(NonEmpty(CutAll(s.arrived[s.taken].body[s.at..], s.buffer))))
              && s' == s.(sending := true, taken := s.taken + 1, at := 0)
  {
    if s.sending { return s, None; }
    if s.taken == |s.arrived| { return s, Some([MinusOne]); }
    s' := s;
    var parts: seq<Part> := [];
    ghost var left := s.arrived[s.taken].body[s.at..];
    assert parts == Rows(NonEmpty(CutAll(left[..0], s.buffer)));
    hide NonEmpty, Rows, Cut, CutAll;
    ghost var n := 0;
    var keepReceiving := true;
    while keepReceiving
      invariant n <= |left| && parts == Rows(NonEmpty(CutAll(left[..n], s.buffer)))
      invariant keepReceiving <==> n < |left|
      invariant s' == if keepReceiving then s.(at := s.at + n) else s.(sending := true, taken := s.taken + 1, at := 0)
      decreases |left| - n
    {
      OneMorePart(left, n, s.buffer, parts);
      var (next, d) := s'.RecvFrame();
      s' := next;
      if d.frame != [] { parts := parts + [Row(d.frame)]; }
      n := n + 1;
      keepReceiving := s'.RcvMore();
    }
    assert left[..n] == left;
    received := Some(parts);
  }

  // ---------------------------------------------------------------- the echo server

  const EXIT := Bytes("exit")
  const EXITED := Bytes("exited")

  predicate IsExit(body: Message, buffer: nat) {
    Cut(body[0], buffer) == EXIT
  }

  /** The reply a request deserves: its frames as received, or "exited". */
  function EchoOf(body: Message, buffer: nat): (m: Message)
    ensures |m| <= |body|
  {
    if IsExit(body, buffer) then [EXITED] else CutAll(body, buffer)
  }

  /** Between two receives: no reply owed, and none half sent. */
  ghost predicate Idle(s: Sock) {
    s.IsRep() && !s.sending && s.at == 0 && s.partial == []
  }

  lemma IdleIsOk(s: Sock)
    requires Idle(s)
    ensures s.Ok()
  {
  }

  /** Every reply sent is the echo of its request, and no send is going to be refused. */
  ghost predicate Exact(s: Sock) {
    s.IsRep() && s.fate == [] && forall i | 0 <= i < |s.sent| :: s.sent[i].body == EchoOf(s.arrived[i].body, s.buffer)
  }

  /** The server has stopped at an "exit" request. */
  ghost predicate SawExit(s: Sock) {
    && s.IsRep() && s.taken > 0 && NoExit(s, s.taken - 1)
    && IsExit(s.arrived[s.taken - 1].body, s.buffer)
  }

  ghost predicate NoExit(s: Sock, n: nat)
    requires n <= |s.arrived|
  {
    forall i | 0 <= i < n :: !IsExit(s.arrived[i].body, s.buffer)
  }

  lemma FreshIsExact(buffer: Size)
    ensures Exact(NewRep(buffer, []))
  {
  }

  lemma Arrivals(s: Sock, more: seq<Envelope>)
    requires s.Ok()
    ensures var t := s.(arrived := s.arrived + more);
            && t.Ok()
            && (s.IsRep() ==> t.IsRep())
            && (Exact(s) ==> Exact(t))
            && (Idle(s) && NoExit(s, s.taken) ==> Idle(t) && NoExit(t, t.taken))
  {
  }

  /** One turn of a server that is not refused any send: a timeout, or one request and its echo. */
  function EchoOne(s: Sock): Sock
    requires s.Ok() && s.at == 0
  {
    if s.taken == |s.arrived| then s
    else
      var e := s.arrived[s.taken];
      s.(taken := s.taken + 1, sent := s.sent + [Envelope(e.peer, EchoOf(e.body, s.buffer))])
  }

  /** Reading one whole request leaves its reply owed. */
  lemma ReadOne(s: Sock, frames: seq<Frame>)
    requires Idle(s) && s.taken < |s.arrived| && frames == CutAll(s.arrived[s.taken].body[s.at..], s.buffer)
    ensures var body := s.arrived[s.taken].body;
            && s.(sending := true, taken := s.taken + 1).IsRep()
            && EchoOf(body, s.buffer) == (if frames[0] == EXIT then [EXITED] else frames)
            && (IsExit(body, s.buffer) <==> frames[0] == EXIT)
  {
    assert s.arrived[s.taken].body[0..] == s.arrived[s.taken].body;
  }

  lemma EchoOneKeeps(s: Sock)
    requires Idle(s) && Exact(s) && NoExit(s, s.taken) && s.taken < |s.arrived|
    ensures var t := EchoOne(s);
            && Idle(t) && Exact(t)
            && (IsExit(s.arrived[s.taken].body, s.buffer) ==> SawExit(t))
  {
  }

  /** The turns of a whole run, up to and including an "exit" request. */
  function EchoAll(s: Sock, traffic: seq<seq<Envelope>>): Sock
    requires s.Ok() && s.at == 0
    decreases |traffic|
  {
    if traffic == [] then s
    else
      var t := s.(arrived := s.arrived + traffic[0]);
      if t.taken < |t.arrived| && IsExit(t.arrived[t.taken].body, t.buffer) then EchoOne(t)
      else EchoAll(EchoOne(t), traffic[1..])
  }

  lemma EchoAllNext(s: Sock, traffic: seq<seq<Envelope>>, i: nat)
    requires s.Ok() && s.at == 0 && i <= |traffic|
    ensures EchoAll(s, traffic[i..]) ==
            if i == |traffic| then s
            else
              var t := s.(arrived := s.arrived + traffic[i]);
              if t.taken < |t.arrived| && IsExit(t.arrived[t.taken].body, t.buffer) then EchoOne(t)
              else EchoAll(EchoOne(t), traffic[i + 1..])
  {
    if i < |traffic| { assert traffic[i..][1..] == traffic[i + 1..]; }
  }

  /** All messages of some deliveries, in order. */
  function Joined(traffic: seq<seq<Envelope>>): seq<Envelope> {
    if traffic == [] then [] else Joined(traffic[..|traffic| - 1]) + traffic[|traffic| - 1]
  }

  lemma {:induction false} JoinedConcat(a: seq<seq<Envelope>>, b: seq<seq<Envelope>>)
    ensures Joined(a + b) == Joined(a) + Joined(b)
    decreases |b|
  {
    if b == [] {
      assert a + b == a;
    } else {
      var n := |b| - 1;
      JoinedConcat(a, b[..n]);
      JoinedSnoc(a + b[..n], b[n]);
      JoinedSnoc(b[..n], b[n]);
      assert b == b[..n] + [b[n]] && a + b == a + b[..n] + [b[n]];
    }
  }

  lemma JoinedSnoc(a: seq<seq<Envelope>>, last: seq<Envelope>)
    ensures Joined(a + [last]) == Joined(a) + last
  {
    assert (a + [last])[..|a|] == a;
  }

  lemma NoneJoined(traffic: seq<seq<Envelope>>)
    ensures traffic[0..] == traffic && Joined(traffic[..0]) == []
  {
  }

  lemma JoinedNext(traffic: seq<seq<Envelope>>, n: nat)
    requires n < |traffic|
    ensures Joined(traffic[..n + 1]) == Joined(traffic[..n]) + traffic[n]
  {
    assert traffic[..n + 1][..n] == traffic[..n];
  }

  /** Of n turns, each serves one message if there is one: the most any prefix of the deliveries allows. */
  ghost predicate EachTurnServes(traffic: seq<seq<Envelope>>, n: nat, served: nat)
    requires n <= |traffic|
  {
    && (forall k | 0 <= k <= n :: served <= |Joined(traffic[..k])| + n - k)
    && (exists k | 0 <= k <= n :: served == |Joined(traffic[..k])| + n - k)
  }

  lemma NoTurnYet(traffic: seq<seq<Envelope>>)
    ensures EachTurnServes(traffic, 0, 0)
  {
    assert 0 == |Joined(traffic[..0])| + 0 - 0;
  }

  lemma OneMoreTurn(traffic: seq<seq<Envelope>>, n: nat, served: nat, served': nat)
    requires n < |traffic| && EachTurnServes(traffic, n, served)
    requires served' == if served < |Joined(traffic[..n + 1])| then served + 1 else served
    ensures EachTurnServes(traffic, n + 1, served')
  {
    hide Joined;
    JoinedNext(traffic, n);
    assert served <= |Joined(traffic[..n])| + n - n;
    if served < |Joined(traffic[..n + 1])| {
      var k :| 0 <= k <= n && served == |Joined(traffic[..k])| + n - k;
      assert served' == |Joined(traffic[..k])| + (n + 1) - k;
    } else {
      assert served' == |Joined(traffic[..n + 1])| + (n + 1) - (n + 1);
    }
  }

  lemma {:induction false} AtLeastOneEach(traffic: seq<seq<Envelope>>, n: nat)
    requires n <= |traffic| && forall i | 0 <= i < n :: traffic[i] != []
    ensures |Joined(traffic[..n])| >= n
    decreases n
  {
    if n > 0 {
      AtLeastOneEach(traffic, n - 1);
      JoinedNext(traffic, n - 1);
    }
  }

  lemma BusyServer(traffic: seq<seq<Envelope>>, n: nat, served: nat)
    requires n <= |traffic| && EachTurnServes(traffic, n, served)
    ensures (forall i | 0 <= i < n :: traffic[i] != []) ==> served == n
  {
    hide Joined;
    if forall i | 0 <= i < n :: traffic[i] != [] {
      var k :| 0 <= k <= n && served == |Joined(traffic[..k])| + n - k;
      AtLeastOneEach(traffic, k);
      assert served <= |Joined(traffic[..0])| + n - 0;
      NoTurnYet(traffic);
    }
  }

  /** The cell of some frames. */
  function Rowed(frames: Message): (cell: Cell)
    ensures |cell| == |frames| && AllRows(cell) && forall i | 0 <= i < |cell| :: cell[i] == Some(frames[i])
  {
    seq(|frames|, i requires 0 <= i < |frames| => Some(frames[i]))
  }

  lemma RepOk(s: Sock)
    requires s.IsRep()
    ensures s.Ok()
  {
  }

  lemma ReplyKeeps(s: Sock, t: Sock, ok: bool, kept: seq<Frame>)
    requires s.IsRep() && s.sending && s.partial == []
    requires ok ==> && kept != []
                    && t == s.(sending := false, partial := [], fate := t.fate,
                               sent := s.sent + [Envelope(s.Peer(), s.partial + kept)])
    requires !ok ==> t == s.(partial := s.partial + kept, fate := t.fate)
    ensures t.IsRep() && s.sent <= t.sent && (ok ==> |t.sent| == t.taken)
    ensures ok ==> t.sent == s.sent + [Envelope(s.Peer(), kept)]
  {
    if ok {
      assert s.partial + kept == kept;
      RepAfterSend(s, t, kept);
    } else {
      RepAfterRefusal(s, t);
    }
  }

  class ZeroMQBenchmark {
    var isServer: bool
    var running: bool
    var isOpen: bool
    var sock: Sock

    constructor ()
      ensures !isServer && !running && !isOpen
    {
      isServer, running, isOpen := false, false, false;
      sock := NewRep(1, []);
    }

    ghost predicate Serving()
      reads this
    {
      running && isServer && isOpen && Idle(sock) && NoExit(sock, sock.taken)
    }

    /** The server over one run, on a new socket, unless it is running already.  Before each receive
        the network delivers the next entry of `traffic`; a receive that finds nothing has timed out.
        The run may be as long as one likes: it takes n turns, all of them unless the server stops, and
        each turn that finds a message reads one.  Whatever libzmq refuses, replies pair up with whole
        requests; if it refuses nothing, every request read is answered by its echo, and the server
        stops at an "exit" request and only there. */
    method StartServer(buffer: Size, fate: seq<bool>, traffic: seq<seq<Envelope>>) returns (ghost n: nat)
      modifies this
      ensures old(isServer) ==> isServer && running == old(running) && isOpen == old(isOpen) && sock == old(sock)
      ensures !old(isServer) ==> sock.IsRep() && sock.buffer == buffer
      ensures !old(isServer) ==> Serving() || (!running && !isServer && !isOpen)
      ensures !old(isServer) ==> n <= |traffic| && (running ==> n == |traffic|) && sock.arrived == Joined(traffic[..n])
      ensures !old(isServer) ==>
                && (forall k | 0 <= k <= n :: sock.taken <= |Joined(traffic[..k])| + n - k)
                && (exists k | 0 <= k <= n :: sock.taken == |Joined(traffic[..k])| + n - k)
                && ((forall i | 0 <= i < n :: traffic[i] != []) ==> sock.taken == n)
      ensures !old(isServer) && fate == [] ==>
                && |sock.sent| == sock.taken
                && (forall i | 0 <= i < |sock.sent| ::
                      sock.sent[i].body
                      == (if Cut(sock.arrived[i].body[0], buffer) == Bytes("exit") then [Bytes("exited")]
                          else CutAll(sock.arrived[i].body, buffer)))
                && (running <==>
                      forall i | 0 <= i < sock.taken :: Cut(sock.arrived[i].body[0], buffer) != Bytes("exit"))
      ensures !old(isServer) && fate == [] ==>
                && sock == EchoAll(NewRep(buffer, []), traffic)
                && Exact(sock) && Idle(sock) && (running || SawExit(sock))
    {
      n := 0;
      if isServer { return; }
      n := Serve(buffer, fate, traffic);
      BusyServer(traffic, n, sock.taken);
      hide Joined, EchoAll, EchoOne;
    }

    method Serve(buffer: Size, fate: seq<bool>, traffic: seq<seq<Envelope>>) returns (ghost n: nat)
      requires !isServer
      modifies this
      ensures sock.IsRep() && sock.buffer == buffer
      ensures Serving() || (!running && !isServer && !isOpen)
      ensures n <= |traffic| && (running ==> n == |traffic|) && sock.arrived == Joined(traffic[..n])
      ensures EachTurnServes(traffic, n, sock.taken)
      ensures fate == [] ==>
                && sock == EchoAll(NewRep(buffer, []), traffic)
                && Exact(sock) && Idle(sock) && (running || SawExit(sock))
    {
      hide Exact, EchoOne, EchoAll, EchoOf, IsExit, EachTurnServes, SawExit, Joined;
      FreshIsExact(buffer);
      NoTurnYet(traffic);
      NoneJoined(traffic);
      isServer, running, isOpen := true, true, true;
      sock := NewRep(buffer, fate);
      var i := 0;
      while running && i < |traffic|
        invariant i <= |traffic|
        invariant sock.IsRep() && sock.buffer == buffer
        invariant Serving() || (!running && !isServer && !isOpen)
        invariant sock.arrived == Joined(traffic[..i]) && EachTurnServes(traffic, i, sock.taken)
        invariant fate == [] ==> Exact(sock) && Idle(sock) && (running || SawExit(sock))
        invariant fate == [] ==>
                    EchoAll(NewRep(buffer, []), traffic) == if running then EchoAll(sock, traffic[i..]) else sock
        decreases |traffic| - i
      {
        Arrivals(sock, traffic[i]);
        EchoAllNext(sock, traffic, i);
        JoinedNext(traffic, i);
        ghost var taken := sock.taken;
        sock := sock.(arrived := sock.arrived + traffic[i]);
        ServeOnce();
        OneMoreTurn(traffic, i, taken, sock.taken);
        i := i + 1;
      }
      if running { EchoAllNext(sock, traffic, i); }
      n := i;
    }

    /** The loop body, with the catch block that stops the server. */
    method ServeOnce()
      requires Serving()
      modifies this
      ensures sock.IsRep() && sock.buffer == old(sock.buffer)
      ensures old(sock.sent) <= sock.sent && sock.arrived == old(sock.arrived)
      ensures Serving() || (!running && !isServer && !isOpen)
      ensures old(Exact(sock)) ==> Exact(sock) && Idle(sock) && (running || SawExit(sock))
      ensures old(sock.taken) == |sock.arrived| ==> sock == old(sock) && running
      ensures sock.taken == if old(sock.taken) < |sock.arrived| then old(sock.taken) + 1 else old(sock.taken)
      ensures old(Exact(sock)) ==> sock == old(EchoOne(sock))
      ensures old(Exact(sock)) ==>
                (running <==>
                   old(sock.taken) == |sock.arrived| || !IsExit(sock.arrived[old(sock.taken)].body, sock.buffer))
    {
      hide Exact, SawExit, EchoOf, IsExit, Cut, Sock.IsRep;
      IdleIsOk(sock);
      ghost var before := sock;
      var s, parts := RecvMultipart(sock, sock.buffer);
      sock := s;
      if parts.None? || parts.value == [] { return; }
      var frames := parts.value;
      ReadOne(before, frames);
      if Exact(before) { EchoOneKeeps(before); }
      if frames[0] == EXIT {
        var ok := Reply([EXITED]);
        StopServer();
      } else {
        var ok := Reply(frames);
        if !ok { StopServer(); }
      }
    }

    /** send_multipart in cell mode, only ever called when a whole request has been read. */
    method Reply(frames: Message) returns (ok: bool)
      requires sock.IsRep() && sock.sending && sock.partial == []
      modifies this`sock
      ensures sock.IsRep()
      ensures sock == old(sock).(sending := sock.sending, partial := sock.partial,
                                 sent := sock.sent, fate := sock.fate)
      ensures old(sock.sent) <= sock.sent
      ensures ok ==> !sock.sending && sock.partial == [] && |sock.sent| == sock.taken
      ensures old(sock.fate) == [] ==>
                && ok && sock.fate == []
                && sock.sent == old(sock.sent) + [Envelope(old(sock.Peer()), frames)]
    {
      hide Subsequence, Attempt, TotalSize, Send, Values, Skips, Refused, AllRows, Sock.IsRep, Sock.Ok, Sock.Peer;
      var cell := Rowed(frames);
      RepOk(sock);
      var s, nbytes, kept := SendCell(sock, cell);
      ReplyKeeps(sock, s, nbytes.Some?, kept);
      if sock.fate == [] { assert kept == frames; }
      ok, sock := nbytes.Some?, s;
    }

    method StopServer()
      modifies this
      ensures !running && !isServer && !isOpen && sock == old(sock)
    {
      isServer, running, isOpen := false, false, false;
    }
  }

  // ---------------------------------------------------------------- client and server together

  const SAMPLE: Message := [[1, 2, 3], [2, 3, 4], [3, 4, 5]]

  /** What sendMultipart sends for a list of frames; an empty list stands for a sample. */
  function Outgoing(frames: seq<Frame>): Message {
    if frames == [] then SAMPLE else frames
  }

  /** The benchmark's own sendMultipart. */
  method SendMultipart(s: Sock, frames: seq<Frame>) returns (s': Sock, ok: bool)
    requires s.Ok()
    ensures (s', ok) == s.SendAll(Outgoing(frames))
    ensures Outgoing(frames) == if frames == [] then [[1, 2, 3], [2, 3, 4], [3, 4, 5]] else frames
  {
    var message := if frames == [] then SAMPLE else frames;
    SendWhole(s, message);
    s' := s;
    for i := 0 to |message|
      invariant s'.Ok() && (i == |message| ==> s.SendEach(message) == (s', true))
      invariant i < |message| ==> s.SendEach(message) == s'.SendEach(message[i..])
    {
      var left := message[i..];
      assert left[0] == message[i] && |left| == |message| - i;
      if i + 1 < |message| { assert left[1..] == message[i + 1..]; }
      var (next, sent) := s'.SendFrame(message[i], i + 1 < |message|);
      s', ok := next, sent;
      if !ok { return; }
    }
    ok := true;
  }

  lemma {:induction false} AllKept(m: seq<Frame>)
    ensures |NonEmpty(m)| == |m| <==> NonEmpty(m) == m
    ensures NonEmpty(m) == m <==> forall i | 0 <= i < |m| :: m[i] != []
    decreases |m|
  {
    if m != [] { AllKept(m[1..]); }
  }

  lemma CutTwice(frames: seq<Frame>, r: nat, r2: nat)
    ensures CutAll(CutAll(frames, r), r2) == frames <==>
            forall i | 0 <= i < |frames| :: |frames[i]| <= r && |frames[i]| <= r2
  {
    var back := CutAll(CutAll(frames, r), r2);
    if back == frames {
      forall i | 0 <= i < |frames| ensures |frames[i]| <= r && |frames[i]| <= r2 {
        assert back[i] == Cut(Cut(frames[i], r), r2);
      }
    }
  }

  /** What the client gets back is its own frame list exactly when all frames are nonempty and fit
      both buffers and the first is not read as "exit" - or, through the eye of a needle, when it is,
      and the list is just what the client's buffer leaves of "exited".  The number of frames, which
      is all that benchmarkChunkSize checks, is right whenever no frame is empty. */
  lemma EchoExchange(frames: Message, server: Size, client: Size)
    ensures var back := NonEmpty(CutAll(EchoOf(frames, server), client));
            && (back == frames <==>
                  if IsExit(frames, server) then frames == [Cut(EXITED, client)]
                  else forall i | 0 <= i < |frames| ::
                         frames[i] != [] && |frames[i]| <= server && |frames[i]| <= client)
            && (|back| == |frames| <==>
                  if IsExit(frames, server) then |frames| == 1 else forall i | 0 <= i < |frames| :: frames[i] != [])
  {
    var back := CutAll(EchoOf(frames, server), client);
    NonEmptyCons(Cut(EXITED, client), []);
    hide NonEmpty, Cut;
    if IsExit(frames, server) {
      CutIsEmpty(EXITED, client);
      assert back == [Cut(EXITED, client)];
    } else {
      AllKept(back);
      CutTwice(frames, server, client);
      forall i | 0 <= i < |frames| ensures back[i] == [] <==> frames[i] == [] {
        CutIsEmpty(frames[i], server);
        CutIsEmpty(Cut(frames[i], server), client);
      }
    }
  }

  lemma CutIsEmpty(f: Frame, r: Size)
    ensures Cut(f, r) == [] <==> f == []
  {
  }

  ghost predicate ReadyToAsk(s: Sock) {
    s.IsReq() && s.sending && s.partial == [] && s.taken == |s.arrived| && s.fate == []
  }

  ghost predicate ReadyToServe(b: ZeroMQBenchmark)
    reads b
  {
    b.Serving() && Exact(b.sock) && b.sock.taken == |b.sock.arrived|
  }

  /** One exchange over two sockets: the client (peer p) sends its frames, they are delivered, the
      server takes one turn, its reply is delivered, and the client reads it. */
  method Exchange(server: ZeroMQBenchmark, client: Sock, p: nat, frames: seq<Frame>)
    returns (client': Sock, received: Option<seq<Part>>)
    requires ReadyToServe(server) && ReadyToAsk(client)
    modifies server
    ensures var m, r := Outgoing(frames), old(server.sock.buffer);
            && received == Some(Rows(NonEmpty(CutAll(EchoOf(m, r), client.buffer))))
            && (if IsExit(m, r) then !server.running && SawExit(server.sock) else ReadyToServe(server))
            && server.sock.sent == old(server.sock.sent) + [Envelope(p, EchoOf(m, r))]
            && server.sock.buffer == r
    ensures ReadyToAsk(client') && client'.sent == client.sent + [Envelope(client.Peer(), Outgoing(frames))]
    ensures client'.buffer == client.buffer
  {
    hide NonEmpty, IsExit, EchoOf, Cut, SawExit, NoExit;
    var c, ok := SendMultipart(client, frames);
    assert [] + Outgoing(frames) == Outgoing(frames);
    var request := Envelope(p, c.sent[|c.sent| - 1].body);
    Arrivals(server.sock, [request]);
    server.sock := server.sock.Deliver(request);
    server.ServeOnce();
    var reply := server.sock.sent[|server.sock.sent| - 1];
    client', received := RecvDropping(c.Deliver(Envelope(0, reply.body)));
    assert reply.body[0..] == reply.body;
  }

  /** The chunks of the data all fit a buffer exactly when a chunk or the whole data does. */
  lemma {:induction false} CeilChunksFit(data: Frame, c: Size, r: nat)
    ensures (forall i | 0 <= i < |CeilChunks(data, c)| :: |CeilChunks(data, c)[i]| <= r) <==> Min(c, |data|) <= r
    decreases |data|
  {
    if |data| > c {
      var first, rest := data[..c], CeilChunks(data[c..], c);
      CeilChunksFit(data[c..], c, r);
      assert CeilChunks(data, c)[0] == first && forall i | 0 <= i < |rest| :: CeilChunks(data, c)[i + 1] == rest[i];
    } else if data != [] {
      assert CeilChunks(data, c)[0] == data;
    }
  }

  lemma RowsInjective(a: seq<Frame>, b: seq<Frame>)
    ensures Rows(a) == Rows(b) <==> a == b
  {
    if Rows(a) == Rows(b) {
      assert |a| == |b|;
      forall i | 0 <= i < |a| ensures a[i] == b[i] { assert Rows(a)[i] == Rows(b)[i]; }
    }
  }

  /** The header of runBenchmark: n copies of 'H'. */
  function Header(n: nat): (h: Frame)
    ensures |h| == n
  {
    seq(n, _ => 72)
  }

  lemma HeaderIsNoExit(n: nat, r: Size)
    ensures Cut(Header(n), r) != EXIT
  {
    assert EXIT[0] != 72;
  }

  /** What all frames of a round satisfy, its header and its chunks do. */
  lemma HeaderAndChunks(header: Frame, data: Frame, c: Size, r: nat)
    ensures var frames := [header] + CeilChunks(data, c);
            && ((forall i | 0 <= i < |frames| :: |frames[i]| <= r) <==> |header| <= r && Min(c, |data|) <= r)
            && ((forall i | 0 <= i < |frames| :: frames[i] != []) <==> header != [])
  {
    hide CeilChunks;
    var chunks := CeilChunks(data, c);
    var frames := [header] + chunks;
    assert frames[0] == header && frames[1..] == chunks;
    assert forall i | 0 <= i < |chunks| :: frames[i + 1] == chunks[i];
    assert forall i | 0 < i < |frames| :: frames[i] == chunks[i - 1];
    CeilChunksFit(data, c, r);
  }

  lemma RoundFrames(n: nat, data: Frame, c: Size, server: Size, client: Size)
    ensures var frames := [Header(n)] + CeilChunks(data, c);
            var back := NonEmpty(CutAll(EchoOf(frames, server), client));
            && !IsExit(frames, server)
            && (|back| == |frames| <==> n > 0)
            && (Rows(back) == Rows(frames) <==>
                  n > 0 && n <= server && n <= client && Min(c, |data|) <= server && Min(c, |data|) <= client)
  {
    hide NonEmpty, EchoOf, CeilChunks, Cut, Min, Header;
    var frames := [Header(n)] + CeilChunks(data, c);
    HeaderIsNoExit(n, server);
    EchoExchange(frames, server, client);
    HeaderAndChunks(Header(n), data, c, server);
    HeaderAndChunks(Header(n), data, c, client);
    RowsInjective(NonEmpty(CutAll(EchoOf(frames, server), client)), frames);
  }

  /** A round of the benchmark.  As many frames come back as were sent (its only check) exactly when
      the header is not empty, and they come back unchanged exactly when, besides, the header and the
      chunks fit both buffers; either way the two sides are ready for the next round. */
  method Round(server: ZeroMQBenchmark, client: Sock, p: nat, headerSize: nat, data: Frame, chunkSize: Size)
    returns (client': Sock, received: Option<seq<Part>>)
    requires ReadyToServe(server) && ReadyToAsk(client)
    modifies server
    ensures received.Some?
    ensures |received.value| == |CeilChunks(data, chunkSize)| + 1 <==> headerSize > 0
    ensures received.value == Rows([Header(headerSize)] + CeilChunks(data, chunkSize)) <==>
            && headerSize > 0 && headerSize <= old(server.sock.buffer) && headerSize <= client.buffer
            && Min(chunkSize, |data|) <= old(server.sock.buffer) && Min(chunkSize, |data|) <= client.buffer
    ensures ReadyToServe(server) && ReadyToAsk(client')
  {
    hide CeilChunks, EchoOf, IsExit, NonEmpty, Cut, Header, ReadyToServe, ReadyToAsk;
    var chunks := MakeChunks(data, chunkSize);
    RoundFrames(headerSize, data, chunkSize, server.sock.buffer, client.buffer);
    client', received := Exchange(server, client, p, [Header(headerSize)] + chunks);
  }
}
