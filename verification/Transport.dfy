/** Multipart transport: send_multipart, recv_multipart, send_string and recv_string of
    lib/+zmq/Socket.m, over frames that src/core/recv.c cuts to the receive buffer. */
module Transport {
  import opened Native
  import opened Framing

  /** How send_multipart cuts an array: whole chunks of c bytes, then what is left, even if that is
      nothing. */
  function FloorChunks(msg: Frame, c: Size): (chunks: Message) {
    if |msg| < c then [msg] else [msg[..c]] + FloorChunks(msg[c..], c)
  }

  function Flatten(m: seq<Frame>): Frame {
    if m == [] then [] else m[0] + Flatten(m[1..])
  }

  /** Array mode.  An exception leaves nothing queued, since only a first frame can be refused. */
  method SendArray(s: Sock, message: Frame, buffLen: Size) returns (s': Sock, nbytes: Option<nat>)
    requires s.Ok()
    ensures (s', nbytes.Some?) == s.SendAll(FloorChunks(message, buffLen))
    ensures nbytes.Some? ==> nbytes.value == |message|
  {
    SendWhole(s, FloorChunks(message, buffLen));
    s' := s;
    var n, offset, count := |message| / buffLen, 0, 0;
    for m := 0 to n
      invariant offset == m * buffLen == count <= |message| && s'.Ok()
      invariant s.SendEach(FloorChunks(message, buffLen)) == s'.SendEach(FloorChunks(message[offset..], buffLen))
    {
      ChunkFits(|message|, buffLen, m);
      var part := message[offset..offset + buffLen];
      var left := message[offset..];
      assert left[..buffLen] == part && left[buffLen..] == message[offset + buffLen..];
      assert FloorChunks(left, buffLen) == [part] + FloorChunks(left[buffLen..], buffLen);
      offset := offset + buffLen;
      var (next, ok) := s'.SendFrame(part, true);
      s' := next;
      if !ok { return s', None; }
      count := count + |part|;
    }
    var part := message[offset..];
    assert |part| < buffLen by { RestIsShort(|message|, buffLen); }
    var (last, ok) := s'.SendFrame(part, false);
    s' := last;
    nbytes := if ok then Some(count + |part|) else None;
  }

  lemma ChunkFits(length: nat, c: Size, m: nat)
    requires m < length / c
    ensures m * c + c == (m + 1) * c <= length
  {
    assert (m + 1) * c <= length / c * c;
  }

  lemma RestIsShort(length: nat, c: Size)
    ensures length - length / c * c < c
  {
  }

  /** recv_multipart: None is an exception (out of turn, or a buffer of 0 bytes, for which the mex
      function returns nothing); with no message before the timeout the result is empty. */
  method RecvMultipart(s: Sock, r: nat) returns (s': Sock, parts: Option<seq<Frame>>)
    requires s.Ok()
    ensures r == 0 || s.sending ==> parts == None && s' == s
    ensures r > 0 && !s.sending && s.taken == |s.arrived| ==> parts == Some([]) && s' == s
    ensures r > 0 && !s.sending && s.taken < |s.arrived| ==>
              && parts == Some(CutAll(s.arrived[s.taken].body[s.at..], r))
              && s' == s.(sending := true, taken := s.taken + 1, at := 0)
  {
    s' := s;
    var message: seq<Frame> := [];
    if r == 0 { return s', None; }
    var keepReceiving := true;
    while keepReceiving
      invariant s'.Ok() && (message == [] ==> s' == s && keepReceiving)
      invariant message != [] ==>
                  && !s.sending && s.taken < |s.arrived|
                  && s.at + |message| <= |s.arrived[s.taken].body|
                  && message == CutAll(s.arrived[s.taken].body[s.at..s.at + |message|], r)
                  && s' == (if keepReceiving then s.(at := s.at + |message|)
                            else s.(sending := true, taken := s.taken + 1, at := 0))
                  && (keepReceiving <==> s.at + |message| < |s.arrived[s.taken].body|)
      decreases if s.taken < |s.arrived| then |s.arrived[s.taken].body| - |message| else 0, keepReceiving
    {
      var (next, d) := s'.RecvUpTo(r);
      s' := next;
      match d {
        case OutOfTurn => return s', None;
        case WouldBlock => break;
        case Got(part) => message := message + [part];
      }
      keepReceiving := s'.RcvMore();
    }
    parts := Some(message);
    if message != [] {
      var body := s.arrived[s.taken].body;
      assert body[s.at..s.at + |message|] == body[s.at..];
    }
  }

  // ---------------------------------------------------------------- chunks

  function Min(a: int, b: int): int { if a <= b then a else b }

  function Excess(length: int, r: int): nat { if length > r then length - r else 0 }

  lemma OneChunkLess(length: nat, c: Size)
    requires length >= c
    ensures length / c == (length - c) / c + 1 && length % c == (length - c) % c
  {
    var q := length / c;
    assert length - c == (q - 1) * c + length % c;
    Quotient(length - c, c, q - 1, length % c);
  }

  lemma Quotient(n: int, c: Size, q: int, rest: int)
    requires n == q * c + rest && 0 <= rest < c
    ensures n / c == q && n % c == rest
  {
    DivMod(n, c);
    Unique(c, n / c, n % c, q, rest);
  }

  lemma DivMod(n: int, c: Size)
    ensures n == n / c * c + n % c && 0 <= n % c < c
  {
  }

  lemma Unique(c: int, a: int, x: int, b: int, y: int)
    requires a * c + x == b * c + y && 0 <= x < c && 0 <= y < c
    ensures a == b && x == y
  {
    assert (a - b) * c == y - x;
    if a > b { AtLeast(a - b, c); }
    if a < b { AtLeast(b - a, c); }
  }

  lemma AtLeast(k: int, c: int)
    requires k >= 1 && c >= 0
    ensures k * c >= c
  {
  }

  /** send_multipart sends floor(L/c) + 1 frames, the last of them empty exactly when c divides L; */
  lemma {:induction false} ChunkCount(msg: Frame, c: Size)
    ensures |FloorChunks(msg, c)| == |msg| / c + 1
    ensures FloorChunks(msg, c)[|msg| / c] == [] <==> |msg| % c == 0
    decreases |msg|
  {
    if |msg| >= c {
      OneChunkLess(|msg|, c);
      ChunkCount(msg[c..], c);
    } else {
      Quotient(|msg|, c, 0, |msg|);
    }
  }

  /** frame i holds the bytes from i*c up to the next multiple of c, or to the end. */
  lemma {:induction false} ChunkAt(msg: Frame, c: Size, i: nat)
    requires i < |FloorChunks(msg, c)|
    ensures i * c <= |msg| && FloorChunks(msg, c)[i] == msg[i * c..Min(i * c + c, |msg|)]
    decreases i
  {
    if i > 0 {
      ChunkAt(msg[c..], c, i - 1);
      var lo := (i - 1) * c;
      assert lo + c == i * c;
      SliceOfTail(msg, c, lo, Min(lo + c, |msg| - c));
    }
  }

  lemma SliceOfTail(msg: Frame, c: nat, lo: nat, hi: nat)
    requires c <= |msg| && lo <= hi <= |msg| - c
    ensures msg[c..][lo..hi] == msg[c + lo..c + hi]
  {
  }

  lemma FlattenCons(first: Frame, rest: seq<Frame>)
    ensures Flatten([first] + rest) == first + Flatten(rest)
  {
    assert ([first] + rest)[1..] == rest;
  }

  lemma CutCons(first: Frame, rest: seq<Frame>, r: nat)
    ensures CutAll([first] + rest, r) == [Cut(first, r)] + CutAll(rest, r)
  {
  }

  /** Sent in chunks of c and received through a buffer of r, a message of L bytes loses exactly
      floor(L/c) * max(0, c-r) + max(0, (L mod c) - r) of them. */
  lemma {:induction false} ExactLoss(msg: Frame, c: Size, r: nat)
    ensures |Flatten(CutAll(FloorChunks(msg, c), r))|
            == |msg| - |msg| / c * Excess(c, r) - Excess(|msg| % c, r)
    decreases |msg|
  {
    if |msg| >= c {
      var rest := msg[c..];
      OneChunkLess(|msg|, c);
      ExactLoss(rest, c, r);
      CutCons(msg[..c], FloorChunks(rest, c), r);
      FlattenCons(Cut(msg[..c], r), CutAll(FloorChunks(rest, c), r));
      assert (|rest| / c + 1) * Excess(c, r) == |rest| / c * Excess(c, r) + Excess(c, r);
    } else {
      Quotient(|msg|, c, 0, |msg|);
      FlattenCons(Cut(msg, r), []);
      assert CutAll([msg], r) == [Cut(msg, r)];
    }
  }

  lemma {:induction false} Reassembles(msg: Frame, c: Size, r: nat)
    requires r >= Min(c, |msg|)
    ensures Flatten(CutAll(FloorChunks(msg, c), r)) == msg
    decreases |msg|
  {
    if |msg| >= c {
      Reassembles(msg[c..], c, r);
      CutCons(msg[..c], FloorChunks(msg[c..], c), r);
      FlattenCons(msg[..c], CutAll(FloorChunks(msg[c..], c), r));
    } else {
      FlattenCons(msg, []);
      assert CutAll([msg], r) == [msg];
    }
  }

  /** The message comes back whole exactly when the buffer holds a chunk, or the whole message. */
  lemma ChunkedRoundTrip(msg: Frame, c: Size, r: nat)
    ensures Flatten(CutAll(FloorChunks(msg, c), r)) == msg <==> r >= Min(c, |msg|)
  {
    if r >= Min(c, |msg|) {
      Reassembles(msg, c, r);
    } else {
      ExactLoss(msg, c, r);
      SomethingIsLost(|msg|, c, r);
    }
  }

  lemma SomethingIsLost(length: nat, c: Size, r: nat)
    requires r < Min(c, length)
    ensures length / c * Excess(c, r) + Excess(length % c, r) > 0
  {
    if length >= c {
      OneChunkLess(length, c);
      AtLeast(length / c, Excess(c, r));
    } else {
      Quotient(length, c, 0, length);
    }
  }

  /** Peer to peer: `from` sends a message as one array and `to`, with nothing else to read, receives
      it: the number of parts, the exact loss, and when the message comes back whole. */
  method Transfer(from: Sock, to: Sock, message: Frame, c: Size, r: Size)
    returns (from': Sock, to': Sock, parts: seq<Frame>)
    requires from.Ok() && from.sending && from.partial == [] && from.fate == []
    requires to.Ok() && !to.sending && to.at == 0 && to.taken == |to.arrived|
    ensures |parts| == |message| / c + 1
    ensures forall i | 0 <= i < |parts| ::
              i * c <= |message| && parts[i] == Cut(message[i * c..Min(i * c + c, |message|)], r)
    ensures |message| - |Flatten(parts)| == |message| / c * Excess(c, r) + Excess(|message| % c, r)
    ensures Flatten(parts) == message <==> r >= Min(c, |message|)
    ensures !from'.sending && to'.sending && to'.taken == |to'.arrived|
  {
    var nbytes, received;
    from', nbytes := SendArray(from, message, c);
    assert [] + FloorChunks(message, c) == FloorChunks(message, c);
    to', received := RecvMultipart(to.Deliver(from'.sent[|from'.sent| - 1]), r);
    parts := received.value;
    assert FloorChunks(message, c)[0..] == FloorChunks(message, c);
    Parts(message, c, r);
  }

  lemma Parts(message: Frame, c: Size, r: Size)
    ensures var parts := CutAll(FloorChunks(message, c), r);
            && |parts| == |message| / c + 1
            && (forall i | 0 <= i < |parts| ::
                  i * c <= |message| && parts[i] == Cut(message[i * c..Min(i * c + c, |message|)], r))
            && |message| - |Flatten(parts)| == |message| / c * Excess(c, r) + Excess(|message| % c, r)
            && (Flatten(parts) == message <==> r >= Min(c, |message|))
  {
    hide Flatten, FloorChunks, Excess, Cut;
    ChunkCount(message, c);
    ExactLoss(message, c, r);
    ChunkedRoundTrip(message, c, r);
    forall i | 0 <= i <= |message| / c
      ensures i * c <= |message| && FloorChunks(message, c)[i] == message[i * c..Min(i * c + c, |message|)]
    {
      ChunkAt(message, c, i);
    }
  }

  // ---------------------------------------------------------------- cells

  /** A cell of parts; None is a part that is not a row of uint8, which the mex function rejects. */
  type Cell = seq<Option<Frame>>

  function TotalSize(m: seq<Frame>): nat {
    if m == [] then 0 else TotalSize(m[..|m| - 1]) + |m[|m| - 1]|
  }

  /** `kept` lists some of the parts, in their order. */
  predicate Subsequence(kept: seq<Frame>, parts: Cell)
    decreases |parts|
  {
    || kept == []
    || (parts != [] &&
        var p, k := |parts| - 1, |kept| - 1;
        || (parts[p] == Some(kept[k]) && Subsequence(kept[..k], parts[..p]))
        || Subsequence(kept, parts[..p]))
  }

  /** Socket.send */
  function Send(s: Sock, part: Option<Frame>, more: bool): (Sock, bool)
    requires s.Ok()
  {
    match part
    case None => (s, false)
    case Some(f) => s.SendFrame(f, more)
  }

  /** Sending each part with SNDMORE, whatever becomes of it. */
  function Attempt(s: Sock, parts: Cell): (s': Sock)
    requires s.Ok()
    ensures s'.Ok()
    decreases |parts|
  {
    if parts == [] then s else Send(Attempt(s, parts[..|parts| - 1]), parts[|parts| - 1], true).0
  }

  /** What the swallowing loop has done after the first m parts. */
  ghost predicate Queued(s: Sock, message: Cell, m: nat, s': Sock, kept: seq<Frame>)
    requires m <= |message|
  {
    && s'.Ok() && Subsequence(kept, message[..m])
    && s' == s.(partial := s.partial + kept, fate := s'.fate)
    && (!s.sending ==> kept == [])
    && (s.sending && s.fate == [] && AllRows(message[..m]) ==>
          s'.fate == [] && |kept| == m && forall i | 0 <= i < m :: message[i] == Some(kept[i]))
  }

  predicate AllRows(message: Cell) {
    forall i | 0 <= i < |message| :: message[i].Some?
  }

  /** The parts that are rows, in order. */
  function Values(message: Cell): seq<Frame> {
    if message == [] then []
    else Values(message[..|message| - 1])
         + match message[|message| - 1] case Some(f) => [f] case None => []
  }

  lemma {:induction false} ValuesConcat(a: Cell, b: Cell)
    ensures Values(a + b) == Values(a) + Values(b)
    decreases |b|
  {
    if b == [] {
      assert a + b == a;
    } else {
      var n := |b| - 1;
      ValuesConcat(a, b[..n]);
      ValuesSnoc(a + b[..n], b[n]);
      ValuesSnoc(b[..n], b[n]);
      assert b == b[..n] + [b[n]] && a + b == a + b[..n] + [b[n]];
    }
  }

  lemma ValuesSnoc(a: Cell, part: Option<Frame>)
    ensures Values(a + [part]) == Values(a) + match part case Some(f) => [f] case None => []
  {
    assert (a + [part])[..|a|] == a;
  }

  /** How many first frames libzmq is going to refuse before it accepts one. */
  function Refused(fate: seq<bool>): nat {
    if fate == [] || fate[0] then 0 else 1 + Refused(fate[1..])
  }

  /** How many rows a socket is going to refuse: none once a message has been begun. */
  function Skips(s: Sock): nat {
    if s.partial == [] then Refused(s.fate) else 0
  }

  /** What of the first m parts has been queued: all rows but those refused as a first frame. */
  ghost predicate RowsQueued(s: Sock, message: Cell, m: nat, s': Sock, kept: seq<Frame>)
    requires m <= |message|
  {
    s.sending ==>
      var rows := Values(message[..m]);
      && s'.sending && s'.partial == s.partial + kept
      && kept == rows[Min(Skips(s), |rows|)..]
      && (s'.partial == [] ==> Refused(s'.fate) == Skips(s) - |rows|)
  }

  lemma RowsStart(s: Sock, message: Cell)
    ensures RowsQueued(s, message, 0, s, [])
  {
    assert s.partial + [] == s.partial;
  }

  lemma RowsStep(s: Sock, message: Cell, m: nat, s': Sock, kept: seq<Frame>)
    requires m < |message| && s'.Ok() && RowsQueued(s, message, m, s', kept)
    ensures var (next, ok) := Send(s', message[m], true);
            if ok then message[m].Some? && RowsQueued(s, message, m + 1, next, kept + [message[m].value])
            else RowsQueued(s, message, m + 1, next, kept)
    ensures s.sending ==>
              (Send(s', message[m], false).1 <==>
                 message[m].Some? && Skips(s) < |Values(message[..m + 1])|)
  {
    assert message[..m + 1][..m] == message[..m];
    var rows := Values(message[..m]);
    if s.sending && message[m].Some? {
      var part := message[m].value;
      assert Values(message[..m + 1]) == rows + [part];
      assert s.partial + (kept + [part]) == s.partial + kept + [part];
    }
  }

  lemma QueueNone(s: Sock, message: Cell)
    requires s.Ok()
    ensures Queued(s, message, 0, s, []) && TotalSize([]) == 0
  {
    assert s.partial + [] == s.partial;
  }

  lemma SubsequenceGrows(kept: seq<Frame>, parts: Cell, part: Option<Frame>)
    requires Subsequence(kept, parts)
    ensures Subsequence(kept, parts + [part])
    ensures part.Some? ==> Subsequence(kept + [part.value], parts + [part])
  {
    assert (parts + [part])[..|parts|] == parts;
    if part.Some? { assert (kept + [part.value])[..|kept|] == kept; }
  }

  lemma SizeGrows(kept: seq<Frame>, part: Frame)
    ensures TotalSize(kept + [part]) == TotalSize(kept) + |part|
  {
    assert (kept + [part])[..|kept|] == kept;
  }

  lemma QueueOne(s: Sock, message: Cell, m: nat, s': Sock, kept: seq<Frame>)
    requires m < |message| && s.Ok() && Queued(s, message, m, s', kept)
    ensures var (next, ok) := Send(s', message[m], true);
            if ok then
              message[m].Some? && Queued(s, message, m + 1, next, kept + [message[m].value])
              && TotalSize(kept + [message[m].value]) == TotalSize(kept) + |message[m].value|
            else Queued(s, message, m + 1, next, kept)
  {
    hide Subsequence, TotalSize;
    assert message[..m + 1] == message[..m] + [message[m]];
    SubsequenceGrows(kept, message[..m], message[m]);
    if message[m].Some? {
      var part := message[m].value;
      SizeGrows(kept, part);
      assert s.partial + (kept + [part]) == s.partial + kept + [part];
    } else {
      assert message[..m + 1][m].None?;
    }
  }

  /** Cell mode, which swallows the failure of every part but the last.  The frames queued are exactly the
      parts that are rows, in order, but for those libzmq refuses as the first of the message; nbytes is
      their total size; and there is an exception exactly if the last part is among the missing. */
  method SendCell(s: Sock, message: Cell) returns (s': Sock, nbytes: Option<nat>, ghost kept: seq<Frame>)
    requires s.Ok()
    ensures (s', nbytes.Some?) ==
            if message == [] then (s, false)
            else Send(Attempt(s, message[..|message| - 1]), message[|message| - 1], false)
    ensures s'.Ok() && Subsequence(kept, message)
    ensures nbytes.Some? ==>
              && s.sending && message != [] && kept != []
              && message[|message| - 1] == Some(kept[|kept| - 1])
              && nbytes.value == TotalSize(kept)
              && s' == s.(sending := false, partial := [], fate := s'.fate,
                          sent := s.sent + [Envelope(s.Peer(), s.partial + kept)])
    ensures nbytes.None? ==> s' == s.(partial := s.partial + kept, fate := s'.fate) && (!s.sending ==> kept == [])
    ensures s.sending && s.fate == [] && message != [] && AllRows(message) ==>
              nbytes.Some? && s'.fate == [] && |kept| == |message|
              && forall i | 0 <= i < |kept| :: message[i] == Some(kept[i])
    ensures s.sending && message != [] ==>
              && kept == Values(message)[Min(Skips(s), |Values(message)|)..]
              && (nbytes.Some? <==> message[|message| - 1].Some? && Skips(s) < |Values(message)|)
  {
    hide Subsequence, TotalSize, Values, Skips, Queued, RowsQueued, Send, Attempt, AllRows, Sock.Peer;
    QueueNone(s, message);
    RowsStart(s, message);
    AttemptNone(s);
    s', kept := s, [];
    var count := 0;
    if message == [] { return s', None, kept; }
    var last := |message| - 1;
    for m := 0 to last
      invariant s' == Attempt(s, message[..m])
      invariant Queued(s, message, m, s', kept) && count == TotalSize(kept)
      invariant RowsQueued(s, message, m, s', kept)
    {
      AttemptOne(s, message, m);
      QueueOne(s, message, m, s', kept);
      RowsStep(s, message, m, s', kept);
      var (next, ok) := Send(s', message[m], true);
      s' := next;
      if ok { kept, count := kept + [message[m].value], count + |message[m].value|; }
    }
    QueueLast(s, message, s', kept);
    RowsLast(s, message, s', kept);
    var (next, ok) := Send(s', message[last], false);
    s' := next;
    if ok {
      var part := message[last].value;
      kept := kept + [part];
      nbytes := Some(count + |part|);
    } else {
      nbytes := None;
    }
  }

  lemma AttemptNone(s: Sock)
    requires s.Ok()
    ensures Attempt(s, []) == s
  {
  }

  lemma AttemptOne(s: Sock, message: Cell, m: nat)
    requires s.Ok() && m < |message|
    ensures Attempt(s, message[..m + 1]) == Send(Attempt(s, message[..m]), message[m], true).0
  {
    assert message[..m + 1][..m] == message[..m];
  }

  /** The last part decides whether the message leaves. */
  lemma QueueLast(s: Sock, message: Cell, s': Sock, kept: seq<Frame>)
    requires s.Ok() && message != [] && s'.Ok() && Queued(s, message, |message| - 1, s', kept)
    ensures var last := message[|message| - 1];
            var (next, ok) := Send(s', last, false);
            var all := if ok && last.Some? then kept + [last.value] else kept;
            && next.Ok() && Subsequence(all, message)
            && (ok ==>
                  && last.Some? && s.sending && TotalSize(all) == TotalSize(kept) + |last.value|
                  && next == s.(sending := false, partial := [], fate := next.fate,
                                sent := s.sent + [Envelope(s.Peer(), s.partial + all)]))
            && (!ok ==> next == s.(partial := s.partial + kept, fate := next.fate) && (!s.sending ==> kept == []))
            && (s.sending && s.fate == [] && AllRows(message) ==>
                  && ok && next.fate == [] && |all| == |message|
                  && forall i | 0 <= i < |all| :: message[i] == Some(all[i]))
  {
    hide Subsequence, TotalSize;
    var m := |message| - 1;
    assert message[..m + 1] == message;
    QueueOne(s, message, m, s', kept);
    if message[m].Some? { assert s.partial + (kept + [message[m].value]) == s.partial + kept + [message[m].value]; }
  }

  lemma RowsLast(s: Sock, message: Cell, s': Sock, kept: seq<Frame>)
    requires s.Ok() && message != [] && s'.Ok() && RowsQueued(s, message, |message| - 1, s', kept)
    ensures var last := message[|message| - 1];
            var ok := Send(s', last, false).1;
            var all := if ok && last.Some? then kept + [last.value] else kept;
            s.sending ==>
              && all == Values(message)[Min(Skips(s), |Values(message)|)..]
              && (ok <==> last.Some? && Skips(s) < |Values(message)|)
  {
    hide Values, Skips, Refused, Sock.Peer;
    var m := |message| - 1;
    assert message[..m + 1] == message;
    RowsStep(s, message, m, s', kept);
  }

  /** A cell comes back as it was exactly when every part fits the buffer. */
  lemma CellRoundTrip(parts: seq<Frame>, r: nat)
    ensures CutAll(parts, r) == parts <==> forall i | 0 <= i < |parts| :: |parts[i]| <= r
  {
    if CutAll(parts, r) == parts {
      forall i | 0 <= i < |parts| ensures |parts[i]| <= r { assert CutAll(parts, r)[i] == parts[i]; }
    }
  }

  // ---------------------------------------------------------------- strings

  method SendString(s: Sock, message: string, buffLen: Size) returns (s': Sock, nbytes: Option<nat>)
    requires s.Ok()
    ensures (s', nbytes.Some?) == s.SendAll(FloorChunks(Bytes(message), buffLen))
    ensures nbytes.Some? ==> nbytes.value == |message|
  {
    s', nbytes := SendArray(s, Bytes(message), buffLen);
  }

  /** recv_string keeps the first part only, but takes the whole message; indexing the empty result
      of a timeout is an exception. */
  method RecvString(s: Sock, r: nat) returns (s': Sock, message: Option<string>)
    requires s.Ok()
    ensures message.Some? <==> r > 0 && !s.sending && s.taken < |s.arrived|
    ensures message.None? ==> s' == s
    ensures message.Some? ==>
              && message.value == Chars(Cut(s.arrived[s.taken].body[s.at], r))
              && s' == s.(sending := true, taken := s.taken + 1, at := 0)
  {
    var parts;
    s', parts := RecvMultipart(s, r);
    if parts.None? || parts.value == [] { return s', None; }
    return s', Some(Chars(parts.value[0]));
  }

  /** What recv_string returns is the first min(L, c, r) characters sent, so a string of codes
      0..255 survives exactly when it fits one chunk and the buffer. */
  lemma StringRoundTrip(text: string, c: Size, r: nat)
    requires SingleByte(text)
    ensures Chars(Cut(FloorChunks(Bytes(text), c)[0], r)) == text[..Min(|text|, Min(c, r))]
    ensures Chars(Cut(FloorChunks(Bytes(text), c)[0], r)) == text <==> |text| <= Min(c, r)
  {
    var n := Min(|text|, Min(c, r));
    assert Cut(FloorChunks(Bytes(text), c)[0], r) == Bytes(text)[..n] == Bytes(text[..n]);
    TextRoundTrip(text[..n], n);
    assert Cut(Bytes(text[..n]), n) == Bytes(text[..n]);
  }
}
