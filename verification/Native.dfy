/** The part of libzmq the MATLAB binding relies on: frames, messages, and the lock-step
    state machine that REQ and REP sockets share (sections "The REQ Socket Type" and "The REP
    Socket Type" of ZeroMQ RFC 28/REQREP).  This layer is the specification of the environment;
    everything the repository itself does is modelled in the other modules. */
module Native {

  datatype Option<+T> = None | Some(value: T)

  type Byte = b: int | 0 <= b < 256
  type Frame = seq<Byte>
  type Message = m: seq<Frame> | m != [] witness [[]]
  type Size = n: int | 0 < n witness 1

  /** The same letter, but possibly one upper and the other lower case. */
  predicate SameLetter(a: char, b: char) {
    a == b || ('A' <= a <= 'Z' && b as int == a as int + 32) || ('A' <= b <= 'Z' && a as int == b as int + 32)
  }

  /** A received frame is cut to the length of the buffer handed to zmq_recv. */
  function Cut(f: Frame, r: nat): Frame {
    if |f| > r then f[..r] else f
  }

  function CutAll(m: seq<Frame>, r: nat): (cut: seq<Frame>)
    ensures |cut| == |m| && forall i | 0 <= i < |m| :: cut[i] == Cut(m[i], r)
  {
    seq(|m|, i requires 0 <= i < |m| => Cut(m[i], r))
  }

  /** A message together with the peer it came from, or the peer it goes to. */
  datatype Envelope = Envelope(peer: nat, body: Message)

  datatype Delivery = Got(frame: Frame) | WouldBlock | OutOfTurn

  /** A lock-step socket.  A REP socket starts with `sending` false, a REQ socket with `sending`
      true; after that both alternate between one whole message in and one whole message out.
        arrived  every message the network has delivered so far, in order of delivery
        taken    how many of them the application has read to their last frame
        at       how many frames it has read of the next one
        partial  the frames of an outgoing message queued so far with ZMQ_SNDMORE
        sent     every complete message sent so far
        fate     whether libzmq accepts the next first frames; accepted once exhausted
        buffer   the receive buffer length (defaultBufferLength) */
  datatype Sock = Sock(sending: bool, arrived: seq<Envelope>, taken: nat, at: nat,
                       partial: seq<Frame>, sent: seq<Envelope>, fate: seq<bool>, buffer: Size)
  {
    predicate Ok() {
      && taken <= |arrived|
      && (at > 0 ==> !sending && taken < |arrived| && at < |arrived[taken].body|)
    }

    /** At most one message is owed, and every answer goes to the peer that asked. */
    ghost predicate IsRep() {
      && Ok()
      && |sent| + (if sending then 1 else 0) == taken
      && forall i | 0 <= i < |sent| :: sent[i].peer == arrived[i].peer
    }

    ghost predicate IsReq() {
      Ok() && |sent| == taken + (if sending then 0 else 1)
    }

    /** Replies go to the peer of the request read last; a REQ socket has one peer, 0. */
    function Peer(): nat
      requires Ok()
    {
      if taken == 0 then 0 else arrived[taken - 1].peer
    }

    /** zmq_send: refused with EFSM out of turn, may be refused on the first frame of a message,
        and never on a later frame. */
    function SendFrame(f: Frame, more: bool): (Sock, bool)
      requires Ok()
    {
      if !sending then (this, false)
      else if partial == [] && fate != [] && !fate[0] then (this.(fate := fate[1..]), false)
      else
        var fate' := if partial == [] && fate != [] then fate[1..] else fate;
        if more then (this.(partial := partial + [f], fate := fate'), true)
        else (this.(sending := false, partial := [], fate := fate',
                    sent := sent + [Envelope(Peer(), partial + [f])]), true)
    }

    /** zmq_recv with a buffer of r bytes: refused with EFSM out of turn; the turn passes with the
        last frame. */
    function RecvUpTo(r: Size): (Sock, Delivery)
      requires Ok()
    {
      if sending then (this, OutOfTurn)
      else if taken == |arrived| then (this, WouldBlock)
      else
        var body := arrived[taken].body;
        (if at + 1 < |body| then this.(at := at + 1) else this.(taken := taken + 1, at := 0, sending := true),
         Got(Cut(body[at], r)))
    }

    function RecvFrame(): (Sock, Delivery)
      requires Ok()
    {
      RecvUpTo(buffer)
    }

    /** The ZMQ_RCVMORE option. */
    predicate RcvMore() { at > 0 }

    /** A whole message at once.  Sending is all or nothing: the message leaves whole and the turn
        passes, or nothing but the environment's own choice (`fate`) has changed. */
    function SendAll(m: Message): (Sock, bool)
      requires Ok()
    {
      if !sending then (this, false)
      else if partial == [] && fate != [] && !fate[0] then (this.(fate := fate[1..]), false)
      else (this.(sending := false, partial := [], sent := sent + [Envelope(Peer(), partial + m)],
                  fate := if partial == [] && fate != [] then fate[1..] else fate), true)
    }

    /** Sending the frames one by one until one is refused. */
    function SendEach(m: Message): (Sock, bool)
      requires Ok()
      decreases |m|
    {
      var (s, ok) := SendFrame(m[0], |m| > 1);
      if !ok || |m| == 1 then (s, ok) else s.SendEach(m[1..])
    }

    function Deliver(e: Envelope): Sock {
      this.(arrived := arrived + [e])
    }
  }

  function NewRep(buffer: Size, fate: seq<bool>): (s: Sock)
    ensures s.IsRep()
  {
    Sock(false, [], 0, 0, [], [], fate, buffer)
  }

  function NewReq(buffer: Size, fate: seq<bool>): (s: Sock)
    ensures s.IsReq()
  {
    Sock(true, [], 0, 0, [], [], fate, buffer)
  }

  /** Frame by frame or at once comes to the same. */
  lemma {:induction false} SendWhole(s: Sock, m: Message)
    requires s.Ok()
    ensures s.SendEach(m) == s.SendAll(m)
    decreases |m|
  {
    var (s1, ok1) := s.SendFrame(m[0], |m| > 1);
    if ok1 {
      if |m| == 1 {
        assert m == [m[0]];
      } else {
        assert s.partial + [m[0]] + m[1..] == s.partial + m;
        SendWhole(s1, m[1..]);
      }
    }
  }

  /** Answering, wholly or in vain, keeps answers paired with requests. */
  lemma RepAfterSend(s: Sock, t: Sock, m: Message)
    requires s.IsRep() && s.sending
    requires t == s.(sending := false, partial := [], sent := s.sent + [Envelope(s.Peer(), m)], fate := t.fate)
    ensures t.IsRep() && |t.sent| == t.taken
  {
  }

  lemma RepAfterRefusal(s: Sock, t: Sock)
    requires s.IsRep() && s.sending && t == s.(partial := t.partial, fate := t.fate)
    ensures t.IsRep()
  {
  }
}
