/** Who owns which native socket: the Socket class's endpoint tracking and close (lib/+zmq/Socket.m),
    the Context class's spawnedSockets, close and term (lib/+zmq/Context.m), and the clean-up of
    CommandSocket.stop, over a libzmq whose every call may fail. */
module Lifecycle {

  datatype NativeSocket = NativeSocket(ctx: nat, bound: set<string>, connected: set<string>)

  datatype Termination = Terminated | Interrupted | Blocked

  datatype Routine = NEW_CONTEXT | TERM | NEW_SOCKET | BIND | UNBIND | CONNECT | DISCONNECT | LINGER | CLOSE

  /** One call of libzmq: on which handle, for which endpoint, and whether it succeeded. */
  datatype Call = Call(routine: Routine, handle: nat, endpoint: string, ok: bool)

  /** libzmq.  `sockets` holds the open sockets by handle; handles are identities, never reused, and
      0 is NULL.  `contexts` holds the live contexts.  `leaked` collects the sockets whose linger
      could not be set or whose close failed.  The preconditions of Close and CtxTerm are the safety
      properties of the classes below: no socket is closed twice, and no context is terminated
      (which would block for ever) while a socket of its is open that close did not fail on. */
  class World {
    var sockets: map<nat, NativeSocket>
    var contexts: set<nat>
    var leaked: set<nat>
    var next: nat
    ghost var calls: seq<Call>  // every call so far

    ghost predicate Ok()
      reads this
    {
      && next > 0
      && (forall h | h in sockets :: 0 < h < next && 0 < sockets[h].ctx < next)
      && (forall p | p in contexts :: 0 < p < next)
    }

    constructor ()
      ensures Ok() && sockets == map[] && contexts == {} && leaked == {}
    {
      sockets, contexts, leaked, next, calls := map[], {}, {}, 1, [];
    }

    /** zmq_ctx_new; 0 stands for failure. */
    method CtxNew() returns (p: nat)
      requires Ok()
      modifies this`contexts, this`next, this`calls
      ensures Ok() && calls == old(calls) + [Call(NEW_CONTEXT, 0, "", p != 0)]
      ensures p == 0 ==> contexts == old(contexts)
      ensures p != 0 ==> p !in old(contexts) && contexts == old(contexts) + {p}
      ensures p != 0 ==> forall h | h in sockets :: sockets[h].ctx != p
    {
      var ok: bool := *;
      calls := calls + [Call(NEW_CONTEXT, 0, "", ok)];
      if !ok { return 0; }
      p := next;
      next := next + 1;
      contexts := contexts + {p};
    }

    method CtxTerm(p: nat) returns (r: Termination)
      requires Ok() && p in contexts
      requires forall h | h in sockets && sockets[h].ctx == p :: h in leaked
      modifies this`contexts, this`calls
      ensures Ok() && calls == old(calls) + [Call(TERM, p, "", r.Terminated?)]
      ensures r.Terminated? ==> contexts == old(contexts) - {p} && forall h | h in sockets :: sockets[h].ctx != p
      ensures !r.Terminated? ==> contexts == old(contexts)
      ensures r.Blocked? <==> exists h | h in sockets :: sockets[h].ctx == p
    {
      if h :| h in sockets && sockets[h].ctx == p {
        r := Blocked;
      } else {
        var ok: bool := *;
        r := if ok then Terminated else Interrupted;
        if ok { contexts := contexts - {p}; }
      }
      calls := calls + [Call(TERM, p, "", r.Terminated?)];
    }

    /** zmq_socket; 0 stands for failure. */
    method NewSocket(ctx: nat) returns (h: nat)
      requires Ok()
      modifies this`sockets, this`next, this`calls
      ensures Ok() && calls == old(calls) + [Call(NEW_SOCKET, ctx, "", h != 0)]
      ensures h == 0 ==> sockets == old(sockets)
      ensures h != 0 ==> ctx in contexts && h !in old(sockets)
                         && sockets == old(sockets)[h := NativeSocket(ctx, {}, {})]
    {
      var ok: bool := *;
      ok := ok && ctx in contexts;
      calls := calls + [Call(NEW_SOCKET, ctx, "", ok)];
      if !ok { return 0; }
      h := next;
      next := next + 1;
      sockets := sockets[h := NativeSocket(ctx, {}, {})];
    }

    // The four endpoint calls return 0, or -1 for an exception, which NULL always raises.

    method Bind(h: nat, endpoint: string) returns (status: int)
      requires Ok() && (h == 0 || h in sockets)
      modifies this`sockets, this`calls
      ensures Ok() && calls == old(calls) + [Call(BIND, h, endpoint, status == 0)]
      ensures h == 0 ==> status == -1
      ensures status == 0 ==> h in old(sockets)
      ensures status == 0 ==> sockets == old(sockets[h := sockets[h].(bound := sockets[h].bound + {endpoint})])
      ensures status != 0 ==> status == -1 && sockets == old(sockets)
    {
      var ok: bool := *;
      ok := ok && h != 0;
      calls := calls + [Call(BIND, h, endpoint, ok)];
      if !ok { return -1; }
      sockets := sockets[h := sockets[h].(bound := sockets[h].bound + {endpoint})];
      return 0;
    }

    method Unbind(h: nat, endpoint: string) returns (status: int)
      requires Ok() && (h == 0 || h in sockets)
      modifies this`sockets, this`calls
      ensures Ok() && calls == old(calls) + [Call(UNBIND, h, endpoint, status == 0)]
      ensures h == 0 ==> status == -1
      ensures status == 0 ==> h in old(sockets) && endpoint in old(sockets)[h].bound
      ensures status == 0 ==> sockets == old(sockets[h := sockets[h].(bound := sockets[h].bound - {endpoint})])
      ensures status != 0 ==> status == -1 && sockets == old(sockets)
    {
      var ok: bool := *;
      ok := ok && h != 0 && endpoint in sockets[h].bound;
      calls := calls + [Call(UNBIND, h, endpoint, ok)];
      if !ok { return -1; }
      sockets := sockets[h := sockets[h].(bound := sockets[h].bound - {endpoint})];
      return 0;
    }

    method Connect(h: nat, endpoint: string) returns (status: int)
      requires Ok() && (h == 0 || h in sockets)
      modifies this`sockets, this`calls
      ensures Ok() && calls == old(calls) + [Call(CONNECT, h, endpoint, status == 0)]
      ensures h == 0 ==> status == -1
      ensures status == 0 ==> h in old(sockets)
      ensures status == 0 ==> sockets == old(sockets[h := sockets[h].(connected := sockets[h].connected + {endpoint})])
      ensures status != 0 ==> status == -1 && sockets == old(sockets)
    {
      var ok: bool := *;
      ok := ok && h != 0;
      calls := calls + [Call(CONNECT, h, endpoint, ok)];
      if !ok { return -1; }
      sockets := sockets[h := sockets[h].(connected := sockets[h].connected + {endpoint})];
      return 0;
    }

    /** Drops every connection to the endpoint. */
    method Disconnect(h: nat, endpoint: string) returns (status: int)
      requires Ok() && (h == 0 || h in sockets)
      modifies this`sockets, this`calls
      ensures Ok() && calls == old(calls) + [Call(DISCONNECT, h, endpoint, status == 0)]
      ensures h == 0 ==> status == -1
      ensures status == 0 ==> h in old(sockets) && endpoint in old(sockets)[h].connected
      ensures status == 0 ==> sockets == old(sockets[h := sockets[h].(connected := sockets[h].connected - {endpoint})])
      ensures status != 0 ==> status == -1 && sockets == old(sockets)
    {
      var ok: bool := *;
      ok := ok && h != 0 && endpoint in sockets[h].connected;
      calls := calls + [Call(DISCONNECT, h, endpoint, ok)];
      if !ok { return -1; }
      sockets := sockets[h := sockets[h].(connected := sockets[h].connected - {endpoint})];
      return 0;
    }

    /** zmq_setsockopt(ZMQ_LINGER, 0), as called by Socket.close. */
    method SetLinger(h: nat) returns (ok: bool)
      requires Ok() && h in sockets
      modifies this`leaked, this`calls
      ensures calls == old(calls) + [Call(LINGER, h, "", ok)]
      ensures leaked == if ok then old(leaked) else old(leaked) + {h}
    {
      ok := *;
      calls := calls + [Call(LINGER, h, "", ok)];
      if !ok { leaked := leaked + {h}; }
    }

    method Close(h: nat) returns (ok: bool)
      requires Ok() && h in sockets
      modifies this`sockets, this`leaked, this`calls
      ensures Ok() && calls == old(calls) + [Call(CLOSE, h, "", ok)]
      ensures ok ==> sockets == old(sockets) - {h} && leaked == old(leaked)
      ensures !ok ==> sockets == old(sockets) && leaked == old(leaked) + {h}
    {
      ok := *;
      calls := calls + [Call(CLOSE, h, "", ok)];
      if ok { sockets := sockets - {h}; } else { leaked := leaked + {h}; }
    }
  }

  // ---------------------------------------------------------------- Socket

  function Elements(s: seq<string>): set<string> { set x | x in s }

  /** The list without any copy of the endpoints in `gone`. */
  function Minus(s: seq<string>, gone: set<string>): (t: seq<string>)
    ensures forall x :: x in t <==> x in s && x !in gone
  {
    if s == [] then [] else if s[0] in gone then Minus(s[1..], gone) else [s[0]] + Minus(s[1..], gone)
  }

  lemma {:induction false} MinusTwice(s: seq<string>, gone: set<string>, more: set<string>)
    ensures Minus(Minus(s, gone), more) == Minus(s, gone + more)
    decreases |s|
  {
    if s != [] {
      MinusTwice(s[1..], gone, more);
      if s[0] !in gone {
        assert Minus(s, gone)[1..] == Minus(s[1..], gone);
      }
    }
  }

  lemma {:induction false} MinusNothing(s: seq<string>)
    ensures Minus(s, {}) == s
    decreases |s|
  {
    if s != [] { MinusNothing(s[1..]); }
  }

  /** Removal goes through the list entry by entry and keeps the order of the rest. */
  lemma {:induction false} MinusEach(s: seq<string>, x: string, gone: set<string>)
    ensures Minus(s + [x], gone) == Minus(s, gone) + (if x in gone then [] else [x])
    decreases |s|
  {
    if s == [] {
      assert s + [x] == [x] && [x][1..] == [];
    } else {
      MinusEach(s[1..], x, gone);
      assert (s + [x])[1..] == s[1..] + [x];
    }
  }

  /** The endpoints whose release succeeded, given one status per endpoint tried. */
  function Released(tried: seq<string>, statuses: seq<int>): set<string>
    requires |statuses| <= |tried|
  {
    set k | 0 <= k < |statuses| && statuses[k] == 0 :: tried[k]
  }

  /** The list after releasing the first endpoints of `before` one by one: what was released is
      gone, nothing else is, and nothing was released twice. */
  ghost predicate Draining(before: seq<string>, statuses: seq<int>, after: seq<string>) {
    && |statuses| <= |before|
    && after == Minus(before, Released(before, statuses))
    && OnceEach(before, statuses)
  }

  ghost predicate OnceEach(tried: seq<string>, statuses: seq<int>)
    requires |statuses| <= |tried|
  {
    forall j, k | 0 <= j < k < |statuses| && tried[j] == tried[k] :: statuses[j] != 0 || statuses[k] != 0
  }

  lemma OnceMore(tried: seq<string>, statuses: seq<int>, status: int)
    requires |statuses| < |tried| && OnceEach(tried, statuses)
    requires status == 0 ==> tried[|statuses|] !in Released(tried, statuses)
    ensures OnceEach(tried, statuses + [status])
  {
    assert forall j | 0 <= j < |statuses| && statuses[j] == 0 :: tried[j] in Released(tried, statuses);
  }

  ghost predicate Drained(before: seq<string>, statuses: seq<int>, after: seq<string>) {
    |statuses| == |before| && Draining(before, statuses, after)
  }

  /** One call per endpoint, in order. */
  ghost function Tries(routine: Routine, h: nat, tried: seq<string>, statuses: seq<int>): (calls: seq<Call>)
    requires |statuses| == |tried|
    ensures |calls| == |tried|
    ensures forall k | 0 <= k < |calls| :: calls[k] == Call(routine, h, tried[k], statuses[k] == 0)
  {
    seq(|tried|, k requires 0 <= k < |tried| => Call(routine, h, tried[k], statuses[k] == 0))
  }

  lemma OneMoreTry(routine: Routine, h: nat, tried: seq<string>, statuses: seq<int>, status: int)
    requires |statuses| < |tried|
    ensures var k := |statuses|;
            Tries(routine, h, tried[..k + 1], statuses + [status])
            == Tries(routine, h, tried[..k], statuses) + [Call(routine, h, tried[k], status == 0)]
  {
  }

  lemma DrainStart(before: seq<string>)
    ensures Draining(before, [], before)
  {
    MinusNothing(before);
    assert Released(before, []) == {};
  }

  lemma DrainStep(before: seq<string>, statuses: seq<int>, now: seq<string>, status: int, next: seq<string>)
    requires Draining(before, statuses, now) && |statuses| < |before|
    requires status == 0 ==> before[|statuses|] in now
    requires next == if status == 0 then Minus(now, {before[|statuses|]}) else now
    ensures Draining(before, statuses + [status], next)
  {
    var gone := Released(before, statuses);
    OnceMore(before, statuses, status);
    ReleasedOne(before, statuses, status);
    hide Released, OnceEach;
    if status == 0 { MinusTwice(before, gone, {before[|statuses|]}); }
    else { assert gone + {} == gone; }
  }

  /** So a list ends empty exactly when every endpoint on it was released. */
  lemma DrainedEmpty(before: seq<string>, statuses: seq<int>, after: seq<string>)
    requires Drained(before, statuses, after)
    ensures after == [] <==> forall x | x in before :: x in Released(before, statuses)
  {
    if after != [] { assert after[0] in after; }
    if after == [] {
      forall x | x in before ensures x in Released(before, statuses) { assert x !in after; }
    }
  }

  /** A live pointer is an open socket, and the lists name exactly the endpoints it has. */
  ghost predicate Tracks(pointer: nat, bindings: seq<string>, connections: seq<string>, open: map<nat, NativeSocket>) {
    pointer != 0 ==>
      && pointer in open
      && Elements(bindings) == open[pointer].bound
      && Elements(connections) == open[pointer].connected
  }

  /** What happens to other sockets does not matter. */
  lemma TracksStill(pointer: nat, bindings: seq<string>, connections: seq<string>,
                    open: map<nat, NativeSocket>, after: map<nat, NativeSocket>)
    requires Tracks(pointer, bindings, connections, open)
    requires pointer in open && pointer != 0 ==> pointer in after && after[pointer] == open[pointer]
    ensures Tracks(pointer, bindings, connections, after)
  {
  }

  class Socket {
    const world: World
    var pointer: nat
    var unset: bool  // the pointer is still [], which is no pointer at all
    var bindings: seq<string>
    var connections: seq<string>

    /** A live socket is open, and tracks exactly the endpoints libzmq has bound and connected. */
    ghost predicate Valid()
      reads this, world
    {
      world.Ok() && (unset ==> pointer == 0) && Tracks(pointer, bindings, connections, world.sockets)
    }

    /** If zmq_socket fails the exception is swallowed and the wrapper's pointer stays []. */
    constructor (world: World, contextPointer: nat)
      requires world.Ok()
      modifies world`sockets, world`next, world`calls
      ensures world.calls == old(world.calls) + [Call(NEW_SOCKET, contextPointer, "", pointer != 0)]
      ensures this.world == world && Valid() && bindings == connections == [] && (unset <==> pointer == 0)
      ensures pointer == 0 ==> world.sockets == old(world.sockets)
      ensures pointer != 0 ==> contextPointer in world.contexts && pointer !in old(world.sockets)
                               && world.sockets == old(world.sockets)[pointer := NativeSocket(contextPointer, {}, {})]
    {
      this.world := world;
      bindings, connections := [], [];
      var h := world.NewSocket(contextPointer);
      pointer, unset := h, h == 0;
    }

    /** Of the open native sockets only this one has changed, and none changes hands. */
    twostate predicate OthersKept()
      reads this, world
    {
      && world.sockets.Keys <= old(world.sockets.Keys) <= world.sockets.Keys + {old(pointer)}
      && forall h | h in world.sockets ::
           (h != old(pointer) ==> world.sockets[h] == old(world.sockets)[h])
           && world.sockets[h].ctx == old(world.sockets)[h].ctx
    }

    // The four endpoint calls hand the pointer to the mex functions, which dereference its data; for []
    // there is none.  That no caller may do this to an unset wrapper is their precondition.

    method Bind(endpoint: string) returns (status: int)
      requires Valid() && !unset
      modifies this`bindings, world`sockets, world`calls
      ensures world.calls == old(world.calls) + [Call(BIND, pointer, endpoint, status == 0)]
      ensures Valid() && OthersKept() && world.sockets.Keys == old(world.sockets.Keys)
      ensures pointer == 0 ==> status == -1
      ensures bindings == if status == 0 then old(bindings) + [endpoint] else old(bindings)
    {
      status := world.Bind(pointer, endpoint);
      if status == 0 { bindings := bindings + [endpoint]; }
    }

    method Unbind(endpoint: string) returns (status: int)
      requires Valid() && !unset
      modifies this`bindings, world`sockets, world`calls
      ensures world.calls == old(world.calls) + [Call(UNBIND, pointer, endpoint, status == 0)]
      ensures Valid() && OthersKept() && world.sockets.Keys == old(world.sockets.Keys)
      ensures status == 0 || status == -1
      ensures status == 0 ==> pointer != 0 && endpoint in old(bindings)
      ensures bindings == if status == 0 then Minus(old(bindings), {endpoint}) else old(bindings)
    {
      status := world.Unbind(pointer, endpoint);
      if status == 0 { bindings := Minus(bindings, {endpoint}); }
    }

    method Connect(endpoint: string) returns (status: int)
      requires Valid() && !unset
      modifies this`connections, world`sockets, world`calls
      ensures world.calls == old(world.calls) + [Call(CONNECT, pointer, endpoint, status == 0)]
      ensures Valid() && OthersKept() && world.sockets.Keys == old(world.sockets.Keys)
      ensures pointer == 0 ==> status == -1
      ensures connections == if status == 0 then old(connections) + [endpoint] else old(connections)
    {
      status := world.Connect(pointer, endpoint);
      if status == 0 { connections := connections + [endpoint]; }
    }

    method Disconnect(endpoint: string) returns (status: int)
      requires Valid() && !unset
      modifies this`connections, world`sockets, world`calls
      ensures world.calls == old(world.calls) + [Call(DISCONNECT, pointer, endpoint, status == 0)]
      ensures Valid() && OthersKept() && world.sockets.Keys == old(world.sockets.Keys)
      ensures status == 0 || status == -1
      ensures status == 0 ==> pointer != 0 && endpoint in old(connections)
      ensures connections == if status == 0 then Minus(old(connections), {endpoint}) else old(connections)
    {
      status := world.Disconnect(pointer, endpoint);
      if status == 0 { connections := Minus(connections, {endpoint}); }
    }

    /** Unbinds every endpoint of a snapshot of the list that unbind shrinks. */
    method UnbindAll() returns (statuses: seq<int>)
      requires Valid() && !unset
      modifies this`bindings, world`sockets, world`calls
      ensures Valid() && OthersKept() && world.sockets.Keys == old(world.sockets.Keys)
      ensures Drained(old(bindings), statuses, bindings)
      ensures world.calls == old(world.calls) + Tries(UNBIND, pointer, old(bindings), statuses)
    {
      hide Tries, Draining;
      var snapshot := bindings;
      statuses := [];
      DrainStart(snapshot);
      for k := 0 to |snapshot|
        invariant |statuses| == k && Valid() && !unset && OthersKept() && world.sockets.Keys == old(world.sockets.Keys)
        invariant world.calls == old(world.calls) + Tries(UNBIND, pointer, snapshot[..k], statuses)
        invariant Draining(snapshot, statuses, bindings)
      {
        ghost var now := bindings;
        var status := Unbind(snapshot[k]);
        DrainStep(snapshot, statuses, now, status, bindings);
        OneMoreTry(UNBIND, pointer, snapshot, statuses, status);
        statuses := statuses + [status];
      }
      assert snapshot[..|snapshot|] == snapshot;
    }

    method DisconnectAll() returns (statuses: seq<int>)
      requires Valid() && !unset
      modifies this`connections, world`sockets, world`calls
      ensures Valid() && OthersKept() && world.sockets.Keys == old(world.sockets.Keys)
      ensures Drained(old(connections), statuses, connections)
      ensures world.calls == old(world.calls) + Tries(DISCONNECT, pointer, old(connections), statuses)
    {
      hide Tries, Draining;
      var snapshot := connections;
      statuses := [];
      DrainStart(snapshot);
      for k := 0 to |snapshot|
        invariant |statuses| == k && Valid() && !unset && OthersKept() && world.sockets.Keys == old(world.sockets.Keys)
        invariant world.calls == old(world.calls) + Tries(DISCONNECT, pointer, snapshot[..k], statuses)
        invariant Draining(snapshot, statuses, connections)
      {
        ghost var now := connections;
        var status := Disconnect(snapshot[k]);
        DrainStep(snapshot, statuses, now, status, connections);
        OneMoreTry(DISCONNECT, pointer, snapshot, statuses, status);
        statuses := statuses + [status];
      }
      assert snapshot[..|snapshot|] == snapshot;
    }

    /** The socket let go of is closed, or has leaked. */
    twostate predicate LetGo()
      reads this, world
    {
      && old(world.leaked) <= world.leaked <= old(world.leaked) + {old(pointer)}
      && (pointer != old(pointer) ==> pointer == 0 && (old(pointer) in world.sockets ==> old(pointer) in world.leaked))
    }

    /** close and delete.  Every tracked endpoint is tried once, in order, and released at most once;
        only those whose release failed stay tracked; then comes the one close, and the wrapper lets
        go of the socket whatever happens.  On a closed wrapper nothing native is called. */
    method Close()
      returns (ghost unbound: seq<int>, ghost disconnected: seq<int>, ghost lingered: bool, ghost closed: bool)
      requires Valid()
      modifies this, world`sockets, world`leaked, world`calls
      ensures Valid() && pointer == 0 && !unset && OthersKept() && LetGo()
      ensures old(pointer) == 0 ==> bindings == old(bindings) && connections == old(connections)
      ensures old(pointer) == 0 ==> world.sockets == old(world.sockets) && world.leaked == old(world.leaked)
      ensures old(pointer) == 0 ==> world.calls == old(world.calls)
      ensures old(pointer) != 0 ==> Drained(old(bindings), unbound, bindings)
      ensures old(pointer) != 0 ==> Drained(old(connections), disconnected, connections)
      ensures old(pointer) != 0 ==>
                world.calls == old(world.calls)
                               + Tries(UNBIND, old(pointer), old(bindings), unbound)
                               + Tries(DISCONNECT, old(pointer), old(connections), disconnected)
                               + [Call(LINGER, old(pointer), "", lingered)]
                               + (if lingered then [Call(CLOSE, old(pointer), "", closed)] else [])
      ensures old(pointer) != 0 ==> (old(pointer) !in world.sockets <==> lingered && closed)
    {
      unbound, disconnected, lingered, closed := [], [], false, false;
      if pointer != 0 {
        unbound := UnbindAll();
        disconnected := DisconnectAll();
        var ok := world.SetLinger(pointer);
        lingered := ok;
        if ok {
          ok := world.Close(pointer);
          closed := ok;
        }
      }
      pointer, unset := 0, false;
    }

    /** The same, with the native calls it makes. */
    method CloseTraced() returns (ghost trace: seq<Call>)
      requires Valid()
      modifies this, world`sockets, world`leaked, world`calls
      ensures Valid() && pointer == 0 && !unset && OthersKept() && LetGo()
      ensures world.calls == old(world.calls) + trace
      ensures ClosesOne(old(pointer), old(bindings), old(connections), trace)
      ensures old(pointer) == 0 ==> world.sockets == old(world.sockets) && world.leaked == old(world.leaked)
    {
      hide ClosesOne, Tries, Draining, Tracks;
      ghost var before, h, bound, connected := world.calls, pointer, bindings, connections;
      var unbound, disconnected, lingered, closed := Close();
      ClosingCalls(before, world.calls, h, bound, connected, unbound, disconnected, lingered, closed);
      trace := world.calls[|before|..];
    }
  }

  lemma ReleasedOne(tried: seq<string>, statuses: seq<int>, status: int)
    requires |statuses| < |tried|
    ensures Released(tried, statuses + [status])
            == Released(tried, statuses) + if status == 0 then {tried[|statuses|]} else {}
  {
    var all := statuses + [status];
    forall x ensures x in Released(tried, all) <==>
        x in Released(tried, statuses) || (status == 0 && x == tried[|statuses|])
    {
      if x in Released(tried, statuses) {
        var k :| 0 <= k < |statuses| && statuses[k] == 0 && tried[k] == x;
        assert all[k] == 0;
      }
      if status == 0 { assert all[|statuses|] == 0; }
    }
  }

  /** The calls of one Socket.close on handle h: one attempt for each endpoint tracked, in order, then
      linger, and then the native close unless setting linger has failed; none on a closed wrapper. */
  ghost predicate ClosesOne(h: nat, bound: seq<string>, connected: seq<string>, calls: seq<Call>) {
    if h == 0 then calls == []
    else
      var b, c := |bound|, |bound| + |connected|;
      && c < |calls|
      && (forall k | 0 <= k < b :: calls[k] == Call(UNBIND, h, bound[k], calls[k].ok))
      && (forall k | b <= k < c :: calls[k] == Call(DISCONNECT, h, connected[k - b], calls[k].ok))
      && calls[c] == Call(LINGER, h, "", calls[c].ok)
      && |calls| == (if calls[c].ok then c + 2 else c + 1)
      && (calls[c].ok ==> calls[c + 1] == Call(CLOSE, h, "", calls[c + 1].ok))
  }

  lemma ClosedAlready(bound: seq<string>, connected: seq<string>, bound': seq<string>, connected': seq<string>,
                      calls: seq<Call>)
    requires ClosesOne(0, bound, connected, calls)
    ensures ClosesOne(0, bound', connected', calls)
  {
  }

  lemma ClosingCalls(before: seq<Call>, after: seq<Call>, h: nat, bound: seq<string>, connected: seq<string>,
                     unbound: seq<int>, disconnected: seq<int>, lingered: bool, closed: bool)
    requires h == 0 ==> after == before
    requires h != 0 ==>
               && |unbound| == |bound| && |disconnected| == |connected|
               && after == before + Tries(UNBIND, h, bound, unbound) + Tries(DISCONNECT, h, connected, disconnected)
                           + [Call(LINGER, h, "", lingered)] + (if lingered then [Call(CLOSE, h, "", closed)] else [])
    ensures before <= after && ClosesOne(h, bound, connected, after[|before|..])
  {
    if h != 0 {
      var x, y := Tries(UNBIND, h, bound, unbound), Tries(DISCONNECT, h, connected, disconnected);
      var z := [Call(LINGER, h, "", lingered)] + (if lingered then [Call(CLOSE, h, "", closed)] else []);
      assert after == before + (x + y + z);
      assert after[|before|..] == x + y + z;
    }
  }

  // ---------------------------------------------------------------- Context

  /** The calls of several closes, the last one made first. */
  ghost function Backwards(traces: seq<seq<Call>>): seq<Call> {
    if traces == [] then [] else Backwards(traces[1..]) + traces[0]
  }

  lemma BackwardsCons(trace: seq<Call>, traces: seq<seq<Call>>)
    ensures Backwards([trace] + traces) == Backwards(traces) + trace
  {
    assert ([trace] + traces)[1..] == traces;
  }

  ghost function PointersOf(sockets: seq<Socket>): (p: seq<nat>)
    reads sockets
    ensures |p| == |sockets| && forall i | 0 <= i < |p| :: p[i] == sockets[i].pointer
  {
    if sockets == [] then [] else
      var n := |sockets| - 1;
      PointersOf(sockets[..n]) + [sockets[n].pointer]
  }

  /** The pointers held on behalf of native context `ctx` are distinct open sockets of that context,
      and every open socket of it is held or has leaked. */
  ghost predicate Owns(held: seq<nat>, ctx: nat, open: map<nat, NativeSocket>, leaked: set<nat>) {
    && (forall i, j | 0 <= i < j < |held| && held[i] != 0 :: held[i] != held[j])
    && (forall i | 0 <= i < |held| && held[i] != 0 :: held[i] in open && open[held[i]].ctx == ctx != 0)
    && (forall h | h in open && open[h].ctx == ctx && h !in leaked :: h in held)
  }

  /** Endpoint calls do not touch ownership; */
  lemma OwnsTracked(held: seq<nat>, ctx: nat, open: map<nat, NativeSocket>, after: map<nat, NativeSocket>,
                    leaked: set<nat>)
    requires Owns(held, ctx, open, leaked)
    requires after.Keys == open.Keys && forall h | h in open :: after[h].ctx == open[h].ctx
    ensures Owns(held, ctx, after, leaked)
  {
  }

  /** closing one held socket lets go of just that one; */
  lemma OwnsClosed(held: seq<nat>, i: nat, ctx: nat, open: map<nat, NativeSocket>, leaked: set<nat>,
                   after: map<nat, NativeSocket>, leaked': set<nat>)
    requires i < |held| && Owns(held, ctx, open, leaked)
    requires after.Keys <= open.Keys <= after.Keys + {held[i]} && leaked <= leaked'
    requires forall h | h in after :: after[h].ctx == open[h].ctx
    requires held[i] in after ==> held[i] in leaked'
    ensures Owns(held[i := 0], ctx, after, leaked')
  {
    forall h | h in after && after[h].ctx == ctx && h !in leaked' ensures h in held[i := 0] {
      var j :| 0 <= j < |held| && held[j] == h;
      assert held[i := 0][j] == h;
    }
  }

  lemma OwnsNothing(held: seq<nat>, ctx: nat, open: map<nat, NativeSocket>, leaked: set<nat>)
    requires Owns(held, ctx, open, leaked)
    ensures ctx == 0 ==> forall i | 0 <= i < |held| :: held[i] == 0
  {
  }

  lemma OwnsOpen(held: seq<nat>, ctx: nat, open: map<nat, NativeSocket>, leaked: set<nat>, i: nat)
    requires i < |held| && Owns(held, ctx, open, leaked)
    ensures held[i] != 0 ==> held[i] in open
  {
  }

  lemma OwnsApart(held: seq<nat>, ctx: nat, open: map<nat, NativeSocket>, leaked: set<nat>, k: nat)
    requires k < |held| && Owns(held, ctx, open, leaked)
    ensures forall i | 0 <= i < |held| && i != k && held[i] != 0 :: held[i] != held[k]
  {
  }

  /** a pointer already let go of can be forgotten; */
  lemma OwnsForget(held: seq<nat>, ctx: nat, open: map<nat, NativeSocket>, leaked: set<nat>)
    requires held != [] && held[|held| - 1] == 0 && Owns(held, ctx, open, leaked) && 0 !in open
    ensures Owns(held[..|held| - 1], ctx, open, leaked)
  {
    forall h | h in open && open[h].ctx == ctx && h !in leaked ensures h in held[..|held| - 1] {
      var j :| 0 <= j < |held| && held[j] == h;
      assert held[..|held| - 1][j] == h;
    }
  }

  /** and a new socket, or the NULL of a failed attempt, is simply added. */
  lemma OwnsNew(held: seq<nat>, ctx: nat, open: map<nat, NativeSocket>, after: map<nat, NativeSocket>,
                leaked: set<nat>, h: nat)
    requires Owns(held, ctx, open, leaked) && 0 !in open && ctx != 0
    requires h == 0 ==> after == open
    requires h != 0 ==> h !in open && after == open[h := NativeSocket(ctx, {}, {})]
    ensures Owns(held + [h], ctx, after, leaked)
  {
    forall k | k in after && after[k].ctx == ctx && k !in leaked ensures k in held + [h] {
      if k == h { assert (held + [h])[|held|] == k; }
    }
  }

  class Context {
    const world: World
    var pointer: nat
    var spawnedSockets: seq<Socket>

    ghost predicate Valid()
      reads this, world, spawnedSockets
    {
      && world.Ok()
      && (pointer != 0 ==> pointer in world.contexts)
      && (forall i | 0 <= i < |spawnedSockets| :: spawnedSockets[i].world == world && spawnedSockets[i].Valid())
      && (forall i, j | 0 <= i < j < |spawnedSockets| :: spawnedSockets[i] != spawnedSockets[j])
      && Owns(PointersOf(spawnedSockets), pointer, world.sockets, world.leaked)
    }

    constructor (world: World)
      requires world.Ok()
      modifies world`contexts, world`next, world`calls
      ensures this.world == world && Valid() && spawnedSockets == []
      ensures world.sockets == old(world.sockets) && world.leaked == old(world.leaked)
    {
      this.world := world;
      spawnedSockets := [];
      var p := world.CtxNew();
      pointer := p;
    }

    /** Succeeds, with an exception otherwise, if there is a context or one can be made. */
    method MakeContext() returns (ok: bool)
      requires Valid()
      modifies this`pointer, world`contexts, world`next, world`calls
      ensures Valid() && spawnedSockets == old(spawnedSockets)
      ensures ok <==> pointer != 0
      ensures old(pointer) != 0 ==> pointer == old(pointer)
      ensures world.calls == old(world.calls)
                             + (if old(pointer) == 0 then [Call(NEW_CONTEXT, 0, "", pointer != 0)] else [])
    {
      if pointer == 0 {
        var p := world.CtxNew();
        pointer := p;
      }
      ok := pointer != 0;
    }

    /** socket: revives a terminated context. */
    method NewSocket() returns (newSocket: Socket?)
      requires Valid()
      modifies this, world`sockets, world`contexts, world`next, world`calls
      ensures Valid()
      ensures newSocket == null ==> spawnedSockets == old(spawnedSockets) && old(pointer) == pointer == 0
      ensures world.calls == old(world.calls)
                             + (if old(pointer) == 0 then [Call(NEW_CONTEXT, 0, "", pointer != 0)] else [])
                             + (if newSocket == null then []
                                else [Call(NEW_SOCKET, pointer, "", newSocket.pointer != 0)])
      ensures newSocket != null ==> fresh(newSocket) && newSocket.Valid() && newSocket.world == world
      ensures newSocket != null ==> pointer != 0 && (newSocket.unset <==> newSocket.pointer == 0)
      ensures newSocket != null ==> spawnedSockets == old(spawnedSockets) + [newSocket]
      ensures world.sockets.Keys >= old(world.sockets.Keys)
      ensures forall h | h in old(world.sockets) :: world.sockets[h] == old(world.sockets)[h]
    {
      hide Valid;
      var ok := MakeContext();
      if !ok { return null; }
      newSocket := Spawn();
    }

    /** The second half of that: a new socket in the context there is. */
    method Spawn() returns (newSocket: Socket)
      requires Valid() && pointer != 0
      modifies this`spawnedSockets, world`sockets, world`next, world`calls
      ensures Valid()
      ensures fresh(newSocket) && newSocket.Valid() && newSocket.world == world
      ensures newSocket.unset <==> newSocket.pointer == 0
      ensures spawnedSockets == old(spawnedSockets) + [newSocket]
      ensures world.calls == old(world.calls) + [Call(NEW_SOCKET, pointer, "", newSocket.pointer != 0)]
      ensures world.sockets.Keys >= old(world.sockets.Keys)
      ensures forall h | h in old(world.sockets) :: world.sockets[h] == old(world.sockets)[h]
    {
      hide Owns, PointersOf, Drained, Tries, Elements, Tracks;
      ghost var held, open := PointersOf(spawnedSockets), world.sockets;
      newSocket := new Socket(world, pointer);
      OwnsNew(held, pointer, open, world.sockets, world.leaked, newSocket.pointer);
      assert PointersOf(spawnedSockets + [newSocket]) == held + [newSocket.pointer];
      spawnedSockets := spawnedSockets + [newSocket];
      forall i | 0 <= i < |held| ensures spawnedSockets[i].Valid() {
        var s := spawnedSockets[i];
        TracksStill(s.pointer, s.bindings, s.connections, open, world.sockets);
      }
    }

    /** close: closes the spawned sockets, last one first, and forgets them.  `traces` are the native calls
        of each close. */
    method Close() returns (ghost traces: seq<seq<Call>>)
      requires Valid()
      modifies this`spawnedSockets, spawnedSockets, world`sockets, world`leaked, world`calls
      ensures Valid()
      ensures pointer != 0 ==> spawnedSockets == [] && world.calls == old(world.calls) + Backwards(traces)
      ensures pointer != 0 ==> Traced(traces)
      ensures pointer == 0 ==> spawnedSockets == old(spawnedSockets) && world.sockets == old(world.sockets)
      ensures pointer == 0 ==> world.calls == old(world.calls)
      ensures forall i | 0 <= i < |old(spawnedSockets)| ::
                old(spawnedSockets)[i].Valid() && old(spawnedSockets)[i].pointer == 0
      ensures world.leaked >= old(world.leaked)
    {
      OwnsNothing(PointersOf(spawnedSockets), pointer, world.sockets, world.leaked);
      hide Owns, PointersOf, Elements, Backwards, ClosesOne;
      traces := [];
      if pointer != 0 { traces := CloseSpawned(); }
    }

    /** Each trace is that of closing one of the sockets that had been spawned. */
    twostate predicate Traced(traces: seq<seq<Call>>)
      reads this
    {
      && |traces| == |old(spawnedSockets)|
      && forall i | 0 <= i < |traces| ::
           var s := old(spawnedSockets)[i];
           ClosesOne(old(s.pointer), old(s.bindings), old(s.connections), traces[i])
    }

    method CloseSpawned() returns (ghost traces: seq<seq<Call>>)
      requires Valid()
      modifies this`spawnedSockets, spawnedSockets, world`sockets, world`leaked, world`calls
      ensures Valid() && spawnedSockets == []
      ensures forall i | 0 <= i < |old(spawnedSockets)| :: old(spawnedSockets)[i].pointer == 0
      ensures world.leaked >= old(world.leaked)
      ensures world.calls == old(world.calls) + Backwards(traces) && Traced(traces)
    {
      var n := |spawnedSockets|;
      ghost var before := spawnedSockets;
      traces := [];
      hide Valid, ClosesOne;
      while n > 0
        invariant 0 <= n <= |before| && spawnedSockets == before[..n] && Valid()
        invariant forall i | n <= i < |before| :: before[i].pointer == 0
        invariant forall i | 0 <= i < n ::
                    && before[i].pointer == old(before[i].pointer) && before[i].bindings == old(before[i].bindings)
                    && before[i].connections == old(before[i].connections)
        invariant world.leaked >= old(world.leaked)
        invariant |traces| == |before| - n && world.calls == old(world.calls) + Backwards(traces)
        invariant forall i | n <= i < |before| ::
                    ClosesOne(old(before[i].pointer), old(before[i].bindings), old(before[i].connections),
                              traces[i - n])
      {
        n := n - 1;
        assert before[..n + 1][n] == before[n] && before[..n + 1][..n] == before[..n];
        ghost var trace := CloseLast();
        BackwardsCons(trace, traces);
        traces := [trace] + traces;
      }
    }

    /** One turn of that loop. */
    method CloseLast() returns (ghost trace: seq<Call>)
      requires Valid() && spawnedSockets != []
      modifies this`spawnedSockets, spawnedSockets[|spawnedSockets| - 1], world`sockets, world`leaked, world`calls
      ensures Valid()
      ensures spawnedSockets == old(spawnedSockets[..|spawnedSockets| - 1])
      ensures var skt := old(spawnedSockets[|spawnedSockets| - 1]); skt.Valid() && skt.pointer == 0
      ensures var skt := old(spawnedSockets[|spawnedSockets| - 1]);
              ClosesOne(old(skt.pointer), old(skt.bindings), old(skt.connections), trace)
      ensures forall i | 0 <= i < |spawnedSockets| :: spawnedSockets[i] != old(spawnedSockets[|spawnedSockets| - 1])
      ensures world.leaked >= old(world.leaked) && world.calls == old(world.calls) + trace
    {
      hide Owns, PointersOf, Drained, Tries, Elements, Tracks, ClosesOne;
      var n := |spawnedSockets| - 1;
      var skt := spawnedSockets[n];
      ghost var held := PointersOf(spawnedSockets);
      OwnsApart(held, pointer, world.sockets, world.leaked, n);
      trace := skt.CloseTraced();
      OwnsClosed(held, n, pointer, old(world.sockets), old(world.leaked), world.sockets, world.leaked);
      OwnsForget(held[n := 0], pointer, world.sockets, world.leaked);
      spawnedSockets := spawnedSockets[..n];
      assert PointersOf(spawnedSockets) == held[n := 0][..n];
      forall i | 0 <= i < n ensures spawnedSockets[i].Valid() {
        var s := spawnedSockets[i];
        assert s.pointer == held[i];
        OwnsOpen(held, pointer, old(world.sockets), old(world.leaked), i);
        TracksStill(s.pointer, s.bindings, s.connections, old(world.sockets), world.sockets);
      }
    }

    /** term and delete.  The precondition of CtxTerm holds because Close has closed, or seen the
        close fail of, every open socket of this context. */
    method Term() returns (ghost traces: seq<seq<Call>>)
      requires Valid()
      modifies this`pointer, this`spawnedSockets, spawnedSockets
      modifies world`sockets, world`leaked, world`contexts, world`calls
      ensures Valid()
      ensures old(pointer) != 0 ==> spawnedSockets == []
      ensures old(pointer) == 0 ==> spawnedSockets == old(spawnedSockets)
      ensures old(pointer) == 0 ==> pointer == 0 && world.calls == old(world.calls)
      ensures old(pointer) != 0 ==>
                && Traced(traces)
                && world.calls == old(world.calls) + Backwards(traces) + [Call(TERM, old(pointer), "", pointer == 0)]
                && (pointer != 0 ==> pointer == old(pointer))
      ensures old(pointer) != 0 && pointer == 0 ==>
                old(pointer) !in world.contexts && forall h | h in world.sockets :: world.sockets[h].ctx != old(pointer)
      ensures forall i | 0 <= i < |old(spawnedSockets)| ::
                old(spawnedSockets)[i].Valid() && old(spawnedSockets)[i].pointer == 0
    {
      hide ClosesOne, Backwards;
      traces := [];
      if pointer != 0 {
        traces := Close();
        var r := world.CtxTerm(pointer);
        if r.Terminated? { pointer := 0; }
      }
    }
  }

  // ---------------------------------------------------------------- programs

  datatype Op =
    | Spawn
    | BindAt(i: nat, endpoint: string)
    | UnbindAt(i: nat, endpoint: string)
    | ConnectAt(i: nat, endpoint: string)
    | DisconnectAt(i: nat, endpoint: string)
    | CloseAt(i: nat)        // Socket.close or Socket.delete
    | CloseContext
    | TermContext            // Context.term or Context.delete
    | Stop(i: nat, isServer: bool, endpoint: string)  // the clean-up of CommandSocket.stop; "" is no address

  /** The outcome of one operation: what its endpoint call returned, the calls of the close it makes
      itself, and those of the closes the context makes. */
  datatype Trace = Trace(ok: bool, own: seq<Call>, spawned: seq<seq<Call>>)

  /** A user's program: one context object, and every socket it ever gave out, kept for ever. */
  class Program {
    const ctx: Context
    var made: seq<Socket>

    /** The context is valid, and so is every socket ever made: live sockets are among the spawned,
        all others have let go of their pointer. */
    ghost predicate Inv()
      reads this, ctx, ctx.world, ctx.spawnedSockets, made
    {
      && ctx.Valid()
      && (forall i | 0 <= i < |made| :: made[i].world == ctx.world && made[i].Valid())
      && (forall i | 0 <= i < |made| :: made[i] in ctx.spawnedSockets || made[i].pointer == 0)
      && (forall i | 0 <= i < |ctx.spawnedSockets| :: ctx.spawnedSockets[i] in made)
    }

    constructor (world: World)
      requires world.Ok()
      modifies world`contexts, world`next, world`calls
      ensures Inv() && fresh(ctx) && ctx.world == world && made == []
    {
      var c := new Context(world);
      ctx := c;
      made := [];
    }

    /** Whether an operation is defined: endpoint calls, and the one in CommandSocket.stop, are not on a
        wrapper whose pointer is []. */
    predicate Defined(op: Op)
      reads this, made
    {
      match op
      case BindAt(i, _) => i < |made| ==> !made[i].unset
      case UnbindAt(i, _) => i < |made| ==> !made[i].unset
      case ConnectAt(i, _) => i < |made| ==> !made[i].unset
      case DisconnectAt(i, _) => i < |made| ==> !made[i].unset
      case Stop(i, isServer, ep) => i < |made| && (isServer || ep != "") ==> !made[i].unset
      case _ => true
    }

    /** Any sequence of operations, in any order and with any repetition, up to the first one that is
        undefined: every native close and ctx_term along the way meets its precondition, and the
        tracking invariant holds throughout. */
    method Run(ops: seq<Op>) returns (ran: nat)
      requires Inv()
      modifies this`made, made, ctx, ctx.world
      ensures Inv() && ran <= |ops| && (ran < |ops| ==> !Defined(ops[ran]))
    {
      hide Inv;
      ghost var start := made;
      ran := 0;
      while ran < |ops| && Defined(ops[ran])
        invariant ran <= |ops| && Inv() && start <= made
        invariant forall i | |start| <= i < |made| :: fresh(made[i])
      {
        ghost var _ := Step(ops[ran]);
        ran := ran + 1;
      }
    }

    /** What each operation does, by the native calls it makes, and what it leaves of the lists and of the
        context; an index that names no socket does nothing. */
    method Step(op: Op) returns (ghost t: Trace)
      requires Inv() && Defined(op)
      modifies this`made, made, ctx, ctx.world
      ensures Inv() && old(made) <= made
      ensures forall i | |old(made)| <= i < |made| :: fresh(made[i])
      ensures op.Spawn? ==>
                && |made| == |old(made)| + (if ctx.pointer == 0 then 0 else 1)
                && ctx.world.calls == old(ctx.world.calls)
                                      + (if old(ctx.pointer) != 0 then []
                                         else [Call(NEW_CONTEXT, 0, "", ctx.pointer != 0)])
                                      + (if ctx.pointer == 0 then []
                                         else [Call(NEW_SOCKET, ctx.pointer, "", made[|made| - 1].pointer != 0)])
                && ctx.spawnedSockets == old(ctx.spawnedSockets) + made[|old(made)|..]
      ensures !op.Spawn? ==> made == old(made)
      ensures op.BindAt? && op.i < |made| ==>
                var s := made[op.i];
                && ctx.world.calls == old(ctx.world.calls) + [Call(BIND, old(s.pointer), op.endpoint, t.ok)]
                && s.bindings == (if t.ok then old(s.bindings) + [op.endpoint] else old(s.bindings))
                && s.connections == old(s.connections)
      ensures op.ConnectAt? && op.i < |made| ==>
                var s := made[op.i];
                && ctx.world.calls == old(ctx.world.calls) + [Call(CONNECT, old(s.pointer), op.endpoint, t.ok)]
                && s.connections == (if t.ok then old(s.connections) + [op.endpoint] else old(s.connections))
                && s.bindings == old(s.bindings)
      ensures op.UnbindAt? && op.i < |made| ==>
                var s := made[op.i];
                && ctx.world.calls == old(ctx.world.calls) + [Call(UNBIND, old(s.pointer), op.endpoint, t.ok)]
                && s.bindings == (if t.ok then Minus(old(s.bindings), {op.endpoint}) else old(s.bindings))
                && s.connections == old(s.connections)
      ensures op.DisconnectAt? && op.i < |made| ==>
                var s := made[op.i];
                && ctx.world.calls == old(ctx.world.calls) + [Call(DISCONNECT, old(s.pointer), op.endpoint, t.ok)]
                && s.connections == (if t.ok then Minus(old(s.connections), {op.endpoint}) else old(s.connections))
                && s.bindings == old(s.bindings)
      ensures op.CloseAt? && op.i < |made| ==>
                var s := made[op.i];
                && ctx.world.calls == old(ctx.world.calls) + t.own && s.pointer == 0
                && ClosesOne(old(s.pointer), old(s.bindings), old(s.connections), t.own)
      ensures op.CloseContext? || op.TermContext? ==>
                if old(ctx.pointer) == 0 then
                  ctx.world.calls == old(ctx.world.calls) && ctx.pointer == 0
                else
                  && ctx.spawnedSockets == [] && ctx.Traced(t.spawned)
                  && ctx.world.calls == old(ctx.world.calls) + Backwards(t.spawned)
                                        + (if op.TermContext? then [Call(TERM, old(ctx.pointer), "", ctx.pointer == 0)]
                                           else [])
                  && (op.CloseContext? || ctx.pointer != 0 ==> ctx.pointer == old(ctx.pointer))
      ensures op.Stop? && op.i < |made| ==> Stopped(made[op.i], op.isServer, op.endpoint, t)
      ensures !op.Spawn? && !op.CloseContext? && !op.TermContext? && op.i >= |made| ==>
                ctx.world.calls == old(ctx.world.calls)
    {
      hide Inv, ClosesOne, Backwards, Minus;
      t := Trace(false, [], []);
      match op {
        case Spawn => SpawnOne();
        case BindAt(i, _) => if i < |made| { t := Track(i, op); }
        case UnbindAt(i, _) => if i < |made| { t := Track(i, op); }
        case ConnectAt(i, _) => if i < |made| { t := Track(i, op); }
        case DisconnectAt(i, _) => if i < |made| { t := Track(i, op); }
        case CloseAt(i) => if i < |made| { t := CloseOne(i); }
        case CloseContext => t := CloseAll();
        case TermContext => t := TermOne();
        case Stop(i, isServer, ep) => if i < |made| { t := StopOne(i, isServer, ep); }
      }
    }

    method SpawnOne()
      requires Inv()
      modifies this`made, ctx, ctx.world
      ensures Inv() && old(made) <= made
      ensures forall i | |old(made)| <= i < |made| :: fresh(made[i])
      ensures |made| == |old(made)| + (if ctx.pointer == 0 then 0 else 1)
      ensures ctx.spawnedSockets == old(ctx.spawnedSockets) + made[|old(made)|..]
      ensures ctx.world.calls == old(ctx.world.calls)
                                 + (if old(ctx.pointer) == 0 then [Call(NEW_CONTEXT, 0, "", ctx.pointer != 0)] else [])
                                 + (if ctx.pointer == 0 then []
                                    else [Call(NEW_SOCKET, ctx.pointer, "", made[|made| - 1].pointer != 0)])
    {
      hide Owns, PointersOf, Drained, Tries, Elements;
      var s := ctx.NewSocket();
      if s != null { made := made + [s]; }
    }

    /** bind, unbind, connect, disconnect */
    static method EndpointCall(s: Socket, op: Op) returns (ghost ok: bool)
      requires op.BindAt? || op.UnbindAt? || op.ConnectAt? || op.DisconnectAt?
      requires s.Valid() && !s.unset
      modifies s`bindings, s`connections, s.world`sockets, s.world`calls
      ensures s.Valid() && s.OthersKept() && s.world.sockets.Keys == old(s.world.sockets.Keys)
      ensures s.world.calls == old(s.world.calls) + [Call(RoutineOf(op), s.pointer, op.endpoint, ok)]
      ensures s.bindings == (if !ok then old(s.bindings)
                             else if op.BindAt? then old(s.bindings) + [op.endpoint]
                             else if op.UnbindAt? then Minus(old(s.bindings), {op.endpoint})
                             else old(s.bindings))
      ensures s.connections == (if !ok then old(s.connections)
                                else if op.ConnectAt? then old(s.connections) + [op.endpoint]
                                else if op.DisconnectAt? then Minus(old(s.connections), {op.endpoint})
                                else old(s.connections))
    {
      hide Minus, Tracks;
      var status: int;
      match op {
        case BindAt(_, ep) => status := s.Bind(ep);
        case UnbindAt(_, ep) => status := s.Unbind(ep);
        case ConnectAt(_, ep) => status := s.Connect(ep);
        case DisconnectAt(_, ep) => status := s.Disconnect(ep);
      }
      ok := status == 0;
    }

    static function RoutineOf(op: Op): Routine
      requires op.BindAt? || op.UnbindAt? || op.ConnectAt? || op.DisconnectAt?
    {
      match op
      case BindAt(_, _) => BIND
      case UnbindAt(_, _) => UNBIND
      case ConnectAt(_, _) => CONNECT
      case _ => DISCONNECT
    }

    method Track(i: nat, op: Op) returns (ghost t: Trace)
      requires op.BindAt? || op.UnbindAt? || op.ConnectAt? || op.DisconnectAt?
      requires Inv() && i < |made| && !made[i].unset
      modifies made[i], ctx.world`sockets, ctx.world`calls
      ensures Inv() && made[i].pointer == old(made[i].pointer)
      ensures ctx.world.calls == old(ctx.world.calls) + [Call(RoutineOf(op), made[i].pointer, op.endpoint, t.ok)]
      ensures var s := made[i];
              s.bindings == (if !t.ok then old(s.bindings)
                             else if op.BindAt? then old(s.bindings) + [op.endpoint]
                             else if op.UnbindAt? then Minus(old(s.bindings), {op.endpoint})
                             else old(s.bindings))
      ensures var s := made[i];
              s.connections == (if !t.ok then old(s.connections)
                                else if op.ConnectAt? then old(s.connections) + [op.endpoint]
                                else if op.DisconnectAt? then Minus(old(s.connections), {op.endpoint})
                                else old(s.connections))
    {
      hide Owns, PointersOf, Drained, Tries, Elements, Tracks, Minus, RoutineOf;
      var s := made[i];
      ghost var held := PointersOf(ctx.spawnedSockets);
      Apart(s);
      ghost var ok := EndpointCall(s, op);
      t := Trace(ok, [], []);
      OwnsTracked(held, ctx.pointer, old(ctx.world.sockets), ctx.world.sockets, ctx.world.leaked);
      assert PointersOf(ctx.spawnedSockets) == held;
      forall j | 0 <= j < |made| ensures made[j].Valid() {
        var o := made[j];
        if o != s { TracksStill(o.pointer, o.bindings, o.connections, old(ctx.world.sockets), ctx.world.sockets); }
      }
    }

    /** No other socket holds the pointer of s. */
    lemma Apart(s: Socket)
      requires Inv() && s in made
      ensures forall j | 0 <= j < |ctx.spawnedSockets| && ctx.spawnedSockets[j] != s ::
                ctx.spawnedSockets[j].pointer == 0 || ctx.spawnedSockets[j].pointer != s.pointer
    {
      hide PointersOf;
      if s in ctx.spawnedSockets {
        var k :| 0 <= k < |ctx.spawnedSockets| && ctx.spawnedSockets[k] == s;
        OwnsApart(PointersOf(ctx.spawnedSockets), ctx.pointer, ctx.world.sockets, ctx.world.leaked, k);
      }
    }

    method CloseOne(i: nat) returns (ghost t: Trace)
      requires Inv() && i < |made|
      modifies made[i], ctx.world`sockets, ctx.world`leaked, ctx.world`calls
      ensures Inv() && made[i].pointer == 0
      ensures ctx.world.calls == old(ctx.world.calls) + t.own
      ensures var s := made[i]; ClosesOne(old(s.pointer), old(s.bindings), old(s.connections), t.own)
    {
      hide Owns, PointersOf, Drained, Tries, Elements, Tracks, ClosesOne;
      var s := made[i];
      ghost var held := PointersOf(ctx.spawnedSockets);
      Apart(s);
      ghost var own := s.CloseTraced();
      t := Trace(true, own, []);
      if s in ctx.spawnedSockets {
        ghost var k :| 0 <= k < |ctx.spawnedSockets| && ctx.spawnedSockets[k] == s;
        OwnsClosed(held, k, ctx.pointer, old(ctx.world.sockets), old(ctx.world.leaked),
                   ctx.world.sockets, ctx.world.leaked);
        assert PointersOf(ctx.spawnedSockets) == held[k := 0];
      } else {
        assert PointersOf(ctx.spawnedSockets) == held;
      }
      forall j | 0 <= j < |made| ensures made[j].Valid() {
        var o := made[j];
        if o != s { TracksStill(o.pointer, o.bindings, o.connections, old(ctx.world.sockets), ctx.world.sockets); }
      }
    }

    method CloseAll() returns (ghost t: Trace)
      requires Inv()
      modifies made, ctx, ctx.world
      ensures Inv() && made == old(made) && ctx.pointer == old(ctx.pointer)
      ensures if ctx.pointer == 0 then ctx.world.calls == old(ctx.world.calls)
              else && ctx.spawnedSockets == [] && ctx.Traced(t.spawned)
                   && ctx.world.calls == old(ctx.world.calls) + Backwards(t.spawned)
    {
      hide Owns, PointersOf, Drained, Tries, Elements, Backwards, ClosesOne;
      ghost var spawned := ctx.Close();
      t := Trace(true, [], spawned);
    }

    method TermOne() returns (ghost t: Trace)
      requires Inv()
      modifies made, ctx, ctx.world
      ensures Inv() && made == old(made)
      ensures forall i | 0 <= i < |made| && old(made[i].pointer) == 0 :: made[i].pointer == 0
      ensures if old(ctx.pointer) == 0 then ctx.world.calls == old(ctx.world.calls) && ctx.pointer == 0
              else && ctx.spawnedSockets == [] && ctx.Traced(t.spawned)
                   && ctx.world.calls == old(ctx.world.calls) + Backwards(t.spawned)
                                         + [Call(TERM, old(ctx.pointer), "", ctx.pointer == 0)]
                   && (ctx.pointer != 0 ==> ctx.pointer == old(ctx.pointer))
    {
      hide Owns, PointersOf, Drained, Tries, Elements, Backwards, ClosesOne;
      ghost var spawned := ctx.Term();
      t := Trace(true, [], spawned);
    }

    /** What CommandSocket.stop does with socket s: it releases its endpoint, if it has one; closes s; and
        terms the context, whose own close then finds s closed. */
    twostate predicate Stopped(s: Socket, isServer: bool, endpoint: string, t: Trace)
      reads this, ctx, ctx.world, s
    {
      && s.pointer == 0
      && ClosesOne(old(s.pointer),
                   if t.ok && isServer then Minus(old(s.bindings), {endpoint}) else old(s.bindings),
                   if t.ok && !isServer then Minus(old(s.connections), {endpoint}) else old(s.connections), t.own)
      && ctx.world.calls == old(ctx.world.calls)
                            + (if isServer then [Call(UNBIND, old(s.pointer), endpoint, t.ok)]
                               else if endpoint != "" then [Call(DISCONNECT, old(s.pointer), endpoint, t.ok)]
                               else [])
                            + t.own
                            + (if old(ctx.pointer) == 0 then []
                               else Backwards(t.spawned) + [Call(TERM, old(ctx.pointer), "", ctx.pointer == 0)])
      && (!isServer && endpoint == "" ==> !t.ok)
      && (old(ctx.pointer) == 0 ==> ctx.pointer == 0)
      && (old(ctx.pointer) != 0 ==>
            && ctx.spawnedSockets == [] && |t.spawned| == |old(ctx.spawnedSockets)|
            && (ctx.pointer != 0 ==> ctx.pointer == old(ctx.pointer))
            && forall j | 0 <= j < |t.spawned| ::
                 var o := old(ctx.spawnedSockets)[j];
                 ClosesOne(if o == s then 0 else old(o.pointer), old(o.bindings), old(o.connections), t.spawned[j]))
    }

    method StopOne(i: nat, isServer: bool, endpoint: string) returns (ghost t: Trace)
      requires Inv() && i < |made| && (isServer || endpoint != "" ==> !made[i].unset)
      modifies made, ctx, ctx.world
      ensures Inv() && made == old(made) && Stopped(made[i], isServer, endpoint, t)
      ensures isServer || endpoint != "" ==>
                && |ctx.world.calls| > |old(ctx.world.calls)|
                && ctx.world.calls[|old(ctx.world.calls)|]
                   == Call(if isServer then UNBIND else DISCONNECT, old(made[i].pointer), endpoint, t.ok)
      ensures old(ctx.pointer) != 0 ==>
                && ctx.world.calls != []
                && ctx.world.calls[|ctx.world.calls| - 1] == Call(TERM, old(ctx.pointer), "", ctx.pointer == 0)
                && ctx.spawnedSockets == []
    {
      hide Inv, ClosesOne, Backwards, Minus;
      ghost var s, start := made[i], ctx.world.calls;
      ghost var first := Trace(false, [], []);
      ghost var release := [];
      if isServer {
        first := Track(i, UnbindAt(i, endpoint));
        release := [Call(UNBIND, s.pointer, endpoint, first.ok)];
      } else if endpoint != "" {
        first := Track(i, DisconnectAt(i, endpoint));
        release := [Call(DISCONNECT, s.pointer, endpoint, first.ok)];
      }
      assert ctx.world.calls == start + release;
      ghost var second := CloseOne(i);
      assert ctx.world.calls == start + release + second.own;
      label Closed:
      ghost var third := TermOne();
      t := Trace(first.ok, second.own, third.spawned);
      if old(ctx.pointer) != 0 {
        assert ctx.Traced@Closed(t.spawned);
        forall j | 0 <= j < |t.spawned| && old(ctx.spawnedSockets)[j] == s
          ensures ClosesOne(0, old(s.bindings), old(s.connections), t.spawned[j])
        {
          ClosedAlready(old@Closed(s.bindings), old@Closed(s.connections), old(s.bindings), old(s.connections),
                        t.spawned[j]);
        }
        ghost var term := [Call(TERM, old(ctx.pointer), "", ctx.pointer == 0)];
        assert ctx.world.calls == start + release + second.own + (Backwards(t.spawned) + term);
      }
    }
  }
}
