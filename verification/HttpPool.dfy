/** Who owns a pooled socket: `request`, `pipeline` and `requestWithOutResponse` on top of the pool. */
module HttpPool {
  import opened Options
  import opened Pool
  import opened PoolProtocol
  import opened PoolRuns

  // How the exchange on a borrowed socket ends; `close` is whether the server asked to close the connection.
  datatype Exchange = Failed | Done(status: int, close: bool)

  // The pool and the sockets that a request, not the pool, has closed.
  datatype Sockets = Sockets(pool: State, closed: set<Obj>)

  // A SocketPool neither activates nor passivates.
  function NoActivation(): Obj -> Outcome {
    (o: Obj) => Succeeds
  }

  // Its destroyObject closes the socket and swallows the exception.
  function NoBreaks(): Breaks {
    (o: Obj) => false
  }

  function Lent(cfg: Config, h: Sockets, now: int, make: Option<Obj>): (State, Result) {
    Borrowed(cfg, h.pool, now, NoActivation(), make, NoBreaks())
  }

  // `request` and `pipeline` treat their socket alike.
  function Used(cfg: Config, h: Sockets, now: int, later: int, make: Option<Obj>, exchange: Exchange): Sockets {
    var (s, r) := Lent(cfg, h, now, make);
    match r
    case Threw => h.(pool := s)
    case Given(o) =>
      if exchange.Done? && !exchange.close then h.(pool := Returned(cfg, s, o, later, Succeeds))
      else Sockets(s, h.closed + {o})
  }

  function UsedWithoutResponse(cfg: Config, h: Sockets, now: int, later: int, make: Option<Obj>, sent: bool): Sockets {
    var (s, r) := Lent(cfg, h, now, make);
    match r
    case Threw => h.(pool := s)
    case Given(o) => Sockets(if sent then Returned(cfg, s, o, later, Succeeds) else s, h.closed + {o})
  }

  class HttpPool {
    const pool: Pool
    var closed: set<Obj>

    constructor (pool: Pool)
      ensures this.pool == pool && closed == {}
    {
      this.pool, closed := pool, {};
    }

    ghost function View(): Sockets
      reads this, pool
    {
      Sockets(pool.View(), closed)
    }

    // socket.close(): may throw, but then the socket has been asked to close all the same.
    method CloseSocket(socket: Obj)
      modifies `closed
      ensures closed == old(closed) + {socket}
    {
      closed := closed + {socket};
    }

    /** The try/finally of `request` and `pipeline`: the socket variable is emptied once the socket is dealt with, so
        `finally` closes it on the exceptional paths only, among them a close() that throws. */
    method Use(now: int, later: int, make: Option<Obj>, exchange: Exchange, closeThrows: bool) returns (status: Option<int>)
      modifies this, pool
      ensures View() == Used(pool.cfg, old(View()), now, later, make, exchange)
      ensures var lent := Lent(pool.cfg, old(View()), now, make).1.Given?;
              status == if lent && exchange.Done? && !(exchange.close && closeThrows) then Some(exchange.status) else None
    {
      var borrowed := pool.BorrowObject(now, NoActivation(), make, NoBreaks());
      if borrowed.Threw? {
        return None;
      }
      var socket := Some(borrowed.obj);
      status := None;
      if exchange.Done? {
        if exchange.close {
          CloseSocket(socket.value);
          if !closeThrows {
            socket, status := None, Some(exchange.status);
          }
        } else {
          var threw := pool.ReturnObject(socket.value, later, Succeeds, NoBreaks());
          socket, status := None, Some(exchange.status);
        }
      }
      if socket.Some? {
        CloseSocket(socket.value);
      }
    }

    /** Here the variable is never emptied: `finally` closes the socket on every path. */
    method UseWithoutResponse(now: int, later: int, make: Option<Obj>, sent: bool)
      modifies this, pool
      ensures View() == UsedWithoutResponse(pool.cfg, old(View()), now, later, make, sent)
    {
      var borrowed := pool.BorrowObject(now, NoActivation(), make, NoBreaks());
      if borrowed.Threw? {
        return;
      }
      if sent {
        var threw := pool.ReturnObject(borrowed.obj, later, Succeeds, NoBreaks());
      }
      CloseSocket(borrowed.obj);
    }
  }

  // ---- Ownership ----

  // No idle socket has been closed by a request.
  ghost predicate Safe(h: Sockets) {
    && h.pool.threads == [Free] && Conserved(h.pool) && h.closed <= h.pool.made
    && forall e <- h.pool.deque :: e.obj !in h.closed
  }

  lemma {:induction false} IdleCounts(deque: seq<Entry>, i: nat)
    requires i < |deque|
    ensures Idle(deque, deque[i].obj) >= 1
    decreases |deque|
  {
    if i > 0 {
      IdleCounts(deque[1..], i - 1);
    }
  }

  // What borrowing gives: an object that is idle before, or a new one; the rest of the deque is what is left.
  lemma {:induction false} FetchedFrom(s: State, make: Option<Obj>)
    ensures var (s', r) := Fetched(s, NoActivation(), make, NoBreaks());
            && (s.deque != [] ==> r == Given(s.deque[0].obj) && s'.deque == s.deque[1..] && s'.made == s.made)
            && (s.deque == [] && make.Some? ==> r == Given(make.value) && s'.deque == [] && s'.made == s.made + {make.value})
            && (s.deque == [] && make.None? ==> r == Threw && s' == s)
            && s'.closed == s.closed
  {
  }

  // A lent socket is neither closed nor still idle.
  lemma LentIsOpen(cfg: Config, h: Sockets, now: int, make: Option<Obj>)
    requires Safe(h) && (make.Some? ==> make.value !in h.pool.made)
    ensures var (s, r) := Lent(cfg, h, now, make);
            && Safe(Sockets(s, h.closed)) && s.closed == h.pool.closed
            && (r.Given? ==> r.obj !in h.closed && r.obj in s.borrowed && r.obj in s.made && Idle(s.deque, r.obj) == 0)
  {
    var (s, r) := Lent(cfg, h, now, make);
    var swept := AfterSweep(cfg, h.pool, now, NoBreaks()).0;
    SweptKeeps(h.pool.(accessed := now), now, NoBreaks());
    SweepEnds(h.pool.(accessed := now), now);
    assert swept.deque <= h.pool.deque;
    FetchedFrom(swept, make);
    CallConserves(cfg, h.pool, BorrowCall(now, NoActivation(), make, NoBreaks()));
    assert Perform(cfg, h.pool, BorrowCall(now, NoActivation(), make, NoBreaks())) == s;
    assert forall e <- s.deque :: e in h.pool.deque;
    if r.Given? {
      if swept.deque != [] {
        assert swept.deque[0] in h.pool.deque;
      }
      LentIsBorrowed(swept, make);
      assert Places(s, r.obj) <= 1;
    }
  }

  lemma {:induction false} SweepEnds(s: State, now: int)
    ensures !Swept(s, now, NoBreaks()).1
    decreases |s.deque|
  {
    if s.deque != [] && s.deque[|s.deque| - 1].expire <= now {
      SweepEnds(Destroy(s.(deque := s.deque[..|s.deque| - 1]), s.deque[|s.deque| - 1].obj), now);
    }
  }

  lemma LentIsBorrowed(s: State, make: Option<Obj>)
    ensures var (s', r) := Fetched(s, NoActivation(), make, NoBreaks()); r.Given? ==> r.obj in s'.borrowed
  {
  }

  /** On every path a lent socket ends closed by the request and out of the pool, or open and given back (idle, or
      destroyed by a pool that is closed): one of the two, never both. */
  lemma UsedOnce(cfg: Config, h: Sockets, now: int, later: int, make: Option<Obj>, exchange: Exchange)
    requires Safe(h) && (make.Some? ==> make.value !in h.pool.made) && Lent(cfg, h, now, make).1.Given?
    ensures var o := Lent(cfg, h, now, make).1.obj;
            var h' := Used(cfg, h, now, later, make, exchange);
            var back := Idle(h'.pool.deque, o) + h'.pool.destroyed[o];
            && (o in h'.closed <==> !(exchange.Done? && !exchange.close))
            && back == (if o in h'.closed then 0 else 1)
            && (Idle(h'.pool.deque, o) > 0 ==> h'.pool.deque[0] == Entry(o, later + cfg.timeout))
  {
    LentIsOpen(cfg, h, now, make);
    var (s, r) := Lent(cfg, h, now, make);
    assert Places(s, r.obj) <= 1;
    var h' := Used(cfg, h, now, later, make, exchange);
    assert !s.closed && r.obj !in h'.closed ==> h'.pool.deque[1..] == s.deque;
  }

  lemma UsedKeepsSafe(cfg: Config, h: Sockets, now: int, later: int, make: Option<Obj>, exchange: Exchange)
    requires Safe(h) && (make.Some? ==> make.value !in h.pool.made)
    ensures Safe(Used(cfg, h, now, later, make, exchange))
  {
    LentIsOpen(cfg, h, now, make);
    var (s, r) := Lent(cfg, h, now, make);
    if r.Given? {
      if exchange.Done? && !exchange.close {
        CallConserves(cfg, s, ReturnCall(r.obj, later, Succeeds));
      } else {
        forall e <- s.deque ensures e.obj != r.obj {
          var i :| 0 <= i < |s.deque| && s.deque[i] == e;
          IdleCounts(s.deque, i);
        }
      }
    }
  }

  datatype Call =
    | UseCall(now: int, later: int, make: Option<Obj>, exchange: Exchange)
    | ClosePool
    | ReopenPool

  ghost function After(cfg: Config, h: Sockets, c: Call): Sockets {
    match c
    case UseCall(now, later, make, exchange) => Used(cfg, h, now, later, make, exchange)
    case ClosePool => h.(pool := Drained(h.pool.(closed := true), NoBreaks()).0)
    case ReopenPool => h.(pool := h.pool.(closed := false))
  }

  ghost predicate NewSockets(cfg: Config, h: Sockets, calls: seq<Call>)
    decreases |calls|
  {
    calls == [] ||
    ((calls[0].UseCall? && calls[0].make.Some? ==> calls[0].make.value !in h.pool.made)
     && NewSockets(cfg, After(cfg, h, calls[0]), calls[1..]))
  }

  ghost function AfterAll(cfg: Config, h: Sockets, calls: seq<Call>): Sockets
    decreases |calls|
  {
    if calls == [] then h else AfterAll(cfg, After(cfg, h, calls[0]), calls[1..])
  }

  /** No run of requests, pipelines, closes and reopens leaves a socket in the pool that a request has closed. */
  lemma {:induction false} RunsAreSafe(cfg: Config, h: Sockets, calls: seq<Call>)
    requires Safe(h) && NewSockets(cfg, h, calls)
    ensures Safe(AfterAll(cfg, h, calls))
    decreases |calls|
  {
    if calls != [] {
      match calls[0] {
        case UseCall(now, later, make, exchange) => UsedKeepsSafe(cfg, h, now, later, make, exchange);
        case ClosePool =>
          CallConserves(cfg, h.pool, CloseCall(NoBreaks()));
          DrainedKeeps(h.pool.(closed := true), NoBreaks());
        case ReopenPool => CallConserves(cfg, h.pool, ReopenCall);
      }
      RunsAreSafe(cfg, After(cfg, h, calls[0]), calls[1..]);
    }
  }

  /** requestWithOutResponse breaks this exactly when it works: the socket it returns to an open pool it also closes. */
  lemma WithoutResponsePoolsAClosedSocket(cfg: Config, h: Sockets, now: int, later: int, make: Option<Obj>, sent: bool)
    requires Safe(h) && (make.Some? ==> make.value !in h.pool.made) && Lent(cfg, h, now, make).1.Given?
    ensures Safe(UsedWithoutResponse(cfg, h, now, later, make, sent)) <==> !sent || h.pool.closed
  {
    LentIsOpen(cfg, h, now, make);
    var (s, r) := Lent(cfg, h, now, make);
    var h' := UsedWithoutResponse(cfg, h, now, later, make, sent);
    forall e <- s.deque ensures e.obj != r.obj {
      var i :| 0 <= i < |s.deque| && s.deque[i] == e;
      IdleCounts(s.deque, i);
    }
    if sent {
      CallConserves(cfg, s, ReturnCall(r.obj, later, Succeeds));
      if !s.closed {
        assert h'.pool.deque[0] in h'.pool.deque && h'.pool.deque[0].obj in h'.closed;
      }
    }
  }
}
