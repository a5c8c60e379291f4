/** Requests that overlap on one pool: each thread borrows a socket, uses it, and gives it back or closes it. */
module HttpPoolProtocol {
  import opened PoolProtocol

  // The socket variable of `request` and `pipeline`, between borrowObject and the end of the try.
  datatype Hand = Empty | Holds(socket: Obj)

  // A socket closed by a request is gone for the pool, like a lost object; `closed` records which were closed.
  datatype Net = Net(pool: State, hands: seq<Hand>, closed: multiset<Obj>)

  datatype Move =
    | Start                                          // borrowObject is called
    | Advance(clock: int, outcome: Outcome, made: Obj)  // the next step of the thread's call into the pool
    | GiveBack                                       // the exchange is done and the connection stays open
    | CloseSocket                                    // it failed, or the server closes the connection
    | ClosePool
    | ReopenPool

  // A thread gives back or closes what its variable holds; whether the pool lent it is not asked.
  predicate CanMove(n: Net, t: nat, m: Move) {
    t < |n.pool.threads| && t < |n.hands| &&
    match m
    case Advance(clock, outcome, made) => Enabled(n.pool, t, Run(clock, outcome, made))
    case GiveBack => n.pool.threads[t].Free? && n.hands[t].Holds?
    case CloseSocket => n.pool.threads[t].Free? && n.hands[t].Holds?
    case _ => n.pool.threads[t].Free? && n.hands[t].Empty?
  }

  function InPool(cfg: Config, s: State, t: nat, a: Action): State
    requires t < |s.threads|
  {
    var next := After(cfg, s, s.threads[t], a);
    next.s.(threads := s.threads[t := next.th])
  }

  // The object a step hands to its borrower.
  predicate HandsOut(th: Thread, outcome: Outcome) {
    th.InFetch? && th.fetch.Activate? && outcome.Succeeds?
  }

  function CloseLent(s: State, o: Obj): State {
    s.(borrowed := s.borrowed - multiset{o}, lost := s.lost + multiset{o})
  }

  function Moved(cfg: Config, n: Net, t: nat, m: Move): Net
    requires CanMove(n, t, m)
  {
    match m
    case Start => n.(pool := InPool(cfg, n.pool, t, Borrow))
    case Advance(clock, outcome, made) =>
      var th := n.pool.threads[t];
      n.(pool := InPool(cfg, n.pool, t, Run(clock, outcome, made)),
         hands := if HandsOut(th, outcome) then n.hands[t := Holds(th.fetch.obj)] else n.hands)
    case GiveBack => n.(pool := InPool(cfg, n.pool, t, Return(n.hands[t].socket)), hands := n.hands[t := Empty])
    case CloseSocket =>
      var o := n.hands[t].socket;
      Net(CloseLent(n.pool, o), n.hands[t := Empty], n.closed + multiset{o})
    case ClosePool => n.(pool := InPool(cfg, n.pool, t, Close))
    case ReopenPool => n.(pool := InPool(cfg, n.pool, t, Reopen))
  }

  // ---- Who owns what ----

  function Holding(h: Hand, o: Obj): nat {
    if h == Holds(o) then 1 else 0
  }

  function HeldBy(hands: seq<Hand>, o: Obj): nat {
    if hands == [] then 0 else Holding(hands[0], o) + HeldBy(hands[1..], o)
  }

  // What the pool counts as borrowed is what the threads' variables hold, and a closed socket is gone.
  ghost predicate Owned(n: Net) {
    && |n.hands| == |n.pool.threads| && Conserved(n.pool)
    && (forall t :: 0 <= t < |n.hands| && n.hands[t].Holds? ==> n.pool.threads[t].Free?)
    && (forall o: Obj :: HeldBy(n.hands, o) == n.pool.borrowed[o])
    && (forall o: Obj :: n.closed[o] <= n.pool.lost[o])
  }

  lemma {:induction false} HeldByUpdate(hands: seq<Hand>, t: nat, h: Hand, o: Obj)
    requires t < |hands|
    ensures HeldBy(hands[t := h], o) + Holding(hands[t], o) == HeldBy(hands, o) + Holding(h, o)
    decreases |hands|
  {
    if t > 0 {
      HeldByUpdate(hands[1..], t - 1, h, o);
      assert hands[t := h][1..] == hands[1..][t - 1 := h];
    } else {
      assert hands[t := h][1..] == hands[1..];
    }
  }

  lemma {:induction false} HeldByAtLeast(hands: seq<Hand>, t: nat, u: nat, o: Obj)
    requires t <= u < |hands|
    ensures HeldBy(hands, o) >= Holding(hands[t], o) + if t < u then Holding(hands[u], o) else 0
    decreases |hands|
  {
    if t > 0 {
      HeldByAtLeast(hands[1..], t - 1, u - 1, o);
    } else if u > 0 {
      HeldByAtLeast(hands[1..], u - 1, u - 1, o);
    }
  }

  /** A request only ever returns a socket that the pool has lent: what the pool asks of its clients is kept. */
  lemma ReturnsWhatWasLent(n: Net, t: nat)
    requires Owned(n) && CanMove(n, t, GiveBack)
    ensures Enabled(n.pool, t, Return(n.hands[t].socket))
  {
    HeldByAtLeast(n.hands, t, t, n.hands[t].socket);
  }

  // What a step does to the records of borrowed and lost objects.
  lemma StepRecords(cfg: Config, s: State, th: Thread, clock: int, outcome: Outcome, made: Obj, o: Obj)
    ensures var s' := After(cfg, s, th, Run(clock, outcome, made)).s;
            && s'.borrowed[o] == s.borrowed[o] + (if HandsOut(th, outcome) && th.fetch.obj == o then 1 else 0)
            && s'.lost[o] >= s.lost[o]
  {
  }

  lemma CloseLentConserves(s: State, o: Obj)
    requires Conserved(s) && o in s.borrowed
    ensures Conserved(CloseLent(s, o))
  {
    forall x: Obj ensures Places(CloseLent(s, o), x) == Places(s, x) {
    }
  }

  lemma MoveConserves(cfg: Config, n: Net, t: nat, m: Move)
    requires Owned(n) && CanMove(n, t, m)
    ensures Conserved(Moved(cfg, n, t, m).pool)
  {
    match m
    case Start => StepConserves(cfg, n.pool, t, Borrow);
    case Advance(clock, outcome, made) => StepConserves(cfg, n.pool, t, Run(clock, outcome, made));
    case GiveBack =>
      ReturnsWhatWasLent(n, t);
      StepConserves(cfg, n.pool, t, Return(n.hands[t].socket));
    case CloseSocket =>
      ReturnsWhatWasLent(n, t);
      CloseLentConserves(n.pool, n.hands[t].socket);
    case ClosePool => StepConserves(cfg, n.pool, t, Close);
    case ReopenPool => StepConserves(cfg, n.pool, t, Reopen);
  }

  lemma MoveCounts(cfg: Config, n: Net, t: nat, m: Move, o: Obj)
    requires Owned(n) && CanMove(n, t, m)
    ensures var n' := Moved(cfg, n, t, m);
            HeldBy(n'.hands, o) == n'.pool.borrowed[o] && n'.closed[o] <= n'.pool.lost[o]
  {
    match m
    case Advance(clock, outcome, made) =>
      var th := n.pool.threads[t];
      StepRecords(cfg, n.pool, th, clock, outcome, made, o);
      if HandsOut(th, outcome) {
        HeldByUpdate(n.hands, t, Holds(th.fetch.obj), o);
      }
    case GiveBack =>
      ReturnsWhatWasLent(n, t);
      HeldByUpdate(n.hands, t, Empty, o);
    case CloseSocket =>
      ReturnsWhatWasLent(n, t);
      HeldByUpdate(n.hands, t, Empty, o);
    case _ =>
  }

  lemma MoveKeepsOwned(cfg: Config, n: Net, t: nat, m: Move)
    requires Owned(n) && CanMove(n, t, m)
    ensures Owned(Moved(cfg, n, t, m))
  {
    MoveConserves(cfg, n, t, m);
    forall o: Obj ensures var n' := Moved(cfg, n, t, m); HeldBy(n'.hands, o) == n'.pool.borrowed[o] && n'.closed[o] <= n'.pool.lost[o] {
      MoveCounts(cfg, n, t, m, o);
    }
  }

  // ---- Runs ----

  type Moves = seq<(nat, Move)>

  predicate LegalMoves(cfg: Config, n: Net, moves: Moves)
    decreases |moves|
  {
    moves == [] ||
    (CanMove(n, moves[0].0, moves[0].1) && LegalMoves(cfg, Moved(cfg, n, moves[0].0, moves[0].1), moves[1..]))
  }

  function AfterMoves(cfg: Config, n: Net, moves: Moves): Net
    requires LegalMoves(cfg, n, moves)
    decreases |moves|
  {
    if moves == [] then n else AfterMoves(cfg, Moved(cfg, n, moves[0].0, moves[0].1), moves[1..])
  }

  predicate Fresh(n: Net) {
    Initial(n.pool) && |n.hands| == |n.pool.threads| && (forall h <- n.hands :: h == Empty) && n.closed == multiset{}
  }

  lemma {:induction false} NothingHeld(hands: seq<Hand>, o: Obj)
    requires forall h <- hands :: h == Empty
    ensures HeldBy(hands, o) == 0
  {
    if hands != [] {
      assert hands[0] in hands && forall h <- hands[1..] :: h in hands;
      NothingHeld(hands[1..], o);
    }
  }

  lemma FreshIsOwned(cfg: Config, n: Net)
    requires Fresh(n)
    ensures Owned(n)
  {
    RunConserves(cfg, n.pool, []);
    forall o: Obj ensures HeldBy(n.hands, o) == 0 {
      NothingHeld(n.hands, o);
    }
    forall t | 0 <= t < |n.hands| ensures n.hands[t].Empty? {
      assert n.hands[t] in n.hands;
    }
  }

  lemma {:induction false} RunsAreOwned(cfg: Config, n: Net, moves: Moves)
    requires Owned(n) && LegalMoves(cfg, n, moves)
    ensures Owned(AfterMoves(cfg, n, moves))
    decreases |moves|
  {
    if moves != [] {
      MoveKeepsOwned(cfg, n, moves[0].0, moves[0].1);
      RunsAreOwned(cfg, Moved(cfg, n, moves[0].0, moves[0].1), moves[1..]);
    }
  }

  /** However requests overlap: a socket closed by a request is closed by that request only (its `finally` may close it
      again when the close throws), is held by no request, and is not in the pool, nor on its way there or out of it. */
  lemma ClosedSocketsAreGone(cfg: Config, n: Net, moves: Moves, o: Obj)
    requires Fresh(n) && LegalMoves(cfg, n, moves) && o in AfterMoves(cfg, n, moves).closed
    ensures var end := AfterMoves(cfg, n, moves);
            && end.closed[o] == 1 && HeldBy(end.hands, o) == 0 && end.pool.destroyed[o] == 0
            && Idle(end.pool.deque, o) == InHands(end.pool.threads, o) == 0
  {
    FreshIsOwned(cfg, n);
    RunsAreOwned(cfg, n, moves);
    var end := AfterMoves(cfg, n, moves);
    assert HeldBy(end.hands, o) == end.pool.borrowed[o] && Places(end.pool, o) <= 1;
  }

  /** A socket in use is open, in no other request's use, and not in the pool. */
  lemma SocketsAreNotShared(cfg: Config, n: Net, moves: Moves, t: nat, o: Obj)
    requires Fresh(n) && LegalMoves(cfg, n, moves)
    requires var end := AfterMoves(cfg, n, moves); t < |end.hands| && end.hands[t] == Holds(o)
    ensures var end := AfterMoves(cfg, n, moves);
            && o !in end.closed && end.pool.destroyed[o] == Idle(end.pool.deque, o) == 0
            && forall u :: 0 <= u < |end.hands| && u != t ==> end.hands[u] != Holds(o)
  {
    FreshIsOwned(cfg, n);
    RunsAreOwned(cfg, n, moves);
    var end := AfterMoves(cfg, n, moves);
    HeldByAtLeast(end.hands, t, t, o);
    assert HeldBy(end.hands, o) == end.pool.borrowed[o] && Places(end.pool, o) <= 1 && end.closed[o] <= end.pool.lost[o];
    forall u | 0 <= u < |end.hands| && u != t ensures end.hands[u] != Holds(o) {
      HeldByAtLeast(end.hands, if u < t then u else t, if u < t then t else u, o);
    }
  }

  // ---- Every socket is accounted for ----

  // A SocketPool neither activates nor passivates: neither ends in an exception.
  predicate PlainSockets(th: Thread, m: Move) {
    m.Advance? && ((th.InFetch? && th.fetch.Activate?) || (th.InReturn? && th.ret.Passivate?)) ==> m.outcome.Succeeds?
  }

  ghost predicate AllPlain(cfg: Config, n: Net, moves: Moves)
    requires LegalMoves(cfg, n, moves)
    decreases |moves|
  {
    moves == [] ||
    (PlainSockets(n.pool.threads[moves[0].0], moves[0].1) && AllPlain(cfg, Moved(cfg, n, moves[0].0, moves[0].1), moves[1..]))
  }

  lemma MoveLoses(cfg: Config, n: Net, t: nat, m: Move)
    requires CanMove(n, t, m) && PlainSockets(n.pool.threads[t], m) && n.pool.lost == n.closed
    ensures Moved(cfg, n, t, m).pool.lost == Moved(cfg, n, t, m).closed
  {
  }

  lemma {:induction false} LostAreClosed(cfg: Config, n: Net, moves: Moves)
    requires LegalMoves(cfg, n, moves) && AllPlain(cfg, n, moves) && n.pool.lost == n.closed
    ensures AfterMoves(cfg, n, moves).pool.lost == AfterMoves(cfg, n, moves).closed
    decreases |moves|
  {
    if moves != [] {
      MoveLoses(cfg, n, moves[0].0, moves[0].1);
      LostAreClosed(cfg, Moved(cfg, n, moves[0].0, moves[0].1), moves[1..]);
    }
  }

  /** However requests overlap, every socket made is in one place: idle, on its way into or out of the pool, in one request's
      use, destroyed by the pool, or closed by one request. None leaks. */
  lemma EverySocketIsSomewhere(cfg: Config, n: Net, moves: Moves, o: Obj)
    requires Fresh(n) && LegalMoves(cfg, n, moves) && AllPlain(cfg, n, moves)
    ensures var end := AfterMoves(cfg, n, moves);
            var places := Idle(end.pool.deque, o) + InHands(end.pool.threads, o) + HeldBy(end.hands, o)
                          + end.pool.destroyed[o] + end.closed[o];
            places == if o in end.pool.made then 1 else 0
  {
    FreshIsOwned(cfg, n);
    RunsAreOwned(cfg, n, moves);
    LostAreClosed(cfg, n, moves);
    var end := AfterMoves(cfg, n, moves);
    assert HeldBy(end.hands, o) == end.pool.borrowed[o] && Places(end.pool, o) == if o in end.pool.made then 1 else 0;
  }
}
