/** The pool as one thread sees it: the loops of borrowObject, returnObject and close on the deque. */
module Pool {
  import opened Options
  import opened PoolProtocol

  datatype Result = Given(obj: Obj) | Threw

  // ---- What each call does to the pool's state ----

  // `breaks` says for which objects destroyObject throws a RuntimeException. Such an object counts as destroyed, and the
  // call ends there.
  type Breaks = Obj -> bool

  // The sweep: expired entries go from the old end until a live one is met. The flag says that it threw.
  function Swept(s: State, now: int, breaks: Breaks): (State, bool)
    decreases |s.deque|
  {
    if s.deque == [] || now < s.deque[|s.deque| - 1].expire then (s, false)
    else
      var obj := s.deque[|s.deque| - 1].obj;
      var s' := Destroy(s.(deque := s.deque[..|s.deque| - 1]), obj);
      if breaks(obj) then (s', true) else Swept(s', now, breaks)
  }

  function SweepDue(cfg: Config, s: State, now: int): bool {
    cfg.timeout > 0 && now > s.accessed + cfg.interval
  }

  function AfterSweep(cfg: Config, s: State, now: int, breaks: Breaks): (State, bool) {
    if SweepDue(cfg, s, now) then Swept(s.(accessed := now), now, breaks) else (s, false)
  }

  // `make` is what makeObject returns, None if it throws; `activate` is how activateObject ends.
  function Fetched(s: State, activate: Obj -> Outcome, make: Option<Obj>, breaks: Breaks): (State, Result)
    decreases |s.deque|
  {
    if s.deque != [] then
      var obj, taken := s.deque[0].obj, s.(deque := s.deque[1..]);
      match activate(obj)
      case Succeeds => (taken.(borrowed := s.borrowed + multiset{obj}), Given(obj))
      case Unchecked => (taken.(lost := s.lost + multiset{obj}), Threw)
      case Checked => if breaks(obj) then (Destroy(taken, obj), Threw) else Fetched(Destroy(taken, obj), activate, make, breaks)
    else
      match make
      case None => (s, Threw)
      case Some(obj) =>
        var s' := s.(made := s.made + {obj});
        match activate(obj)
        case Succeeds => (s'.(borrowed := s.borrowed + multiset{obj}), Given(obj))
        case Unchecked => (s'.(lost := s.lost + multiset{obj}), Threw)
        case Checked => (Destroy(s', obj), Threw)
  }

  function Borrowed(cfg: Config, s: State, now: int, activate: Obj -> Outcome, make: Option<Obj>, breaks: Breaks): (State, Result) {
    var (swept, threw) := AfterSweep(cfg, s, now, breaks);
    if threw then (swept, Threw) else Fetched(swept, activate, make, breaks)
  }

  // Whether destroyObject throws makes no difference to what a return leaves.
  function Returned(cfg: Config, s: State, obj: Obj, now: int, passivate: Outcome): State {
    var s' := s.(borrowed := s.borrowed - multiset{obj});
    match passivate
    case Unchecked => s'.(lost := s.lost + multiset{obj})
    case Checked => Destroy(s', obj)
    case Succeeds =>
      if s.closed then Destroy(s', obj) else s'.(deque := [Entry(obj, now + cfg.timeout)] + s.deque)
  }

  function ReturnThrows(s: State, obj: Obj, passivate: Outcome, breaks: Breaks): bool {
    passivate.Unchecked? || ((passivate.Checked? || s.closed) && breaks(obj))
  }

  function Drained(s: State, breaks: Breaks): (State, bool)
    decreases |s.deque|
  {
    if s.deque == [] then (s, false)
    else
      var obj := s.deque[0].obj;
      var s' := Destroy(s.(deque := s.deque[1..]), obj);
      if breaks(obj) then (s', true) else Drained(s', breaks)
  }

  // ---- The class ----

  class Pool {
    const cfg: Config
    var deque: seq<Entry>
    var accessed: int
    var closed: bool
    ghost var borrowed: multiset<Obj>
    ghost var destroyed: multiset<Obj>
    ghost var lost: multiset<Obj>
    ghost var made: set<Obj>

    // The pool with the calling thread at rest.
    ghost function View(): State
      reads this
    {
      State(deque, accessed, closed, [Free], borrowed, destroyed, lost, made)
    }

    constructor (cfg: Config, now: int)
      ensures this.cfg == cfg && Initial(View()) && accessed == now
    {
      this.cfg := cfg;
      deque, accessed, closed := [], now, false;
      borrowed, destroyed, lost, made := multiset{}, multiset{}, multiset{}, {};
    }

    // destroyObject is the subclass's; all the pool sees is that it was called, and whether it threw.
    method DestroyObject(obj: Obj, breaks: Breaks) returns (threw: bool)
      modifies `destroyed
      ensures destroyed == old(destroyed) + multiset{obj} && threw == breaks(obj)
    {
      destroyed := destroyed + multiset{obj};
      threw := breaks(obj);
    }

    method SweepExpired(now: int, breaks: Breaks) returns (threw: bool)
      modifies this
      ensures (View(), threw) == AfterSweep(cfg, old(View()), now, breaks)
    {
      threw := false;
      if cfg.timeout > 0 {
        var accessed_ := accessed;
        if now > accessed_ + cfg.interval {
          accessed := now;
          ghost var due := View();
          while deque != []
            invariant !threw && Swept(View(), now, breaks) == Swept(due, now, breaks)
            decreases |deque|
          {
            ghost var before := deque;
            var entry := deque[|deque| - 1];
            deque := deque[..|deque| - 1];
            if now < entry.expire {
              deque := deque + [entry];
              assert deque == before;
              break;
            }
            threw := DestroyObject(entry.obj, breaks);
            if threw {
              assert Swept(due, now, breaks) == (View(), true);
              return;
            }
          }
          assert Swept(due, now, breaks) == (View(), false);
        }
      }
    }

    method BorrowObject(now: int, activate: Obj -> Outcome, make: Option<Obj>, breaks: Breaks) returns (r: Result)
      modifies this
      ensures (View(), r) == Borrowed(cfg, old(View()), now, activate, make, breaks)
    {
      var threw := SweepExpired(now, breaks);
      if threw {
        return Threw;
      }
      r := FetchObject(activate, make, breaks);
    }

    // borrowObject behind the sweep.
    method FetchObject(activate: Obj -> Outcome, make: Option<Obj>, breaks: Breaks) returns (r: Result)
      modifies this
      ensures (View(), r) == Fetched(old(View()), activate, make, breaks)
    {
      while deque != []
        invariant Fetched(View(), activate, make, breaks) == Fetched(old(View()), activate, make, breaks)
        decreases |deque|
      {
        var entry := deque[0];
        deque := deque[1..];
        match activate(entry.obj) {
          case Succeeds =>
            borrowed := borrowed + multiset{entry.obj};
            return Given(entry.obj);
          case Unchecked =>
            lost := lost + multiset{entry.obj};
            return Threw;
          case Checked =>
            var threw := DestroyObject(entry.obj, breaks);
            if threw {
              return Threw;
            }
        }
      }
      if make.None? {
        return Threw;
      }
      var obj := make.value;
      made := made + {obj};
      match activate(obj) {
        case Succeeds =>
          borrowed := borrowed + multiset{obj};
          return Given(obj);
        case Unchecked =>
          lost := lost + multiset{obj};
        case Checked =>
          var threw := DestroyObject(obj, breaks);
      }
      return Threw;
    }

    method ReturnObject(obj: Obj, now: int, passivate: Outcome, breaks: Breaks) returns (threw: bool)
      modifies this
      ensures View() == Returned(cfg, old(View()), obj, now, passivate)
      ensures threw == ReturnThrows(old(View()), obj, passivate, breaks)
    {
      borrowed := borrowed - multiset{obj};
      threw := false;
      match passivate {
        case Succeeds =>
          if closed {
            threw := DestroyObject(obj, breaks);
          } else {
            deque := [Entry(obj, now + cfg.timeout)] + deque;
          }
        case Unchecked =>
          lost := lost + multiset{obj};
          threw := true;
        case Checked =>
          threw := DestroyObject(obj, breaks);
      }
    }

    method Reopen()
      modifies `closed
      ensures !closed
    {
      closed := false;
    }

    method Close(breaks: Breaks) returns (threw: bool)
      modifies this
      ensures (View(), threw) == Drained(old(View()).(closed := true), breaks) && (!threw ==> deque == [])
    {
      closed, threw := true, false;
      ghost var s := View();
      while deque != []
        invariant !threw && Drained(View(), breaks) == Drained(s, breaks)
        decreases |deque|
      {
        var entry := deque[0];
        deque := deque[1..];
        threw := DestroyObject(entry.obj, breaks);
        if threw {
          return;
        }
      }
    }
  }
}
