/** The object pool as a protocol: any number of threads, each atomic deque or field access one step. */
module PoolProtocol {

  // The identity of a pooled object.
  type Obj = nat

  datatype Entry = Entry(obj: Obj, expire: int)

  // Where a thread stands in a call, and what its local variables hold.
  datatype Thread =
    | Free
    | InSweep(sweep: Sweeping)
    | InFetch(fetch: Fetching)
    | InReturn(ret: Returning)
    | InClose(close: Closing)

  // borrowObject, first part: at most one thread an interval destroys expired entries.
  datatype Sweeping =
    | ReadClock
    | ReadAccessed(now: int)
    | Swap(now: int, seen: int)              // about to compare-and-set `accessed`
    | PollLast(now: int)
    | PutBack(entry: Entry)                  // polled a live entry, about to offer it last again
    | DestroyLast(now: int, obj: Obj)

  // borrowObject, second part: activate a pooled object or a new one.
  datatype Fetching =
    | PollFirst
    | Activate(obj: Obj, isNew: bool)
    | Discard(obj: Obj, isNew: bool)         // activation threw the checked exception
    | Make

  datatype Returning =
    | Passivate(obj: Obj)
    | TestClosed(obj: Obj)
    | Stamp(obj: Obj)                        // the pool was open, about to read the clock
    | Offer(entry: Entry)
    | Reject(obj: Obj)                       // about to destroy instead of pooling

  datatype Closing = SetClosed | Drain | DestroyFirst(obj: Obj)

  // How a call into the pool's subclass ends: normally, with its checked exception, or with a RuntimeException.
  datatype Outcome = Succeeds | Checked | Unchecked

  datatype Action =
    | Borrow
    | Return(obj: Obj)
    | Close
    | Reopen
    | Run(clock: int, outcome: Outcome, made: Obj)  // the next step of the call the thread is in

  datatype Config = Config(timeout: int, interval: int)

  // `borrowed`, `destroyed`, `lost` and `made` record what has happened to objects; the code reads none of them.
  datatype State = State(
    deque: seq<Entry>, accessed: int, closed: bool, threads: seq<Thread>,
    borrowed: multiset<Obj>, destroyed: multiset<Obj>, lost: multiset<Obj>, made: set<Obj>)

  predicate Initial(s: State) {
    && s.deque == [] && !s.closed && (forall th <- s.threads :: th == Free)
    && s.borrowed == multiset{} && s.destroyed == multiset{} && s.lost == multiset{} && s.made == {}
  }

  // A call starts on a free thread; only a borrowed object is returned; makeObject never repeats an object.
  predicate Enabled(s: State, t: nat, a: Action) {
    t < |s.threads| &&
    match a
    case Borrow => s.threads[t].Free?
    case Return(obj) => s.threads[t].Free? && obj in s.borrowed
    case Close => s.threads[t].Free?
    case Reopen => s.threads[t].Free?
    case Run(_, outcome, made) => !s.threads[t].Free? && (s.threads[t] == InFetch(Make) && outcome.Succeeds? ==> made !in s.made)
  }

  function Destroy(s: State, obj: Obj): State {
    s.(destroyed := s.destroyed + multiset{obj})
  }

  // The shared state a step leaves, and where its thread stands then.
  datatype Next = Next(s: State, th: Thread)

  function Step(cfg: Config, s: State, t: nat, a: Action): State
    requires Enabled(s, t, a)
  {
    var next := After(cfg, s, s.threads[t], a);
    next.s.(threads := s.threads[t := next.th])
  }

  function After(cfg: Config, s: State, th: Thread, a: Action): Next {
    match a
    case Borrow => Next(s, if cfg.timeout > 0 then InSweep(ReadClock) else InFetch(PollFirst))
    case Return(obj) => Next(s.(borrowed := s.borrowed - multiset{obj}), InReturn(Passivate(obj)))
    case Close => Next(s, InClose(SetClosed))
    case Reopen => Next(s.(closed := false), th)
    case Run(clock, outcome, made) =>
      match th
      case Free => Next(s, Free)
      case InSweep(at) => SweepStep(cfg, s, at, clock, outcome)
      case InFetch(at) => FetchStep(s, at, outcome, made)
      case InReturn(at) => ReturnStep(cfg, s, at, clock, outcome)
      case InClose(at) => CloseStep(s, at, outcome)
  }

  function SweepStep(cfg: Config, s: State, at: Sweeping, clock: int, outcome: Outcome): Next {
    match at
    case ReadClock => Next(s, InSweep(ReadAccessed(clock)))
    case ReadAccessed(now) =>
      Next(s, if now > s.accessed + cfg.interval then InSweep(Swap(now, s.accessed)) else InFetch(PollFirst))
    case Swap(now, seen) =>
      if s.accessed == seen then Next(s.(accessed := now), InSweep(PollLast(now))) else Next(s, InFetch(PollFirst))
    case PollLast(now) =>
      if s.deque == [] then Next(s, InFetch(PollFirst))
      else
        var last := s.deque[|s.deque| - 1];
        Next(s.(deque := s.deque[..|s.deque| - 1]),
             InSweep(if now < last.expire then PutBack(last) else DestroyLast(now, last.obj)))
    case PutBack(entry) => Next(s.(deque := s.deque + [entry]), InFetch(PollFirst))
    case DestroyLast(now, obj) => Next(Destroy(s, obj), if outcome.Unchecked? then Free else InSweep(PollLast(now)))
  }

  function FetchStep(s: State, at: Fetching, outcome: Outcome, made: Obj): Next {
    match at
    case PollFirst =>
      if s.deque == [] then Next(s, InFetch(Make))
      else Next(s.(deque := s.deque[1..]), InFetch(Activate(s.deque[0].obj, false)))
    case Activate(obj, isNew) => (
      match outcome
      case Succeeds => Next(s.(borrowed := s.borrowed + multiset{obj}), Free)
      case Checked => Next(s, InFetch(Discard(obj, isNew)))
      case Unchecked => Next(s.(lost := s.lost + multiset{obj}), Free))
    case Discard(obj, isNew) =>
      Next(Destroy(s, obj), if outcome.Unchecked? || isNew then Free else InFetch(PollFirst))
    case Make =>
      if outcome.Succeeds? then Next(s.(made := s.made + {made}), InFetch(Activate(made, true))) else Next(s, Free)
  }

  function ReturnStep(cfg: Config, s: State, at: Returning, clock: int, outcome: Outcome): Next {
    match at
    case Passivate(obj) => (
      match outcome
      case Succeeds => Next(s, InReturn(TestClosed(obj)))
      case Checked => Next(s, InReturn(Reject(obj)))
      case Unchecked => Next(s.(lost := s.lost + multiset{obj}), Free))
    case TestClosed(obj) => Next(s, InReturn(if s.closed then Reject(obj) else Stamp(obj)))
    case Stamp(obj) => Next(s, InReturn(Offer(Entry(obj, clock + cfg.timeout))))
    case Offer(entry) => Next(s.(deque := [entry] + s.deque), Free)
    case Reject(obj) => Next(Destroy(s, obj), Free)
  }

  function CloseStep(s: State, at: Closing, outcome: Outcome): Next {
    match at
    case SetClosed => Next(s.(closed := true), InClose(Drain))
    case Drain =>
      if s.deque == [] then Next(s, Free)
      else Next(s.(deque := s.deque[1..]), InClose(DestroyFirst(s.deque[0].obj)))
    case DestroyFirst(obj) => Next(Destroy(s, obj), if outcome.Unchecked? then Free else InClose(Drain))
  }

  // ---- The census: where an object is, counted over all the places there are ----

  function Held(th: Thread): (r: seq<Obj>)
    ensures |r| <= 1
  {
    match th
    case InSweep(PutBack(entry)) => [entry.obj]
    case InSweep(DestroyLast(_, obj)) => [obj]
    case InFetch(Activate(obj, _)) => [obj]
    case InFetch(Discard(obj, _)) => [obj]
    case InReturn(Offer(entry)) => [entry.obj]
    case InReturn(at) => [at.obj]
    case InClose(DestroyFirst(obj)) => [obj]
    case _ => []
  }

  function InHand(th: Thread, o: Obj): nat {
    if Held(th) == [o] then 1 else 0
  }

  function InHands(threads: seq<Thread>, o: Obj): nat {
    if threads == [] then 0 else InHand(threads[0], o) + InHands(threads[1..], o)
  }

  function Idle(deque: seq<Entry>, o: Obj): nat {
    if deque == [] then 0 else (if deque[0].obj == o then 1 else 0) + Idle(deque[1..], o)
  }

  function Places(s: State, o: Obj): nat {
    Idle(s.deque, o) + InHands(s.threads, o) + s.borrowed[o] + s.destroyed[o] + s.lost[o]
  }

  // Every object made so far is in exactly one place, and no other object is anywhere.
  ghost predicate Conserved(s: State) {
    forall o: Obj :: Places(s, o) == if o in s.made then 1 else 0
  }

  lemma {:induction false} InHandsUpdate(threads: seq<Thread>, t: nat, th: Thread, o: Obj)
    requires t < |threads|
    ensures InHands(threads[t := th], o) + InHand(threads[t], o) == InHands(threads, o) + InHand(th, o)
    decreases |threads|
  {
    if t > 0 {
      InHandsUpdate(threads[1..], t - 1, th, o);
      assert threads[t := th][1..] == threads[1..][t - 1 := th];
    } else {
      assert threads[t := th][1..] == threads[1..];
    }
  }

  lemma {:induction false} IdleLast(deque: seq<Entry>, o: Obj)
    requires deque != []
    ensures Idle(deque, o) == Idle(deque[..|deque| - 1], o) + if deque[|deque| - 1].obj == o then 1 else 0
    decreases |deque|
  {
    if |deque| > 1 {
      IdleLast(deque[1..], o);
      assert deque[1..][..|deque| - 2] == deque[..|deque| - 1][1..];
    }
  }

  lemma IdleAppended(deque: seq<Entry>, entry: Entry, o: Obj)
    ensures Idle(deque + [entry], o) == Idle(deque, o) + if entry.obj == o then 1 else 0
  {
    var longer := deque + [entry];
    assert longer[..|deque|] == deque;
    IdleLast(longer, o);
  }

  // The places a step can change besides its own thread's hand.
  function Shared(s: State, o: Obj): nat {
    Idle(s.deque, o) + s.borrowed[o] + s.destroyed[o] + s.lost[o]
  }

  // Only a made object is new; every other step moves at most one object from a place to another.
  ghost predicate Moves(s: State, th: Thread, next: Next, o: Obj) {
    && s.made <= next.s.made && next.s.threads == s.threads
    && Shared(next.s, o) + InHand(next.th, o) ==
         Shared(s, o) + InHand(th, o) + if o in next.s.made - s.made then 1 else 0
  }

  lemma SweepMoves(cfg: Config, s: State, at: Sweeping, clock: int, outcome: Outcome, o: Obj)
    ensures Moves(s, InSweep(at), SweepStep(cfg, s, at, clock, outcome), o)
  {
    match at {
      case PollLast(_) =>
        if s.deque != [] {
          IdleLast(s.deque, o);
        }
      case PutBack(entry) =>
        IdleAppended(s.deque, entry, o);
      case _ =>
    }
  }

  lemma FetchMoves(s: State, at: Fetching, outcome: Outcome, made: Obj, o: Obj)
    requires at.Make? && outcome.Succeeds? ==> made !in s.made
    ensures Moves(s, InFetch(at), FetchStep(s, at, outcome, made), o)
  {
  }

  lemma ReturnMoves(cfg: Config, s: State, at: Returning, clock: int, outcome: Outcome, o: Obj)
    ensures Moves(s, InReturn(at), ReturnStep(cfg, s, at, clock, outcome), o)
  {
    if at.Offer? {
      assert ([at.entry] + s.deque)[1..] == s.deque;
    }
  }

  lemma CloseMoves(s: State, at: Closing, outcome: Outcome, o: Obj)
    ensures Moves(s, InClose(at), CloseStep(s, at, outcome), o)
  {
  }

  lemma StepMoves(cfg: Config, s: State, t: nat, a: Action, o: Obj)
    requires Enabled(s, t, a)
    ensures Moves(s, s.threads[t], After(cfg, s, s.threads[t], a), o)
  {
    if a.Run? {
      match s.threads[t]
      case InSweep(at) => SweepMoves(cfg, s, at, a.clock, a.outcome, o);
      case InFetch(at) => FetchMoves(s, at, a.outcome, a.made, o);
      case InReturn(at) => ReturnMoves(cfg, s, at, a.clock, a.outcome, o);
      case InClose(at) => CloseMoves(s, at, a.outcome, o);
    }
  }

  /** No step of any thread duplicates or drops an object. */
  lemma StepConserves(cfg: Config, s: State, t: nat, a: Action)
    requires Conserved(s) && Enabled(s, t, a)
    ensures Conserved(Step(cfg, s, t, a))
  {
    var s' := Step(cfg, s, t, a);
    forall o: Obj ensures Places(s', o) == if o in s'.made then 1 else 0 {
      StepMoves(cfg, s, t, a, o);
      InHandsUpdate(s.threads, t, After(cfg, s, s.threads[t], a).th, o);
    }
  }

  // ---- Runs: the steps of all threads in the order they happen ----

  type Steps = seq<(nat, Action)>

  predicate Legal(cfg: Config, s: State, steps: Steps)
    decreases |steps|
  {
    steps == [] || (Enabled(s, steps[0].0, steps[0].1) && Legal(cfg, Step(cfg, s, steps[0].0, steps[0].1), steps[1..]))
  }

  function Exec(cfg: Config, s: State, steps: Steps): State
    requires Legal(cfg, s, steps)
    decreases |steps|
  {
    if steps == [] then s else Exec(cfg, Step(cfg, s, steps[0].0, steps[0].1), steps[1..])
  }

  lemma {:induction false} NothingInHand(threads: seq<Thread>, o: Obj)
    requires forall th <- threads :: th == Free
    ensures InHands(threads, o) == 0
  {
    if threads != [] {
      assert threads[0] in threads && forall th <- threads[1..] :: th in threads;
      NothingInHand(threads[1..], o);
    }
  }

  /** Every interleaving keeps every made object in exactly one place: idle, in one thread's hand, borrowed,
      destroyed or lost. */
  lemma {:induction false} RunConserves(cfg: Config, s: State, steps: Steps)
    requires Legal(cfg, s, steps) && (Initial(s) || Conserved(s))
    ensures Conserved(Exec(cfg, s, steps))
    decreases |steps|
  {
    if Initial(s) {
      forall o: Obj ensures Places(s, o) == 0 {
        NothingInHand(s.threads, o);
      }
    }
    if steps != [] {
      StepConserves(cfg, s, steps[0].0, steps[0].1);
      RunConserves(cfg, Step(cfg, s, steps[0].0, steps[0].1), steps[1..]);
    }
  }

  lemma {:induction false} InHandsAtLeast(threads: seq<Thread>, t: nat, u: nat, o: Obj)
    requires t <= u < |threads|
    ensures InHands(threads, o) >= InHand(threads[t], o) + if t < u then InHand(threads[u], o) else 0
    decreases |threads|
  {
    if t > 0 {
      InHandsAtLeast(threads[1..], t - 1, u - 1, o);
    } else if u > 0 {
      InHandsAtLeast(threads[1..], u - 1, u - 1, o);
    }
  }

  // The object a thread is about to hand to a borrower, or to destroy.
  predicate HandingOut(th: Thread, o: Obj) {
    th.InFetch? && th.fetch.Activate? && th.fetch.obj == o
  }

  predicate Destroying(th: Thread, o: Obj) {
    match th
    case InSweep(DestroyLast(_, obj)) => obj == o
    case InFetch(Discard(obj, _)) => obj == o
    case InReturn(Reject(obj)) => obj == o
    case InClose(DestroyFirst(obj)) => obj == o
    case _ => false
  }

  /** An object about to be handed out or destroyed is with that thread alone: it is not borrowed, destroyed, pooled or
      lost, and no other thread holds it. So no object has two borrowers, and none is destroyed twice or while in use. */
  lemma HeldExclusively(cfg: Config, s0: State, steps: Steps, t: nat, o: Obj)
    requires Initial(s0) && Legal(cfg, s0, steps)
    requires var s := Exec(cfg, s0, steps); t < |s.threads| && (HandingOut(s.threads[t], o) || Destroying(s.threads[t], o))
    ensures var s := Exec(cfg, s0, steps);
            && o in s.made && s.borrowed[o] == s.destroyed[o] == s.lost[o] == Idle(s.deque, o) == 0
            && forall u :: 0 <= u < |s.threads| && u != t ==> InHand(s.threads[u], o) == 0
  {
    var s := Exec(cfg, s0, steps);
    RunConserves(cfg, s0, steps);
    assert Places(s, o) <= 1 && InHand(s.threads[t], o) == 1;
    InHandsAtLeast(s.threads, t, t, o);
    forall u | 0 <= u < |s.threads| && u != t ensures InHand(s.threads[u], o) == 0 {
      InHandsAtLeast(s.threads, if u < t then u else t, if u < t then t else u, o);
    }
  }

  lemma {:induction false} DestroyedGrows(cfg: Config, s: State, steps: Steps, o: Obj)
    requires Legal(cfg, s, steps)
    ensures s.destroyed[o] <= Exec(cfg, s, steps).destroyed[o]
    decreases |steps|
  {
    if steps != [] {
      DestroyedGrows(cfg, Step(cfg, s, steps[0].0, steps[0].1), steps[1..], o);
    }
  }

  /** Destroyed is final: in no later state is the object pooled, borrowed or in a thread's hand again. */
  lemma DestroyedForever(cfg: Config, s0: State, before: Steps, after: Steps, o: Obj)
    requires Initial(s0) && Legal(cfg, s0, before) && Legal(cfg, Exec(cfg, s0, before), after)
    requires o in Exec(cfg, s0, before).destroyed
    ensures var s := Exec(cfg, Exec(cfg, s0, before), after);
            s.destroyed[o] == 1 && s.borrowed[o] == Idle(s.deque, o) == InHands(s.threads, o) == 0
  {
    var mid := Exec(cfg, s0, before);
    RunConserves(cfg, s0, before);
    RunConserves(cfg, mid, after);
    DestroyedGrows(cfg, mid, after, o);
    assert Places(Exec(cfg, mid, after), o) <= 1;
  }

  // ---- At most one sweep an interval ----

  // A thread about to swap `accessed` has seen it more than an interval ago.
  predicate Due(cfg: Config, th: Thread) {
    th.InSweep? && th.sweep.Swap? ==> th.sweep.now > th.sweep.seen + cfg.interval
  }

  ghost predicate SwapsAreDue(cfg: Config, s: State) {
    forall th <- s.threads :: Due(cfg, th)
  }

  // This step swaps `accessed`, so that its thread goes on to sweep.
  predicate StartsSweep(s: State, t: nat, a: Action)
    requires Enabled(s, t, a)
  {
    var th := s.threads[t];
    a.Run? && th.InSweep? && th.sweep.Swap? && s.accessed == th.sweep.seen
  }

  lemma SwapStep(cfg: Config, s: State, t: nat, a: Action)
    requires SwapsAreDue(cfg, s) && Enabled(s, t, a)
    ensures var s' := Step(cfg, s, t, a);
            && SwapsAreDue(cfg, s')
            && (if StartsSweep(s, t, a) then s'.accessed > s.accessed + cfg.interval else s'.accessed == s.accessed)
  {
    assert Due(cfg, s.threads[t]);
    assert Due(cfg, After(cfg, s, s.threads[t], a).th);
  }

  function Sweeps(cfg: Config, s: State, steps: Steps): nat
    requires Legal(cfg, s, steps)
    decreases |steps|
  {
    if steps == [] then 0
    else
      var t, a := steps[0].0, steps[0].1;
      (if StartsSweep(s, t, a) then 1 else 0) + Sweeps(cfg, Step(cfg, s, t, a), steps[1..])
  }

  lemma OneMore(n: nat, k: int)
    ensures (1 + n) * k == k + n * k && (0 + n) * k == n * k
  {
  }

  lemma {:induction false} SwapsRaiseAccessed(cfg: Config, s: State, steps: Steps)
    requires SwapsAreDue(cfg, s) && Legal(cfg, s, steps)
    ensures var end := Exec(cfg, s, steps);
            && SwapsAreDue(cfg, end)
            && Sweeps(cfg, s, steps) * (cfg.interval + 1) <= end.accessed - s.accessed
    decreases |steps|
  {
    if steps != [] {
      SwapStep(cfg, s, steps[0].0, steps[0].1);
      var s' := Step(cfg, s, steps[0].0, steps[0].1);
      SwapsRaiseAccessed(cfg, s', steps[1..]);
      OneMore(Sweeps(cfg, s', steps[1..]), cfg.interval + 1);
    }
  }

  /** However the threads interleave, between any two states of a run the sweeps started are at most one for every
      interval by which `accessed` has gone on. */
  lemma OneSweepAnInterval(cfg: Config, s0: State, before: Steps, steps: Steps)
    requires Initial(s0) && Legal(cfg, s0, before) && Legal(cfg, Exec(cfg, s0, before), steps)
    ensures var mid := Exec(cfg, s0, before);
            Sweeps(cfg, mid, steps) * (cfg.interval + 1) <= Exec(cfg, mid, steps).accessed - mid.accessed
  {
    SwapsRaiseAccessed(cfg, s0, before);
    SwapsRaiseAccessed(cfg, Exec(cfg, s0, before), steps);
  }

  // ---- What close leaves behind ----

  // Objects a thread will still put into the deque without looking at `closed` again.
  function Late(th: Thread): set<Obj> {
    match th
    case InReturn(Stamp(obj)) => {obj}
    case InReturn(Offer(entry)) => {entry.obj}
    case InSweep(PutBack(entry)) => {entry.obj}
    case _ => {}
  }

  ghost predicate OnlyLate(s: State, late: set<Obj>) {
    s.closed && (forall e <- s.deque :: e.obj in late) && (forall th <- s.threads :: Late(th) <= late)
  }

  lemma StepOnlyLate(cfg: Config, s: State, t: nat, a: Action, late: set<Obj>)
    requires OnlyLate(s, late) && Enabled(s, t, a) && !a.Reopen?
    ensures OnlyLate(Step(cfg, s, t, a), late)
  {
    var next := After(cfg, s, s.threads[t], a);
    assert s.threads[t] in s.threads;
    assert s.deque != [] ==> s.deque[|s.deque| - 1] in s.deque;
    assert Late(next.th) <= late;
    assert forall e <- next.s.deque :: e in s.deque || e.obj in Late(s.threads[t]);
  }

  ghost predicate NoReopen(steps: Steps) {
    forall x <- steps :: !x.1.Reopen?
  }

  /** Once close has seen the deque empty, and until the pool is reopened, the only objects that can lie idle are
      those a returner or sweeper already had in hand then. */
  lemma {:induction false} IdleAfterClose(cfg: Config, s: State, steps: Steps, late: set<Obj>)
    requires OnlyLate(s, late) && Legal(cfg, s, steps) && NoReopen(steps)
    ensures OnlyLate(Exec(cfg, s, steps), late)
    decreases |steps|
  {
    if steps != [] {
      assert steps[0] in steps;
      StepOnlyLate(cfg, s, steps[0].0, steps[0].1, late);
      IdleAfterClose(cfg, Step(cfg, s, steps[0].0, steps[0].1), steps[1..], late);
    }
  }

  function AllLate(threads: seq<Thread>): set<Obj> {
    if threads == [] then {} else Late(threads[0]) + AllLate(threads[1..])
  }

  lemma {:induction false} LateOfAll(threads: seq<Thread>, t: nat)
    requires t < |threads|
    ensures Late(threads[t]) <= AllLate(threads)
    decreases |threads|
  {
    if t > 0 {
      LateOfAll(threads[1..], t - 1);
    }
  }

  /** From the step in which close finds the deque empty: until the pool is reopened, everything that lies idle was in a
      returner's or sweeper's hand at that step. */
  lemma IdleAfterDrain(cfg: Config, s: State, t: nat, steps: Steps)
    requires t < |s.threads| && s.threads[t] == InClose(Drain) && s.closed && s.deque == []
    requires Legal(cfg, s, steps) && NoReopen(steps)
    ensures forall e <- Exec(cfg, s, steps).deque :: e.obj in AllLate(s.threads)
  {
    forall th <- s.threads ensures Late(th) <= AllLate(s.threads) {
      var u :| 0 <= u < |s.threads| && s.threads[u] == th;
      LateOfAll(s.threads, u);
    }
    IdleAfterClose(cfg, s, steps, AllLate(s.threads));
  }

  // Nothing lies idle after any run that does not reopen the pool.
  ghost predicate StaysEmpty(cfg: Config, s: State) {
    forall steps: Steps :: Legal(cfg, s, steps) && NoReopen(steps) ==> Exec(cfg, s, steps).deque == []
  }

  lemma EmptyOrHasMember(deque: seq<Entry>)
    ensures deque == [] || exists e :: e in deque
  {
    if deque != [] {
      assert deque[0] in deque;
    }
  }

  lemma Unroll(cfg: Config, s: State, x: (nat, Action), rest: Steps)
    requires Enabled(s, x.0, x.1) && Legal(cfg, Step(cfg, s, x.0, x.1), rest)
    ensures Legal(cfg, s, [x] + rest) && Exec(cfg, s, [x] + rest) == Exec(cfg, Step(cfg, s, x.0, x.1), rest)
  {
    assert ([x] + rest)[1..] == rest;
  }

  const GO := Run(0, Succeeds, 0)

  // A thread with a late object puts it into the deque in its next step or the one after.
  lemma LateArrives(cfg: Config, s: State, t: nat) returns (steps: Steps)
    requires t < |s.threads| && Late(s.threads[t]) != {}
    ensures Legal(cfg, s, steps) && NoReopen(steps) && Exec(cfg, s, steps).deque != []
  {
    var next := Step(cfg, s, t, GO);
    Unroll(cfg, s, (t, GO), []);
    steps := [(t, GO)] + [];
    if s.threads[t].InReturn? && s.threads[t].ret.Stamp? {
      Unroll(cfg, next, (t, GO), []);
      Unroll(cfg, s, (t, GO), steps);
      steps := [(t, GO)] + steps;
    }
  }

  /** A closed empty pool stays empty exactly if no thread is caught in between; then whatever is returned is destroyed. */
  lemma ClosedPoolStaysEmpty(cfg: Config, s: State)
    requires s.closed && s.deque == []
    ensures StaysEmpty(cfg, s) <==> forall th <- s.threads :: Late(th) == {}
  {
    if forall th <- s.threads :: Late(th) == {} {
      forall steps: Steps | Legal(cfg, s, steps) && NoReopen(steps) ensures Exec(cfg, s, steps).deque == [] {
        IdleAfterClose(cfg, s, steps, {});
        EmptyOrHasMember(Exec(cfg, s, steps).deque);
      }
    } else {
      var t :| 0 <= t < |s.threads| && Late(s.threads[t]) != {};
      var steps := LateArrives(cfg, s, t);
    }
  }

  // ---- A run in which close misses a return ----

  ghost predicate Leads(cfg: Config, s: State, steps: Steps, s': State) {
    Legal(cfg, s, steps) && Exec(cfg, s, steps) == s'
  }

  // One step of thread t, then the rest.
  lemma Then(cfg: Config, s: State, t: nat, a: Action, rest: Steps, s': State) returns (steps: Steps)
    requires Enabled(s, t, a) && Leads(cfg, Step(cfg, s, t, a), rest, s')
    ensures Leads(cfg, s, steps, s')
  {
    Unroll(cfg, s, (t, a), rest);
    steps := [(t, a)] + rest;
  }

  // A new object, borrowed by the first of two free threads without a sweep.
  lemma BorrowNew(cfg: Config, s: State, o: Obj, rest: Steps, s': State) returns (steps: Steps)
    requires Initial(s) && s.threads == [Free, Free]
    requires Leads(cfg, s.(made := {o}, borrowed := multiset{o}), rest, s')
    ensures Leads(cfg, s, steps, s')
  {
    var polling := s.(threads := [InFetch(PollFirst), Free]);
    steps := FetchNew(cfg, polling, o, rest, s');
    if cfg.timeout > 0 {
      var now := s.accessed + cfg.interval;
      var reading := s.(threads := [InSweep(ReadAccessed(now)), Free]);
      assert Step(cfg, reading, 0, GO) == polling;
      steps := Then(cfg, reading, 0, GO, steps, s');
      var starting := s.(threads := [InSweep(ReadClock), Free]);
      assert Step(cfg, starting, 0, Run(now, Succeeds, 0)) == reading;
      steps := Then(cfg, starting, 0, Run(now, Succeeds, 0), steps, s');
      assert Step(cfg, s, 0, Borrow) == starting;
    } else {
      assert Step(cfg, s, 0, Borrow) == polling;
    }
    steps := Then(cfg, s, 0, Borrow, steps, s');
  }

  lemma FetchNew(cfg: Config, s: State, o: Obj, rest: Steps, s': State) returns (steps: Steps)
    requires s.threads == [InFetch(PollFirst), Free] && s.deque == [] && s.made == {} && s.borrowed == multiset{}
    requires Leads(cfg, s.(threads := [Free, Free], made := {o}, borrowed := multiset{o}), rest, s')
    ensures Leads(cfg, s, steps, s')
  {
    var making := s.(threads := [InFetch(Make), Free]);
    var activating := s.(threads := [InFetch(Activate(o, true)), Free], made := {o});
    assert Step(cfg, activating, 0, GO) == s.(threads := [Free, Free], made := {o}, borrowed := multiset{o});
    steps := Then(cfg, activating, 0, GO, rest, s');
    assert Step(cfg, making, 0, Run(0, Succeeds, o)) == activating;
    steps := Then(cfg, making, 0, Run(0, Succeeds, o), steps, s');
    assert Step(cfg, s, 0, GO) == making;
    steps := Then(cfg, s, 0, GO, steps, s');
  }

  // The object is given back, up to the moment at which the first thread has found the pool open.
  lemma StartReturn(cfg: Config, s: State, o: Obj, rest: Steps, s': State) returns (steps: Steps)
    requires s.threads == [Free, Free] && s.borrowed == multiset{o} && !s.closed
    requires Leads(cfg, s.(threads := [InReturn(Stamp(o)), Free], borrowed := multiset{}), rest, s')
    ensures Leads(cfg, s, steps, s')
  {
    var passivating := s.(threads := [InReturn(Passivate(o)), Free], borrowed := multiset{});
    var testing := passivating.(threads := [InReturn(TestClosed(o)), Free]);
    assert Step(cfg, testing, 0, GO) == passivating.(threads := [InReturn(Stamp(o)), Free]);
    steps := Then(cfg, testing, 0, GO, rest, s');
    assert Step(cfg, passivating, 0, GO) == testing;
    steps := Then(cfg, passivating, 0, GO, steps, s');
    assert Step(cfg, s, 0, Return(o)) == passivating;
    steps := Then(cfg, s, 0, Return(o), steps, s');
  }

  // The second thread closes the pool, all of it.
  lemma CloseEmpty(cfg: Config, s: State, th: Thread, rest: Steps, s': State) returns (steps: Steps)
    requires s.threads == [th, Free] && s.deque == [] && Leads(cfg, s.(closed := true), rest, s')
    ensures Leads(cfg, s, steps, s')
  {
    var draining := s.(threads := [th, InClose(Drain)], closed := true);
    var starting := s.(threads := [th, InClose(SetClosed)]);
    assert Step(cfg, draining, 1, GO) == s.(closed := true);
    steps := Then(cfg, draining, 1, GO, rest, s');
    assert Step(cfg, starting, 1, GO) == draining;
    steps := Then(cfg, starting, 1, GO, steps, s');
    assert Step(cfg, s, 1, Close) == starting;
    steps := Then(cfg, s, 1, Close, steps, s');
  }

  lemma FinishReturn(cfg: Config, s: State, o: Obj) returns (steps: Steps)
    requires s.threads == [InReturn(Stamp(o)), Free] && s.deque == []
    ensures Leads(cfg, s, steps, s.(threads := [Free, Free], deque := [Entry(o, cfg.timeout)]))
  {
    var s' := s.(threads := [Free, Free], deque := [Entry(o, cfg.timeout)]);
    var offering := s.(threads := [InReturn(Offer(Entry(o, cfg.timeout))), Free]);
    assert Step(cfg, offering, 0, GO) == s';
    steps := Then(cfg, offering, 0, GO, [], s');
    assert Step(cfg, s, 0, GO) == offering;
    steps := Then(cfg, s, 0, GO, steps, s');
  }

  /** It does happen: from a new pool two threads come, by borrowing, returning and closing, to a closed pool in which
      every call has ended and an object lies idle. */
  lemma CloseCanMissAReturn(cfg: Config, s: State, o: Obj) returns (steps: Steps)
    requires Initial(s) && s.threads == [Free, Free]
    ensures Leads(cfg, s, steps, s.(closed := true, made := {o}, deque := [Entry(o, cfg.timeout)]))
  {
    var lent := s.(made := {o}, borrowed := multiset{o});
    var stamping := lent.(threads := [InReturn(Stamp(o)), Free], borrowed := multiset{});
    var s' := s.(closed := true, made := {o}, deque := [Entry(o, cfg.timeout)]);
    steps := FinishReturn(cfg, stamping.(closed := true), o);
    steps := CloseEmpty(cfg, stamping, InReturn(Stamp(o)), steps, s');
    steps := StartReturn(cfg, lent, o, steps, s');
    steps := BorrowNew(cfg, s, o, steps, s');
  }
}
