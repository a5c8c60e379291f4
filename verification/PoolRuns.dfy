/** What the calls of one thread amount to: runs of the protocol, and a sweep that finds every expired entry. */
module PoolRuns {
  import opened Options
  import opened Pool
  import opened PoolProtocol

  // ---- A call by itself is a run of the protocol ----

  // What a call meets: the one time its thread reads, and how the subclass's methods end.
  datatype World = World(now: int, activate: Obj -> Outcome, passivate: Obj -> Outcome, make: Option<Obj>, breaks: Breaks)

  function Ending(breaks: Breaks, obj: Obj): Outcome {
    if breaks(obj) then Unchecked else Succeeds
  }

  // A step reads that time, and ends as the subclass has it.
  predicate Obeys(w: World, th: Thread, a: Action) {
    && a.Run? && a.clock == w.now
    && match th
       case InSweep(DestroyLast(_, obj)) => a.outcome == Ending(w.breaks, obj)
       case InFetch(Activate(obj, _)) => a.outcome == w.activate(obj)
       case InFetch(Discard(obj, _)) => a.outcome == Ending(w.breaks, obj)
       case InFetch(Make) => if w.make.Some? then a.outcome == Succeeds && a.made == w.make.value else !a.outcome.Succeeds?
       case InReturn(Passivate(obj)) => a.outcome == w.passivate(obj)
       case InReturn(Reject(obj)) => a.outcome == Ending(w.breaks, obj)
       case InClose(DestroyFirst(obj)) => a.outcome == Ending(w.breaks, obj)
       case _ => true
  }

  ghost predicate Obeyed(cfg: Config, w: World, s: State, steps: Steps)
    requires Legal(cfg, s, steps)
    decreases |steps|
  {
    steps == [] ||
    (Obeys(w, s.threads[steps[0].0], steps[0].1) && Obeyed(cfg, w, Step(cfg, s, steps[0].0, steps[0].1), steps[1..]))
  }

  ghost predicate Solo(cfg: Config, w: World, s: State, steps: Steps, s': State) {
    var solo := Leads(cfg, s, steps, s') && Obeyed(cfg, w, s, steps);
    solo
  }

  // The only thread makes this one call, from its start to its end.
  ghost predicate OneCall(cfg: Config, w: World, s: State, call: Action, steps: Steps, s': State) {
    && Leads(cfg, On(s, Free), steps, On(s', Free)) && steps != [] && steps[0] == (0, call)
    && Obeyed(cfg, w, Step(cfg, On(s, Free), 0, call), steps[1..])
  }

  function On(s: State, th: Thread): State {
    s.(threads := [th])
  }

  lemma StepAlone(cfg: Config, s: State, th: Thread, a: Action)
    requires Enabled(On(s, th), 0, a)
    ensures var next := After(cfg, On(s, th), th, a); Step(cfg, On(s, th), 0, a) == On(next.s, next.th)
  {
    assert [th][0 := After(cfg, On(s, th), th, a).th] == [After(cfg, On(s, th), th, a).th];
  }

  // One step of the only thread, then the rest.
  lemma First(cfg: Config, w: World, s: State, th: Thread, a: Action, rest: Steps, s': State) returns (steps: Steps)
    requires Enabled(On(s, th), 0, a) && Obeys(w, th, a)
    requires var next := After(cfg, On(s, th), th, a); Solo(cfg, w, On(next.s, next.th), rest, s')
    ensures Solo(cfg, w, On(s, th), steps, s')
  {
    StepAlone(cfg, s, th, a);
    Unroll(cfg, On(s, th), (0, a), rest);
    steps := [(0, a)] + rest;
    assert steps[1..] == rest;
  }

  lemma Start(cfg: Config, w: World, s: State, call: Action, rest: Steps, s': State) returns (steps: Steps)
    requires Enabled(On(s, Free), 0, call)
    requires var next := After(cfg, On(s, Free), Free, call); Solo(cfg, w, On(next.s, next.th), rest, On(s', Free))
    ensures OneCall(cfg, w, s, call, steps, s')
  {
    StepAlone(cfg, s, Free, call);
    Unroll(cfg, On(s, Free), (0, call), rest);
    steps := [(0, call)] + rest;
    assert steps[1..] == rest;
  }

  function Go(w: World): Action {
    Run(w.now, Succeeds, 0)
  }

  function Ends(w: World, outcome: Outcome): Action {
    Run(w.now, outcome, 0)
  }

  lemma StopSweep(cfg: Config, w: World, s: State, rest: Steps, s': State) returns (steps: Steps)
    requires s.deque == [] || w.now < s.deque[|s.deque| - 1].expire
    requires Solo(cfg, w, On(s, InFetch(PollFirst)), rest, s')
    ensures Solo(cfg, w, On(s, InSweep(PollLast(w.now))), steps, s')
  {
    steps := rest;
    if s.deque != [] {
      var last, front := s.deque[|s.deque| - 1], s.deque[..|s.deque| - 1];
      assert front + [last] == s.deque;
      steps := First(cfg, w, s.(deque := front), InSweep(PutBack(last)), Go(w), steps, s');
    }
    steps := First(cfg, w, s, InSweep(PollLast(w.now)), Go(w), steps, s');
  }

  // Where the sweep leaves its thread.
  function Behind(threw: bool): Thread {
    if threw then Free else InFetch(PollFirst)
  }

  lemma PollsExpired(cfg: Config, w: World, s: State, rest: Steps, s': State) returns (steps: Steps)
    requires s.deque != [] && s.deque[|s.deque| - 1].expire <= w.now
    requires Solo(cfg, w, On(s.(deque := s.deque[..|s.deque| - 1]), InSweep(DestroyLast(w.now, s.deque[|s.deque| - 1].obj))), rest, s')
    ensures Solo(cfg, w, On(s, InSweep(PollLast(w.now))), steps, s')
  {
    steps := First(cfg, w, s, InSweep(PollLast(w.now)), Go(w), rest, s');
  }

  lemma {:induction false} SoloSweep(cfg: Config, w: World, s: State, rest: Steps, s': State) returns (steps: Steps)
    requires var r := Swept(s, w.now, w.breaks); Solo(cfg, w, On(r.0, Behind(r.1)), rest, s')
    ensures Solo(cfg, w, On(s, InSweep(PollLast(w.now))), steps, s')
    decreases |s.deque|, 0
  {
    if s.deque == [] || w.now < s.deque[|s.deque| - 1].expire {
      steps := StopSweep(cfg, w, s, rest, s');
    } else {
      var obj, taken := s.deque[|s.deque| - 1].obj, s.(deque := s.deque[..|s.deque| - 1]);
      assert Swept(s, w.now, w.breaks) == SweptBehind(taken, obj, w.now, w.breaks);
      steps := SoloDestroyLast(cfg, w, taken, obj, rest, s');
      steps := PollsExpired(cfg, w, s, steps, s');
    }
  }

  function SweptBehind(taken: State, obj: Obj, now: int, breaks: Breaks): (State, bool) {
    if breaks(obj) then (Destroy(taken, obj), true) else Swept(Destroy(taken, obj), now, breaks)
  }

  // An expired object is destroyed; the sweep goes on unless that throws.
  lemma {:induction false} SoloDestroyLast(cfg: Config, w: World, taken: State, obj: Obj, rest: Steps, s': State)
    returns (steps: Steps)
    requires var r := SweptBehind(taken, obj, w.now, w.breaks); Solo(cfg, w, On(r.0, Behind(r.1)), rest, s')
    ensures Solo(cfg, w, On(taken, InSweep(DestroyLast(w.now, obj))), steps, s')
    decreases |taken.deque|, 1
  {
    steps := rest;
    if !w.breaks(obj) {
      steps := SoloSweep(cfg, w, Destroy(taken, obj), rest, s');
    }
    steps := First(cfg, w, taken, InSweep(DestroyLast(w.now, obj)), Ends(w, Ending(w.breaks, obj)), steps, s');
  }

  lemma AtRest(cfg: Config, w: World, s: State)
    ensures Solo(cfg, w, s, [], s)
  {
  }

  lemma SoloMake(cfg: Config, w: World, s: State) returns (steps: Steps)
    requires s.deque == [] && (w.make.Some? ==> w.make.value !in s.made)
    ensures Solo(cfg, w, On(s, InFetch(PollFirst)), steps, On(Fetched(s, w.activate, w.make, w.breaks).0, Free))
  {
    var s' := On(Fetched(s, w.activate, w.make, w.breaks).0, Free);
    steps := [];
    AtRest(cfg, w, s');
    match w.make {
      case None =>
        steps := First(cfg, w, s, InFetch(Make), Ends(w, Checked), steps, s');
      case Some(obj) =>
        steps := SoloActivateNew(cfg, w, s.(made := s.made + {obj}), obj, s');
        steps := First(cfg, w, s, InFetch(Make), Run(w.now, Succeeds, obj), steps, s');
    }
    steps := First(cfg, w, s, InFetch(PollFirst), Go(w), steps, s');
  }

  // A new object is activated, or destroyed if it cannot be.
  lemma SoloActivateNew(cfg: Config, w: World, s: State, obj: Obj, s': State) returns (steps: Steps)
    requires s' == match w.activate(obj)
                   case Succeeds => On(s.(borrowed := s.borrowed + multiset{obj}), Free)
                   case Unchecked => On(s.(lost := s.lost + multiset{obj}), Free)
                   case Checked => On(Destroy(s, obj), Free)
    ensures Solo(cfg, w, On(s, InFetch(Activate(obj, true))), steps, s')
  {
    steps := [];
    AtRest(cfg, w, s');
    if w.activate(obj).Checked? {
      steps := First(cfg, w, s, InFetch(Discard(obj, true)), Ends(w, Ending(w.breaks, obj)), steps, s');
    }
    steps := First(cfg, w, s, InFetch(Activate(obj, true)), Ends(w, w.activate(obj)), steps, s');
  }

  lemma {:induction false} SoloFetch(cfg: Config, w: World, s: State) returns (steps: Steps)
    requires w.make.Some? ==> w.make.value !in s.made
    ensures Solo(cfg, w, On(s, InFetch(PollFirst)), steps, On(Fetched(s, w.activate, w.make, w.breaks).0, Free))
    decreases |s.deque|, 0
  {
    if s.deque == [] {
      steps := SoloMake(cfg, w, s);
    } else {
      var s' := On(Fetched(s, w.activate, w.make, w.breaks).0, Free);
      var obj, taken := s.deque[0].obj, s.(deque := s.deque[1..]);
      steps := [];
      AtRest(cfg, w, s');
      if w.activate(obj).Checked? {
        steps := SoloDiscard(cfg, w, taken, obj);
      }
      steps := First(cfg, w, taken, InFetch(Activate(obj, false)), Ends(w, w.activate(obj)), steps, s');
      steps := First(cfg, w, s, InFetch(PollFirst), Go(w), steps, s');
    }
  }

  // A pooled object that cannot be activated is destroyed; the loop goes on unless that throws.
  lemma {:induction false} SoloDiscard(cfg: Config, w: World, taken: State, obj: Obj) returns (steps: Steps)
    requires w.make.Some? ==> w.make.value !in taken.made
    ensures var destroyed := Destroy(taken, obj);
            var r := if w.breaks(obj) then destroyed else Fetched(destroyed, w.activate, w.make, w.breaks).0;
            Solo(cfg, w, On(taken, InFetch(Discard(obj, false))), steps, On(r, Free))
    decreases |taken.deque|, 1
  {
    var destroyed := Destroy(taken, obj);
    var r := if w.breaks(obj) then destroyed else Fetched(destroyed, w.activate, w.make, w.breaks).0;
    steps := [];
    AtRest(cfg, w, On(r, Free));
    if !w.breaks(obj) {
      steps := SoloFetch(cfg, w, destroyed);
    }
    steps := First(cfg, w, taken, InFetch(Discard(obj, false)), Ends(w, Ending(w.breaks, obj)), steps, On(r, Free));
  }

  /** borrowObject, run without interruption, is a run of the protocol: in it the clock says `now` and the subclass's
      methods end as given. */
  lemma SoloBorrow(cfg: Config, w: World, s: State) returns (steps: Steps)
    requires w.make.Some? ==> w.make.value !in s.made
    ensures OneCall(cfg, w, s, Borrow, steps, Borrowed(cfg, s, w.now, w.activate, w.make, w.breaks).0)
  {
    var end := Borrowed(cfg, s, w.now, w.activate, w.make, w.breaks).0;
    var s' := On(end, Free);
    var (swept, threw) := AfterSweep(cfg, s, w.now, w.breaks);
    SweptKeeps(s.(accessed := w.now), w.now, w.breaks);
    steps := [];
    AtRest(cfg, w, s');
    if !threw {
      steps := SoloFetch(cfg, w, swept);
    }
    if cfg.timeout > 0 {
      if SweepDue(cfg, s, w.now) {
        steps := SoloSweep(cfg, w, s.(accessed := w.now), steps, s');
        steps := First(cfg, w, s, InSweep(Swap(w.now, s.accessed)), Go(w), steps, s');
      }
      steps := First(cfg, w, s, InSweep(ReadAccessed(w.now)), Go(w), steps, s');
      steps := First(cfg, w, s, InSweep(ReadClock), Go(w), steps, s');
    }
    steps := Start(cfg, w, s, Borrow, steps, end);
  }

  lemma SoloReturn(cfg: Config, w: World, s: State, obj: Obj) returns (steps: Steps)
    requires obj in s.borrowed
    ensures OneCall(cfg, w, s, Return(obj), steps, Returned(cfg, s, obj, w.now, w.passivate(obj)))
  {
    var end := Returned(cfg, s, obj, w.now, w.passivate(obj));
    var s' := On(end, Free);
    var taken := s.(borrowed := s.borrowed - multiset{obj});
    steps := [];
    AtRest(cfg, w, s');
    if w.passivate(obj).Succeeds? {
      if s.closed {
        steps := First(cfg, w, taken, InReturn(Reject(obj)), Ends(w, Ending(w.breaks, obj)), steps, s');
      } else {
        steps := First(cfg, w, taken, InReturn(Offer(Entry(obj, w.now + cfg.timeout))), Go(w), steps, s');
        steps := First(cfg, w, taken, InReturn(Stamp(obj)), Go(w), steps, s');
      }
      steps := First(cfg, w, taken, InReturn(TestClosed(obj)), Go(w), steps, s');
    } else if w.passivate(obj).Checked? {
      steps := First(cfg, w, taken, InReturn(Reject(obj)), Ends(w, Ending(w.breaks, obj)), steps, s');
    }
    steps := First(cfg, w, taken, InReturn(Passivate(obj)), Ends(w, w.passivate(obj)), steps, s');
    steps := Start(cfg, w, s, Return(obj), steps, end);
  }

  lemma {:induction false} SoloDrain(cfg: Config, w: World, s: State) returns (steps: Steps)
    ensures Solo(cfg, w, On(s, InClose(Drain)), steps, On(Drained(s, w.breaks).0, Free))
    decreases |s.deque|
  {
    var s' := On(Drained(s, w.breaks).0, Free);
    steps := [];
    AtRest(cfg, w, s');
    if s.deque != [] {
      var obj, taken := s.deque[0].obj, s.(deque := s.deque[1..]);
      if !w.breaks(obj) {
        steps := SoloDrain(cfg, w, Destroy(taken, obj));
      }
      steps := First(cfg, w, taken, InClose(DestroyFirst(obj)), Ends(w, Ending(w.breaks, obj)), steps, s');
    }
    steps := First(cfg, w, s, InClose(Drain), Go(w), steps, s');
  }

  lemma SoloClose(cfg: Config, w: World, s: State) returns (steps: Steps)
    ensures OneCall(cfg, w, s, Close, steps, Drained(s.(closed := true), w.breaks).0)
  {
    var end := Drained(s.(closed := true), w.breaks).0;
    steps := SoloDrain(cfg, w, s.(closed := true));
    steps := First(cfg, w, s, InClose(SetClosed), Go(w), steps, On(end, Free));
    steps := Start(cfg, w, s, Close, steps, end);
  }

  // ---- Runs of whole calls ----

  datatype Call =
    | BorrowCall(now: int, activate: Obj -> Outcome, make: Option<Obj>, breaks: Breaks)
    | ReturnCall(obj: Obj, now: int, passivate: Outcome)
    | CloseCall(breaks: Breaks)
    | ReopenCall

  ghost predicate Sensible(s: State, c: Call) {
    match c
    case BorrowCall(_, _, make, _) => make.Some? ==> make.value !in s.made
    case ReturnCall(obj, _, _) => obj in s.borrowed
    case CloseCall(_) => true
    case ReopenCall => true
  }

  ghost function Perform(cfg: Config, s: State, c: Call): State {
    match c
    case BorrowCall(now, activate, make, breaks) => Borrowed(cfg, s, now, activate, make, breaks).0
    case ReturnCall(obj, now, passivate) => Returned(cfg, s, obj, now, passivate)
    case CloseCall(breaks) => Drained(s.(closed := true), breaks).0
    case ReopenCall => s.(closed := false)
  }

  // What a call meets; what it does not ask for can be anything.
  ghost function WorldOf(c: Call): World {
    match c
    case BorrowCall(now, activate, make, breaks) => World(now, activate, o => Succeeds, make, breaks)
    case ReturnCall(_, now, passivate) => World(now, o => Succeeds, o => passivate, None, o => false)
    case CloseCall(breaks) => World(0, o => Succeeds, o => Succeeds, None, breaks)
    case ReopenCall => World(0, o => Succeeds, o => Succeeds, None, o => false)
  }

  function ActionOf(c: Call): Action {
    match c
    case BorrowCall(_, _, _, _) => Borrow
    case ReturnCall(obj, _, _) => Return(obj)
    case CloseCall(_) => Close
    case ReopenCall => Reopen
  }

  // A whole call is a run of the protocol that ends with its thread free.
  lemma CallIsRun(cfg: Config, s: State, c: Call) returns (steps: Steps)
    requires Sensible(s, c)
    ensures OneCall(cfg, WorldOf(c), s, ActionOf(c), steps, Perform(cfg, s, c))
  {
    var w := WorldOf(c);
    match c {
      case BorrowCall(_, _, _, _) => steps := SoloBorrow(cfg, w, s);
      case ReturnCall(obj, _, _) => steps := SoloReturn(cfg, w, s, obj);
      case CloseCall(_) => steps := SoloClose(cfg, w, s);
      case ReopenCall =>
        AtRest(cfg, w, On(s.(closed := false), Free));
        steps := Start(cfg, w, s, Reopen, [], s.(closed := false));
    }
  }

  lemma CallKeepsThreads(cfg: Config, s: State, c: Call)
    ensures Perform(cfg, s, c).threads == s.threads
  {
    match c {
      case BorrowCall(now, activate, make, breaks) =>
        SweptKeeps(s.(accessed := now), now, breaks);
        FetchedKeepsThreads(AfterSweep(cfg, s, now, breaks).0, activate, make, breaks);
      case CloseCall(breaks) => DrainedKeeps(s.(closed := true), breaks);
      case _ =>
    }
  }

  /** So whole calls keep every object in exactly one place too. */
  lemma CallConserves(cfg: Config, s: State, c: Call)
    requires Sensible(s, c) && s.threads == [Free] && Conserved(s)
    ensures Perform(cfg, s, c).threads == [Free] && Conserved(Perform(cfg, s, c))
  {
    CallKeepsThreads(cfg, s, c);
    assert On(s, Free) == s && On(Perform(cfg, s, c), Free) == Perform(cfg, s, c);
    var steps := CallIsRun(cfg, s, c);
    RunConserves(cfg, s, steps);
  }

  lemma {:induction false} SweptKeeps(s: State, now: int, breaks: Breaks)
    ensures var r := Swept(s, now, breaks).0;
            r.threads == s.threads && r.made == s.made && r.accessed == s.accessed && r.closed == s.closed && r.deque <= s.deque
    decreases |s.deque|
  {
    if s.deque != [] && s.deque[|s.deque| - 1].expire <= now {
      var obj := s.deque[|s.deque| - 1].obj;
      if !breaks(obj) {
        SweptKeeps(Destroy(s.(deque := s.deque[..|s.deque| - 1]), obj), now, breaks);
      }
    }
  }

  // The deque is what is left of it at its old end.
  predicate Left(part: seq<Entry>, deque: seq<Entry>) {
    |part| <= |deque| && part == deque[|deque| - |part|..]
  }

  lemma LeftOfRest(part: seq<Entry>, deque: seq<Entry>)
    requires deque != [] && Left(part, deque[1..])
    ensures Left(part, deque)
  {
  }

  lemma {:induction false} FetchedKeepsThreads(s: State, activate: Obj -> Outcome, make: Option<Obj>, breaks: Breaks)
    ensures var r := Fetched(s, activate, make, breaks).0; r.threads == s.threads && Left(r.deque, s.deque)
    decreases |s.deque|
  {
    var r := Fetched(s, activate, make, breaks).0;
    if s.deque != [] {
      if activate(s.deque[0].obj).Checked? && !breaks(s.deque[0].obj) {
        FetchedKeepsThreads(Destroy(s.(deque := s.deque[1..]), s.deque[0].obj), activate, make, breaks);
      }
      LeftOfRest(r.deque, s.deque);
    }
  }

  lemma {:induction false} DrainedKeeps(s: State, breaks: Breaks)
    ensures var (r, threw) := Drained(s, breaks);
            r.threads == s.threads && r.made == s.made && Left(r.deque, s.deque) && (!threw ==> r.deque == [])
    decreases |s.deque|
  {
    if s.deque != [] {
      if !breaks(s.deque[0].obj) {
        DrainedKeeps(Destroy(s.(deque := s.deque[1..]), s.deque[0].obj), breaks);
      }
      LeftOfRest(Drained(s, breaks).0.deque, s.deque);
    }
  }

  // ---- The sweep stops at the first live entry; when that is enough ----

  predicate Expired(e: Entry, now: int) {
    e.expire <= now
  }

  function LiveOnly(deque: seq<Entry>, now: int): seq<Entry> {
    if deque == [] then []
    else
      var last := deque[|deque| - 1];
      LiveOnly(deque[..|deque| - 1], now) + if Expired(last, now) then [] else [last]
  }

  // No expired entry lies in front of a live one.
  predicate ExpiredLast(deque: seq<Entry>, now: int) {
    forall i, j :: 0 <= i < j < |deque| && Expired(deque[i], now) ==> Expired(deque[j], now)
  }

  predicate AllLive(deque: seq<Entry>, now: int) {
    forall i :: 0 <= i < |deque| ==> !Expired(deque[i], now)
  }

  lemma LiveToTheLast(deque: seq<Entry>, now: int)
    requires deque != []
    ensures AllLive(deque, now) <==> AllLive(deque[..|deque| - 1], now) && !Expired(deque[|deque| - 1], now)
  {
    if AllLive(deque[..|deque| - 1], now) && !Expired(deque[|deque| - 1], now) {
      forall i | 0 <= i < |deque| ensures !Expired(deque[i], now) {
        assert i < |deque| - 1 ==> deque[i] == deque[..|deque| - 1][i];
      }
    }
  }

  lemma {:induction false} LiveOnlyLength(deque: seq<Entry>, now: int)
    ensures |LiveOnly(deque, now)| <= |deque|
    ensures |LiveOnly(deque, now)| == |deque| <==> AllLive(deque, now)
    ensures AllLive(deque, now) ==> LiveOnly(deque, now) == deque
  {
    if deque != [] {
      LiveToTheLast(deque, now);
      LiveOnlyLength(deque[..|deque| - 1], now);
      assert deque == deque[..|deque| - 1] + [deque[|deque| - 1]];
    }
  }

  /** A sweep that ends normally keeps exactly the live entries if and only if the expired ones are all at the end. */
  lemma {:induction false} SweepIsFilter(s: State, now: int, breaks: Breaks)
    requires !Swept(s, now, breaks).1
    ensures Swept(s, now, breaks).0.deque == LiveOnly(s.deque, now) <==> ExpiredLast(s.deque, now)
    decreases |s.deque|
  {
    if s.deque != [] {
      var front, last := s.deque[..|s.deque| - 1], s.deque[|s.deque| - 1];
      assert s.deque == front + [last];
      if Expired(last, now) {
        SweepIsFilter(Destroy(s.(deque := front), last.obj), now, breaks);
        assert LiveOnly(s.deque, now) == LiveOnly(front, now);
        assert ExpiredLast(front, now) <==> ExpiredLast(s.deque, now);
      } else {
        LiveOnlyLength(s.deque, now);
        assert ExpiredLast(s.deque, now) <==> AllLive(s.deque, now);
      }
    }
  }

  /** What leaves the deque in a sweep is destroyed, and nothing else is. */
  lemma {:induction false} SweptAreDestroyed(s: State, now: int, breaks: Breaks, o: Obj)
    ensures var r := Swept(s, now, breaks).0;
            r.destroyed[o] + Idle(r.deque, o) == s.destroyed[o] + Idle(s.deque, o) && r.borrowed == s.borrowed && r.lost == s.lost
    decreases |s.deque|
  {
    if s.deque != [] && s.deque[|s.deque| - 1].expire <= now {
      var obj := s.deque[|s.deque| - 1].obj;
      IdleLast(s.deque, o);
      if !breaks(obj) {
        SweptAreDestroyed(Destroy(s.(deque := s.deque[..|s.deque| - 1]), obj), now, breaks, o);
      }
    }
  }

  // All entries from the i-th on have expired.
  predicate ExpiredFrom(deque: seq<Entry>, i: nat, now: int) {
    forall k :: i <= k < |deque| ==> Expired(deque[k], now)
  }

  lemma OneMoreExpired(deque: seq<Entry>, i: nat, now: int)
    requires deque != [] && Expired(deque[|deque| - 1], now) && ExpiredFrom(deque[..|deque| - 1], i, now)
    ensures ExpiredFrom(deque, i, now)
  {
    forall k | i <= k < |deque| ensures Expired(deque[k], now) {
      assert k < |deque| - 1 ==> deque[k] == deque[..|deque| - 1][k];
    }
  }

  /** However the sweep ends, only expired entries have left the deque. */
  lemma {:induction false} SweptWereExpired(s: State, now: int, breaks: Breaks)
    ensures Swept(s, now, breaks).0.deque <= s.deque && ExpiredFrom(s.deque, |Swept(s, now, breaks).0.deque|, now)
    decreases |s.deque|
  {
    if s.deque != [] && s.deque[|s.deque| - 1].expire <= now {
      var obj, front := s.deque[|s.deque| - 1].obj, s.deque[..|s.deque| - 1];
      if !breaks(obj) {
        SweptWereExpired(Destroy(s.(deque := front), obj), now, breaks);
      }
      OneMoreExpired(s.deque, |Swept(s, now, breaks).0.deque|, now);
    }
  }

  // Newest first, and nothing stamped later than `clock`.
  predicate NewestFirst(cfg: Config, deque: seq<Entry>, clock: int) {
    && (forall i, j :: 0 <= i < j < |deque| ==> deque[i].expire >= deque[j].expire)
    && (forall i :: 0 <= i < |deque| ==> deque[i].expire <= clock + cfg.timeout)
  }

  function ClockOf(c: Call, clock: int): int {
    match c
    case BorrowCall(now, _, _, _) => now
    case ReturnCall(_, now, _) => now
    case _ => clock
  }

  // A new end, a new beginning and a later clock leave the order as it is.
  lemma OrderOfPrefix(cfg: Config, deque: seq<Entry>, part: seq<Entry>, clock: int, now: int)
    requires NewestFirst(cfg, deque, clock) && clock <= now && part <= deque
    ensures NewestFirst(cfg, part, now)
  {
  }

  lemma OrderOfLeft(cfg: Config, deque: seq<Entry>, part: seq<Entry>, clock: int)
    requires NewestFirst(cfg, deque, clock) && Left(part, deque)
    ensures NewestFirst(cfg, part, clock)
  {
  }

  lemma BorrowKeepsOrder(cfg: Config, s: State, now: int, activate: Obj -> Outcome, make: Option<Obj>, breaks: Breaks, clock: int)
    requires NewestFirst(cfg, s.deque, clock) && clock <= now
    ensures NewestFirst(cfg, Borrowed(cfg, s, now, activate, make, breaks).0.deque, now)
  {
    var (swept, threw) := AfterSweep(cfg, s, now, breaks);
    SweptKeeps(s.(accessed := now), now, breaks);
    OrderOfPrefix(cfg, s.deque, swept.deque, clock, now);
    if !threw {
      FetchedKeepsThreads(swept, activate, make, breaks);
      OrderOfLeft(cfg, swept.deque, Fetched(swept, activate, make, breaks).0.deque, now);
    }
  }

  lemma ReturnKeepsOrder(cfg: Config, s: State, obj: Obj, now: int, passivate: Outcome, clock: int)
    requires NewestFirst(cfg, s.deque, clock) && clock <= now
    ensures NewestFirst(cfg, Returned(cfg, s, obj, now, passivate).deque, now)
  {
  }

  lemma CallKeepsOrder(cfg: Config, s: State, c: Call, clock: int)
    requires NewestFirst(cfg, s.deque, clock) && clock <= ClockOf(c, clock)
    ensures NewestFirst(cfg, Perform(cfg, s, c).deque, ClockOf(c, clock))
  {
    match c {
      case BorrowCall(now, activate, make, breaks) => BorrowKeepsOrder(cfg, s, now, activate, make, breaks, clock);
      case ReturnCall(obj, now, passivate) => ReturnKeepsOrder(cfg, s, obj, now, passivate, clock);
      case CloseCall(breaks) =>
        DrainedKeeps(s.(closed := true), breaks);
        OrderOfLeft(cfg, s.deque, Drained(s.(closed := true), breaks).0.deque, clock);
      case ReopenCall =>
    }
  }

  ghost predicate Monotone(calls: seq<Call>, clock: int)
    decreases |calls|
  {
    calls == [] || (clock <= ClockOf(calls[0], clock) && Monotone(calls[1..], ClockOf(calls[0], clock)))
  }

  ghost function PerformAll(cfg: Config, s: State, calls: seq<Call>): State
    decreases |calls|
  {
    if calls == [] then s else PerformAll(cfg, Perform(cfg, s, calls[0]), calls[1..])
  }

  function LastClock(calls: seq<Call>, clock: int): int
    decreases |calls|
  {
    if calls == [] then clock else LastClock(calls[1..], ClockOf(calls[0], clock))
  }

  lemma {:induction false} RunKeepsOrder(cfg: Config, s: State, calls: seq<Call>, clock: int)
    requires NewestFirst(cfg, s.deque, clock) && Monotone(calls, clock)
    ensures NewestFirst(cfg, PerformAll(cfg, s, calls).deque, LastClock(calls, clock))
    decreases |calls|
  {
    if calls != [] {
      CallKeepsOrder(cfg, s, calls[0], clock);
      RunKeepsOrder(cfg, Perform(cfg, s, calls[0]), calls[1..], ClockOf(calls[0], clock));
    }
  }

  /** After any calls under a clock that does not run backwards, a sweep that ends normally removes exactly the expired
      entries. */
  lemma SweepAfterRun(cfg: Config, s: State, calls: seq<Call>, clock: int, now: int, breaks: Breaks)
    requires s.deque == [] && Monotone(calls, clock) && !Swept(PerformAll(cfg, s, calls), now, breaks).1
    ensures var end := PerformAll(cfg, s, calls);
            Swept(end, now, breaks).0.deque == LiveOnly(end.deque, now)
  {
    RunKeepsOrder(cfg, s, calls, clock);
    SweepIsFilter(PerformAll(cfg, s, calls), now, breaks);
  }

  // ---- What a caller sees ----

  // How often o lies idle in an entry that has expired.
  function IdleExpired(deque: seq<Entry>, o: Obj, now: int): nat {
    if deque == [] then 0
    else (if deque[0].obj == o && Expired(deque[0], now) then 1 else 0) + IdleExpired(deque[1..], o, now)
  }

  lemma {:induction false} IdleExpiredInBoth(a: seq<Entry>, b: seq<Entry>, o: Obj, now: int)
    ensures IdleExpired(a + b, o, now) == IdleExpired(a, o, now) + IdleExpired(b, o, now)
    decreases |a|
  {
    if a == [] {
      assert a + b == b;
    } else {
      assert (a + b)[1..] == a[1..] + b;
      IdleExpiredInBoth(a[1..], b, o, now);
    }
  }

  lemma {:induction false} OnlyLiveStay(deque: seq<Entry>, o: Obj, now: int)
    ensures forall e <- LiveOnly(deque, now) :: e in deque && !Expired(e, now)
    ensures Idle(deque, o) == Idle(LiveOnly(deque, now), o) + IdleExpired(deque, o, now)
    decreases |deque|
  {
    if deque != [] {
      var front, last := deque[..|deque| - 1], deque[|deque| - 1];
      assert deque == front + [last];
      OnlyLiveStay(front, o, now);
      IdleLast(deque, o);
      IdleExpiredInBoth(front, [last], o, now);
      assert IdleExpired([last], o, now) == if last.obj == o && Expired(last, now) then 1 else 0;
      if Expired(last, now) {
        assert LiveOnly(deque, now) == LiveOnly(front, now);
      } else {
        IdleAppended(LiveOnly(front, now), last, o);
      }
    }
  }

  /** A sweep throws exactly if it comes to an expired entry that cannot be destroyed. */
  lemma {:induction false} SweepThrows(s: State, now: int, breaks: Breaks)
    ensures Swept(s, now, breaks).1 <==> exists i :: 0 <= i < |s.deque| && ExpiredFrom(s.deque, i, now) && breaks(s.deque[i].obj)
    decreases |s.deque|
  {
    if s.deque != [] {
      var n, front := |s.deque| - 1, s.deque[..|s.deque| - 1];
      if !Expired(s.deque[n], now) {
        assert forall i :: 0 <= i <= n ==> !ExpiredFrom(s.deque, i, now);
      } else if breaks(s.deque[n].obj) {
        assert ExpiredFrom(s.deque, n, now);
      } else {
        SweepThrows(Destroy(s.(deque := front), s.deque[n].obj), now, breaks);
        forall i | 0 <= i < n ensures ExpiredFrom(s.deque, i, now) <==> ExpiredFrom(front, i, now) {
          if ExpiredFrom(front, i, now) {
            OneMoreExpired(s.deque, i, now);
          } else {
            var k :| i <= k < n && !Expired(front[k], now);
            assert front[k] == s.deque[k];
          }
        }
      }
    }
  }

  /** close throws exactly if some idle object cannot be destroyed. */
  lemma {:induction false} CloseThrows(s: State, breaks: Breaks)
    ensures Drained(s, breaks).1 <==> exists e <- s.deque :: breaks(e.obj)
    decreases |s.deque|
  {
    if s.deque != [] {
      assert s.deque == [s.deque[0]] + s.deque[1..];
      if !breaks(s.deque[0].obj) {
        CloseThrows(Destroy(s.(deque := s.deque[1..]), s.deque[0].obj), breaks);
      }
    }
  }

  /** returnObject throws exactly if the object is lost, or is destroyed and that throws. */
  lemma ReturnThrowsIf(cfg: Config, s: State, obj: Obj, now: int, passivate: Outcome, breaks: Breaks)
    ensures var s' := Returned(cfg, s, obj, now, passivate);
            ReturnThrows(s, obj, passivate, breaks) <==> s'.lost != s.lost || (s'.destroyed != s.destroyed && breaks(obj))
  {
    assert (s.lost + multiset{obj})[obj] == s.lost[obj] + 1;
    assert (s.destroyed + multiset{obj})[obj] == s.destroyed[obj] + 1;
  }

  // What the part behind the sweep lends, and what it leaves alone.
  lemma {:induction false} FetchedLends(s: State, activate: Obj -> Outcome, make: Option<Obj>, breaks: Breaks, o: Obj)
    ensures var (s', r) := Fetched(s, activate, make, breaks);
            && s'.accessed == s.accessed && s'.destroyed[o] >= s.destroyed[o]
            && (!activate(o).Checked? ==> s'.destroyed[o] == s.destroyed[o])
            && s'.borrowed == (if r.Given? then s.borrowed + multiset{r.obj} else s.borrowed)
            && (r.Given? ==> (exists e <- s.deque :: e.obj == r.obj) || make == Some(r.obj))
    decreases |s.deque|
  {
    if s.deque != [] {
      var obj, taken := s.deque[0].obj, s.(deque := s.deque[1..]);
      assert s.deque[0] in s.deque;
      if activate(obj).Checked? && !breaks(obj) {
        FetchedLends(Destroy(taken, obj), activate, make, breaks, o);
      }
    }
  }

  /** A borrow gives an object exactly if it counts it as borrowed. */
  lemma BorrowedIfGiven(cfg: Config, s: State, now: int, activate: Obj -> Outcome, make: Option<Obj>, breaks: Breaks)
    ensures var (s', r) := Borrowed(cfg, s, now, activate, make, breaks);
            s'.borrowed == if r.Given? then s.borrowed + multiset{r.obj} else s.borrowed
  {
    var (swept, threw) := AfterSweep(cfg, s, now, breaks);
    SweptAreDestroyed(s.(accessed := now), now, breaks, 0);
    FetchedLends(swept, activate, make, breaks, 0);
  }

  // Destroying what has expired does not throw.
  ghost predicate ExpiredGoQuietly(deque: seq<Entry>, now: int, breaks: Breaks) {
    forall e <- deque :: Expired(e, now) ==> !breaks(e.obj)
  }

  lemma QuietSweep(s: State, now: int, breaks: Breaks)
    requires ExpiredGoQuietly(s.deque, now, breaks)
    ensures !Swept(s, now, breaks).1
  {
    SweepThrows(s, now, breaks);
  }

  // A sweep of a deque in order: all that has expired is destroyed, and only what lives stays.
  lemma DueSweep(cfg: Config, s: State, clock: int, now: int, breaks: Breaks, o: Obj)
    requires NewestFirst(cfg, s.deque, clock) && ExpiredGoQuietly(s.deque, now, breaks)
    ensures var (swept, threw) := Swept(s, now, breaks);
            && !threw && swept.accessed == s.accessed
            && (forall e <- swept.deque :: e in s.deque && now < e.expire)
            && swept.destroyed[o] == s.destroyed[o] + IdleExpired(s.deque, o, now)
  {
    QuietSweep(s, now, breaks);
    SweepIsFilter(s, now, breaks);
    SweptKeeps(s, now, breaks);
    OnlyLiveStay(s.deque, o, now);
    SweptAreDestroyed(s, now, breaks, o);
  }

  lemma SweptBorrow(cfg: Config, s: State, now: int, activate: Obj -> Outcome, make: Option<Obj>, breaks: Breaks, o: Obj)
    requires cfg.timeout > 0 && now > s.accessed + cfg.interval && !Swept(s.(accessed := now), now, breaks).1
    ensures var swept := Swept(s.(accessed := now), now, breaks).0;
            var (s', r) := Borrowed(cfg, s, now, activate, make, breaks);
            && s'.accessed == now && s'.destroyed[o] >= swept.destroyed[o]
            && (forall e <- s'.deque :: e in swept.deque)
            && (r.Given? ==> (exists e <- swept.deque :: e.obj == r.obj) || make == Some(r.obj))
  {
    var swept := Swept(s.(accessed := now), now, breaks).0;
    SweptKeeps(s.(accessed := now), now, breaks);
    FetchedKeepsThreads(swept, activate, make, breaks);
    FetchedLends(swept, activate, make, breaks, o);
  }

  /** A borrow that is due for a sweep, after any calls under a clock that does not run backwards: every expired entry is
      destroyed, and none lies idle afterwards or is lent. */
  lemma DueBorrowSweeps(cfg: Config, s: State, calls: seq<Call>, clock: int, now: int, activate: Obj -> Outcome, make: Option<Obj>,
        breaks: Breaks, o: Obj)
    requires s.deque == [] && Monotone(calls, clock)
    requires var end := PerformAll(cfg, s, calls);
             cfg.timeout > 0 && now > end.accessed + cfg.interval && ExpiredGoQuietly(end.deque, now, breaks)
    ensures var end := PerformAll(cfg, s, calls);
            var (s', r) := Borrowed(cfg, end, now, activate, make, breaks);
            && s'.accessed == now
            && (forall e <- s'.deque :: e in end.deque && now < e.expire)
            && s'.destroyed[o] >= end.destroyed[o] + IdleExpired(end.deque, o, now)
            && (r.Given? ==> (exists e <- end.deque :: e.obj == r.obj && now < e.expire) || make == Some(r.obj))
  {
    var end := PerformAll(cfg, s, calls);
    RunKeepsOrder(cfg, s, calls, clock);
    DueSweep(cfg, end.(accessed := now), LastClock(calls, clock), now, breaks, o);
    SweptBorrow(cfg, end, now, activate, make, breaks, o);
  }

  /** A borrow that is not due destroys nothing but what fails to be activated. */
  lemma OtherBorrowsSweepNothing(cfg: Config, s: State, now: int, activate: Obj -> Outcome, make: Option<Obj>, breaks: Breaks, o: Obj)
    requires cfg.timeout <= 0 || now <= s.accessed + cfg.interval
    ensures var s' := Borrowed(cfg, s, now, activate, make, breaks).0;
            && s'.accessed == s.accessed && s'.destroyed[o] >= s.destroyed[o]
            && (!activate(o).Checked? ==> s'.destroyed[o] == s.destroyed[o])
  {
    FetchedLends(s, activate, make, breaks, o);
  }
}
