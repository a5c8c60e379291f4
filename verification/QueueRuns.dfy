/** What whole runs of queue operations guarantee: contents, memory, and sharing after a clone. */
module QueueRuns {
  import opened Octets
  import opened ByteQueue

  // `Read` is a read of at most n bytes from the queue's input stream.
  datatype Op = Put(data: Bytes) | Take(n: nat) | Read(n: nat) | Clear | SetCapacity(capacity: nat)

  // What an operation gives its caller.
  datatype Output = Nothing | Got(data: Bytes) | EndOfStream

  // A caller may take no more than is queued.
  predicate Fits(length: nat, op: Op) {
    op.Take? ==> op.n <= length
  }

  function LengthAfter(length: nat, op: Op): nat
    requires Fits(length, op)
  {
    match op
    case Put(data) => length + |data|
    case Take(n) => length - n
    case Read(n) => length - Min(n, length)
    case Clear => 0
    case SetCapacity(_) => length
  }

  predicate Legal(length: nat, ops: seq<Op>)
    decreases |ops|
  {
    ops == [] || (Fits(length, ops[0]) && Legal(LengthAfter(length, ops[0]), ops[1..]))
  }

  // ---- The plain byte sequence the queue stands for ----

  function Apply(s: Bytes, op: Op): (r: Bytes)
    requires Fits(|s|, op)
    ensures |r| == LengthAfter(|s|, op)
  {
    match op
    case Put(data) => s + data
    case Take(n) => s[n..]
    case Read(n) => s[Min(n, |s|)..]
    case Clear => []
    case SetCapacity(_) => s
  }

  function OutputOf(s: Bytes, op: Op): Output
    requires Fits(|s|, op)
  {
    match op
    case Take(n) => Got(s[..n])
    case Read(n) => if s == [] then EndOfStream else Got(s[..Min(n, |s|)])
    case _ => Nothing
  }

  function DataOf(out: Output): Bytes {
    match out
    case Got(data) => data
    case _ => []
  }

  function Exec(s: Bytes, ops: seq<Op>): Bytes
    requires Legal(|s|, ops)
    decreases |ops|
  {
    if ops == [] then s else Exec(Apply(s, ops[0]), ops[1..])
  }

  function Outputs(s: Bytes, ops: seq<Op>): seq<Output>
    requires Legal(|s|, ops)
    decreases |ops|
  {
    if ops == [] then [] else [OutputOf(s, ops[0])] + Outputs(Apply(s, ops[0]), ops[1..])
  }

  // The bytes of the outputs, in order.
  function Data(outs: seq<Output>): Bytes {
    if outs == [] then [] else DataOf(outs[0]) + Data(outs[1..])
  }

  function Added(ops: seq<Op>): Bytes {
    if ops == [] then [] else AddedBy(ops[0]) + Added(ops[1..])
  }

  function AddedBy(op: Op): Bytes {
    if op.Put? then op.data else []
  }

  lemma StepConserves(s: Bytes, op: Op)
    requires Fits(|s|, op) && !op.Clear?
    ensures DataOf(OutputOf(s, op)) + Apply(s, op) == s + AddedBy(op)
  {
  }

  /** A read from the stream says so exactly when nothing is queued, and gives something whenever it can. */
  lemma ReadsMakeProgress(s: Bytes, n: nat)
    ensures OutputOf(s, Read(n)) == EndOfStream <==> s == []
    ensures s != [] && n > 0 ==> 0 < |DataOf(OutputOf(s, Read(n)))| <= n
  {
  }

  /** First in, first out, nothing lost and nothing invented, in every run that does not clear. */
  lemma {:induction false} Conservation(s: Bytes, ops: seq<Op>)
    requires Legal(|s|, ops) && forall op <- ops :: !op.Clear?
    ensures Data(Outputs(s, ops)) + Exec(s, ops) == s + Added(ops)
    decreases |ops|
  {
    if ops != [] {
      var next := Apply(s, ops[0]);
      assert ops[0] in ops;
      StepConserves(s, ops[0]);
      Conservation(next, ops[1..]);
      Regroup(DataOf(OutputOf(s, ops[0])), Data(Outputs(next, ops[1..])), Exec(next, ops[1..]),
              next, Added(ops[1..]), s, AddedBy(ops[0]));
    }
  }

  lemma Regroup(head: Bytes, taken: Bytes, left: Bytes, next: Bytes, added: Bytes, s: Bytes, put: Bytes)
    requires head + next == s + put && taken + left == next + added
    ensures (head + taken) + left == s + (put + added)
  {
    assert (head + taken) + left == head + (taken + left);
    assert head + (next + added) == (head + next) + added;
  }

  // ---- Memory: the array, and what growing it copies ----

  function Resized(s: Shape, op: Op): (r: Shape)
    requires s.Valid() && Fits(s.length, op)
    ensures r.Valid() && r.length == LengthAfter(s.length, op)
  {
    match op
    case Put(data) => s.Add(|data|)
    case Take(n) => s.Remove(n)
    case Read(n) => s.Read(n)
    case Clear => s.Clear()
    case SetCapacity(capacity) => s.SetCapacity(capacity)
  }

  function Copies(s: Shape, op: Op): nat {
    if op.Put? then s.Copies(|op.data|) else 0
  }

  function FinalShape(s: Shape, ops: seq<Op>): (r: Shape)
    requires s.Valid() && Legal(s.length, ops)
    ensures r.Valid()
    decreases |ops|
  {
    if ops == [] then s else FinalShape(Resized(s, ops[0]), ops[1..])
  }

  function Copied(s: Shape, ops: seq<Op>): nat
    requires s.Valid() && Legal(s.length, ops)
    decreases |ops|
  {
    if ops == [] then 0 else Copies(s, ops[0]) + Copied(Resized(s, ops[0]), ops[1..])
  }

  // The most that is queued at any time.
  function Peak(length: nat, ops: seq<Op>): nat
    requires Legal(length, ops)
    decreases |ops|
  {
    if ops == [] then length else Max(length, Peak(LengthAfter(length, ops[0]), ops[1..]))
  }

  lemma OneResize(s: Shape, op: Op)
    requires s.Valid() && Fits(s.length, op) && !op.SetCapacity?
    ensures Resized(s, op).capacity <= Max(s.capacity, Max(32, 2 * LengthAfter(s.length, op)))
  {
  }

  lemma {:induction false} CapacityBound(s: Shape, ops: seq<Op>)
    requires s.Valid() && Legal(s.length, ops) && forall op <- ops :: !op.SetCapacity?
    ensures FinalShape(s, ops).capacity <= Max(s.capacity, Max(32, 2 * Peak(s.length, ops)))
    ensures s.length <= Peak(s.length, ops)
    decreases |ops|
  {
    if ops != [] {
      assert ops[0] in ops;
      OneResize(s, ops[0]);
      CapacityBound(Resized(s, ops[0]), ops[1..]);
    }
  }

  /** The array is replaced only if what it is to hold does not fit, and the contents move only if they have to. */
  lemma MovesOnlyIfNeeded(s: Shape, n: nat)
    requires s.Valid()
    ensures s.Add(n).capacity == s.capacity <==> s.length + n <= s.capacity
    ensures s.offset + s.length + n <= s.capacity ==> s.Add(n).offset == s.offset
    ensures s.offset + s.length + n > s.capacity ==> s.Add(n).offset == 0
    ensures s.Copies(n) == if s.Add(n).capacity == s.capacity then 0 else s.length
  {
  }

  /** An array of more than 1024 bytes is given up for one of 32, used from its start, exactly when the queue is emptied;
      reading at the end of the stream changes nothing. */
  lemma EmptiedIsSmall(s: Shape, op: Op)
    requires s.Valid() && Fits(s.length, op) && (op.Take? || op.Clear? || op.Read?)
    ensures var r := Resized(s, op);
            if op.Read? && s.length == 0 then r == s
            else if s.capacity > 1024 && LengthAfter(s.length, op) == 0 then r.capacity == 32 && r.offset == 0
            else r.capacity == s.capacity
  {
  }

  /** setCapacity gives the array asked for, or one that is just long enough. */
  lemma CapacityAsAsked(s: Shape, capacity: nat)
    requires s.Valid()
    ensures var r := Resized(s, SetCapacity(capacity));
            r.capacity >= capacity && r.capacity >= s.length && (r.capacity == capacity || r.capacity == s.length) && r.offset == 0
  {
  }

  predicate OnlyPuts(ops: seq<Op>) {
    forall op <- ops :: op.Put?
  }

  // `paid` bytes were copied before: never more than the array grew, and less than twice what is queued.
  lemma {:induction false} AmortisedFrom(s: Shape, ops: seq<Op>, paid: nat)
    requires s.Valid() && s.offset == 0 && Legal(s.length, ops) && OnlyPuts(ops)
    requires paid <= s.capacity && (paid == 0 || paid < 2 * s.length)
    ensures paid + Copied(s, ops) == 0 || paid + Copied(s, ops) < 2 * (s.length + |Added(ops)|)
    decreases |ops|
  {
    if ops != [] {
      assert ops[0] in ops;
      AmortisedFrom(Resized(s, ops[0]), ops[1..], paid + Copies(s, ops[0]));
    }
  }

  lemma {:induction false} AmortisedGrowth(capacity: nat, ops: seq<Op>)
    requires Legal(0, ops) && OnlyPuts(ops)
    ensures Copied(Shape(capacity, 0, 0), ops) == 0 || Copied(Shape(capacity, 0, 0), ops) < 2 * |Added(ops)|
  {
    AmortisedFrom(Shape(capacity, 0, 0), ops, 0);
  }

  // ---- Runs of the real queue ----

  // What a run can see of a queue.
  datatype View = View(contents: Bytes, shape: Shape, copied: nat) {
    ghost predicate Valid() {
      shape.Valid() && |contents| == shape.length
    }
  }

  ghost function ViewOf(q: ByteArrayQueue): (v: View)
    requires q.Valid()
    reads q, q.buf
    ensures v.Valid()
  {
    View(q.Contents(), q.GetShape(), q.copied)
  }

  ghost function After(v: View, op: Op): (r: View)
    requires v.Valid() && Fits(|v.contents|, op)
    ensures r.Valid()
  {
    View(Apply(v.contents, op), Resized(v.shape, op), v.copied + Copies(v.shape, op))
  }

  ghost function AfterAll(v: View, ops: seq<Op>): View
    requires v.Valid() && Legal(|v.contents|, ops)
  {
    View(Exec(v.contents, ops), FinalShape(v.shape, ops), v.copied + Copied(v.shape, ops))
  }

  method Step(q: ByteArrayQueue, op: Op) returns (out: Output)
    requires q.Valid() && Fits(q.length, op)
    modifies q, q.buf
    ensures q.Valid() && (q.buf == old(q.buf) || fresh(q.buf))
    ensures ViewOf(q) == After(old(ViewOf(q)), op)
    ensures out == OutputOf(old(q.Contents()), op)
  {
    out := Nothing;
    match op
    case Put(data) => q.AddAll(data);
    case Take(n) => out := TakeExactly(q, n);
    case Read(n) => out := ReadUpTo(q, n);
    case Clear => q.Clear();
    case SetCapacity(capacity) => q.SetCapacity(capacity);
  }

  method TakeExactly(q: ByteArrayQueue, n: nat) returns (out: Output)
    requires q.Valid() && n <= q.length
    modifies q`buf, q`offset, q`length
    ensures q.Valid() && (q.buf == old(q.buf) || fresh(q.buf))
    ensures ViewOf(q) == After(old(ViewOf(q)), Take(n)) && out == OutputOf(old(q.Contents()), Take(n))
  {
    var b := new Byte[n](_ => 0);
    ghost var first := q.Contents()[..n];
    OverwriteAll(b[..], first);
    q.Remove(b, 0, n);
    return Got(b[..]);
  }

  lemma OverwriteAll(s: Bytes, data: Bytes)
    requires |s| == |data|
    ensures Overwrite(s, 0, data) == data
  {
  }

  lemma SplitAt(a: Bytes, b: Bytes, all: Bytes)
    requires a + b == all
    ensures |a| <= |all| && a == all[..|a|] && b == all[|a|..]
  {
  }

  method ReadUpTo(q: ByteArrayQueue, n: nat) returns (out: Output)
    requires q.Valid()
    modifies q`buf, q`offset, q`length
    ensures q.Valid() && (q.buf == old(q.buf) || fresh(q.buf))
    ensures ViewOf(q) == After(old(ViewOf(q)), Read(n)) && out == OutputOf(old(q.Contents()), Read(n))
  {
    var b := new Byte[n](_ => 0);
    ghost var all := q.Contents();
    var count := q.ReadSome(b);
    if count < 0 {
      return EndOfStream;
    }
    SplitAt(b[..count], q.Contents(), all);
    return Got(b[..count]);
  }

  // A run from `start` that has come to `v`, with `outs` given out and `ops` still to do.
  ghost predicate InRun(start: View, all: seq<Op>, v: View, outs: seq<Output>, ops: seq<Op>)
    requires start.Valid() && Legal(|start.contents|, all)
  {
    && v.Valid() && Legal(|v.contents|, ops) && AfterAll(v, ops) == AfterAll(start, all)
    && outs + Outputs(v.contents, ops) == Outputs(start.contents, all)
  }

  lemma InRunStep(start: View, all: seq<Op>, v: View, outs: seq<Output>, ops: seq<Op>)
    requires start.Valid() && Legal(|start.contents|, all) && ops != [] && InRun(start, all, v, outs, ops)
    ensures Fits(|v.contents|, ops[0])
    ensures InRun(start, all, After(v, ops[0]), outs + [OutputOf(v.contents, ops[0])], ops[1..])
  {
    var out, more := [OutputOf(v.contents, ops[0])], Outputs(Apply(v.contents, ops[0]), ops[1..]);
    assert outs + (out + more) == outs + out + more;
  }

  method RunOps(q: ByteArrayQueue, ops: seq<Op>) returns (outs: seq<Output>)
    requires q.Valid() && Legal(q.length, ops)
    modifies q, q.buf
    ensures q.Valid() && (q.buf == old(q.buf) || fresh(q.buf))
    ensures ViewOf(q) == AfterAll(old(ViewOf(q)), ops)
    ensures outs == Outputs(old(q.Contents()), ops)
  {
    outs := [];
    ghost var start := ViewOf(q);
    for i := 0 to |ops|
      invariant q.Valid() && (q.buf == old(q.buf) || fresh(q.buf))
      invariant InRun(start, ops, ViewOf(q), outs, ops[i..])
    {
      InRunStep(start, ops, ViewOf(q), outs, ops[i..]);
      assert ops[i..][1..] == ops[i + 1..];
      var out := Step(q, ops[i]);
      outs := outs + [out];
    }
  }

  /** Refinement: through growth, compaction and release the queue behaves as the plain sequence. Unless setCapacity is
      called, its array stays within the initial size, 32 and twice the peak length; and in an add-only run of an empty
      queue growing copies less than twice the bytes added. */
  method Run(q: ByteArrayQueue, ops: seq<Op>) returns (outs: seq<Output>)
    requires q.Valid() && Legal(q.length, ops)
    modifies q, q.buf
    ensures q.Valid() && (q.buf == old(q.buf) || fresh(q.buf))
    ensures q.Contents() == Exec(old(q.Contents()), ops) && outs == Outputs(old(q.Contents()), ops)
    ensures (forall op <- ops :: !op.SetCapacity?) ==>
              q.buf.Length <= Max(old(q.buf.Length), Max(32, 2 * Peak(old(q.length), ops)))
    ensures OnlyPuts(ops) && old(q.length) == old(q.offset) == 0 ==>
              q.copied == old(q.copied) || q.copied - old(q.copied) < 2 * |Added(ops)|
  {
    ghost var start := q.GetShape();
    if forall op <- ops :: !op.SetCapacity? {
      CapacityBound(start, ops);
    }
    if OnlyPuts(ops) && q.length == q.offset == 0 {
      AmortisedGrowth(start.capacity, ops);
    }
    outs := RunOps(q, ops);
    assert ViewOf(q).shape == FinalShape(start, ops);
  }

  // ---- Clones ----

  // What the first n takes remove from one of the two copies.
  function TakenFrom(takes: seq<(bool, nat)>, n: nat, mine: bool): nat
    requires n <= |takes|
  {
    if n == 0 then 0 else TakenFrom(takes, n - 1, mine) + if takes[n - 1].0 == mine then takes[n - 1].1 else 0
  }

  lemma {:induction false} TakenFromMonotone(takes: seq<(bool, nat)>, i: nat, n: nat, mine: bool)
    requires i <= n <= |takes|
    ensures TakenFrom(takes, i, mine) <= TakenFrom(takes, n, mine)
    decreases n
  {
    if i < n {
      TakenFromMonotone(takes, i, n - 1, mine);
    }
  }

  // Each copy has lost the takes meant for it.
  ghost predicate Taking(q: ByteArrayQueue, c: ByteArrayQueue, takes: seq<(bool, nat)>, i: nat, all: Bytes)
    requires i <= |takes|
    reads q, c, q.buf, c.buf
  {
    var ours, theirs := TakenFrom(takes, i, true), TakenFrom(takes, i, false);
    && q.Valid() && c.Valid() && ours <= |all| && theirs <= |all|
    && q.Contents() == all[ours..] && c.Contents() == all[theirs..]
  }

  // The first n takes ask neither copy for more than it holds.
  predicate TakesFit(takes: seq<(bool, nat)>, n: nat, length: nat)
    requires n <= |takes|
  {
    TakenFrom(takes, n, true) <= length && TakenFrom(takes, n, false) <= length
  }

  lemma NextTakeFits(takes: seq<(bool, nat)>, i: nat, length: nat)
    requires i < |takes| && TakesFit(takes, |takes|, length)
    ensures TakesFit(takes, i + 1, length)
  {
    TakenFromMonotone(takes, i + 1, |takes|, true);
    TakenFromMonotone(takes, i + 1, |takes|, false);
  }

  method TakeTurn(q: ByteArrayQueue, c: ByteArrayQueue, takes: seq<(bool, nat)>, i: nat, ghost all: Bytes)
    requires q != c && i < |takes| && Taking(q, c, takes, i, all)
    requires TakesFit(takes, i + 1, |all|)
    modifies if takes[i].0 then q else c
    ensures Taking(q, c, takes, i + 1, all)
  {
    ghost var lost := TakenFrom(takes, i, takes[i].0);
    assert all[lost..][takes[i].1..] == all[lost + takes[i].1..];
    if takes[i].0 {
      q.RemoveCount(takes[i].1);
    } else {
      c.RemoveCount(takes[i].1);
    }
  }

  /** However removes on a queue and on its clone interleave, each loses exactly what was removed from it. */
  method TakeFromClones(q: ByteArrayQueue, takes: seq<(bool, nat)>) returns (c: ByteArrayQueue)
    requires q.Valid() && TakesFit(takes, |takes|, q.length)
    modifies q
    ensures q.Valid() && c.Valid()
    ensures q.Contents() == old(q.Contents())[TakenFrom(takes, |takes|, true)..]
    ensures c.Contents() == old(q.Contents())[TakenFrom(takes, |takes|, false)..]
  {
    c := q.Clone();
    ghost var all := q.Contents();
    for i := 0 to |takes|
      invariant fresh(c) && Taking(q, c, takes, i, all)
    {
      NextTakeFits(takes, i, |all|);
      TakeTurn(q, c, takes, i, all);
    }
  }

  // An add to a queue of shape s with contents `mine`, over an array it shares: where it writes, and what.
  function WritesAt(s: Shape, n: nat): nat {
    if s.Compacts(n) then 0 else s.offset + s.length
  }

  function Writes(s: Shape, mine: Bytes, data: Bytes): Bytes {
    if s.Compacts(|data|) then mine + data else data
  }

  // What the shared array then holds.
  function SharedAfter(was: Bytes, s: Shape, mine: Bytes, data: Bytes): (now: Bytes)
    requires |was| == s.capacity && s.Valid() && |mine| == s.length
    ensures |now| == |was|
  {
    if s.Grows(|data|) then was else Overwrite(was, WritesAt(s, |data|), Writes(s, mine, data))
  }

  // `written` at `at` says what was there before, as far as it reaches into from..end.
  predicate Repeats(was: Bytes, at: nat, written: Bytes, from: nat, end: nat)
    requires at + |written| <= |was|
  {
    forall k :: Max(from, at) <= k < Min(end, at + |written|) ==> written[k - at] == was[k]
  }

  // It leaves the bytes from..end of the shared array as they are: it gets an array of its own, or where it writes among
  // them it writes what is there already.
  predicate Harmless(was: Bytes, s: Shape, mine: Bytes, data: Bytes, from: nat, end: nat)
    requires from <= end <= |was| == s.capacity && s.Valid() && |mine| == s.length
  {
    var harmless := s.Grows(|data|) || Repeats(was, WritesAt(s, |data|), Writes(s, mine, data), from, end);
    harmless
  }

  lemma OverwriteKeeps(was: Bytes, at: nat, written: Bytes, from: nat, end: nat)
    requires at + |written| <= |was| && from <= end <= |was|
    ensures Overwrite(was, at, written)[from..end] == was[from..end] <==> Repeats(was, at, written, from, end)
  {
    var now := Overwrite(was, at, written);
    if now[from..end] == was[from..end] {
      forall k | Max(from, at) <= k < Min(end, at + |written|) ensures written[k - at] == was[k] {
        assert now[from..end][k - from] == was[from..end][k - from];
      }
    }
  }

  lemma HarmlessKeeps(was: Bytes, s: Shape, mine: Bytes, data: Bytes, from: nat, end: nat)
    requires from <= end <= |was| == s.capacity && s.Valid() && |mine| == s.length
    ensures SharedAfter(was, s, mine, data)[from..end] == was[from..end] <==> Harmless(was, s, mine, data, from, end)
  {
    if !s.Grows(|data|) {
      OverwriteKeeps(was, WritesAt(s, |data|), Writes(s, mine, data), from, end);
    }
  }

  method AddShared(c: ByteArrayQueue, b: array<Byte>)
    requires c.Valid() && b != c.buf
    modifies c, c.buf
    ensures c.Valid() && c.Contents() == old(c.Contents()) + old(b[..])
    ensures old(c.buf)[..] == SharedAfter(old(c.buf[..]), old(c.GetShape()), old(c.Contents()), old(b[..]))
  {
    assert b[0..b.Length] == b[..];
    c.Add(b, 0, b.Length);
  }

  /** Adds are not private: the other copy keeps its contents exactly if the add is harmless. */
  method AddToClone(q: ByteArrayQueue, c: ByteArrayQueue, b: array<Byte>)
    requires q.Valid() && c.Valid() && q != c && q.buf == c.buf && b != c.buf
    modifies c, c.buf
    ensures q.Valid() && c.Valid() && c.Contents() == old(c.Contents()) + old(b[..])
    ensures q.buf[..] == SharedAfter(old(q.buf[..]), old(c.GetShape()), old(c.Contents()), old(b[..]))
    ensures q.Contents() == old(q.Contents())
        <==> Harmless(old(q.buf[..]), old(c.GetShape()), old(c.Contents()), old(b[..]), q.offset, q.offset + q.length)
  {
    ghost var from, end := q.offset, q.offset + q.length;
    ghost var all, s, mine, data := q.buf[..], c.GetShape(), c.Contents(), b[..];
    SliceOfAll(q.buf, from, end);
    HarmlessKeeps(all, s, mine, data, from, end);
    AddShared(c, b);
    assert q.buf[..] == SharedAfter(all, s, mine, data);
    SliceOfAll(q.buf, from, end);
  }

  /** The first add after a clone changes the original only if it compacts. */
  lemma FirstAddIsHarmless(was: Bytes, s: Shape, mine: Bytes, data: Bytes)
    requires |was| == s.capacity && s.Valid() && |mine| == s.length && !s.Compacts(|data|)
    ensures Harmless(was, s, mine, data, s.offset, s.offset + s.length)
  {
  }

  /** With both copies adding, the second add overwrites what the first one added. */
  method ClonesOverwriteEachOther(q: ByteArrayQueue) returns (c: ByteArrayQueue)
    requires q.Valid() && q.offset == 0 && q.buf.Length >= 2 && q.Contents() == [1]
    modifies q, q.buf
    ensures q.Valid() && q.Contents() == [1, 3]
  {
    c := q.Clone();
    var two := new Byte[1](_ => 2);
    q.Add(two, 0, 1);
    var three := new Byte[1](_ => 3);
    assert three[..] == [3];
    AddToClone(q, c, three);
    assert q.buf[..2] == [1, 3];
  }

  /** Even the first add changes the original when it compacts the array they share. */
  method CompactionMovesTheClone(q: ByteArrayQueue) returns (c: ByteArrayQueue)
    requires q.Valid() && q.offset == 1 && q.buf.Length == 3 && q.Contents() == [1, 2]
    modifies q.buf
    ensures q.Valid() && q.Contents() == [2, 3]
  {
    c := q.Clone();
    var three := new Byte[1](_ => 3);
    assert three[..] == [3];
    AddToClone(q, c, three);
    assert q.buf[..] == [1, 2, 3];
    assert q.buf[1..3] == [2, 3];
  }
}
