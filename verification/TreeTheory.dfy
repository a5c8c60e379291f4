/** Nodes that name their parents: who is below whom. */
module TreeTheory {
  import opened Options

  type Key = int

  datatype Rec = Rec(id: Key, parent: Option<Key>)

  predicate UniqueIds(recs: seq<Rec>) {
    forall i, j :: 0 <= i < |recs| && 0 <= j < |recs| && recs[i].id == recs[j].id ==> i == j
  }

  // Each record on the path names the one before it as its parent; the first names a.
  predicate Path(recs: seq<Rec>, a: Key, p: seq<nat>) {
    && p != [] && (forall i :: 0 <= i < |p| ==> p[i] < |recs|)
    && recs[p[0]].parent == Some(a)
    && forall i :: 0 < i < |p| ==> recs[p[i]].parent == Some(recs[p[i - 1]].id)
  }

  ghost predicate Below(recs: seq<Rec>, a: Key, x: nat) {
    exists p: seq<nat> :: Path(recs, a, p) && p[|p| - 1] == x
  }

  // The ids of a's proper descendants.
  ghost function Descendants(recs: seq<Rec>, a: Key): set<Key> {
    set x | 0 <= x < |recs| && Below(recs, a, x) :: recs[x].id
  }

  ghost function Region(recs: seq<Rec>, a: Key): set<Key> {
    {a} + Descendants(recs, a)
  }

  predicate IsChild(recs: seq<Rec>, a: Key, x: nat) {
    x < |recs| && recs[x].parent == Some(a)
  }

  lemma ChildBelow(recs: seq<Rec>, a: Key, c: nat)
    requires IsChild(recs, a, c)
    ensures Below(recs, a, c) && recs[c].id in Descendants(recs, a)
  {
    assert Path(recs, a, [c]) && [c][|[c]| - 1] == c;
  }

  // Going down one more step.
  lemma BelowStep(recs: seq<Rec>, a: Key, x: nat, y: nat)
    requires x < |recs| && Below(recs, a, x) && IsChild(recs, recs[x].id, y)
    ensures Below(recs, a, y)
  {
    var p: seq<nat> :| Path(recs, a, p) && p[|p| - 1] == x;
    var q := p + [y];
    assert Path(recs, a, q) && q[|q| - 1] == y;
  }

  // Going up one step.
  lemma BelowParent(recs: seq<Rec>, a: Key, x: nat) returns (y: nat)
    requires Below(recs, a, x)
    ensures x < |recs| && (recs[x].parent == Some(a) || (y < |recs| && Below(recs, a, y) && IsChild(recs, recs[y].id, x)))
  {
    var p: seq<nat> :| Path(recs, a, p) && p[|p| - 1] == x;
    y := 0;
    if |p| > 1 {
      y := p[|p| - 2];
      var q := p[..|p| - 1];
      assert Path(recs, a, q) && q[|q| - 1] == y;
    }
  }

  // Below a child is below the parent.
  lemma BelowChild(recs: seq<Rec>, a: Key, c: nat, x: nat)
    requires IsChild(recs, a, c) && Below(recs, recs[c].id, x)
    ensures Below(recs, a, x)
  {
    var p: seq<nat> :| Path(recs, recs[c].id, p) && p[|p| - 1] == x;
    var q := [c] + p;
    assert Path(recs, a, q) && q[|q| - 1] == x;
  }

  // What is below a is a child or below one.
  lemma BelowIsUnderAChild(recs: seq<Rec>, a: Key, x: nat) returns (c: nat)
    requires Below(recs, a, x)
    ensures IsChild(recs, a, c) && (x == c || Below(recs, recs[c].id, x))
  {
    var p: seq<nat> :| Path(recs, a, p) && p[|p| - 1] == x;
    c := p[0];
    if |p| > 1 {
      var q := p[1..];
      assert Path(recs, recs[c].id, q) && q[|q| - 1] == x;
    }
  }

  // A record is a descendant exactly if its parent is in the region.
  lemma DescendantByParent(recs: seq<Rec>, a: Key, x: nat)
    requires UniqueIds(recs) && x < |recs|
    ensures recs[x].id in Descendants(recs, a) <==> recs[x].parent.Some? && recs[x].parent.value in Region(recs, a)
  {
    if recs[x].id in Descendants(recs, a) {
      var z :| 0 <= z < |recs| && Below(recs, a, z) && recs[z].id == recs[x].id;
      var y := BelowParent(recs, a, x);
    } else if recs[x].parent.Some? && recs[x].parent.value in Region(recs, a) {
      if recs[x].parent.value == a {
        ChildBelow(recs, a, x);
      } else {
        var y :| 0 <= y < |recs| && Below(recs, a, y) && recs[y].id == recs[x].parent.value;
        BelowStep(recs, a, y, x);
      }
    }
  }

  ghost predicate Acyclic(recs: seq<Rec>, a: Key) {
    a !in Descendants(recs, a)
  }

  /** If a node is not its own descendant, neither is a child of it, and the child's region is smaller. */
  lemma ChildAcyclic(recs: seq<Rec>, a: Key, c: nat)
    requires UniqueIds(recs) && Acyclic(recs, a) && IsChild(recs, a, c)
    ensures Acyclic(recs, recs[c].id) && a !in Region(recs, recs[c].id)
    ensures Region(recs, recs[c].id) <= Descendants(recs, a)
    ensures Descendants(recs, recs[c].id) < Descendants(recs, a)
  {
    var k := recs[c].id;
    ChildBelow(recs, a, c);
    forall x | 0 <= x < |recs| && Below(recs, k, x) ensures Below(recs, a, x) {
      BelowChild(recs, a, c, x);
    }
    if k in Descendants(recs, k) {
      DescendantByParent(recs, k, c);
    }
  }

  /** Different children have nothing below them in common. */
  lemma SiblingsApart(recs: seq<Rec>, a: Key, c: nat, d: nat)
    requires UniqueIds(recs) && Acyclic(recs, a) && IsChild(recs, a, c) && IsChild(recs, a, d) && c != d
    ensures Region(recs, recs[c].id) !! Region(recs, recs[d].id)
  {
    forall k | k in Region(recs, recs[c].id) && k in Region(recs, recs[d].id) ensures false {
      ChildAcyclic(recs, a, c);
      ChildAcyclic(recs, a, d);
      if k == recs[d].id {
        NotUnderSibling(recs, a, c, d);
      } else {
        var x :| 0 <= x < |recs| && Below(recs, recs[d].id, x) && recs[x].id == k;
        var p: seq<nat> :| Path(recs, recs[d].id, p) && p[|p| - 1] == x;
        ClimbToSibling(recs, a, c, d, p);
      }
    }
  }

  lemma NotUnderSibling(recs: seq<Rec>, a: Key, c: nat, d: nat)
    requires UniqueIds(recs) && Acyclic(recs, a) && IsChild(recs, a, c) && IsChild(recs, a, d) && c != d
    ensures recs[d].id !in Region(recs, recs[c].id)
  {
    ChildAcyclic(recs, a, c);
    DescendantByParent(recs, recs[c].id, d);
  }

  // No node on a path down from d is in c's region: climbing the path, its parent would be in it too, up to d.
  lemma {:induction false} ClimbToSibling(recs: seq<Rec>, a: Key, c: nat, d: nat, p: seq<nat>)
    requires UniqueIds(recs) && Acyclic(recs, a) && IsChild(recs, a, c) && IsChild(recs, a, d) && c != d
    requires Path(recs, recs[d].id, p)
    ensures recs[p[|p| - 1]].id !in Region(recs, recs[c].id)
    decreases |p|
  {
    var x, k := p[|p| - 1], recs[c].id;
    ChildAcyclic(recs, a, d);
    assert Below(recs, recs[d].id, x);
    if recs[x].id == k {
      // then x is c, whose parent is a
      BelowChild(recs, a, d, x);
      var y := BelowParent(recs, recs[d].id, x);
    }
    if recs[x].id in Region(recs, k) {
      DescendantByParent(recs, k, x);
      NotUnderSibling(recs, a, c, d);
      if |p| > 1 {
        ClimbToSibling(recs, a, c, d, p[..|p| - 1]);
      }
    }
  }
}
