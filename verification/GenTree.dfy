/** genTree: a list of nodes that name their parents becomes a linked tree, in place. */
module GenTree {
  import opened Options
  import opened TreeTheory

  class TreeNode {
    const id: Key
    const parentId: Option<Key>
    var parent: TreeNode?
    var sub: Option<seq<TreeNode>>  // the child list, None while it is null

    constructor (id: Key, parentId: Option<Key>)
      ensures this.id == id && this.parentId == parentId && parent == null && sub == None
    {
      this.id, this.parentId, parent, sub := id, parentId, null, None;
    }
  }

  class NodeMap {
    var m: map<Key, TreeNode>

    constructor ()
      ensures m == map[]
    {
      m := map[];
    }
  }

  // The comparator of the child lists, as "not after", on the keys of the nodes.
  type Order = Option<(Key, Key) -> bool>

  function Recs(nodes: seq<TreeNode>): seq<Rec> {
    seq(|nodes|, i requires 0 <= i < |nodes| => Rec(nodes[i].id, nodes[i].parentId))
  }

  // The first n nodes that name a, in list order.
  function ChildrenAmong(nodes: seq<TreeNode>, a: Key, n: nat): (r: seq<TreeNode>)
    requires n <= |nodes|
    ensures forall x <- r :: x in nodes[..n] && x in nodes && x.parentId == Some(a)
    ensures forall x <- nodes[..n] :: x.parentId == Some(a) ==> x in r
  {
    assert n > 0 ==> nodes[..n] == nodes[..n - 1] + [nodes[n - 1]];
    if n == 0 then []
    else if nodes[n - 1].parentId == Some(a) then ChildrenAmong(nodes, a, n - 1) + [nodes[n - 1]]
    else ChildrenAmong(nodes, a, n - 1)
  }

  function Children(nodes: seq<TreeNode>, a: Key): seq<TreeNode> {
    ChildrenAmong(nodes, a, |nodes|)
  }

  // ---- Collections.sort: a stable sort ----

  function Insert(leq: (Key, Key) -> bool, s: seq<TreeNode>, x: TreeNode): (r: seq<TreeNode>)
    ensures |r| == |s| + 1
    ensures multiset(r) == multiset(s) + multiset{x}
  {
    if s == [] || leq(s[|s| - 1].id, x.id) then s + [x]
    else
      assert s == s[..|s| - 1] + [s[|s| - 1]];
      Insert(leq, s[..|s| - 1], x) + [s[|s| - 1]]
  }

  function SortBy(leq: (Key, Key) -> bool, s: seq<TreeNode>): (r: seq<TreeNode>)
    ensures |r| == |s|
    ensures multiset(r) == multiset(s)
  {
    if s == [] then []
    else
      assert s == s[..|s| - 1] + [s[|s| - 1]];
      Insert(leq, SortBy(leq, s[..|s| - 1]), s[|s| - 1])
  }

  function Arranged(order: Order, s: seq<TreeNode>): (r: seq<TreeNode>)
    ensures |r| == |s|
    ensures multiset(r) == multiset(s)
    ensures forall x <- r :: x in s
    ensures forall x <- s :: x in r
  {
    var r := match order case None => s case Some(leq) => SortBy(leq, s);
    assert forall x <- r :: x in multiset(r);
    assert forall x <- s :: x in multiset(s);
    r
  }

  ghost predicate TotalPreorder(leq: (Key, Key) -> bool) {
    && (forall a, b :: leq(a, b) || leq(b, a))
    && (forall a, b, c :: leq(a, b) && leq(b, c) ==> leq(a, c))
  }

  predicate SortedBy(leq: (Key, Key) -> bool, s: seq<TreeNode>) {
    forall i, j :: 0 <= i < j < |s| ==> leq(s[i].id, s[j].id)
  }

  lemma {:induction false} InsertSorted(leq: (Key, Key) -> bool, s: seq<TreeNode>, x: TreeNode)
    requires TotalPreorder(leq) && SortedBy(leq, s)
    ensures SortedBy(leq, Insert(leq, s, x))
    decreases |s|
  {
    if s != [] && !leq(s[|s| - 1].id, x.id) {
      var front, last := s[..|s| - 1], s[|s| - 1];
      InsertSorted(leq, front, x);
      forall e <- Insert(leq, front, x) ensures leq(e.id, last.id) {
        assert e in multiset(front) + multiset{x};
        assert e in front || e == x;
      }
    } else if s != [] {
      assert forall i :: 0 <= i < |s| ==> leq(s[i].id, x.id);
    }
  }

  /** With a comparator, the child lists are sorted. */
  lemma {:induction false} SortBySorts(leq: (Key, Key) -> bool, s: seq<TreeNode>)
    requires TotalPreorder(leq)
    ensures SortedBy(leq, SortBy(leq, s))
    decreases |s|
  {
    if s != [] {
      SortBySorts(leq, s[..|s| - 1]);
      InsertSorted(leq, SortBy(leq, s[..|s| - 1]), s[|s| - 1]);
    }
  }

  // ---- The order of the child lists, told by the places of the nodes in the list of all nodes ----

  // Each element comes from a place of its own, where a node names a as its parent.
  ghost predicate From(nodes: seq<TreeNode>, a: Key, list: seq<TreeNode>, at: seq<nat>) {
    && |at| == |list|
    && (forall i :: 0 <= i < |at| ==> at[i] < |nodes| && nodes[at[i]] == list[i] && list[i].parentId == Some(a))
    && (forall i, j :: 0 <= i < j < |at| ==> at[i] != at[j])
  }

  // As they come, without a comparator; with one, sorted, and equal ones as they come.
  ghost predicate InOrder(order: Order, list: seq<TreeNode>, at: seq<nat>)
    requires |at| == |list|
  {
    match order
    case None => forall i, j :: 0 <= i < j < |at| ==> at[i] < at[j]
    case Some(leq) =>
      forall i, j :: 0 <= i < j < |at| ==> leq(list[i].id, list[j].id) && (leq(list[j].id, list[i].id) ==> at[i] < at[j])
  }

  // None of the first n nodes that name a is left out.
  ghost predicate AllOf(nodes: seq<TreeNode>, a: Key, n: nat, at: seq<nat>)
    requires n <= |nodes|
  {
    forall k :: 0 <= k < n && nodes[k].parentId == Some(a) ==> k in at
  }

  // `list` holds the nodes that name a, all of them, in the order asked for.
  ghost predicate ChildList(nodes: seq<TreeNode>, a: Key, order: Order, list: seq<TreeNode>) {
    exists at: seq<nat> ::
      && From(nodes, a, list, at) && AllOf(nodes, a, |nodes|, at)
      && ((order.Some? ==> TotalPreorder(order.value)) ==> InOrder(order, list, at))
  }

  predicate Before(at: seq<nat>, p: nat) {
    forall i :: 0 <= i < |at| ==> at[i] < p
  }

  lemma LaterPlace(nodes: seq<TreeNode>, a: Key, list: seq<TreeNode>, at: seq<nat>, p: nat)
    requires p < |nodes| && nodes[p].parentId == Some(a)
    requires From(nodes, a, list, at) && InOrder(None, list, at) && Before(at, p) && AllOf(nodes, a, p, at)
    ensures var list', at' := list + [nodes[p]], at + [p];
            From(nodes, a, list', at') && InOrder(None, list', at') && Before(at', p + 1) && AllOf(nodes, a, p + 1, at')
  {
  }

  lemma NoPlace(nodes: seq<TreeNode>, a: Key, at: seq<nat>, p: nat)
    requires p < |nodes| && nodes[p].parentId != Some(a) && Before(at, p) && AllOf(nodes, a, p, at)
    ensures Before(at, p + 1) && AllOf(nodes, a, p + 1, at)
  {
  }

  lemma {:induction false} ChildrenPlaces(nodes: seq<TreeNode>, a: Key, n: nat) returns (at: seq<nat>)
    requires n <= |nodes|
    ensures From(nodes, a, ChildrenAmong(nodes, a, n), at) && InOrder(None, ChildrenAmong(nodes, a, n), at)
    ensures Before(at, n) && AllOf(nodes, a, n, at)
    decreases n
  {
    at := [];
    if n > 0 {
      at := ChildrenPlaces(nodes, a, n - 1);
      if nodes[n - 1].parentId == Some(a) {
        LaterPlace(nodes, a, ChildrenAmong(nodes, a, n - 1), at, n - 1);
        at := at + [n - 1];
      } else {
        NoPlace(nodes, a, at, n - 1);
      }
    }
  }

  // Some of the places, and how they were found: the i-th element is x, at p, or one of s.
  ghost predicate Mixed(s: seq<TreeNode>, at: seq<nat>, x: TreeNode, p: nat, s': seq<TreeNode>, at': seq<nat>)
    requires |at| == |s|
  {
    && |s'| == |at'| && (p in at') && (forall k <- at :: k in at')
    && forall i :: 0 <= i < |s'| ==> (s'[i] == x && at'[i] == p) || exists k :: 0 <= k < |s| && s[k] == s'[i] && at[k] == at'[i]
  }

  // An element not before any other, at the end.
  lemma GoesLast(leq: (Key, Key) -> bool, nodes: seq<TreeNode>, a: Key, s: seq<TreeNode>, at: seq<nat>, x: TreeNode, p: nat)
    requires From(nodes, a, s, at) && p < |nodes| && nodes[p] == x && x.parentId == Some(a)
    requires forall i :: 0 <= i < |at| ==> at[i] != p
    ensures From(nodes, a, s + [x], at + [p])
    ensures InOrder(Some(leq), s, at) && (forall i :: 0 <= i < |s| ==> leq(s[i].id, x.id) && (leq(x.id, s[i].id) ==> at[i] < p))
            ==> InOrder(Some(leq), s + [x], at + [p])
  {
  }

  lemma InsertAtEnd(leq: (Key, Key) -> bool, nodes: seq<TreeNode>, a: Key, s: seq<TreeNode>, at: seq<nat>, x: TreeNode, p: nat)
    requires From(nodes, a, s, at) && (TotalPreorder(leq) ==> InOrder(Some(leq), s, at))
    requires p < |nodes| && nodes[p] == x && x.parentId == Some(a) && Before(at, p)
    requires s == [] || leq(s[|s| - 1].id, x.id)
    ensures From(nodes, a, s + [x], at + [p]) && (TotalPreorder(leq) ==> InOrder(Some(leq), s + [x], at + [p]))
    ensures Mixed(s, at, x, p, s + [x], at + [p])
  {
    GoesLast(leq, nodes, a, s, at, x, p);
    if TotalPreorder(leq) {
      forall i | 0 <= i < |s| ensures leq(s[i].id, x.id) {
        assert i < |s| - 1 ==> leq(s[i].id, s[|s| - 1].id);
      }
    }
  }

  lemma InsertBeforeLast(leq: (Key, Key) -> bool, nodes: seq<TreeNode>, a: Key, s: seq<TreeNode>, at: seq<nat>, x: TreeNode, p: nat,
        r: seq<TreeNode>, at': seq<nat>)
    requires From(nodes, a, s, at) && (TotalPreorder(leq) ==> InOrder(Some(leq), s, at)) && Before(at, p)
    requires s != [] && !leq(s[|s| - 1].id, x.id)
    requires Mixed(s[..|s| - 1], at[..|s| - 1], x, p, r, at')
    requires From(nodes, a, r, at') && (TotalPreorder(leq) ==> InOrder(Some(leq), r, at'))
    ensures var last, q := s[|s| - 1], at[|s| - 1];
            From(nodes, a, r + [last], at' + [q]) && (TotalPreorder(leq) ==> InOrder(Some(leq), r + [last], at' + [q]))
  {
    var front, before, last, q := s[..|s| - 1], at[..|s| - 1], s[|s| - 1], at[|s| - 1];
    forall i | 0 <= i < |r|
      ensures at'[i] != q && (TotalPreorder(leq) ==> leq(r[i].id, last.id) && (leq(last.id, r[i].id) ==> at'[i] < q))
    {
      if !(r[i] == x && at'[i] == p) {
        var k :| 0 <= k < |front| && front[k] == r[i] && before[k] == at'[i];
        assert s[k] == front[k] && at[k] == before[k];
      }
    }
    GoesLast(leq, nodes, a, r, at', last, q);
  }

  lemma FrontInOrder(leq: (Key, Key) -> bool, nodes: seq<TreeNode>, a: Key, s: seq<TreeNode>, at: seq<nat>, p: nat)
    requires From(nodes, a, s, at) && (TotalPreorder(leq) ==> InOrder(Some(leq), s, at)) && Before(at, p) && s != []
    ensures var front, before := s[..|s| - 1], at[..|s| - 1];
            && s == front + [s[|s| - 1]] && at == before + [at[|s| - 1]]
            && From(nodes, a, front, before) && (TotalPreorder(leq) ==> InOrder(Some(leq), front, before)) && Before(before, p)
  {
  }

  lemma {:induction false} InsertInOrder(leq: (Key, Key) -> bool, nodes: seq<TreeNode>, a: Key, s: seq<TreeNode>, at: seq<nat>,
        x: TreeNode, p: nat)
    returns (at': seq<nat>)
    requires From(nodes, a, s, at) && (TotalPreorder(leq) ==> InOrder(Some(leq), s, at))
    requires p < |nodes| && nodes[p] == x && x.parentId == Some(a) && Before(at, p)
    ensures From(nodes, a, Insert(leq, s, x), at') && (TotalPreorder(leq) ==> InOrder(Some(leq), Insert(leq, s, x), at'))
    ensures Mixed(s, at, x, p, Insert(leq, s, x), at')
    decreases |s|
  {
    if s == [] || leq(s[|s| - 1].id, x.id) {
      InsertAtEnd(leq, nodes, a, s, at, x, p);
      at' := at + [p];
    } else {
      var front, before := s[..|s| - 1], at[..|s| - 1];
      FrontInOrder(leq, nodes, a, s, at, p);
      at' := InsertInOrder(leq, nodes, a, front, before, x, p);
      InsertBeforeLast(leq, nodes, a, s, at, x, p, Insert(leq, front, x), at');
      MixedMore(front, before, x, p, Insert(leq, front, x), at', s[|s| - 1], at[|s| - 1]);
      at' := at' + [at[|s| - 1]];
    }
  }

  lemma MixedMore(s: seq<TreeNode>, at: seq<nat>, x: TreeNode, p: nat, s': seq<TreeNode>, at': seq<nat>, last: TreeNode, q: nat)
    requires |at| == |s| && Mixed(s, at, x, p, s', at')
    ensures Mixed(s + [last], at + [q], x, p, s' + [last], at' + [q])
  {
    var t, u, t', u' := s + [last], at + [q], s' + [last], at' + [q];
    forall i | 0 <= i < |t'|
      ensures (t'[i] == x && u'[i] == p) || exists k :: 0 <= k < |t| && t[k] == t'[i] && u[k] == u'[i]
    {
      if i == |s'| {
        assert t[|s|] == t'[i] && u[|s|] == u'[i];
      } else if !(s'[i] == x && at'[i] == p) {
        var k :| 0 <= k < |s| && s[k] == s'[i] && at[k] == at'[i];
        assert t[k] == t'[i] && u[k] == u'[i];
      }
    }
  }

  // The same places, in whatever order.
  ghost predicate SamePlaces(at: seq<nat>, at': seq<nat>) {
    var same := (forall k <- at :: k in at') && forall i :: 0 <= i < |at'| ==> at'[i] in at;
    same
  }

  lemma MixedPlaces(s: seq<TreeNode>, at: seq<nat>, x: TreeNode, p: nat, s': seq<TreeNode>, at': seq<nat>, before: seq<nat>)
    requires |at| == |s| && Mixed(s, at, x, p, s', at') && SamePlaces(before, at)
    ensures SamePlaces(before + [p], at')
  {
    forall i | 0 <= i < |at'| ensures at'[i] in before + [p] {
      if at'[i] != p {
        var k :| 0 <= k < |s| && s[k] == s'[i] && at[k] == at'[i];
      }
    }
  }

  lemma SameBefore(at: seq<nat>, at': seq<nat>, p: nat)
    requires SamePlaces(at, at') && Before(at, p)
    ensures Before(at', p)
  {
    forall i | 0 <= i < |at'| ensures at'[i] < p {
      var k :| 0 <= k < |at| && at[k] == at'[i];
    }
  }

  lemma FrontOf(nodes: seq<TreeNode>, a: Key, s: seq<TreeNode>, at: seq<nat>)
    requires From(nodes, a, s, at) && InOrder(None, s, at) && s != []
    ensures var front, before := s[..|s| - 1], at[..|s| - 1];
            From(nodes, a, front, before) && InOrder(None, front, before) && Before(before, at[|s| - 1]) && at == before + [at[|s| - 1]]
  {
  }

  lemma {:induction false} SortInOrder(leq: (Key, Key) -> bool, nodes: seq<TreeNode>, a: Key, s: seq<TreeNode>, at: seq<nat>)
    returns (at': seq<nat>)
    requires From(nodes, a, s, at) && InOrder(None, s, at)
    ensures From(nodes, a, SortBy(leq, s), at') && (TotalPreorder(leq) ==> InOrder(Some(leq), SortBy(leq, s), at'))
    ensures SamePlaces(at, at')
    decreases |s|
  {
    at' := [];
    if s != [] {
      var front, last, before, p := s[..|s| - 1], s[|s| - 1], at[..|s| - 1], at[|s| - 1];
      FrontOf(nodes, a, s, at);
      var sorted := SortInOrder(leq, nodes, a, front, before);
      SameBefore(before, sorted, p);
      at' := InsertInOrder(leq, nodes, a, SortBy(leq, front), sorted, last, p);
      MixedPlaces(SortBy(leq, front), sorted, last, p, SortBy(leq, s), at', before);
    }
  }

  /** A node's child list holds the nodes naming it: as they come in the list of all nodes, or sorted by the comparator,
      equal ones as they come. */
  lemma ArrangedChildren(nodes: seq<TreeNode>, a: Key, order: Order)
    ensures ChildList(nodes, a, order, Arranged(order, Children(nodes, a)))
  {
    var children := Children(nodes, a);
    var at := ChildrenPlaces(nodes, a, |nodes|);
    if order.Some? {
      at := SortInOrder(order.value, nodes, a, children, at);
    }
    assert From(nodes, a, Arranged(order, children), at);
  }

  // ---- How far the tree is built ----

  datatype Start = Start(subs: map<TreeNode, Option<seq<TreeNode>>>, parents: map<TreeNode, TreeNode?>, m: map<Key, TreeNode>)

  ghost predicate Fresh(top: TreeNode, nodes: seq<TreeNode>, start: Start) {
    forall n <- nodes + [top] ::
      n in start.subs && n in start.parents && (start.subs[n] == None || start.subs[n] == Some([]))
  }

  function Linked(nodes: seq<TreeNode>, done: set<Key>): set<TreeNode> {
    set n | n in nodes && n.parentId.Some? && n.parentId.value in done
  }

  // Linked nodes point to their parent and are in the map; everything else is as it was.
  ghost predicate Links(top: TreeNode, nodes: seq<TreeNode>, m: NodeMap, start: Start, linked: set<TreeNode>)
    requires Fresh(top, nodes, start)
    reads nodes`parent, top`parent, m
  {
    && (forall n <- nodes ::
          if n in linked
          then n.parent != null && n.parentId == Some(n.parent.id) && (n.parent == top || n.parent in nodes)
          else n.parent == start.parents[n])
    && (top !in nodes ==> top.parent == start.parents[top])
    && (forall k :: k in m.m <==> k in start.m || exists n <- linked :: n.id == k)
    && (forall n <- linked :: n.id in m.m && m.m[n.id] == n)
    && (forall k <- start.m :: k in m.m && (m.m[k] == start.m[k] || (m.m[k] in linked && m.m[k].id == k)))
  }

  ghost function SubAfter(nodes: seq<TreeNode>, order: Order, start: Start, n: TreeNode, done: set<Key>): Option<seq<TreeNode>>
    requires n in start.subs
  {
    if n.id in done && Children(nodes, n.id) != [] then Some(Arranged(order, Children(nodes, n.id))) else start.subs[n]
  }

  // Nodes that are done have exactly the nodes naming them as children; all other lists are as they were.
  ghost predicate Subs(top: TreeNode, nodes: seq<TreeNode>, order: Order, start: Start, done: set<Key>, but: TreeNode?)
    requires Fresh(top, nodes, start)
    reads nodes`sub, top`sub
  {
    forall n <- nodes + [top] :: n != but ==> n.sub == SubAfter(nodes, order, start, n, done)
  }

  ghost predicate Built(top: TreeNode, nodes: seq<TreeNode>, m: NodeMap, order: Order, start: Start, done: set<Key>)
    requires Fresh(top, nodes, start)
    reads nodes, top, m
  {
    var linked := Linked(nodes, done);
    var built := Links(top, nodes, m, start, linked) && Subs(top, nodes, order, start, done, null);
    built
  }

  // ---- The first loop: link the children ----

  // The first i nodes have been looked at for children of root.
  ghost predicate Linking(root: TreeNode, nodes: seq<TreeNode>, m: NodeMap, order: Order, top: TreeNode, start: Start,
        done: set<Key>, i: nat)
    requires Fresh(top, nodes, start) && root in nodes + [top] && i <= |nodes|
    reads nodes, top, root, m
  {
    && Links(top, nodes, m, start, LinkedAmong(nodes, done, root.id, i))
    && Subs(top, nodes, order, start, done, root)
    && root.sub == PartialList(start, root, ChildrenAmong(nodes, root.id, i))
  }

  method LinkChildren(root: TreeNode, nodes: seq<TreeNode>, m: NodeMap, order: Order, ghost top: TreeNode, ghost start: Start,
        ghost done: set<Key>)
    requires UniqueIds(Recs(nodes)) && Fresh(top, nodes, start) && root in nodes + [top]
    requires Built(top, nodes, m, order, start, done) && root.id !in done
    modifies nodes, root, m
    ensures Linking(root, nodes, m, order, top, start, done, |nodes|)
  {
    LinkedStart(nodes, done, root.id);
    for i := 0 to |nodes|
      invariant Linking(root, nodes, m, order, top, start, done, i)
    {
      LinkNext(root, nodes, m, order, i, top, start, done);
    }
  }

  method LinkNext(root: TreeNode, nodes: seq<TreeNode>, m: NodeMap, order: Order, i: nat, ghost top: TreeNode,
        ghost start: Start, ghost done: set<Key>)
    requires UniqueIds(Recs(nodes)) && Fresh(top, nodes, start) && root in nodes + [top] && i < |nodes|
    requires Linking(root, nodes, m, order, top, start, done, i)
    modifies nodes, root, m
    ensures Linking(root, nodes, m, order, top, start, done, i + 1)
  {
    LinkedStep(nodes, done, root.id, i);
    if nodes[i].parentId.Some? && nodes[i].parentId.value == root.id {
      TakeChild(root, nodes, m, order, nodes[i], top, start, done, LinkedAmong(nodes, done, root.id, i),
                ChildrenAmong(nodes, root.id, i));
    }
  }

  // Linked so far: the children of `done`, and a's children among the first i nodes.
  function LinkedAmong(nodes: seq<TreeNode>, done: set<Key>, a: Key, i: nat): set<TreeNode>
    requires i <= |nodes|
  {
    Linked(nodes, done) + set n <- ChildrenAmong(nodes, a, i)
  }

  lemma LinkedStart(nodes: seq<TreeNode>, done: set<Key>, a: Key)
    ensures LinkedAmong(nodes, done, a, 0) == Linked(nodes, done)
  {
  }

  lemma LinkedStep(nodes: seq<TreeNode>, done: set<Key>, a: Key, i: nat)
    requires i < |nodes|
    ensures LinkedAmong(nodes, done, a, i) <= set x <- nodes
    ensures LinkedAmong(nodes, done, a, i + 1)
         == LinkedAmong(nodes, done, a, i) + if nodes[i].parentId == Some(a) then {nodes[i]} else {}
  {
  }

  lemma LinkedEnd(nodes: seq<TreeNode>, done: set<Key>, a: Key)
    ensures LinkedAmong(nodes, done, a, |nodes|) == Linked(nodes, done + {a})
  {
    assert nodes[..|nodes|] == nodes;
  }

  method TakeChild(root: TreeNode, nodes: seq<TreeNode>, m: NodeMap, order: Order, n: TreeNode, ghost top: TreeNode,
        ghost start: Start, ghost done: set<Key>, ghost linked: set<TreeNode>, ghost children: seq<TreeNode>)
    requires UniqueIds(Recs(nodes)) && Fresh(top, nodes, start) && root in nodes + [top]
    requires n in nodes && n.parentId == Some(root.id) && Links(top, nodes, m, start, linked) && linked <= (set x <- nodes)
    requires Subs(top, nodes, order, start, done, root) && root.sub == PartialList(start, root, children)
    modifies n`parent, m, root`sub
    ensures Links(top, nodes, m, start, linked + {n}) && Subs(top, nodes, order, start, done, root)
    ensures root.sub == PartialList(start, root, children + [n])
  {
    LinkOne(root, nodes, m, n, top, start, linked);
    AddChild(root, n, nodes, top, start, children);
  }

  ghost function PartialList(start: Start, root: TreeNode, children: seq<TreeNode>): Option<seq<TreeNode>>
    requires root in start.subs
  {
    if children == [] then start.subs[root] else Some(children)
  }

  method AddChild(root: TreeNode, n: TreeNode, ghost nodes: seq<TreeNode>, ghost top: TreeNode, ghost start: Start,
        ghost children: seq<TreeNode>)
    requires Fresh(top, nodes, start) && root in nodes + [top] && root.sub == PartialList(start, root, children)
    modifies root`sub
    ensures root.sub == PartialList(start, root, children + [n])
  {
    if root.sub.None? {
      root.sub := Some([]);
    }
    assert root.sub.value == children;
    root.sub := Some(root.sub.value + [n]);
  }

  method LinkOne(root: TreeNode, nodes: seq<TreeNode>, m: NodeMap, n: TreeNode, ghost top: TreeNode, ghost start: Start,
        ghost linked: set<TreeNode>)
    requires UniqueIds(Recs(nodes)) && Fresh(top, nodes, start) && root in nodes + [top]
    requires n in nodes && n.parentId == Some(root.id) && Links(top, nodes, m, start, linked) && linked <= (set x <- nodes)
    modifies n`parent, m
    ensures Links(top, nodes, m, start, linked + {n})
  {
    m.m := m.m[n.id := n];
    n.parent := root;
    forall x <- linked ensures x.id == n.id ==> x == n {
      SameId(nodes, x, n);
    }
  }

  lemma SameId(nodes: seq<TreeNode>, x: TreeNode, y: TreeNode)
    requires UniqueIds(Recs(nodes)) && x in nodes && y in nodes
    ensures x.id == y.id ==> x == y
  {
    var i :| 0 <= i < |nodes| && nodes[i] == x;
    var j :| 0 <= j < |nodes| && nodes[j] == y;
    assert Recs(nodes)[i].id == x.id && Recs(nodes)[j].id == y.id;
  }

  // ---- The recursion ----

  // `list` holds a's children, each once.
  ghost predicate Siblings(nodes: seq<TreeNode>, a: Key, list: seq<TreeNode>) {
    && (forall n <- list :: n in nodes && n.parentId == Some(a))
    && (forall n <- nodes :: n.parentId == Some(a) ==> n in list)
    && (forall i, j :: 0 <= i < j < |list| ==> list[i] != list[j])
  }

  lemma {:induction false} ChildrenOnce(nodes: seq<TreeNode>, a: Key, n: nat, x: TreeNode)
    requires UniqueIds(Recs(nodes)) && n <= |nodes|
    ensures multiset(ChildrenAmong(nodes, a, n))[x] <= 1
    decreases n
  {
    if n > 0 {
      ChildrenOnce(nodes, a, n - 1, x);
      forall i | 0 <= i < n - 1 ensures nodes[i] != nodes[n - 1] {
        assert Recs(nodes)[i].id == nodes[i].id && Recs(nodes)[n - 1].id == nodes[n - 1].id;
      }
    }
  }

  lemma OnceEach(s: seq<TreeNode>, i: nat, j: nat)
    requires i < j < |s| && s[i] == s[j]
    ensures multiset(s)[s[i]] >= 2
  {
    assert s == s[..j] + s[j..];
    assert s[..j][i] == s[i] && s[j..][0] == s[j];
    assert s[i] in multiset(s[..j]) && s[j] in multiset(s[j..]);
  }

  lemma ArrangedSiblings(nodes: seq<TreeNode>, a: Key, order: Order)
    requires UniqueIds(Recs(nodes))
    ensures Siblings(nodes, a, Arranged(order, Children(nodes, a)))
  {
    var children := Children(nodes, a);
    var list := Arranged(order, children);
    assert nodes[..|nodes|] == nodes;
    forall i, j | 0 <= i < j < |list| ensures list[i] != list[j] {
      ChildrenOnce(nodes, a, |nodes|, list[i]);
      if list[i] == list[j] {
        OnceEach(list, i, j);
      }
    }
  }

  // `base` and the first n parts.
  function Union(base: set<Key>, parts: seq<set<Key>>, n: nat): set<Key>
    requires n <= |parts|
  {
    if n == 0 then base else Union(base, parts, n - 1) + parts[n - 1]
  }

  lemma {:induction false} UnionGrows(base: set<Key>, parts: seq<set<Key>>, i: nat, n: nat)
    requires i <= n <= |parts|
    ensures Union(base, parts, i) <= Union(base, parts, n)
    decreases n
  {
    if i < n {
      UnionGrows(base, parts, i, n - 1);
    }
  }

  lemma {:induction false} UnionWithin(base: set<Key>, parts: seq<set<Key>>, n: nat, bound: set<Key>)
    requires n <= |parts| && base <= bound && forall k :: 0 <= k < n ==> parts[k] <= bound
    ensures Union(base, parts, n) <= bound
    decreases n
  {
    if n > 0 {
      UnionWithin(base, parts, n - 1, bound);
    }
  }

  lemma {:induction false} UnionApart(base: set<Key>, parts: seq<set<Key>>, n: nat, s: set<Key>)
    requires n <= |parts| && s !! base && forall k :: 0 <= k < n ==> s !! parts[k]
    ensures s !! Union(base, parts, n)
    decreases n
  {
    if n > 0 {
      UnionApart(base, parts, n - 1, s);
    }
  }

  ghost function Regions(nodes: seq<TreeNode>, list: seq<TreeNode>): seq<set<Key>> {
    seq(|list|, i requires 0 <= i < |list| => Region(Recs(nodes), list[i].id))
  }

  // What is done once the first i siblings have been built.
  ghost function DoneTo(nodes: seq<TreeNode>, a: Key, list: seq<TreeNode>, done: set<Key>, i: nat): set<Key>
    requires i <= |list|
  {
    Union(done + {a}, Regions(nodes, list), i)
  }

  lemma SiblingIndex(nodes: seq<TreeNode>, a: Key, list: seq<TreeNode>, i: nat) returns (c: nat)
    requires Siblings(nodes, a, list) && i < |list|
    ensures IsChild(Recs(nodes), a, c) && nodes[c] == list[i] && Recs(nodes)[c].id == list[i].id
  {
    assert list[i] in list;
    c :| 0 <= c < |nodes| && nodes[c] == list[i];
  }

  // What the recursive call for the i-th sibling needs.
  lemma SiblingReady(nodes: seq<TreeNode>, a: Key, list: seq<TreeNode>, i: nat, done: set<Key>)
    requires UniqueIds(Recs(nodes)) && Acyclic(Recs(nodes), a) && Siblings(nodes, a, list) && i < |list|
    requires Region(Recs(nodes), a) !! done
    ensures var recs := Recs(nodes);
            && list[i] in nodes && Acyclic(recs, list[i].id)
            && Region(recs, list[i].id) !! DoneTo(nodes, a, list, done, i)
            && Descendants(recs, list[i].id) < Descendants(recs, a)
  {
    var recs := Recs(nodes);
    var c := SiblingIndex(nodes, a, list, i);
    ChildAcyclic(recs, a, c);
    forall j | 0 <= j < i ensures Region(recs, list[i].id) !! Region(recs, list[j].id) {
      var d := SiblingIndex(nodes, a, list, j);
      SiblingsApart(recs, a, c, d);
    }
    UnionApart(done + {a}, Regions(nodes, list), i, Region(recs, list[i].id));
  }

  lemma UnderSomeSibling(nodes: seq<TreeNode>, a: Key, list: seq<TreeNode>, k: Key) returns (j: nat)
    requires UniqueIds(Recs(nodes)) && Siblings(nodes, a, list) && k in Descendants(Recs(nodes), a)
    ensures j < |list| && k in Region(Recs(nodes), list[j].id)
  {
    var recs := Recs(nodes);
    var x :| 0 <= x < |recs| && Below(recs, a, x) && recs[x].id == k;
    var c := BelowIsUnderAChild(recs, a, x);
    assert nodes[c] in list;
    j :| 0 <= j < |list| && list[j] == nodes[c];
  }

  lemma SiblingWithin(nodes: seq<TreeNode>, a: Key, list: seq<TreeNode>, i: nat)
    requires UniqueIds(Recs(nodes)) && Acyclic(Recs(nodes), a) && Siblings(nodes, a, list) && i < |list|
    ensures Region(Recs(nodes), list[i].id) <= Region(Recs(nodes), a)
  {
    var c := SiblingIndex(nodes, a, list, i);
    ChildAcyclic(Recs(nodes), a, c);
  }

  lemma DoneToWithin(nodes: seq<TreeNode>, a: Key, list: seq<TreeNode>, done: set<Key>)
    requires UniqueIds(Recs(nodes)) && Acyclic(Recs(nodes), a) && Siblings(nodes, a, list)
    ensures DoneTo(nodes, a, list, done, |list|) <= done + Region(Recs(nodes), a)
  {
    var bound := done + Region(Recs(nodes), a);
    forall k | 0 <= k < |list| ensures Regions(nodes, list)[k] <= bound {
      SiblingWithin(nodes, a, list, k);
    }
    UnionWithin(done + {a}, Regions(nodes, list), |list|, bound);
  }

  lemma DescendantDone(nodes: seq<TreeNode>, a: Key, list: seq<TreeNode>, done: set<Key>, k: Key)
    requires UniqueIds(Recs(nodes)) && Siblings(nodes, a, list) && k in Descendants(Recs(nodes), a)
    ensures k in DoneTo(nodes, a, list, done, |list|)
  {
    var j := UnderSomeSibling(nodes, a, list, k);
    UnionGrows(done + {a}, Regions(nodes, list), j + 1, |list|);
  }

  // The regions of all children, and a itself, are a's region.
  lemma RegionsMakeRegion(nodes: seq<TreeNode>, a: Key, list: seq<TreeNode>, done: set<Key>)
    requires UniqueIds(Recs(nodes)) && Acyclic(Recs(nodes), a) && Siblings(nodes, a, list)
    ensures DoneTo(nodes, a, list, done, |list|) == done + Region(Recs(nodes), a)
  {
    DoneToWithin(nodes, a, list, done);
    UnionGrows(done + {a}, Regions(nodes, list), 0, |list|);
    var all, below := DoneTo(nodes, a, list, done, |list|), Descendants(Recs(nodes), a);
    forall k | k in below ensures k in all {
      DescendantDone(nodes, a, list, done, k);
    }
  }

  /** One node gets its children, in order. */
  method Expand(root: TreeNode, nodes: seq<TreeNode>, m: NodeMap, order: Order, ghost top: TreeNode, ghost start: Start,
        ghost done: set<Key>)
    requires UniqueIds(Recs(nodes)) && Fresh(top, nodes, start) && root in nodes + [top]
    requires Built(top, nodes, m, order, start, done) && root.id !in done
    requires forall n <- nodes + [top] :: n.id == root.id ==> n == root
    modifies nodes, root, m
    ensures Built(top, nodes, m, order, start, done + {root.id})
    ensures root.sub == if Children(nodes, root.id) == [] then start.subs[root] else Some(Arranged(order, Children(nodes, root.id)))
  {
    LinkChildren(root, nodes, m, order, top, start, done);
    LinkedEnd(nodes, done, root.id);
    SortChildren(root, nodes, order, start);
    SubsDone(root, top, nodes, order, start, done);
  }

  method SortChildren(root: TreeNode, ghost nodes: seq<TreeNode>, order: Order, ghost start: Start)
    requires root in start.subs && (start.subs[root] == None || start.subs[root] == Some([]))
    requires root.sub == PartialList(start, root, Children(nodes, root.id))
    modifies root`sub
    ensures root.sub == if Children(nodes, root.id) == [] then start.subs[root] else Some(Arranged(order, Children(nodes, root.id)))
  {
    if root.sub.Some? && |root.sub.value| != 0 && order.Some? {
      root.sub := Some(SortBy(order.value, root.sub.value));
    }
  }

  lemma SubsDone(root: TreeNode, top: TreeNode, nodes: seq<TreeNode>, order: Order, start: Start, done: set<Key>)
    requires Fresh(top, nodes, start) && root in nodes + [top] && Subs(top, nodes, order, start, done, root)
    requires root.sub == SubAfter(nodes, order, start, root, done + {root.id})
    requires forall n <- nodes + [top] :: n.id == root.id ==> n == root
    ensures Subs(top, nodes, order, start, done + {root.id}, null)
  {
  }

  // What every call of one run has in common: ids name nodes uniquely, and all child lists were empty.
  ghost predicate Input(top: TreeNode, nodes: seq<TreeNode>, start: Start) {
    var input := UniqueIds(Recs(nodes)) && Fresh(top, nodes, start) && forall n <- nodes :: n.id == top.id ==> n == top;
    input
  }

  // What a call is asked to build: a node that is not its own descendant, nothing of whose region is done.
  ghost predicate ToDo(root: TreeNode, top: TreeNode, nodes: seq<TreeNode>, done: set<Key>) {
    var todo := root in nodes + [top] && Acyclic(Recs(nodes), root.id) && Region(Recs(nodes), root.id) !! done;
    todo
  }

  /** `done` are the ids whose nodes have their children already. The call adds root and everything below it. */
  method GenTree(root: TreeNode, nodes: seq<TreeNode>, m: NodeMap, order: Order, ghost top: TreeNode, ghost start: Start,
        ghost done: set<Key>)
    requires Input(top, nodes, start) && ToDo(root, top, nodes, done)
    requires Built(top, nodes, m, order, start, done)
    modifies nodes, top, m
    ensures Built(top, nodes, m, order, start, done + Region(Recs(nodes), root.id))
    decreases Descendants(Recs(nodes), root.id), 1
  {
    var subNodeList := BuildOne(root, nodes, m, order, top, start, done);
    BuildAll(root, subNodeList, nodes, m, order, top, start, done);
    RegionsMakeRegion(nodes, root.id, subNodeList, done);
  }

  /** The recursive loop of the call. */
  method BuildAll(root: TreeNode, list: seq<TreeNode>, nodes: seq<TreeNode>, m: NodeMap, order: Order, ghost top: TreeNode,
        ghost start: Start, ghost done: set<Key>)
    requires Input(top, nodes, start) && ToDo(root, top, nodes, done) && Siblings(nodes, root.id, list)
    requires Built(top, nodes, m, order, start, done + {root.id})
    modifies nodes, top, m
    ensures Built(top, nodes, m, order, start, DoneTo(nodes, root.id, list, done, |list|))
    decreases Descendants(Recs(nodes), root.id), 0
  {
    for i := 0 to |list|
      invariant Built(top, nodes, m, order, start, DoneTo(nodes, root.id, list, done, i))
    {
      SiblingToDo(nodes, root, top, list, i, done);
      GenTree(list[i], nodes, m, order, top, start, DoneTo(nodes, root.id, list, done, i));
    }
  }

  /** The call up to its recursive loop: the list it will go through, empty if there are no children. */
  method BuildOne(root: TreeNode, nodes: seq<TreeNode>, m: NodeMap, order: Order, ghost top: TreeNode, ghost start: Start,
        ghost done: set<Key>)
    returns (list: seq<TreeNode>)
    requires Input(top, nodes, start) && ToDo(root, top, nodes, done)
    requires Built(top, nodes, m, order, start, done)
    modifies nodes, top, m
    ensures Siblings(nodes, root.id, list) && (list == [] || root.sub == Some(list))
    ensures Built(top, nodes, m, order, start, done + {root.id})
  {
    OnlyOneWithId(root, nodes, top);
    ArrangedSiblings(nodes, root.id, order);
    assert root.id !in done;
    Expand(root, nodes, m, order, top, start, done);
    return if root.sub.None? then [] else root.sub.value;
  }

  lemma SiblingToDo(nodes: seq<TreeNode>, root: TreeNode, top: TreeNode, list: seq<TreeNode>, i: nat, done: set<Key>)
    requires UniqueIds(Recs(nodes)) && ToDo(root, top, nodes, done) && Siblings(nodes, root.id, list) && i < |list|
    ensures ToDo(list[i], top, nodes, DoneTo(nodes, root.id, list, done, i))
    ensures Descendants(Recs(nodes), list[i].id) < Descendants(Recs(nodes), root.id)
  {
    SiblingReady(nodes, root.id, list, i, done);
  }

  lemma OnlyOneWithId(root: TreeNode, nodes: seq<TreeNode>, top: TreeNode)
    requires UniqueIds(Recs(nodes)) && root in nodes + [top] && forall n <- nodes :: n.id == top.id ==> n == top
    ensures forall n <- nodes + [top] :: n.id == root.id ==> n == root
  {
    forall n <- nodes + [top] ensures n.id == root.id ==> n == root {
      if n in nodes && root in nodes {
        SameId(nodes, n, root);
      }
    }
  }

  // ---- The whole call ----

  lemma LinkedIsBelow(nodes: seq<TreeNode>, a: Key, n: TreeNode)
    requires UniqueIds(Recs(nodes)) && n in nodes
    ensures n in Linked(nodes, Region(Recs(nodes), a)) <==> n.id in Descendants(Recs(nodes), a)
  {
    var i :| 0 <= i < |nodes| && nodes[i] == n;
    DescendantByParent(Recs(nodes), a, i);
  }

  lemma DescendantIsNode(nodes: seq<TreeNode>, a: Key, k: Key) returns (n: TreeNode)
    requires k in Descendants(Recs(nodes), a)
    ensures n in nodes && n.id == k
  {
    var x :| 0 <= x < |nodes| && Below(Recs(nodes), a, x) && Recs(nodes)[x].id == k;
    n := nodes[x];
  }

  lemma MapKey(nodes: seq<TreeNode>, a: Key, top: TreeNode, m: NodeMap, start: Start, k: Key)
    requires UniqueIds(Recs(nodes)) && Fresh(top, nodes, start)
    requires Links(top, nodes, m, start, Linked(nodes, Region(Recs(nodes), a)))
    ensures k in m.m <==> k in start.m || k in Descendants(Recs(nodes), a)
  {
    var linked := Linked(nodes, Region(Recs(nodes), a));
    if k in Descendants(Recs(nodes), a) {
      var n := DescendantIsNode(nodes, a, k);
      LinkedIsBelow(nodes, a, n);
      assert n in linked;
    } else if k in m.m && k !in start.m {
      var n :| n in linked && n.id == k;
      LinkedIsBelow(nodes, a, n);
    }
  }

  lemma MapKeys(nodes: seq<TreeNode>, a: Key, top: TreeNode, m: NodeMap, start: Start)
    requires UniqueIds(Recs(nodes)) && Fresh(top, nodes, start)
    requires Links(top, nodes, m, start, Linked(nodes, Region(Recs(nodes), a)))
    ensures m.m.Keys == start.m.Keys + Descendants(Recs(nodes), a)
    ensures forall n <- nodes :: n.id in Descendants(Recs(nodes), a) ==> n.id in m.m && m.m[n.id] == n
    ensures forall k <- start.m :: k !in Descendants(Recs(nodes), a) ==> k in m.m && m.m[k] == start.m[k]
  {
    var linked := Linked(nodes, Region(Recs(nodes), a));
    forall k <- start.m ensures k !in Descendants(Recs(nodes), a) ==> k in m.m && m.m[k] == start.m[k] {
      if m.m[k] in linked {
        LinkedIsBelow(nodes, a, m.m[k]);
      }
    }
    forall k ensures k in m.m <==> k in start.m || k in Descendants(Recs(nodes), a) {
      MapKey(nodes, a, top, m, start, k);
    }
    forall n <- nodes ensures n.id in Descendants(Recs(nodes), a) ==> n in Linked(nodes, Region(Recs(nodes), a)) {
      LinkedIsBelow(nodes, a, n);
    }
  }

  // A node's child list: that of the nodes naming it if there are any, and what it was if not.
  ghost predicate ListBuilt(nodes: seq<TreeNode>, order: Order, region: set<Key>, id: Key, before: Option<seq<TreeNode>>,
        after: Option<seq<TreeNode>>)
  {
    var built :=
      if id in region && exists k :: 0 <= k < |nodes| && nodes[k].parentId == Some(id)
      then after.Some? && ChildList(nodes, id, order, after.value) else after == before;
    built
  }

  lemma SomeoneNames(nodes: seq<TreeNode>, a: Key)
    ensures Children(nodes, a) != [] <==> exists k :: 0 <= k < |nodes| && nodes[k].parentId == Some(a)
  {
    var children := Children(nodes, a);
    assert nodes[..|nodes|] == nodes;
    if k :| 0 <= k < |nodes| && nodes[k].parentId == Some(a) {
      assert nodes[k] in children;
    }
    if children != [] {
      assert children[0] in children;
    }
  }

  lemma ListIsBuilt(nodes: seq<TreeNode>, order: Order, start: Start, n: TreeNode, region: set<Key>)
    requires n in start.subs
    ensures ListBuilt(nodes, order, region, n.id, start.subs[n], SubAfter(nodes, order, start, n, region))
  {
    SomeoneNames(nodes, n.id);
    ArrangedChildren(nodes, n.id, order);
  }

  /** genTree as callers use it: every node below root gets its parent and its children, and enters the map; nothing else
      changes. */
  method Build(root: TreeNode?, nodes: seq<TreeNode>, m: NodeMap, order: Order)
    requires UniqueIds(Recs(nodes)) && forall n <- nodes :: n.sub == None || n.sub == Some([])
    requires root != null ==> (root.sub == None || root.sub == Some([])) && Acyclic(Recs(nodes), root.id)
    requires root != null ==> forall n <- nodes :: n.id == root.id ==> n == root
    modifies nodes, root, m
    ensures root == null ==> m.m == old(m.m) && forall n <- nodes :: n.parent == old(n.parent) && n.sub == old(n.sub)
    ensures root != null ==>
              var region, below := Region(Recs(nodes), root.id), Descendants(Recs(nodes), root.id);
              && (forall n <- nodes + [root] :: ListBuilt(nodes, order, region, n.id, old(n.sub), n.sub))
              && (forall n <- nodes :: n.id in below ==>
                    n.parent != null && n.parentId == Some(n.parent.id) && n.parent in nodes + [root])
              && (forall n <- nodes :: n.id !in below ==> n.parent == old(n.parent))
              && m.m.Keys == old(m.m).Keys + below
              && (forall n <- nodes :: n.id in below ==> n.id in m.m && m.m[n.id] == n)
              && (forall k <- old(m.m) :: k !in below ==> k in m.m && m.m[k] == old(m.m)[k])
              && (root !in nodes ==> root.parent == old(root.parent))
  {
    if root == null {
      return;
    }
    ghost var start := Start(map n | n in nodes + [root] :: n.sub, map n | n in nodes + [root] :: n.parent, m.m);
    assert Linked(nodes, {}) == {};
    GenTree(root, nodes, m, order, root, start, {});
    ghost var region := Region(Recs(nodes), root.id);
    assert {} + region == region;
    forall n <- nodes ensures n in Linked(nodes, region) <==> n.id in Descendants(Recs(nodes), root.id) {
      LinkedIsBelow(nodes, root.id, n);
    }
    MapKeys(nodes, root.id, root, m, start);
    forall n <- nodes + [root] ensures ListBuilt(nodes, order, region, n.id, start.subs[n], n.sub) {
      ListIsBuilt(nodes, order, start, n, region);
    }
  }
}
