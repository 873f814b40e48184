/**
 The validator's two graph algorithms: the recursive directed-cycle check over the
 expand relation and the stack search for layer connectivity.
 */
module GraphChecks {
  import opened Walks

  type Adjacency<T(==)> = map<T, seq<T>>

  ghost function Arrow<T(!new)>(g: Adjacency<T>): (T, T) -> bool {
    (a, b) => a in g && b in g[a]
  }

  /** Every node the adjacency mentions, and the root. */
  function Mentioned<T(!new)>(g: Adjacency<T>, root: T): (s: set<T>)
    ensures root in s && g.Keys <= s
    ensures forall a, b :: Arrow(g)(a, b) ==> b in s
  {
    var s := {root} + g.Keys + (set a, i | a in g && 0 <= i < |g[a]| :: g[a][i]);
    assert forall a, b | Arrow(g)(a, b) :: b in s by {
      forall a, b | Arrow(g)(a, b)
        ensures b in s
      {
        var i :| 0 <= i < |g[a]| && g[a][i] == b;
      }
    }
    s
  }

  /** A cycle that can be reached from `a`. */
  ghost predicate CycleReachable<T(!new)>(g: Adjacency<T>, a: T) {
    exists c :: Reaches(Arrow(g), a, c) && OnCycle(Arrow(g), c)
  }

  /**
   The depth-first search's two mutable sets. `trail` is the walk of nodes being visited;
   `finished` lists the visited nodes in the order their visits returned.
   */
  class CycleSearch<T(==, !new)> {
    const adjacency: Adjacency<T>
    var visiting: set<T>
    var visited: set<T>
    ghost const universe: set<T>
    ghost var trail: seq<T>
    ghost var finished: seq<T>

    ghost predicate Valid()
      reads this
    {
      && visiting == Elements(trail)
      && visited == Elements(trail) + Elements(finished)
      && visited <= universe
      && (forall a, b :: Arrow(adjacency)(a, b) ==> b in universe)
      && Searching(Arrow(adjacency), trail, finished)
    }

    constructor (g: Adjacency<T>, root: T)
      ensures Valid() && adjacency == g && trail == [] && finished == []
      ensures universe == Mentioned(g, root)
    {
      adjacency, visiting, visited := g, {}, {};
      universe, trail, finished := Mentioned(g, root), [], [];
    }

    method Visit(node: T) returns (cyclic: bool)
      requires Valid() && node in universe && IsWalk(Arrow(adjacency), trail + [node])
      modifies this
      ensures cyclic ==> CycleReachable(adjacency, (old(trail) + [node])[0])
      ensures !cyclic ==> Valid() && trail == old(trail) && node in finished && old(finished) <= finished
      decreases universe - visited
    {
      ghost var r := Arrow(adjacency);
      if node in visiting {
        CycleFound(r, trail, node);
        return true;
      }
      if node in visited {
        return false;
      }
      hide Searching, Elements, IsWalk, Arrow, CycleReachable;
      Enter(r, trail, finished, node);
      visited := visited + {node};
      visiting := visiting + {node};
      trail := trail + [node];
      cyclic := false;
      var children := if node in adjacency then adjacency[node] else [];
      assert Children(adjacency, node, children) by { ChildrenAre(adjacency, node); }
      ghost var before := trail;
      assert before[0] == (old(trail) + [node])[0];
      var i := 0;
      SomeFinished(children, i, finished, finished);
      while i < |children| && !cyclic
        invariant 0 <= i <= |children|
        invariant cyclic ==> CycleReachable(adjacency, before[0])
        invariant !cyclic ==> Valid() && trail == before && old(finished) <= finished
        invariant !cyclic ==> Elements(children[..i]) <= Elements(finished)
        decreases |children| - i
      {
        ghost var listed := finished;
        NextChild(adjacency, old(trail), node, children, i, old(finished), finished);
        cyclic := Visit(children[i]);
        i := i + 1;
        if !cyclic {
          SomeFinished(children, i, listed, finished);
        }
      }
      if !cyclic {
        assert children[..|children|] == children;
        ChildrenFinished(adjacency, node, children, finished);
        Leave(r, old(trail), finished, node);
        finished := finished + [node];
      }
      visiting := visiting - {node};
      trail := old(trail);
    }
  }

  ghost predicate Children<T(!new)>(g: Adjacency<T>, node: T, children: seq<T>) {
    forall b :: Arrow(g)(node, b) <==> b in children
  }

  lemma ChildrenAre<T(!new)>(g: Adjacency<T>, node: T)
    ensures Children(g, node, if node in g then g[node] else [])
  {
  }

  lemma ChildrenFinished<T(!new)>(g: Adjacency<T>, node: T, children: seq<T>, finished: seq<T>)
    requires Children(g, node, children) && Elements(children) <= Elements(finished)
    ensures forall b | Arrow(g)(node, b) :: b in finished
  {
    forall b | Arrow(g)(node, b)
      ensures b in finished
    {
      assert b in Elements(children);
    }
  }

  lemma NextChild<T(!new)>(g: Adjacency<T>, trail: seq<T>, node: T, children: seq<T>, i: nat, before: seq<T>, finished: seq<T>)
    requires i < |children| && Children(g, node, children) && before <= finished
    requires Searching(Arrow(g), trail + [node], finished)
    ensures Arrow(g)(node, children[i]) && IsWalk(Arrow(g), trail + [node] + [children[i]])
    ensures Elements(before) <= Elements(finished)
  {
    assert children[i] in children;
    PrefixElements(before, finished);
  }

  lemma SomeFinished<T(!new)>(children: seq<T>, i: nat, before: seq<T>, after: seq<T>)
    requires i <= |children| && before <= after
    requires i == 0 || (Elements(children[..i - 1]) <= Elements(before) && children[i - 1] in after)
    ensures Elements(children[..i]) <= Elements(after)
  {
    PrefixElements(before, after);
    if i > 0 {
      assert children[..i] == children[..i - 1] + [children[i - 1]];
    }
  }

  ghost function Elements<T>(s: seq<T>): set<T> { set x | x in s }

  /** The nodes being visited form a walk; visits that returned stepped only to earlier returns. */
  ghost predicate Searching<T(!new)>(r: (T, T) -> bool, trail: seq<T>, finished: seq<T>) {
    && Distinct(trail + finished)
    && (trail != [] ==> IsWalk(r, trail))
    && StepsBack(r, finished)
  }

  lemma PrefixElements<T>(s: seq<T>, t: seq<T>)
    requires s <= t
    ensures Elements(s) <= Elements(t)
  {
    forall x | x in s
      ensures x in t
    {
      var i :| 0 <= i < |s| && s[i] == x;
      assert t[i] == x;
    }
  }

  lemma Enter<T(!new)>(r: (T, T) -> bool, trail: seq<T>, finished: seq<T>, node: T)
    requires Searching(r, trail, finished) && IsWalk(r, trail + [node])
    requires node !in trail && node !in finished
    ensures Searching(r, trail + [node], finished)
    ensures Elements(trail + [node]) == Elements(trail) + {node}
  {
    var before, after := trail + finished, trail + [node] + finished;
    forall i, j | 0 <= i < j < |after|
      ensures after[i] != after[j]
    {
      var k := if i < |trail| then i else i - 1;
      var l := if j < |trail| then j else j - 1;
      assert i != |trail| ==> after[i] == before[k];
      assert j != |trail| ==> after[j] == before[l];
    }
  }

  lemma Leave<T(!new)>(r: (T, T) -> bool, trail: seq<T>, finished: seq<T>, node: T)
    requires Searching(r, trail + [node], finished)
    requires forall b | r(node, b) :: b in finished
    ensures Searching(r, trail, finished + [node])
    ensures Elements(finished + [node]) == Elements(finished) + {node}
    ensures Elements(trail + [node]) - {node} == Elements(trail)
  {
    var before, after := trail + [node] + finished, trail + (finished + [node]);
    forall i, j | 0 <= i < j < |after|
      ensures after[i] != after[j]
    {
      var k := if i < |trail| then i else i + 1;
      var l := if j < |trail| then j else if j < |after| - 1 then j + 1 else |trail|;
      assert after[i] == before[k] && after[j] == before[l];
    }
    forall i | 0 <= i < |trail|
      ensures trail[i] != node
    {
      assert before[i] != before[|trail|];
    }
    if trail != [] {
      assert forall i | 0 <= i < |trail| :: (trail + [node])[i] == trail[i];
    }
    FinishLast(r, finished, node);
  }

  lemma CycleFound<T(!new)>(r: (T, T) -> bool, trail: seq<T>, node: T)
    requires node in trail && IsWalk(r, trail + [node])
    ensures exists c :: Reaches(r, (trail + [node])[0], c) && OnCycle(r, c)
  {
    var w := trail + [node];
    var i :| 0 <= i < |trail| && trail[i] == node;
    assert WalkFromTo(r, w[..i + 1], w[0], node);
    assert WalkFromTo(r, w[i..], node, node);
    assert Reaches(r, w[0], node) && OnCycle(r, node);
  }

  lemma FinishLast<T(!new)>(r: (T, T) -> bool, finished: seq<T>, node: T)
    requires StepsBack(r, finished)
    requires forall b | r(node, b) :: b in finished
    ensures StepsBack(r, finished + [node])
  {
    var s := finished + [node];
    forall i, b | 0 <= i < |s| && r(s[i], b)
      ensures b in s[..i]
    {
      assert s[..i] == finished[..i];
      if i == |finished| {
        assert finished[..i] == finished;
      }
    }
  }

  /** Nodes that finished without a cycle reach no cycle. */
  lemma FinishedReachNoCycle<T(!new)>(g: Adjacency<T>, finished: seq<T>, a: T)
    requires Searching(Arrow(g), [], finished) && a in finished
    ensures !CycleReachable(g, a)
  {
    assert [] + finished == finished;
    var done := set x | x in finished;
    assert Closed(Arrow(g), done) by {
      forall x, y | x in done && Arrow(g)(x, y)
        ensures y in done
      {
        var i :| 0 <= i < |finished| && finished[i] == x;
        assert y in finished[..i];
      }
    }
    forall c | Reaches(Arrow(g), a, c)
      ensures !OnCycle(Arrow(g), c)
    {
      ClosedHoldsReached(Arrow(g), done, a, c);
      OrderedIsAcyclic(Arrow(g), finished, c);
    }
  }

  lemma CycleStartsAtKey<T(!new)>(g: Adjacency<T>, c: T)
    requires OnCycle(Arrow(g), c)
    ensures c in g && CycleReachable(g, c)
  {
    CycleSteps(Arrow(g), c);
    ReachesSelf(Arrow(g), c);
  }

  ghost predicate Cyclic<T(!new)>(g: Adjacency<T>) {
    exists c :: OnCycle(Arrow(g), c)
  }

  lemma AllFinished<T(!new)>(g: Adjacency<T>, finished: seq<T>)
    requires Searching(Arrow(g), [], finished) && g.Keys <= Elements(finished)
    ensures !Cyclic(g)
  {
    if Cyclic(g) {
      var c :| OnCycle(Arrow(g), c);
      CycleStartsAtKey(g, c);
      FinishedReachNoCycle(g, finished, c);
    }
  }

  /**
   With `allComponents` false the answer is whether a cycle can be reached from the root;
   with it true, whether the adjacency has any cycle, although both sets are shared by
   every start node.
   */
  method HasCycle<T(==, !new)>(root: T, adjacency: Adjacency<T>, allComponents: bool) returns (cyclic: bool)
    ensures !allComponents ==> (cyclic <==> CycleReachable(adjacency, root))
    ensures allComponents ==> (cyclic <==> Cyclic(adjacency))
  {
    hide Searching, StepsBack, OnCycle, Reaches;
    var search := new CycleSearch(adjacency, root);
    assert search.trail + [root] == [root];
    cyclic := search.Visit(root);
    if !cyclic {
      FinishedReachNoCycle(adjacency, search.finished, root);
    }
    if cyclic || !allComponents {
      return;
    }
    var keys := adjacency.Keys;
    while keys != {} && !cyclic
      invariant keys <= adjacency.Keys
      invariant search.adjacency == adjacency && search.universe == Mentioned(adjacency, root)
      invariant fresh(search)
      invariant cyclic ==> Cyclic(adjacency)
      invariant !cyclic ==> search.Valid() && search.trail == []
      invariant !cyclic ==> adjacency.Keys - keys <= Elements(search.finished)
      decreases |keys|, if cyclic then 0 else 1
    {
      var key :| key in keys;
      assert search.trail + [key] == [key];
      ghost var before := search.finished;
      cyclic := search.Visit(key);
      keys := keys - {key};
      if !cyclic {
        PrefixElements(before, search.finished);
      }
    }
    if !cyclic {
      AllFinished(adjacency, search.finished);
    }
  }

  // ---------------------------------------------------------------- connectivity

  datatype Edge<T> = Edge(id: T, left: T, right: T)

  ghost function Joins<T(!new)>(edges: seq<Edge<T>>): (T, T) -> bool {
    (a, b) => exists e :: e in edges && ((e.left == a && e.right == b) || (e.left == b && e.right == a))
  }

  ghost predicate Connected<T(!new)>(nodes: seq<T>, edges: seq<Edge<T>>) {
    forall a, b | a in nodes && b in nodes :: Reaches(Joins(edges), a, b)
  }

  predicate Distinct<T(==)>(s: seq<T>) {
    forall i, j | 0 <= i < j < |s| :: s[i] != s[j]
  }

  lemma {:induction false} DistinctCount<T>(s: seq<T>)
    ensures |set x | x in s| <= |s|
    ensures Distinct(s) <==> |set x | x in s| == |s|
  {
    if s != [] {
      var n := |s| - 1;
      DistinctCount(s[..n]);
      var front := set x | x in s[..n];
      assert s == s[..n] + [s[n]];
      assert (set x | x in s) == front + {s[n]};
      assert s[n] in front <==> exists i :: 0 <= i < n && s[i] == s[n];
    }
  }

  lemma JoinOneMore<T(!new)>(edges: seq<Edge<T>>, i: nat)
    requires i < |edges|
    ensures forall a, b :: Joins(edges[..i + 1])(a, b) <==>
      || Joins(edges[..i])(a, b)
      || (a == edges[i].left && b == edges[i].right)
      || (a == edges[i].right && b == edges[i].left)
  {
    assert edges[..i + 1] == edges[..i] + [edges[i]];
    forall a, b | Joins(edges[..i])(a, b)
      ensures Joins(edges[..i + 1])(a, b)
    {
      var e :| e in edges[..i] && ((e.left == a && e.right == b) || (e.left == b && e.right == a));
      assert e in edges[..i + 1];
    }
    assert edges[i] in edges[..i + 1];
  }

  function Push<T>(g: Adjacency<T>, a: T, b: T): Adjacency<T> {
    g[a := (if a in g then g[a] else []) + [b]]
  }

  lemma PushAdds<T(!new)>(g: Adjacency<T>, a: T, b: T)
    ensures forall x, y :: Arrow(Push(g, a, b))(x, y) <==> Arrow(g)(x, y) || (x == a && y == b)
  {
  }

  /** The symmetric adjacency lists of a layer's edges. */
  method Neighbours<T(==, !new)>(nodes: seq<T>, edges: seq<Edge<T>>) returns (g: Adjacency<T>)
    ensures forall a, b :: Arrow(g)(a, b) <==> Joins(edges)(a, b)
    ensures forall a | a in nodes :: a in g
  {
    g := map[];
    for i := 0 to |nodes|
      invariant forall k | 0 <= k < i :: nodes[k] in g
      invariant forall a | a in g :: g[a] == []
    {
      g := g[nodes[i] := []];
    }
    assert forall a, b :: !Arrow(g)(a, b) && !Joins(edges[..0])(a, b);
    hide Arrow, Joins;
    for i := 0 to |edges|
      invariant forall a | a in nodes :: a in g
      invariant forall a, b :: Arrow(g)(a, b) <==> Joins(edges[..i])(a, b)
    {
      var e := edges[i];
      PushAdds(g, e.left, e.right);
      g := Push(g, e.left, e.right);
      PushAdds(g, e.right, e.left);
      g := Push(g, e.right, e.left);
      JoinOneMore(edges, i);
    }
    assert edges[..|edges|] == edges;
  }

  /**
   Under the checks made before it (distinct members, endpoints in the layer) the stack
   search accepts exactly when every two nodes are joined by an undirected path.
   */
  method IsConnected<T(==, !new)>(nodes: seq<T>, edges: seq<Edge<T>>) returns (ok: bool)
    requires Distinct(nodes)
    requires forall e | e in edges :: e.left in nodes && e.right in nodes
    ensures ok <==> Connected(nodes, edges)
  {
    var r := Joins(edges);
    if |nodes| <= 1 {
      forall a | a in nodes
        ensures Reaches(r, a, a)
      {
        ReachesSelf(r, a);
      }
      return true;
    }
    var adjacency := Neighbours(nodes, edges);
    var start := nodes[0];
    var pending := [start];
    var visited := {};
    ghost var members := set x | x in nodes;
    ReachesSelf(r, start);
    while pending != []
      invariant visited <= members
      invariant forall x | x in pending :: x in members
      invariant forall x | x in visited || x in pending :: Reaches(r, start, x)
      invariant start in visited || start in pending
      invariant forall a, b | a in visited && r(a, b) :: b in visited || b in pending
      decreases members - visited, |pending|
    {
      var node := pending[|pending| - 1];
      pending := pending[..|pending| - 1];
      if node !in visited {
        forall b | b in adjacency[node]
          ensures b in members && Reaches(r, start, b)
        {
          assert Arrow(adjacency)(node, b);
          ReachesStep(r, start, node, b);
        }
        visited := visited + {node};
        pending := pending + adjacency[node];
        assert forall b | r(node, b) :: Arrow(adjacency)(node, b);
      }
    }
    DistinctCount(nodes);
    ok := |visited| == |nodes|;
    SearchDecides(nodes, edges, visited);
  }

  /** The searched component is the whole layer exactly when the layer is connected. */
  lemma SearchDecides<T(!new)>(nodes: seq<T>, edges: seq<Edge<T>>, visited: set<T>)
    requires |nodes| > 1 && Distinct(nodes)
    requires visited <= set x | x in nodes
    requires nodes[0] in visited && Closed(Joins(edges), visited)
    requires forall x | x in visited :: Reaches(Joins(edges), nodes[0], x)
    ensures |visited| == |nodes| <==> Connected(nodes, edges)
  {
    var r, members := Joins(edges), set x | x in nodes;
    DistinctCount(nodes);
    if |visited| == |nodes| {
      SubsetOfSameSize(visited, members);
      forall a, b | a in nodes && b in nodes
        ensures Reaches(r, a, b)
      {
        assert a in members && b in members;
        ReachesSymmetric(r, nodes[0], a);
        ReachesTransitive(r, a, nodes[0], b);
      }
    }
    if Connected(nodes, edges) {
      forall b | b in members
        ensures b in visited
      {
        ClosedHoldsReached(r, visited, nodes[0], b);
      }
      assert visited == members;
    }
  }

  lemma SubsetOfSameSize<T>(s: set<T>, t: set<T>)
    requires s <= t && |s| == |t|
    ensures s == t
  {
    assert t == s + (t - s);
  }
}
