/**
 Validation of one accepted view: the layers a turn's root action opens, checked layer by
 layer along a breadth-first navigation worklist.

 `ViewOk` says what an acceptable view is without mentioning a worklist, a visited set or
 an insertion order; `ValidateAcceptedView` decides exactly that.
 */
module AcceptedView {
  import opened Text
  import opened Walks
  import opened GraphChecks
  import opened ExportModel

  // ------------------------------------------------------------ what a view must satisfy

  /** A route's ends are its edge's two nodes, in either order, or left out. */
  ghost predicate EndsOk<I>(ends: seq<I>, e: Edge<I>) {
    ends == [] || ends == [e.left, e.right] || ends == [e.right, e.left]
  }

  ghost predicate RouteOk<I>(edges: seq<Edge<I>>, r: Route<I>) {
    (exists e | e in edges :: e.id == r.edge && EndsOk(r.ends, e)) && (r.bent ==> r.ends != [])
  }

  /** Every node of the layer is placed once, and each route is for another edge of the layer. */
  ghost predicate LayoutOk<I(!new)>(l: Layer<I>, y: Layout<I>) {
    && |y.placements| == |l.memberNodes|
    && Distinct(y.placements)
    && (forall p | p in y.placements :: p in l.memberNodes)
    && Distinct(RouteIds(y.routes))
    && (forall i | 0 <= i < |y.routes| :: RouteOk(l.edges, y.routes[i]))
  }

  ghost predicate LayerOk<I(!new)>(l: Layer<I>) {
    && 1 <= |l.nodes| <= MAX_NODES_PER_LAYER
    && |l.edges| <= MAX_EDGES_PER_LAYER
    && |l.actions| <= MAX_ACTIONS_PER_LAYER
    && l.memberNodes == NodeIds(l.nodes)
    && l.memberEdges == EdgeIds(l.edges)
    && Distinct(l.memberNodes)
    && Distinct(l.memberEdges)
    && (l.defaultNode.Some? ==> l.defaultNode.value in l.memberNodes)
    && (l.layout.Some? ==> LayoutOk(l, l.layout.value))
    && (forall n | n in l.nodes :: !(n.authoredDetail.Some? && n.authoredDetailOmitted.Some?))
    && (forall e | e in l.edges :: e.left != e.right && e.left in l.memberNodes && e.right in l.memberNodes)
    && Connected(l.memberNodes, l.edges)
    && Distinct(ActionIds(l.actions))
  }

  ghost predicate ActionOk<I>(a: Action<I>) {
    && (a.reusable.Some? ==> a.kind == Invoke || a.converted)
    && (a.inputActions != [] ==> a.kind == Invoke)
    && (forall i, j | 0 <= i < j < |a.inputActions| :: a.inputActions[i] != a.inputActions[j])
    && (a.converted ==> a.kind == Navigate && a.relation == Some(Expand) && a.target.Some?)
    && match a.kind
       case Navigate => a.relation.Some? && a.target.Some? && a.interactionText.None? && a.input.None?
       case Invoke => a.relation.None? && a.target.None? && a.input.None?
                      && a.interactionText.Some? && !Blank(a.interactionText.value)
       case Input => a.relation.None? && a.target.None? && a.interactionText.None? && a.input.Some?
  }

  ghost predicate RootActionOk<I>(v: View<I>) {
    var a := v.rootAction;
    && ActionOk(a)
    && !a.converted
    && a.sourceNode == v.interactionNode
    && a.sourceLayer.None?
    && a.kind == Navigate
    && a.relation == Some(Expand)
    && a.target == Some(v.rootLayer)
  }

  /** An input action a callable may bind: same source node, in the view or the header. */
  ghost predicate Binds<I>(x: Action<I>, id: I, source: I) {
    x.id == id && x.kind == Input && x.sourceNode == source
  }

  ghost predicate BindingResolved<I>(v: View<I>, bound: seq<Action<I>>, id: I, source: I) {
    || (exists l | l in v.layers :: exists x | x in l.actions :: Binds(x, id, source))
    || (exists x | x in bound :: Binds(x, id, source))
  }

  /** One layer action against the view it stands in. */
  ghost predicate ActionInPlace<I>(v: View<I>, version: int, bound: seq<Action<I>>, l: Layer<I>, a: Action<I>) {
    && ActionOk(a)
    && (a.reusable.Some? ==> version >= V4)
    && (a.inputActions != [] ==> version == V4)
    && (forall id | id in a.inputActions :: BindingResolved(v, bound, id, a.sourceNode))
    && a.id != v.rootAction.id
    && a.sourceNode in l.memberNodes
    && (a.sourceLayer.None? ==> version >= V3 && a.kind == Navigate)
    && (forall s | s in v.layers && a.sourceLayer == Some(s.id) :: a.sourceNode in s.memberNodes)
    && (a.kind == Navigate ==> a.target.Some? && a.target.value in LayerIds(v.layers))
  }

  /** One definition per node id; before V3, one node per client key. */
  ghost predicate NodesAgree<I>(nodes: set<Node<I>>, version: int) {
    && (forall x, y | x in nodes && y in nodes && x.id == y.id :: x == y)
    && (version < V3 ==> forall x, y | x in nodes && y in nodes && x.clientKey.Some? && x.clientKey == y.clientKey :: x.id == y.id)
  }

  ghost predicate EdgesAgree<I>(edges: set<Edge<I>>) {
    forall x, y | x in edges && y in edges && x.id == y.id :: x == y
  }

  ghost predicate OneDefinition<I>(actions: set<Action<I>>) {
    forall x, y | x in actions && y in actions && x.id == y.id :: x == y
  }

  ghost predicate OneKeyHolder<I>(actions: set<Action<I>>) {
    forall x, y | x in actions && y in actions && x.sourceNode == y.sourceNode
      && x.clientKey.Some? && x.clientKey == y.clientKey :: x.id == y.id
  }

  ghost predicate OneRelation<I>(actions: set<Action<I>>, root: I) {
    && (forall x, y | x in actions && y in actions && x.kind == Navigate && y.kind == Navigate
          && x.target == y.target :: x.relation == y.relation)
    && (forall x | x in actions && x.kind == Navigate && x.target == Some(root) :: x.relation == Some(Expand))
  }

  /** One definition per action id, one action per source and client key; before V3, one relation per target. */
  ghost predicate ActionsAgree<I>(actions: set<Action<I>>, root: I, version: int) {
    OneDefinition(actions) && OneKeyHolder(actions) && (version < V3 ==> OneRelation(actions, root))
  }

  ghost function NodesOf<I(!new)>(layers: seq<Layer<I>>): set<Node<I>> {
    set l, n | l in layers && n in l.nodes :: n
  }

  ghost function EdgesOf<I(!new)>(layers: seq<Layer<I>>): set<Edge<I>> {
    set l, e | l in layers && e in l.edges :: e
  }

  ghost function ActionsOf<I(!new)>(layers: seq<Layer<I>>): set<Action<I>> {
    set l, a | l in layers && a in l.actions :: a
  }

  /** Layer `a` holds a navigate action to layer `b`. */
  ghost function Navigates<I(!new)>(layers: seq<Layer<I>>): (I, I) -> bool {
    (a, b) => exists l, x :: l in layers && l.id == a && x in l.actions && x.kind == Navigate && x.target == Some(b)
  }

  /** Layer `a` holds an expand action to layer `b`. */
  ghost function Expands<I(!new)>(layers: seq<Layer<I>>): (I, I) -> bool {
    (a, b) => exists l, x :: l in layers && l.id == a && x in l.actions && x.kind == Navigate
                             && x.relation == Some(Expand) && x.target == Some(b)
  }

  ghost predicate ExpandAcyclic<I(!new)>(v: View<I>, version: int) {
    if version >= V3 then
      forall c :: !OnCycle(Expands(v.layers), c)
    else
      forall c | Reaches(Expands(v.layers), v.rootLayer, c) :: !OnCycle(Expands(v.layers), c)
  }

  ghost predicate LayersOk<I(!new)>(v: View<I>, version: int) {
    && 1 <= |v.layers| <= MAX_LAYERS_PER_TURN
    && Distinct(LayerIds(v.layers))
    && (version < V3 ==> LayerKeysAgree(v.layers))
    && (forall l | l in v.layers :: LayerOk(l))
    && v.rootLayer in LayerIds(v.layers)
  }

  /** Every action is in place and equal identifiers mean equal records, over the whole view. */
  ghost predicate Records<I(!new)>(v: View<I>, version: int, bound: seq<Action<I>>) {
    && (forall l, a | l in v.layers && a in l.actions :: ActionInPlace(v, version, bound, l, a))
    && NodesAgree(NodesOf(v.layers), version)
    && EdgesAgree(EdgesOf(v.layers))
    && ActionsAgree(ActionsOf(v.layers), v.rootLayer, version)
  }

  ghost predicate ViewOk<I(!new)>(v: View<I>, version: int, bound: seq<Action<I>>) {
    && RootActionOk(v)
    && LayersOk(v, version)
    && Records(v, version, bound)
    && (forall id | id in LayerIds(v.layers) :: Reaches(Navigates(v.layers), v.rootLayer, id))
    && ExpandAcyclic(v, version)
  }

  /** An acceptable view holds exactly the layers reachable from its root by navigation. */
  lemma AcceptedIsNavigationClosure<I(!new)>(v: View<I>, version: int, bound: seq<Action<I>>)
    requires ViewOk(v, version, bound)
    ensures forall id :: id in LayerIds(v.layers) <==> Reaches(Navigates(v.layers), v.rootLayer, id)
  {
    var ids := Elements(LayerIds(v.layers));
    assert Closed(Navigates(v.layers), ids) by {
      forall a, b | a in ids && Navigates(v.layers)(a, b)
        ensures b in ids
      {
        var l, x :| l in v.layers && l.id == a && x in l.actions && x.kind == Navigate && x.target == Some(b);
        assert ActionInPlace(v, version, bound, l, x);
      }
    }
    forall id | Reaches(Navigates(v.layers), v.rootLayer, id)
      ensures id in LayerIds(v.layers)
    {
      ClosedHoldsReached(Navigates(v.layers), ids, v.rootLayer, id);
    }
  }

  // ------------------------------------------------------------ one layer

  method AllDistinct<T(==)>(s: seq<T>) returns (ok: bool)
    ensures ok <==> Distinct(s)
  {
    DistinctCount(s);
    ok := |set x | x in s| == |s|;
  }

  method CheckRoute<I(==, !new)>(edges: seq<Edge<I>>, r: Route<I>) returns (ok: bool)
    requires Distinct(EdgeIds(edges))
    ensures ok <==> RouteOk(edges, r)
  {
    var i := 0;
    while i < |edges| && edges[i].id != r.edge
      invariant 0 <= i <= |edges| && forall k | 0 <= k < i :: edges[k].id != r.edge
    {
      i := i + 1;
    }
    if i == |edges| {
      return false;
    }
    assert forall e | e in edges && e.id == r.edge :: e == edges[i] by {
      forall k | 0 <= k < |edges| && edges[k].id == r.edge
        ensures k == i
      {
        assert EdgeIds(edges)[k] == EdgeIds(edges)[i];
      }
    }
    var e := edges[i];
    if r.ends != [] {
      if |r.ends| != 2 {
        return false;
      }
      if !((r.ends[0] == e.left && r.ends[1] == e.right) || (r.ends[0] == e.right && r.ends[1] == e.left)) {
        return false;
      }
      assert r.ends == [r.ends[0], r.ends[1]];
    }
    ok := !r.bent || r.ends != [];
  }

  method CheckLayout<I(==, !new)>(l: Layer<I>, y: Layout<I>) returns (ok: bool)
    requires Distinct(EdgeIds(l.edges))
    ensures ok <==> LayoutOk(l, y)
  {
    for i := 0 to |y.routes|
      invariant forall k | 0 <= k < i :: RouteOk(l.edges, y.routes[k])
    {
      ok := CheckRoute(l.edges, y.routes[i]);
      if !ok {
        return;
      }
    }
    ok := AllDistinct(RouteIds(y.routes));
    if !ok || |y.placements| != |l.memberNodes| {
      return false;
    }
    for i := 0 to |y.placements|
      invariant forall k | 0 <= k < i :: y.placements[k] in l.memberNodes
    {
      if y.placements[i] !in l.memberNodes {
        return false;
      }
    }
    ok := AllDistinct(y.placements);
  }

  method ValidateLayer<I(==, !new)>(l: Layer<I>) returns (ok: bool)
    ensures ok <==> LayerOk(l)
  {
    hide LayoutOk;
    if l.nodes == [] || |l.nodes| > MAX_NODES_PER_LAYER
       || |l.edges| > MAX_EDGES_PER_LAYER || |l.actions| > MAX_ACTIONS_PER_LAYER {
      return false;
    }
    var nodeIds, edgeIds := NodeIds(l.nodes), EdgeIds(l.edges);
    if l.memberNodes != nodeIds || l.memberEdges != edgeIds {
      return false;
    }
    var nodesDistinct := AllDistinct(nodeIds);
    var edgesDistinct := AllDistinct(edgeIds);
    if !nodesDistinct || !edgesDistinct {
      return false;
    }
    if l.defaultNode.Some? && l.defaultNode.value !in nodeIds {
      return false;
    }
    if l.layout.Some? {
      ok := CheckLayout(l, l.layout.value);
      if !ok {
        return;
      }
    }
    for i := 0 to |l.nodes|
      invariant forall n | n in l.nodes[..i] :: !(n.authoredDetail.Some? && n.authoredDetailOmitted.Some?)
    {
      if l.nodes[i].authoredDetail.Some? && l.nodes[i].authoredDetailOmitted.Some? {
        return false;
      }
      assert l.nodes[..i + 1] == l.nodes[..i] + [l.nodes[i]];
    }
    assert l.nodes[..|l.nodes|] == l.nodes;
    for i := 0 to |l.edges|
      invariant forall e | e in l.edges[..i] :: e.left != e.right && e.left in nodeIds && e.right in nodeIds
    {
      var e := l.edges[i];
      if e.left == e.right || e.left !in nodeIds || e.right !in nodeIds {
        return false;
      }
      assert l.edges[..i + 1] == l.edges[..i] + [e];
    }
    assert l.edges[..|l.edges|] == l.edges;
    var connected := IsConnected(nodeIds, l.edges);
    if !connected {
      return false;
    }
    ok := AllDistinct(ActionIds(l.actions));
  }

  // ------------------------------------------------------------ the per-view indexes

  /** The maps a view's nodes are inserted into hold exactly the nodes seen so far. */
  ghost predicate NodeIndex<I(!new)>(byId: map<I, Node<I>>, byKey: map<string, I>, seen: set<Node<I>>, version: int) {
    && (forall n | n in seen :: n.id in byId && byId[n.id] == n)
    && (forall k | k in byId :: byId[k] in seen && byId[k].id == k)
    && (version < V3 ==>
          && (forall n | n in seen && n.clientKey.Some? :: n.clientKey.value in byKey && byKey[n.clientKey.value] == n.id)
          && (forall k | k in byKey :: exists n :: n in seen && n.clientKey == Some(k) && n.id == byKey[k]))
  }

  method IndexNodes<I(==, !new)>(nodes: seq<Node<I>>, version: int, byId: map<I, Node<I>>, byKey: map<string, I>, ghost seen: set<Node<I>>)
    returns (ok: bool, byId': map<I, Node<I>>, byKey': map<string, I>)
    requires NodeIndex(byId, byKey, seen, version)
    ensures ok ==> NodeIndex(byId', byKey', seen + Elements(nodes), version)
    ensures !ok ==> !NodesAgree(seen + Elements(nodes), version)
  {
    byId', byKey' := byId, byKey;
    assert seen + Elements(nodes[..0]) == seen;
    for i := 0 to |nodes|
      invariant NodeIndex(byId', byKey', seen + Elements(nodes[..i]), version)
    {
      var n := nodes[i];
      ghost var before := seen + Elements(nodes[..i]);
      assert nodes[..i + 1] == nodes[..i] + [n];
      assert seen + Elements(nodes[..i + 1]) == before + {n};
      assert before + {n} <= seen + Elements(nodes);
      if n.id in byId' && byId'[n.id] != n {
        ok := false;
        return;
      }
      byId' := byId'[n.id := n];
      if version < V3 && n.clientKey.Some? {
        var key := n.clientKey.value;
        if key in byKey' && byKey'[key] != n.id {
          ok := false;
          return;
        }
        byKey' := byKey'[key := n.id];
      }
    }
    assert nodes[..|nodes|] == nodes;
    ok := true;
  }

  ghost predicate EdgeIndex<I(!new)>(byId: map<I, Edge<I>>, seen: set<Edge<I>>) {
    && (forall e | e in seen :: e.id in byId && byId[e.id] == e)
    && (forall k | k in byId :: byId[k] in seen && byId[k].id == k)
  }

  method IndexEdges<I(==, !new)>(edges: seq<Edge<I>>, byId: map<I, Edge<I>>, ghost seen: set<Edge<I>>)
    returns (ok: bool, byId': map<I, Edge<I>>)
    requires EdgeIndex(byId, seen)
    ensures ok ==> EdgeIndex(byId', seen + Elements(edges))
    ensures !ok ==> !EdgesAgree(seen + Elements(edges))
  {
    byId' := byId;
    assert seen + Elements(edges[..0]) == seen;
    for i := 0 to |edges|
      invariant EdgeIndex(byId', seen + Elements(edges[..i]))
    {
      var e := edges[i];
      assert edges[..i + 1] == edges[..i] + [e];
      assert seen + Elements(edges[..i + 1]) == seen + Elements(edges[..i]) + {e};
      if e.id in byId' && byId'[e.id] != e {
        assert byId'[e.id] in seen + Elements(edges);
        ok := false;
        return;
      }
      byId' := byId'[e.id := e];
    }
    assert edges[..|edges|] == edges;
    ok := true;
  }

  datatype ActionMaps<I(==)> = ActionMaps(
    byId: map<I, Action<I>>,
    byKey: map<(I, string), I>,
    relations: map<I, Relation>)

  ghost predicate ActionIndex<I(!new)>(m: ActionMaps<I>, seen: set<Action<I>>, root: I, version: int) {
    IdIndex(m.byId, seen) && KeyIndex(m.byKey, seen) && (version < V3 ==> RelationIndex(m.relations, seen, root))
  }

  ghost predicate IdIndex<I(!new)>(byId: map<I, Action<I>>, seen: set<Action<I>>) {
    && (forall a | a in seen :: a.id in byId && byId[a.id] == a)
    && (forall k | k in byId :: byId[k] in seen && byId[k].id == k)
  }

  ghost predicate KeyIndex<I(!new)>(byKey: map<(I, string), I>, seen: set<Action<I>>) {
    && (forall a | a in seen && a.clientKey.Some? ::
          (a.sourceNode, a.clientKey.value) in byKey && byKey[(a.sourceNode, a.clientKey.value)] == a.id)
    && (forall k | k in byKey :: exists a :: a in seen && a.sourceNode == k.0 && a.clientKey == Some(k.1) && a.id == byKey[k])
  }

  ghost predicate RelationIndex<I(!new)>(relations: map<I, Relation>, seen: set<Action<I>>, root: I) {
    && root in relations && relations[root] == Expand
    && (forall a | a in seen && a.kind == Navigate ::
          a.target.Some? && a.target.value in relations && a.relation == Some(relations[a.target.value]))
    && (forall k | k in relations && k != root ::
          exists a :: a in seen && a.kind == Navigate && a.target == Some(k) && a.relation == Some(relations[k]))
  }

  lemma KeyInserted<I(!new)>(a: Action<I>, byKey: map<(I, string), I>, seen: set<Action<I>>)
    requires KeyIndex(byKey, seen) && a.clientKey.Some?
    ensures var key := (a.sourceNode, a.clientKey.value);
            if key in byKey && byKey[key] != a.id then !OneKeyHolder(seen + {a}) else KeyIndex(byKey[key := a.id], seen + {a})
  {
    var key := (a.sourceNode, a.clientKey.value);
    if key in byKey && byKey[key] != a.id {
      var x :| x in seen && x.sourceNode == key.0 && x.clientKey == Some(key.1) && x.id == byKey[key];
      assert x in seen + {a} && a in seen + {a};
    } else {
      forall k | k in byKey[key := a.id]
        ensures exists x :: x in seen + {a} && x.sourceNode == k.0 && x.clientKey == Some(k.1) && x.id == byKey[key := a.id][k]
      {
        if k == key {
          assert a in seen + {a};
        } else {
          var x :| x in seen && x.sourceNode == k.0 && x.clientKey == Some(k.1) && x.id == byKey[k];
          assert x in seen + {a};
        }
      }
    }
  }

  lemma RelationInserted<I(!new)>(a: Action<I>, relations: map<I, Relation>, seen: set<Action<I>>, root: I)
    requires RelationIndex(relations, seen, root) && a.kind == Navigate && a.target.Some? && a.relation.Some?
    ensures var t := a.target.value;
            if t in relations && relations[t] != a.relation.value then !OneRelation(seen + {a}, root)
            else RelationIndex(relations[t := a.relation.value], seen + {a}, root)
  {
    var t := a.target.value;
    if t in relations && relations[t] != a.relation.value {
      assert a in seen + {a};
      if t != root {
        var x :| x in seen && x.kind == Navigate && x.target == Some(t) && x.relation == Some(relations[t]);
        assert x in seen + {a};
      }
    } else {
      var after := relations[t := a.relation.value];
      forall k | k in after && k != root
        ensures exists x :: x in seen + {a} && x.kind == Navigate && x.target == Some(k) && x.relation == Some(after[k])
      {
        if k == t {
          assert a in seen + {a};
        } else {
          var x :| x in seen && x.kind == Navigate && x.target == Some(k) && x.relation == Some(relations[k]);
          assert x in seen + {a};
        }
      }
    }
  }

  lemma IdInserted<I(!new)>(a: Action<I>, byId: map<I, Action<I>>, seen: set<Action<I>>)
    requires IdIndex(byId, seen)
    ensures if a.id in byId && byId[a.id] != a then !OneDefinition(seen + {a}) else IdIndex(byId[a.id := a], seen + {a})
  {
    if a.id in byId && byId[a.id] != a {
      assert byId[a.id] in seen + {a} && a in seen + {a};
    }
  }

  /** Inserts one shape-checked action; a refused insertion names two actions that disagree. */
  method IndexAction<I(==, !new)>(a: Action<I>, version: int, root: I, m: ActionMaps<I>, ghost seen: set<Action<I>>)
    returns (ok: bool, m': ActionMaps<I>)
    requires ActionIndex(m, seen, root, version) && ActionOk(a)
    ensures ok ==> ActionIndex(m', seen + {a}, root, version)
    ensures !ok ==> !ActionsAgree(seen + {a}, root, version)
  {
    var ActionMaps(byId, byKey, relations) := m;
    ok, m' := false, m;
    IdInserted(a, byId, seen);
    if a.id in byId && byId[a.id] != a {
      return;
    }
    byId := byId[a.id := a];
    if a.clientKey.Some? {
      KeyInserted(a, byKey, seen);
      var key := (a.sourceNode, a.clientKey.value);
      if key in byKey && byKey[key] != a.id {
        return;
      }
      byKey := byKey[key := a.id];
    } else {
      KeyIndexGrows(a, byKey, seen);
    }
    assert KeyIndex(byKey, seen + {a});
    if version < V3 {
      if a.kind == Navigate {
        RelationInserted(a, relations, seen, root);
        var target := a.target.value;
        if target in relations && relations[target] != a.relation.value {
          return;
        }
        relations := relations[target := a.relation.value];
      } else {
        RelationIndexGrows(a, relations, seen, root);
      }
    }
    ok, m' := true, ActionMaps(byId, byKey, relations);
  }

  lemma KeyIndexGrows<I(!new)>(a: Action<I>, byKey: map<(I, string), I>, seen: set<Action<I>>)
    requires KeyIndex(byKey, seen) && a.clientKey.None?
    ensures KeyIndex(byKey, seen + {a})
  {
    forall k | k in byKey
      ensures exists x :: x in seen + {a} && x.sourceNode == k.0 && x.clientKey == Some(k.1) && x.id == byKey[k]
    {
      var x :| x in seen && x.sourceNode == k.0 && x.clientKey == Some(k.1) && x.id == byKey[k];
      assert x in seen + {a};
    }
  }

  lemma RelationIndexGrows<I(!new)>(a: Action<I>, relations: map<I, Relation>, seen: set<Action<I>>, root: I)
    requires RelationIndex(relations, seen, root) && a.kind != Navigate
    ensures RelationIndex(relations, seen + {a}, root)
  {
    forall k | k in relations && k != root
      ensures exists x :: x in seen + {a} && x.kind == Navigate && x.target == Some(k) && x.relation == Some(relations[k])
    {
      var x :| x in seen && x.kind == Navigate && x.target == Some(k) && x.relation == Some(relations[k]);
      assert x in seen + {a};
    }
  }

  // ------------------------------------------------------------ one layer's records

  ghost predicate LayerMap<I(!new)>(m: map<I, Layer<I>>, layers: seq<Layer<I>>) {
    && (forall l | l in layers :: l.id in m && m[l.id] == l)
    && (forall k | k in m :: m[k] in layers && m[k].id == k)
  }

  lemma LayerMapKeys<I(!new)>(m: map<I, Layer<I>>, layers: seq<Layer<I>>)
    requires LayerMap(m, layers)
    ensures m.Keys == Elements(LayerIds(layers))
  {
    forall k | k in m
      ensures k in LayerIds(layers)
    {
      var i :| 0 <= i < |layers| && layers[i] == m[k];
      assert LayerIds(layers)[i] == k;
    }
  }

  /** Whether an input action of this id and source is among the actions. */
  method Offers<I(==)>(actions: seq<Action<I>>, id: I, source: I) returns (found: bool)
    ensures found <==> exists x | x in actions :: Binds(x, id, source)
  {
    for i := 0 to |actions|
      invariant forall k | 0 <= k < i :: !Binds(actions[k], id, source)
    {
      var x := actions[i];
      if x.id == id && x.kind == Input && x.sourceNode == source {
        assert Binds(x, id, source);
        return true;
      }
    }
    return false;
  }

  method FindBinding<I(==)>(v: View<I>, bound: seq<Action<I>>, id: I, source: I) returns (found: bool)
    ensures found <==> BindingResolved(v, bound, id, source)
  {
    for i := 0 to |v.layers|
      invariant forall k | 0 <= k < i :: !exists x | x in v.layers[k].actions :: Binds(x, id, source)
    {
      found := Offers(v.layers[i].actions, id, source);
      if found {
        assert v.layers[i] in v.layers;
        return;
      }
    }
    found := Offers(bound, id, source);
  }

  method BindingsResolved<I(==, !new)>(v: View<I>, bound: seq<Action<I>>, a: Action<I>) returns (ok: bool)
    ensures ok <==> forall id | id in a.inputActions :: BindingResolved(v, bound, id, a.sourceNode)
  {
    hide BindingResolved;
    for i := 0 to |a.inputActions|
      invariant forall id | id in a.inputActions[..i] :: BindingResolved(v, bound, id, a.sourceNode)
    {
      var id := a.inputActions[i];
      ok := FindBinding(v, bound, id, a.sourceNode);
      if !ok {
        return;
      }
      assert a.inputActions[..i + 1] == a.inputActions[..i] + [id];
    }
    assert a.inputActions[..|a.inputActions|] == a.inputActions;
    ok := true;
  }

  /** The checks on one action by itself, in the order they are made. */
  method ValidateAction<I(==)>(a: Action<I>) returns (ok: bool)
    ensures ok <==> ActionOk(a)
  {
    if a.reusable.Some? && a.kind != Invoke && !a.converted {
      return false;
    }
    if a.inputActions != [] && a.kind != Invoke {
      return false;
    }
    var unique := AllDistinct(a.inputActions);
    if !unique {
      return false;
    }
    if a.converted && (a.kind != Navigate || a.relation != Some(Expand) || a.target.None?) {
      return false;
    }
    if a.kind == Navigate {
      return a.relation.Some? && a.target.Some? && a.interactionText.None? && a.input.None?;
    }
    if a.relation.Some? || a.target.Some? {
      return false;
    }
    if a.kind == Invoke {
      return a.input.None? && a.interactionText.Some? && !Blank(a.interactionText.value);
    }
    return a.interactionText.None? && a.input.Some?;
  }

  method ValidateRootAction<I(==)>(v: View<I>) returns (ok: bool)
    ensures ok <==> RootActionOk(v)
  {
    var a := v.rootAction;
    ok := ValidateAction(a);
    if !ok || a.converted || a.sourceNode != v.interactionNode || a.sourceLayer.Some? {
      return false;
    }
    ok := a.kind == Navigate && a.relation == Some(Expand) && a.target == Some(v.rootLayer);
  }

  method ActionPlaced<I(==, !new)>(v: View<I>, version: int, bound: seq<Action<I>>, layers: map<I, Layer<I>>, l: Layer<I>, a: Action<I>)
    returns (ok: bool)
    requires LayerMap(layers, v.layers)
    ensures ok <==> ActionInPlace(v, version, bound, l, a)
  {
    LayerMapKeys(layers, v.layers);
    ok := ValidateAction(a);
    if !ok {
      return;
    }
    hide ActionOk, BindingResolved;
    if a.reusable.Some? && version < V4 {
      return false;
    }
    if a.inputActions != [] {
      if version != V4 {
        return false;
      }
      var resolved := BindingsResolved(v, bound, a);
      if !resolved {
        return false;
      }
    }
    if a.id == v.rootAction.id || a.sourceNode !in l.memberNodes {
      return false;
    }
    if a.sourceLayer.None? && !(version >= V3 && a.kind == Navigate) {
      return false;
    }
    if a.sourceLayer.Some? && a.sourceLayer.value in layers && a.sourceNode !in layers[a.sourceLayer.value].memberNodes {
      assert layers[a.sourceLayer.value] in v.layers;
      return false;
    }
    if a.kind == Navigate && a.target.value !in layers {
      return false;
    }
    ok := true;
  }

  ghost predicate NavigateTo<I>(actions: seq<Action<I>>, b: I) {
    exists x :: x in actions && x.kind == Navigate && x.target == Some(b)
  }

  ghost predicate ExpandTo<I>(actions: seq<Action<I>>, b: I) {
    exists x :: x in actions && x.kind == Navigate && x.relation == Some(Expand) && x.target == Some(b)
  }

  method CheckAction<I(==, !new)>(v: View<I>, version: int, bound: seq<Action<I>>, layers: map<I, Layer<I>>, l: Layer<I>, a: Action<I>,
                                  m: ActionMaps<I>, ghost seen: set<Action<I>>)
    returns (ok: bool, m': ActionMaps<I>)
    requires LayerMap(layers, v.layers) && ActionIndex(m, seen, v.rootLayer, version)
    ensures ok ==> ActionIndex(m', seen + {a}, v.rootLayer, version) && ActionInPlace(v, version, bound, l, a)
    ensures !ok ==> !ActionInPlace(v, version, bound, l, a) || !ActionsAgree(seen + {a}, v.rootLayer, version)
  {
    m' := m;
    ok := ActionPlaced(v, version, bound, layers, l, a);
    if ok {
      ok, m' := IndexAction(a, version, v.rootLayer, m, seen);
    }
  }

  function NavigateTarget<I>(a: Action<I>): seq<I> {
    if a.kind == Navigate && a.target.Some? then [a.target.value] else []
  }

  function ExpandTarget<I>(a: Action<I>): seq<I> {
    if a.relation == Some(Expand) then NavigateTarget(a) else []
  }

  function NavigateTargets<I>(actions: seq<Action<I>>): seq<I> {
    if actions == [] then [] else NavigateTargets(actions[..|actions| - 1]) + NavigateTarget(actions[|actions| - 1])
  }

  function ExpandTargets<I>(actions: seq<Action<I>>): seq<I> {
    if actions == [] then [] else ExpandTargets(actions[..|actions| - 1]) + ExpandTarget(actions[|actions| - 1])
  }

  lemma {:induction false} TargetsAre<I(!new)>(actions: seq<Action<I>>, b: I)
    ensures b in NavigateTargets(actions) <==> NavigateTo(actions, b)
    ensures b in ExpandTargets(actions) <==> ExpandTo(actions, b)
  {
    if actions != [] {
      var n := |actions| - 1;
      TargetsAre(actions[..n], b);
      assert actions == actions[..n] + [actions[n]];
      assert forall x :: x in actions <==> x in actions[..n] || x == actions[n];
    }
  }

  /** Checks and indexes a layer's actions, collecting its expand and navigate targets. */
  method CheckActions<I(==, !new)>(v: View<I>, version: int, bound: seq<Action<I>>, layers: map<I, Layer<I>>, l: Layer<I>,
                                   m: ActionMaps<I>, ghost seen: set<Action<I>>)
    returns (ok: bool, m': ActionMaps<I>, expands: seq<I>, targets: seq<I>)
    requires LayerMap(layers, v.layers) && ActionIndex(m, seen, v.rootLayer, version)
    ensures ok ==> ActionIndex(m', seen + Elements(l.actions), v.rootLayer, version)
    ensures ok ==> forall a | a in l.actions :: ActionInPlace(v, version, bound, l, a)
    ensures ok ==> expands == ExpandTargets(l.actions) && targets == NavigateTargets(l.actions)
    ensures !ok ==> (exists a :: a in l.actions && !ActionInPlace(v, version, bound, l, a))
                    || !ActionsAgree(seen + Elements(l.actions), v.rootLayer, version)
  {
    hide ActionIndex, LayerMap, ActionInPlace, ActionsAgree, Elements, ExpandTarget, NavigateTarget;
    m', expands, targets := m, [], [];
    NoneSeen(seen, l.actions);
    for i := 0 to |l.actions|
      invariant ActionIndex(m', seen + Elements(l.actions[..i]), v.rootLayer, version)
      invariant forall k | 0 <= k < i :: ActionInPlace(v, version, bound, l, l.actions[k])
      invariant expands == ExpandTargets(l.actions[..i]) && targets == NavigateTargets(l.actions[..i])
    {
      var a := l.actions[i];
      OneMoreSeen(seen, l.actions, i);
      assert l.actions[..i + 1][..i] == l.actions[..i];
      ok, m' := CheckAction(v, version, bound, layers, l, a, m', seen + Elements(l.actions[..i]));
      if !ok {
        ActionsAgreeShrinks(seen + Elements(l.actions[..i + 1]), seen + Elements(l.actions), v.rootLayer, version);
        return;
      }
      expands := expands + ExpandTarget(a);
      targets := targets + NavigateTarget(a);
    }
    assert l.actions[..|l.actions|] == l.actions;
    ok := true;
  }

  lemma NoneSeen<T>(seen: set<T>, s: seq<T>)
    ensures seen + Elements(s[..0]) == seen
  {
  }

  lemma OneMoreSeen<T>(seen: set<T>, s: seq<T>, i: nat)
    requires i < |s|
    ensures seen + Elements(s[..i + 1]) == seen + Elements(s[..i]) + {s[i]} <= seen + Elements(s)
  {
    assert s[..i + 1] == s[..i] + [s[i]];
  }

  lemma ActionsAgreeShrinks<I>(s: set<Action<I>>, t: set<Action<I>>, root: I, version: int)
    requires s <= t
    ensures ActionsAgree(t, root, version) ==> ActionsAgree(s, root, version)
  {
  }

  // ------------------------------------------------------------ the worklist

  ghost function NodesAt<I(!new)>(layers: seq<Layer<I>>, ids: set<I>): set<Node<I>> {
    set l, n | l in layers && l.id in ids && n in l.nodes :: n
  }

  ghost function EdgesAt<I(!new)>(layers: seq<Layer<I>>, ids: set<I>): set<Edge<I>> {
    set l, e | l in layers && l.id in ids && e in l.edges :: e
  }

  ghost function ActionsAt<I(!new)>(layers: seq<Layer<I>>, ids: set<I>): set<Action<I>> {
    set l, a | l in layers && l.id in ids && a in l.actions :: a
  }

  datatype Indexes<I(==)> = Indexes(
    nodesById: map<I, Node<I>>, nodeKeys: map<string, I>, edgesById: map<I, Edge<I>>,
    actions: ActionMaps<I>, expand: Adjacency<I>)

  /** What the view's maps hold once the layers in `visited` have been checked. */
  ghost predicate Indexed<I(!new)>(v: View<I>, version: int, bound: seq<Action<I>>, ix: Indexes<I>, visited: set<I>) {
    && NodeIndex(ix.nodesById, ix.nodeKeys, NodesAt(v.layers, visited), version)
    && EdgeIndex(ix.edgesById, EdgesAt(v.layers, visited))
    && ActionIndex(ix.actions, ActionsAt(v.layers, visited), v.rootLayer, version)
    && (forall a, b :: Arrow(ix.expand)(a, b) <==> a in visited && Expands(v.layers)(a, b))
    && (forall l, a | l in v.layers && l.id in visited && a in l.actions :: ActionInPlace(v, version, bound, l, a))
  }

  lemma OneMoreLayer<I(!new)>(v: View<I>, l: Layer<I>, visited: set<I>)
    requires l in v.layers && forall x | x in v.layers && x.id == l.id :: x == l
    ensures NodesAt(v.layers, visited + {l.id}) == NodesAt(v.layers, visited) + Elements(l.nodes) <= NodesOf(v.layers)
    ensures EdgesAt(v.layers, visited + {l.id}) == EdgesAt(v.layers, visited) + Elements(l.edges) <= EdgesOf(v.layers)
    ensures ActionsAt(v.layers, visited + {l.id}) == ActionsAt(v.layers, visited) + Elements(l.actions) <= ActionsOf(v.layers)
    ensures forall b :: Expands(v.layers)(l.id, b) <==> ExpandTo(l.actions, b)
    ensures forall b :: Navigates(v.layers)(l.id, b) <==> NavigateTo(l.actions, b)
  {
  }

  /** One layer's refused records are records of the view that the view's conditions refuse. */
  lemma RefusedRecords<I(!new)>(v: View<I>, version: int, bound: seq<Action<I>>, l: Layer<I>, visited: set<I>)
    requires l in v.layers && forall x | x in v.layers && x.id == l.id :: x == l
    requires
      || !NodesAgree(NodesAt(v.layers, visited) + Elements(l.nodes), version)
      || !EdgesAgree(EdgesAt(v.layers, visited) + Elements(l.edges))
      || (exists a :: a in l.actions && !ActionInPlace(v, version, bound, l, a))
      || !ActionsAgree(ActionsAt(v.layers, visited) + Elements(l.actions), v.rootLayer, version)
    ensures !Records(v, version, bound)
  {
    OneMoreLayer(v, l, visited);
    ActionsAgreeShrinks(ActionsAt(v.layers, visited + {l.id}), ActionsOf(v.layers), v.rootLayer, version);
  }

  lemma ExpandRecorded<I(!new)>(v: View<I>, l: Layer<I>, visited: set<I>, before: Adjacency<I>, after: Adjacency<I>)
    requires l in v.layers && forall x | x in v.layers && x.id == l.id :: x == l
    requires l.id !in visited
    requires forall a, b :: Arrow(before)(a, b) <==> a in visited && Expands(v.layers)(a, b)
    requires after == if ExpandTargets(l.actions) == [] then before else before[l.id := ExpandTargets(l.actions)]
    ensures forall a, b :: Arrow(after)(a, b) <==> a in visited + {l.id} && Expands(v.layers)(a, b)
  {
    hide Expands, ExpandTargets, ExpandTo, Navigates, NodesAt, EdgesAt, ActionsAt, NodesOf, EdgesOf, ActionsOf, Elements;
    OneMoreLayer(v, l, visited);
    forall a, b
      ensures Arrow(after)(a, b) <==> a in visited + {l.id} && Expands(v.layers)(a, b)
    {
      assert Arrow(before)(a, b) <==> a in visited && Expands(v.layers)(a, b);
      TargetsAre(l.actions, b);
    }
  }

  lemma LayerIndexed<I(!new)>(v: View<I>, version: int, bound: seq<Action<I>>, l: Layer<I>, ix: Indexes<I>, ix': Indexes<I>, visited: set<I>)
    requires l in v.layers && l.id !in visited && forall x | x in v.layers && x.id == l.id :: x == l
    requires Indexed(v, version, bound, ix, visited)
    requires NodeIndex(ix'.nodesById, ix'.nodeKeys, NodesAt(v.layers, visited) + Elements(l.nodes), version)
    requires EdgeIndex(ix'.edgesById, EdgesAt(v.layers, visited) + Elements(l.edges))
    requires ActionIndex(ix'.actions, ActionsAt(v.layers, visited) + Elements(l.actions), v.rootLayer, version)
    requires forall a | a in l.actions :: ActionInPlace(v, version, bound, l, a)
    requires ix'.expand == if ExpandTargets(l.actions) == [] then ix.expand else ix.expand[l.id := ExpandTargets(l.actions)]
    ensures Indexed(v, version, bound, ix', visited + {l.id})
  {
    hide NodeIndex, EdgeIndex, ActionIndex, ActionInPlace, NodesAt, EdgesAt, ActionsAt, Elements, Expands, ExpandTargets, Arrow;
    OneMoreLayer(v, l, visited);
    ExpandRecorded(v, l, visited, ix.expand, ix'.expand);
  }

  method CheckLayer<I(==, !new)>(v: View<I>, version: int, bound: seq<Action<I>>, layers: map<I, Layer<I>>, l: Layer<I>,
                                 ix: Indexes<I>, ghost visited: set<I>)
    returns (ok: bool, ix': Indexes<I>, targets: seq<I>)
    requires LayerMap(layers, v.layers) && l in v.layers
    requires Indexed(v, version, bound, ix, visited) && l.id !in visited
    ensures ok ==> Indexed(v, version, bound, ix', visited + {l.id})
    ensures ok ==> targets == NavigateTargets(l.actions)
    ensures !ok ==> !Records(v, version, bound)
  {
    assert forall x | x in v.layers && x.id == l.id :: x == l;
    hide NodeIndex, EdgeIndex, ActionIndex, ActionInPlace, LayerMap, NodesAgree, EdgesAgree, ActionsAgree, Records;
    hide NodesAt, EdgesAt, ActionsAt, Elements, Expands, ExpandTargets, NavigateTargets, Arrow;
    ok, ix', targets := false, ix, [];
    var nodesOk, nodesById, nodeKeys := IndexNodes(l.nodes, version, ix.nodesById, ix.nodeKeys, NodesAt(v.layers, visited));
    if !nodesOk {
      RefusedRecords(v, version, bound, l, visited);
      return;
    }
    var edgesOk, edgesById := IndexEdges(l.edges, ix.edgesById, EdgesAt(v.layers, visited));
    if !edgesOk {
      RefusedRecords(v, version, bound, l, visited);
      return;
    }
    var actionsOk, actions, expands, navigates := CheckActions(v, version, bound, layers, l, ix.actions, ActionsAt(v.layers, visited));
    if !actionsOk {
      RefusedRecords(v, version, bound, l, visited);
      return;
    }
    var expand := if expands == [] then ix.expand else ix.expand[l.id := expands];
    ok, ix', targets := true, Indexes(nodesById, nodeKeys, edgesById, actions, expand), navigates;
    LayerIndexed(v, version, bound, l, ix, ix', visited);
  }

  // ------------------------------------------------------------ the whole view

  /** The index of an empty view's layers: nothing inserted but the root's expand relation. */
  function EmptyIndexes<I(==)>(root: I): Indexes<I> {
    Indexes(map[], map[], map[], ActionMaps(map[], map[], map[root := Expand]), map[])
  }

  method CheckLayers<I(==, !new)>(v: View<I>, version: int) returns (ok: bool, layers: map<I, Layer<I>>)
    ensures ok <==> LayersOk(v, version)
    ensures ok ==> LayerMap(layers, v.layers) && |layers| == |v.layers|
  {
    hide LayerOk, LayerMap, LayerKeys;
    ok, layers := false, map[];
    if v.layers == [] || |v.layers| > MAX_LAYERS_PER_TURN {
      return;
    }
    var keys := map[];
    assert LayerMap(layers, v.layers[..0]) && LayerKeys(keys, v.layers[..0]) by { NoLayers(v.layers); }
    for i := 0 to |v.layers|
      invariant LayerMap(layers, v.layers[..i]) && |layers| == i
      invariant version < V3 ==> LayerKeys(keys, v.layers[..i])
      invariant forall k | 0 <= k < i :: LayerOk(v.layers[k])
    {
      var l := v.layers[i];
      MapOneMore(layers, v.layers, i);
      if l.id in layers {
        return;
      }
      layers := layers[l.id := l];
      if version < V3 {
        KeysOneMore(keys, v.layers, i);
        if l.clientKey.Some? {
          if l.clientKey.value in keys && keys[l.clientKey.value] != l.id {
            return;
          }
          keys := keys[l.clientKey.value := l.id];
        }
      }
      var valid := ValidateLayer(l);
      if !valid {
        return;
      }
    }
    assert v.layers[..|v.layers|] == v.layers;
    LayerMapKeys(layers, v.layers);
    DistinctCount(LayerIds(v.layers));
    if version < V3 {
      KeysAgree(keys, v.layers);
    }
    ok := v.rootLayer in layers;
  }

  lemma NoLayers<I(!new)>(layers: seq<Layer<I>>)
    ensures LayerMap(map[], layers[..0]) && LayerKeys(map[], layers[..0])
  {
  }

  lemma MapOneMore<I(!new)>(m: map<I, Layer<I>>, layers: seq<Layer<I>>, i: nat)
    requires i < |layers| && LayerMap(m, layers[..i])
    ensures if layers[i].id in m then !Distinct(LayerIds(layers)) else LayerMap(m[layers[i].id := layers[i]], layers[..i + 1])
  {
    assert layers[..i + 1] == layers[..i] + [layers[i]];
    if layers[i].id in m {
      RepeatedLayer(layers, m[layers[i].id], i);
    }
  }

  ghost predicate LayerKeysAgree<I>(layers: seq<Layer<I>>) {
    forall x, y | x in layers && y in layers && x.clientKey.Some? && x.clientKey == y.clientKey :: x.id == y.id
  }

  lemma KeysOneMore<I(!new)>(keys: map<string, I>, layers: seq<Layer<I>>, i: nat)
    requires i < |layers| && LayerKeys(keys, layers[..i])
    ensures var l := layers[i];
            if l.clientKey.None? then LayerKeys(keys, layers[..i + 1])
            else if l.clientKey.value in keys && keys[l.clientKey.value] != l.id then !LayerKeysAgree(layers)
            else LayerKeys(keys[l.clientKey.value := l.id], layers[..i + 1])
  {
    var l, before, after := layers[i], layers[..i], layers[..i + 1];
    assert after == before + [l];
    assert forall x :: x in after <==> x in before || x == l;
    if l.clientKey.Some? && l.clientKey.value in keys && keys[l.clientKey.value] != l.id {
      var x :| x in before && x.clientKey == l.clientKey && x.id == keys[l.clientKey.value];
      assert x in layers && l in layers;
    }
  }

  lemma KeysAgree<I(!new)>(keys: map<string, I>, layers: seq<Layer<I>>)
    requires LayerKeys(keys, layers)
    ensures LayerKeysAgree(layers)
  {
  }

  ghost predicate LayerKeys<I(!new)>(keys: map<string, I>, layers: seq<Layer<I>>) {
    && (forall l | l in layers && l.clientKey.Some? :: l.clientKey.value in keys && keys[l.clientKey.value] == l.id)
    && (forall k | k in keys :: exists l :: l in layers && l.clientKey == Some(k) && l.id == keys[k])
  }

  lemma RepeatedLayer<I(!new)>(layers: seq<Layer<I>>, x: Layer<I>, i: nat)
    requires i < |layers| && x in layers[..i] && x.id == layers[i].id
    ensures !Distinct(LayerIds(layers))
  {
    var k :| 0 <= k < i && layers[k] == x;
    assert LayerIds(layers)[k] == LayerIds(layers)[i];
  }

  /** The visited layers are every layer exactly when every layer can be reached. */
  lemma ClosureDecides<I(!new)>(v: View<I>, visited: set<I>)
    requires Distinct(LayerIds(v.layers)) && visited <= Elements(LayerIds(v.layers))
    requires v.rootLayer in visited && Closed(Navigates(v.layers), visited)
    requires forall x | x in visited :: Reaches(Navigates(v.layers), v.rootLayer, x)
    ensures |visited| == |v.layers| <==> visited == Elements(LayerIds(v.layers))
    ensures |visited| == |v.layers| <==> forall id | id in LayerIds(v.layers) :: Reaches(Navigates(v.layers), v.rootLayer, id)
  {
    var ids := Elements(LayerIds(v.layers));
    DistinctCount(LayerIds(v.layers));
    if |visited| == |v.layers| {
      SubsetOfSameSize(visited, ids);
    }
    if forall id | id in LayerIds(v.layers) :: Reaches(Navigates(v.layers), v.rootLayer, id) {
      forall id | id in ids
        ensures id in visited
      {
        ClosedHoldsReached(Navigates(v.layers), visited, v.rootLayer, id);
      }
      assert visited == ids;
    }
  }

  /** Once every layer is visited, the indexes prove that the view's records agree. */
  lemma IndexedAll<I(!new)>(v: View<I>, version: int, bound: seq<Action<I>>, ix: Indexes<I>, visited: set<I>)
    requires Indexed(v, version, bound, ix, visited) && visited == Elements(LayerIds(v.layers))
    ensures Records(v, version, bound)
    ensures forall a, b :: Arrow(ix.expand)(a, b) <==> Expands(v.layers)(a, b)
  {
    EveryLayerHasId(v.layers);
    assert NodesAt(v.layers, visited) == NodesOf(v.layers);
    assert EdgesAt(v.layers, visited) == EdgesOf(v.layers);
    assert ActionsAt(v.layers, visited) == ActionsOf(v.layers);
    forall a, b | Expands(v.layers)(a, b)
      ensures a in visited
    {
      var l, x :| l in v.layers && l.id == a && x in l.actions && x.kind == Navigate && x.relation == Some(Expand) && x.target == Some(b);
    }
    IndexedActionsAgree(ix.actions, ActionsOf(v.layers), v.rootLayer, version);
  }

  lemma EveryLayerHasId<I(!new)>(layers: seq<Layer<I>>)
    ensures forall l | l in layers :: l.id in LayerIds(layers)
  {
    forall l | l in layers
      ensures l.id in LayerIds(layers)
    {
      var i :| 0 <= i < |layers| && layers[i] == l;
      assert LayerIds(layers)[i] == l.id;
    }
  }

  lemma IndexedActionsAgree<I(!new)>(m: ActionMaps<I>, seen: set<Action<I>>, root: I, version: int)
    requires ActionIndex(m, seen, root, version)
    ensures ActionsAgree(seen, root, version)
  {
  }

  lemma ExpandDecides<I(!new)>(v: View<I>, version: int, g: Adjacency<I>)
    requires forall a, b :: Arrow(g)(a, b) <==> Expands(v.layers)(a, b)
    ensures ExpandAcyclic(v, version) <==> if version >= V3 then !Cyclic(g) else !CycleReachable(g, v.rootLayer)
  {
    forall c
      ensures OnCycle(Arrow(g), c) <==> OnCycle(Expands(v.layers), c)
      ensures Reaches(Arrow(g), v.rootLayer, c) <==> Reaches(Expands(v.layers), v.rootLayer, c)
    {
      SameCycles(Arrow(g), Expands(v.layers), c);
      SameReach(Arrow(g), Expands(v.layers), v.rootLayer, c);
    }
  }

  ghost predicate Explored<I(!new)>(v: View<I>, visited: set<I>, pending: seq<I>) {
    var ids := Elements(LayerIds(v.layers));
    && visited <= ids
    && (forall x | x in pending :: x in ids)
    && (v.rootLayer in visited || v.rootLayer in pending)
    && (forall x | x in visited || x in pending :: Reaches(Navigates(v.layers), v.rootLayer, x))
    && (forall a, b | a in visited && Navigates(v.layers)(a, b) :: b in visited || b in pending)
  }

  lemma LayerTargets<I(!new)>(v: View<I>, version: int, bound: seq<Action<I>>, l: Layer<I>)
    requires l in v.layers && forall x | x in v.layers && x.id == l.id :: x == l
    requires forall a | a in l.actions :: ActionInPlace(v, version, bound, l, a)
    ensures forall b :: b in NavigateTargets(l.actions) <==> Navigates(v.layers)(l.id, b)
    ensures forall b | b in NavigateTargets(l.actions) :: b in LayerIds(v.layers)
  {
    OneMoreLayer(v, l, {});
    forall b
      ensures b in NavigateTargets(l.actions) <==> NavigateTo(l.actions, b)
      ensures b in NavigateTargets(l.actions) ==> b in LayerIds(v.layers)
    {
      TargetsAre(l.actions, b);
      if NavigateTo(l.actions, b) {
        var x :| x in l.actions && x.kind == Navigate && x.target == Some(b);
        assert ActionInPlace(v, version, bound, l, x);
      }
    }
  }

  lemma ExploreLayer<I(!new)>(v: View<I>, version: int, bound: seq<Action<I>>, visited: set<I>, pending: seq<I>, l: Layer<I>)
    requires pending != [] && pending[0] == l.id && Explored(v, visited, pending)
    requires l in v.layers && forall x | x in v.layers && x.id == l.id :: x == l
    requires forall a | a in l.actions :: ActionInPlace(v, version, bound, l, a)
    ensures Explored(v, visited + {l.id}, pending[1..] + NavigateTargets(l.actions))
  {
    hide ActionInPlace, NavigateTargets, Navigates, Reaches;
    var r := Navigates(v.layers);
    LayerTargets(v, version, bound, l);
    assert forall x | x in pending :: x == l.id || x in pending[1..];
    forall b | b in NavigateTargets(l.actions)
      ensures Reaches(r, v.rootLayer, b)
    {
      ReachesStep(r, v.rootLayer, l.id, b);
    }
  }

  lemma SkipLayer<I(!new)>(v: View<I>, visited: set<I>, pending: seq<I>)
    requires pending != [] && pending[0] in visited && Explored(v, visited, pending)
    ensures Explored(v, visited, pending[1..])
  {
    assert forall x | x in pending :: x == pending[0] || x in pending[1..];
  }

  /** Accepts exactly the views that satisfy `ViewOk`, whatever order the worklist takes. */
  method ValidateAcceptedView<I(==, !new)>(v: View<I>, version: int, bound: seq<Action<I>>) returns (ok: bool)
    ensures ok <==> ViewOk(v, version, bound)
  {
    ok := ValidateRootAction(v);
    if !ok {
      return;
    }
    var layers;
    ok, layers := CheckLayers(v, version);
    if !ok {
      return;
    }
    ok := Explore(v, version, bound, layers);
  }

  method Explore<I(==, !new)>(v: View<I>, version: int, bound: seq<Action<I>>, layers: map<I, Layer<I>>) returns (ok: bool)
    requires RootActionOk(v) && LayersOk(v, version) && LayerMap(layers, v.layers) && |layers| == |v.layers|
    ensures ok <==> ViewOk(v, version, bound)
  {
    hide Records, RootActionOk, LayersOk, LayerMap, NodeIndex, EdgeIndex, ActionIndex;
    LayerMapKeys(layers, v.layers);
    assert v.rootLayer in LayerIds(v.layers) && Distinct(LayerIds(v.layers)) by { StartOf(v, version); }
    var pending := [v.rootLayer];
    var visited: set<I> := {};
    var ix := EmptyIndexes(v.rootLayer);
    StartExplored(v, version, bound);
    while pending != []
      invariant Explored(v, visited, pending)
      invariant Indexed(v, version, bound, ix, visited)
      decreases layers.Keys - visited, |pending|
    {
      var id := pending[0];
      if id in visited {
        SkipLayer(v, visited, pending);
        pending := pending[1..];
      } else {
        var l := layers[id];
        LookedUp(v, layers, id);
        var targets;
        ok, ix, targets := CheckLayer(v, version, bound, layers, l, ix, visited);
        if !ok {
          return;
        }
        ExploreLayer(v, version, bound, visited, pending, l);
        visited := visited + {id};
        pending := pending[1..] + targets;
      }
    }
    ClosureDecides(v, visited);
    if |visited| != |layers| {
      return false;
    }
    IndexedAll(v, version, bound, ix, visited);
    ExpandDecides(v, version, ix.expand);
    var cyclic := HasCycle(v.rootLayer, ix.expand, version >= V3);
    ok := !cyclic;
  }

  lemma StartOf<I(!new)>(v: View<I>, version: int)
    requires LayersOk(v, version)
    ensures v.rootLayer in LayerIds(v.layers) && Distinct(LayerIds(v.layers))
  {
  }

  lemma StartExplored<I(!new)>(v: View<I>, version: int, bound: seq<Action<I>>)
    requires v.rootLayer in LayerIds(v.layers)
    ensures Explored(v, {}, [v.rootLayer])
    ensures Indexed(v, version, bound, EmptyIndexes(v.rootLayer), {})
  {
    ReachesSelf(Navigates(v.layers), v.rootLayer);
  }

  lemma LookedUp<I(!new)>(v: View<I>, layers: map<I, Layer<I>>, id: I)
    requires LayerMap(layers, v.layers) && id in layers
    ensures layers[id] in v.layers && layers[id].id == id
    ensures forall x | x in v.layers && x.id == id :: x == layers[id]
  {
  }
}
