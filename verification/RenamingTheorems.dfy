/**
 Exporting is an injective renaming: what the validator checks of a view's graph holds of
 the exported view exactly when it holds of the raw closure, and exporting an imported
 closure again, after seeding the maps, reproduces the imported names.
 */
module RenamingTheorems {
  import opened Walks
  import opened GraphChecks
  import opened ExportModel
  import opened PortableIds
  import opened AcceptedView
  import opened ExportBuilder

  // ------------------------------------------------------------ relations under an injective renaming

  /** `q` is `r` with every element renamed by `f`. */
  ghost predicate Renames<A(!new), B(!new)>(f: map<A, B>, r: (A, A) -> bool, q: (B, B) -> bool) {
    && (forall x, y | r(x, y) :: x in f && y in f && q(f[x], f[y]))
    && (forall u, w | q(u, w) :: exists x, y :: x in f && y in f && f[x] == u && f[y] == w && r(x, y))
  }

  lemma WalkForward<A(!new), B(!new)>(f: map<A, B>, r: (A, A) -> bool, q: (B, B) -> bool, p: seq<A>) returns (w: seq<B>)
    requires Renames(f, r, q) && IsWalk(r, p) && p[0] in f
    ensures |w| == |p| && IsWalk(q, w) && p[|p| - 1] in f && w[0] == f[p[0]] && w[|w| - 1] == f[p[|p| - 1]]
  {
    forall i | 0 <= i < |p|
      ensures p[i] in f
    {
      if i > 0 {
        assert r(p[i - 1], p[i - 1 + 1]);
      }
    }
    w := seq(|p|, i requires 0 <= i < |p| => f[p[i]]);
    forall i | 0 <= i < |w| - 1
      ensures q(w[i], w[i + 1])
    {
      assert r(p[i], p[i + 1]);
    }
  }

  lemma {:induction false} WalkBack<A(!new), B(!new)>(f: map<A, B>, r: (A, A) -> bool, q: (B, B) -> bool, w: seq<B>, a: A) returns (p: seq<A>)
    requires Injective(f) && Renames(f, r, q) && IsWalk(q, w) && a in f && f[a] == w[0]
    ensures |p| == |w| && IsWalk(r, p) && p[0] == a && p[|p| - 1] in f && f[p[|p| - 1]] == w[|w| - 1]
  {
    var n := |w| - 1;
    if n == 0 {
      p := [a];
    } else {
      p := WalkBack(f, r, q, w[..n], a);
      assert q(w[n - 1], w[n - 1 + 1]);
      var x, y :| x in f && y in f && f[x] == w[n - 1] && f[y] == w[n] && r(x, y);
      assert x == p[n - 1];
      p := p + [y];
    }
  }

  lemma RenamedReach<A(!new), B(!new)>(f: map<A, B>, r: (A, A) -> bool, q: (B, B) -> bool, a: A, b: A)
    requires Injective(f) && Renames(f, r, q) && a in f && b in f
    ensures Reaches(r, a, b) <==> Reaches(q, f[a], f[b])
  {
    if Reaches(r, a, b) {
      var p :| WalkFromTo(r, p, a, b);
      var w := WalkForward(f, r, q, p);
      assert WalkFromTo(q, w, f[a], f[b]);
    }
    if Reaches(q, f[a], f[b]) {
      var w :| WalkFromTo(q, w, f[a], f[b]);
      var p := WalkBack(f, r, q, w, a);
      assert WalkFromTo(r, p, a, b);
    }
  }

  lemma RenamedCycle<A(!new), B(!new)>(f: map<A, B>, r: (A, A) -> bool, q: (B, B) -> bool, a: A)
    requires Injective(f) && Renames(f, r, q) && a in f
    ensures OnCycle(r, a) <==> OnCycle(q, f[a])
  {
    if OnCycle(r, a) {
      var p :| |p| > 1 && WalkFromTo(r, p, a, a);
      var w := WalkForward(f, r, q, p);
      assert WalkFromTo(q, w, f[a], f[a]);
    }
    if OnCycle(q, f[a]) {
      var w :| |w| > 1 && WalkFromTo(q, w, f[a], f[a]);
      var p := WalkBack(f, r, q, w, a);
      assert WalkFromTo(r, p, a, a);
    }
  }

  lemma CycleIsRenamed<A(!new), B(!new)>(f: map<A, B>, r: (A, A) -> bool, q: (B, B) -> bool, c: B) returns (x: A)
    requires Renames(f, r, q) && OnCycle(q, c)
    ensures x in f && f[x] == c
  {
    CycleSteps(q, c);
    var d :| q(c, d);
    x :| x in f && f[x] == c;
  }

  // ------------------------------------------------------------ lists under an injective renaming

  ghost predicate Covered(m: map<int, string>, s: seq<int>) {
    forall i | 0 <= i < |s| :: s[i] in m
  }

  lemma NamedMember(m: map<int, string>, s: seq<int>, x: int)
    requires Injective(m) && Covered(m, s) && x in m
    ensures x in s <==> m[x] in NameAll(m, s)
  {
    if x in s {
      var i :| 0 <= i < |s| && s[i] == x;
      assert NameAll(m, s)[i] == m[x];
    }
    if m[x] in NameAll(m, s) {
      var i :| 0 <= i < |s| && NameAll(m, s)[i] == m[x];
      assert s[i] == x;
    }
  }

  lemma NamedDistinct(m: map<int, string>, s: seq<int>)
    requires Injective(m) && Covered(m, s)
    ensures Distinct(s) <==> Distinct(NameAll(m, s))
  {
    var t := NameAll(m, s);
    if !Distinct(s) {
      var i, j :| 0 <= i < j < |s| && s[i] == s[j];
      assert t[i] == t[j];
    }
    if !Distinct(t) {
      var i, j :| 0 <= i < j < |t| && t[i] == t[j];
      assert s[i] == s[j];
    }
  }

  lemma NamedEqual(m: map<int, string>, s: seq<int>, t: seq<int>)
    requires Injective(m) && Covered(m, s) && Covered(m, t)
    ensures s == t <==> NameAll(m, s) == NameAll(m, t)
  {
    if NameAll(m, s) == NameAll(m, t) {
      forall i | 0 <= i < |s|
        ensures s[i] == t[i]
      {
        assert NameAll(m, s)[i] == NameAll(m, t)[i];
      }
    }
  }

  // ------------------------------------------------------------ the graph conditions

  /** A layer's membership, layout, endpoints and connectivity, as the validator demands them. */
  ghost predicate LayerShape<I(!new)>(l: Layer<I>) {
    && l.memberNodes == NodeIds(l.nodes)
    && l.memberEdges == EdgeIds(l.edges)
    && Distinct(l.memberNodes)
    && Distinct(l.memberEdges)
    && (l.defaultNode.Some? ==> l.defaultNode.value in l.memberNodes)
    && (l.layout.Some? ==> LayoutOk(l, l.layout.value))
    && (forall i | 0 <= i < |l.edges| :: EdgeShape(l, l.edges[i]))
    && Connected(l.memberNodes, l.edges)
  }

  ghost predicate EdgeShape<I>(l: Layer<I>, e: Edge<I>) {
    e.left != e.right && e.left in l.memberNodes && e.right in l.memberNodes
  }

  ghost predicate ActionShape<I>(v: View<I>, l: Layer<I>, a: Action<I>) {
    && a.id != v.rootAction.id
    && a.sourceNode in l.memberNodes
    && (a.kind == Navigate ==> a.target.Some? && a.target.value in LayerIds(v.layers))
  }

  ghost predicate IdsShape<I(!new)>(v: View<I>) {
    Distinct(LayerIds(v.layers)) && v.rootLayer in LayerIds(v.layers)
  }

  ghost predicate LayersShape<I(!new)>(v: View<I>) {
    forall i | 0 <= i < |v.layers| :: LayerShape(v.layers[i]) && Reaches(Navigates(v.layers), v.rootLayer, v.layers[i].id)
  }

  ghost predicate ActionsShape<I(!new)>(v: View<I>) {
    forall i, j | 0 <= i < |v.layers| && 0 <= j < |v.layers[i].actions| :: ActionShape(v, v.layers[i], v.layers[i].actions[j])
  }

  /** Every condition the validator puts on a view's identifiers and its navigation graph. */
  ghost predicate ViewShape<I(!new)>(v: View<I>, version: int) {
    IdsShape(v) && LayersShape(v) && ActionsShape(v) && ExpandAcyclic(v, version)
  }

  /** `xs` are the edges `es` with their endpoints renamed. */
  ghost predicate EdgesRenamed(f: map<int, string>, es: seq<Edge<int>>, xs: seq<Edge<string>>) {
    |xs| == |es| && forall i | 0 <= i < |es| ::
      es[i].left in f && es[i].right in f && xs[i].left == f[es[i].left] && xs[i].right == f[es[i].right]
  }

  lemma JoinsForward(f: map<int, string>, es: seq<Edge<int>>, xs: seq<Edge<string>>, a: int, b: int)
    requires EdgesRenamed(f, es, xs) && Joins(es)(a, b)
    ensures a in f && b in f && Joins(xs)(f[a], f[b])
  {
    var e :| e in es && ((e.left == a && e.right == b) || (e.left == b && e.right == a));
    var i :| 0 <= i < |es| && es[i] == e;
    assert xs[i] in xs;
  }

  lemma JoinsBack(f: map<int, string>, es: seq<Edge<int>>, xs: seq<Edge<string>>, u: string, w: string) returns (a: int, b: int)
    requires EdgesRenamed(f, es, xs) && Joins(xs)(u, w)
    ensures a in f && b in f && f[a] == u && f[b] == w && Joins(es)(a, b)
  {
    var x :| x in xs && ((x.left == u && x.right == w) || (x.left == w && x.right == u));
    var i :| 0 <= i < |xs| && xs[i] == x;
    assert es[i] in es;
    if x.left == u && x.right == w {
      a, b := es[i].left, es[i].right;
    } else {
      a, b := es[i].right, es[i].left;
    }
  }

  lemma JoinsRenamed(f: map<int, string>, es: seq<Edge<int>>, xs: seq<Edge<string>>)
    requires EdgesRenamed(f, es, xs)
    ensures Renames(f, Joins(es), Joins(xs))
  {
    hide Joins;
    forall a, b | Joins(es)(a, b)
      ensures a in f && b in f && Joins(xs)(f[a], f[b])
    {
      JoinsForward(f, es, xs, a, b);
    }
    forall u, w | Joins(xs)(u, w)
      ensures exists a, b :: a in f && b in f && f[a] == u && f[b] == w && Joins(es)(a, b)
    {
      var a, b := JoinsBack(f, es, xs, u, w);
    }
  }

  lemma PairwiseRenamed(f: map<int, string>, s: seq<int>, r: (int, int) -> bool, q: (string, string) -> bool)
    requires Injective(f) && Renames(f, r, q) && Covered(f, s)
    ensures (forall a, b | a in s && b in s :: Reaches(r, a, b)) <==>
      (forall u, w | u in NameAll(f, s) && w in NameAll(f, s) :: Reaches(q, u, w))
  {
    hide Reaches, Renames, Injective;
    var t := NameAll(f, s);
    forall i, j | 0 <= i < |s| && 0 <= j < |s|
      ensures Reaches(r, s[i], s[j]) <==> Reaches(q, t[i], t[j])
    {
      RenamedReach(f, r, q, s[i], s[j]);
    }
    if forall a, b | a in s && b in s :: Reaches(r, a, b) {
      forall i, j | 0 <= i < |t| && 0 <= j < |t|
        ensures Reaches(q, t[i], t[j])
      {
        assert s[i] in s && s[j] in s;
      }
    }
    if forall u, w | u in t && w in t :: Reaches(q, u, w) {
      forall i, j | 0 <= i < |s| && 0 <= j < |s|
        ensures Reaches(r, s[i], s[j])
      {
        assert t[i] in t && t[j] in t;
      }
    }
  }

  lemma ConnectedRenamed(l: Layer<int>, ids: Maps, red: Redactor)
    requires ids.AllInjective() && NamesLayer(ids, l)
    ensures Connected(l.memberNodes, l.edges) <==>
      Connected(RenameLayer(l, ids, red).memberNodes, RenameLayer(l, ids, red).edges)
  {
    var f, x := ids.node, RenameLayer(l, ids, red);
    assert EdgesRenamed(f, l.edges, x.edges) by { assert forall i | 0 <= i < |l.edges| :: NamesEdge(ids, l.edges[i]); }
    assert x.memberNodes == NameAll(f, l.memberNodes);
    hide RenameLayer, Joins, Reaches, Renames, NameAll, Injective, NamesRecords, NamesLayout;
    JoinsRenamed(f, l.edges, x.edges);
    PairwiseRenamed(f, l.memberNodes, Joins(l.edges), Joins(x.edges));
  }

  lemma RenamedFields(l: Layer<int>, ids: Maps, red: Redactor)
    ensures var x := RenameLayer(l, ids, red);
      && NodeIds(x.nodes) == NameAll(ids.node, NodeIds(l.nodes))
      && EdgeIds(x.edges) == NameAll(ids.edge, EdgeIds(l.edges))
      && |x.edges| == |l.edges| && (forall i | 0 <= i < |x.edges| :: x.edges[i] == RenameEdge(l.edges[i], ids))
      && x.defaultNode == NameOption(ids.node, l.defaultNode)
      && x.memberNodes == NameAll(ids.node, l.memberNodes) && x.memberEdges == NameAll(ids.edge, l.memberEdges)
      && x.layout == RenameLayoutOption(l.layout, ids)
  {
  }

  lemma EndsRenamed(ends: seq<int>, e: Edge<int>, ids: Maps)
    requires Injective(ids.node) && Covered(ids.node, ends) && NamesEdge(ids, e)
    ensures EndsOk(ends, e) <==> EndsOk(NameAll(ids.node, ends), RenameEdge(e, ids))
  {
    NamedEqual(ids.node, ends, []);
    NamedEqual(ids.node, ends, [e.left, e.right]);
    NamedEqual(ids.node, ends, [e.right, e.left]);
    assert NameAll(ids.node, [e.left, e.right]) == [ids.node[e.left], ids.node[e.right]];
    assert NameAll(ids.node, [e.right, e.left]) == [ids.node[e.right], ids.node[e.left]];
    assert NameAll(ids.node, []) == [];
  }

  lemma RouteRenamed(edges: seq<Edge<int>>, xs: seq<Edge<string>>, r: Route<int>, ids: Maps)
    requires Injective(ids.node) && Injective(ids.edge) && NamesRoute(ids, r) && |xs| == |edges|
    requires forall i | 0 <= i < |edges| :: NamesEdge(ids, edges[i]) && xs[i] == RenameEdge(edges[i], ids)
    ensures RouteOk(edges, r) <==> RouteOk(xs, RenameRoute(r, ids))
  {
    var y := RenameRoute(r, ids);
    forall i | 0 <= i < |edges|
      ensures edges[i].id == r.edge && EndsOk(r.ends, edges[i]) <==> xs[i].id == y.edge && EndsOk(y.ends, xs[i])
    {
      EndsRenamed(r.ends, edges[i], ids);
    }
    hide EndsOk, RenameEdge, RenameRoute, NamesEdge;
    if e :| e in edges && e.id == r.edge && EndsOk(r.ends, e) {
      var i :| 0 <= i < |edges| && edges[i] == e;
      assert xs[i] in xs;
    }
    if x :| x in xs && x.id == y.edge && EndsOk(y.ends, x) {
      var i :| 0 <= i < |xs| && xs[i] == x;
      assert edges[i] in edges;
    }
    RouteFields(r, ids);
  }

  lemma RouteFields(r: Route<int>, ids: Maps)
    ensures RenameRoute(r, ids).bent == r.bent && (RenameRoute(r, ids).ends == [] <==> r.ends == [])
  {
    assert |RenameRoute(r, ids).ends| == |r.ends|;
  }

  lemma AllNamed(m: map<int, string>, s: seq<int>, members: seq<int>)
    requires Injective(m) && Covered(m, s) && Covered(m, members)
    ensures (forall p | p in s :: p in members) <==> (forall p | p in NameAll(m, s) :: p in NameAll(m, members))
  {
    var t := NameAll(m, s);
    forall i | 0 <= i < |s|
      ensures s[i] in members <==> t[i] in NameAll(m, members)
    {
      NamedMember(m, members, s[i]);
    }
    if forall p | p in s :: p in members {
      assert forall i | 0 <= i < |s| :: s[i] in s;
    }
    if forall p | p in t :: p in NameAll(m, members) {
      assert forall i | 0 <= i < |t| :: t[i] in t;
    }
  }

  lemma LayoutRenamed(l: Layer<int>, x: Layer<string>, y: Layout<int>, ids: Maps)
    requires Injective(ids.node) && Injective(ids.edge) && NamesLayout(ids, Some(y))
    requires Covered(ids.node, l.memberNodes) && x.memberNodes == NameAll(ids.node, l.memberNodes)
    requires |x.edges| == |l.edges|
    requires forall i | 0 <= i < |l.edges| :: NamesEdge(ids, l.edges[i]) && x.edges[i] == RenameEdge(l.edges[i], ids)
    ensures LayoutOk(l, y) <==> LayoutOk(x, RenameLayout(y, ids))
  {
    hide RouteOk, RenameRoute, NamesRoute, RenameEdge, NamesEdge, Distinct, Injective;
    var z := RenameLayout(y, ids);
    NamedDistinct(ids.node, y.placements);
    AllNamed(ids.node, y.placements, l.memberNodes);
    forall i | 0 <= i < |y.routes|
      ensures RouteOk(l.edges, y.routes[i]) <==> RouteOk(x.edges, z.routes[i])
    {
      assert NamesRoute(ids, y.routes[i]);
      RouteRenamed(l.edges, x.edges, y.routes[i], ids);
    }
    RoutesNamed(y.routes, ids);
    NamedDistinct(ids.edge, RouteIds(y.routes));
  }

  lemma RoutesNamed(routes: seq<Route<int>>, ids: Maps)
    requires forall i | 0 <= i < |routes| :: NamesRoute(ids, routes[i])
    ensures Covered(ids.edge, RouteIds(routes)) && RouteIds(RenameRoutes(routes, ids)) == NameAll(ids.edge, RouteIds(routes))
  {
  }

  lemma EdgeShapeRenamed(l: Layer<int>, x: Layer<string>, e: Edge<int>, ids: Maps)
    requires Injective(ids.node) && Covered(ids.node, l.memberNodes) && x.memberNodes == NameAll(ids.node, l.memberNodes)
    requires NamesEdge(ids, e)
    ensures EdgeShape(l, e) <==> EdgeShape(x, RenameEdge(e, ids))
  {
    NamedMember(ids.node, l.memberNodes, e.left);
    NamedMember(ids.node, l.memberNodes, e.right);
  }

  lemma LayerShapeRenamed(l: Layer<int>, ids: Maps, red: Redactor)
    requires ids.AllInjective() && NamesLayer(ids, l)
    ensures LayerShape(l) <==> LayerShape(RenameLayer(l, ids, red))
  {
    hide Connected, RenameLayer, Distinct, NameAll, Injective, EdgeShape, RenameEdge, NamesAction, LayoutOk, RenameLayout, NamesLayout;
    var x := RenameLayer(l, ids, red);
    ConnectedRenamed(l, ids, red);
    RenamedFields(l, ids, red);
    NamedEqual(ids.node, l.memberNodes, NodeIds(l.nodes));
    NamedEqual(ids.edge, l.memberEdges, EdgeIds(l.edges));
    NamedDistinct(ids.node, l.memberNodes);
    NamedDistinct(ids.edge, l.memberEdges);
    if l.defaultNode.Some? {
      NamedMember(ids.node, l.memberNodes, l.defaultNode.value);
    }
    if l.layout.Some? {
      LayoutRenamed(l, x, l.layout.value, ids);
    }
    forall i | 0 <= i < |l.edges|
      ensures EdgeShape(l, l.edges[i]) <==> EdgeShape(x, x.edges[i])
    {
      EdgeShapeRenamed(l, x, l.edges[i], ids);
    }
  }

  // ------------------------------------------------------------ navigation under renaming

  ghost predicate LayersRenamed(v: View<int>, x: View<string>, ids: Maps, red: Redactor) {
    |x.layers| == |v.layers| && forall i | 0 <= i < |v.layers| :: x.layers[i] == RenameLayer(v.layers[i], ids, red)
  }

  lemma StepForward(v: View<int>, x: View<string>, ids: Maps, red: Redactor, l: Layer<int>, c: Action<int>, b: int)
    requires NamesView(ids, v) && LayersRenamed(v, x, ids, red)
    requires l in v.layers && c in l.actions && c.kind == Navigate && c.target == Some(b)
    ensures l.id in ids.layer && b in ids.layer && Navigates(x.layers)(ids.layer[l.id], ids.layer[b])
    ensures c.relation == Some(Expand) ==> Expands(x.layers)(ids.layer[l.id], ids.layer[b])
  {
    var i :| 0 <= i < |v.layers| && v.layers[i] == l;
    var j :| 0 <= j < |l.actions| && l.actions[j] == c;
    assert NamesLayer(ids, v.layers[i]) && NamesAction(ids, l.actions[j]);
    var y := x.layers[i];
    var d := y.actions[j];
    assert d == RenameAction(c, ids, red);
    assert y in x.layers && d in y.actions;
  }

  lemma ActionBack(l: Layer<int>, ids: Maps, red: Redactor, d: Action<string>) returns (c: Action<int>)
    requires NamesLayer(ids, l) && d in RenameLayer(l, ids, red).actions
    ensures c in l.actions && d == RenameAction(c, ids, red) && NamesAction(ids, c)
  {
    var y := RenameLayer(l, ids, red);
    RenamedActions(l, ids, red);
    hide RenameLayer, RenameAction;
    var j :| 0 <= j < |y.actions| && y.actions[j] == d;
    c := l.actions[j];
  }

  lemma StepBack(v: View<int>, x: View<string>, ids: Maps, red: Redactor, y: Layer<string>, d: Action<string>, w: string)
    returns (a: int, b: int)
    requires NamesView(ids, v) && LayersRenamed(v, x, ids, red)
    requires y in x.layers && d in y.actions && d.kind == Navigate && d.target == Some(w)
    ensures a in ids.layer && b in ids.layer && ids.layer[a] == y.id && ids.layer[b] == w
    ensures Navigates(v.layers)(a, b) && (d.relation == Some(Expand) ==> Expands(v.layers)(a, b))
  {
    hide RenameLayer, NamesLayer;
    var i :| 0 <= i < |x.layers| && x.layers[i] == y;
    var l := v.layers[i];
    RenamedId(l, ids, red);
    var c := ActionBack(l, ids, red, d);
    assert l in v.layers;
    a, b := l.id, c.target.value;
  }

  lemma StepsRenamed(v: View<int>, x: View<string>, ids: Maps, red: Redactor)
    requires NamesView(ids, v) && LayersRenamed(v, x, ids, red)
    ensures Renames(ids.layer, Navigates(v.layers), Navigates(x.layers))
    ensures Renames(ids.layer, Expands(v.layers), Expands(x.layers))
  {
    hide NamesView, LayersRenamed;
    var f := ids.layer;
    forall a, b | Navigates(v.layers)(a, b)
      ensures a in f && b in f && Navigates(x.layers)(f[a], f[b])
    {
      var l, c :| l in v.layers && l.id == a && c in l.actions && c.kind == Navigate && c.target == Some(b);
      StepForward(v, x, ids, red, l, c, b);
    }
    forall a, b | Expands(v.layers)(a, b)
      ensures a in f && b in f && Expands(x.layers)(f[a], f[b])
    {
      var l, c :| l in v.layers && l.id == a && c in l.actions && c.kind == Navigate && c.relation == Some(Expand) && c.target == Some(b);
      StepForward(v, x, ids, red, l, c, b);
    }
    forall u, w | Navigates(x.layers)(u, w)
      ensures exists a, b :: a in f && b in f && f[a] == u && f[b] == w && Navigates(v.layers)(a, b)
    {
      var y, d :| y in x.layers && y.id == u && d in y.actions && d.kind == Navigate && d.target == Some(w);
      var a, b := StepBack(v, x, ids, red, y, d, w);
    }
    forall u, w | Expands(x.layers)(u, w)
      ensures exists a, b :: a in f && b in f && f[a] == u && f[b] == w && Expands(v.layers)(a, b)
    {
      var y, d :| y in x.layers && y.id == u && d in y.actions && d.kind == Navigate && d.relation == Some(Expand) && d.target == Some(w);
      var a, b := StepBack(v, x, ids, red, y, d, w);
    }
  }

  lemma AcyclicRenamed(v: View<int>, x: View<string>, ids: Maps, red: Redactor, version: int)
    requires ids.AllInjective() && NamesView(ids, v) && x == RenameView(v, ids, red)
    ensures ExpandAcyclic(v, version) <==> ExpandAcyclic(x, version)
  {
    var f, r, q := ids.layer, Expands(v.layers), Expands(x.layers);
    StepsRenamed(v, x, ids, red);
    assert v.rootLayer in f && x.rootLayer == f[v.rootLayer];
    hide NamesView, RenameView, Expands, Renames;
    if ExpandAcyclic(v, version) {
      forall c | OnCycle(q, c) && (version >= V3 || Reaches(q, x.rootLayer, c))
        ensures false
      {
        var a := CycleIsRenamed(f, r, q, c);
        RenamedCycle(f, r, q, a);
        RenamedReach(f, r, q, v.rootLayer, a);
      }
    }
    if ExpandAcyclic(x, version) {
      forall a | OnCycle(r, a) && (version >= V3 || Reaches(r, v.rootLayer, a))
        ensures false
      {
        assert a in f by { CycleSteps(r, a); StepsFrom(f, r, q, a); }
        RenamedCycle(f, r, q, a);
        RenamedReach(f, r, q, v.rootLayer, a);
      }
    }
  }

  lemma StepsFrom<A(!new), B(!new)>(f: map<A, B>, r: (A, A) -> bool, q: (B, B) -> bool, a: A)
    requires Renames(f, r, q) && exists b :: r(a, b)
    ensures a in f
  {
  }

  lemma ActionShapeRenamed(v: View<int>, x: View<string>, ids: Maps, red: Redactor, l: Layer<int>, a: Action<int>)
    requires ids.AllInjective() && NamesView(ids, v) && x == RenameView(v, ids, red)
    requires NamesLayer(ids, l) && NamesAction(ids, a)
    ensures ActionShape(v, l, a) <==> ActionShape(x, RenameLayer(l, ids, red), RenameAction(a, ids, red))
  {
    NamedMember(ids.node, l.memberNodes, a.sourceNode);
    assert LayerIds(x.layers) == NameAll(ids.layer, LayerIds(v.layers));
    assert Covered(ids.layer, LayerIds(v.layers)) by { LayersNamed(v, ids); }
    if a.kind == Navigate && a.target.Some? {
      NamedMember(ids.layer, LayerIds(v.layers), a.target.value);
    }
  }

  lemma LayersNamed(v: View<int>, ids: Maps)
    requires NamesView(ids, v)
    ensures Covered(ids.layer, LayerIds(v.layers))
  {
    forall i | 0 <= i < |v.layers|
      ensures v.layers[i].id in ids.layer
    {
      assert NamesLayer(ids, v.layers[i]);
    }
  }

  lemma LayersShapeRenamed(v: View<int>, x: View<string>, ids: Maps, red: Redactor)
    requires ids.AllInjective() && NamesView(ids, v) && x == RenameView(v, ids, red)
    ensures LayersShape(v) <==> LayersShape(x)
  {
    hide LayerShape, RenameLayer, Injective, Reaches, Navigates, Renames;
    StepsRenamed(v, x, ids, red);
    assert |x.layers| == |v.layers|;
    forall i | 0 <= i < |v.layers|
      ensures LayerShape(v.layers[i]) <==> LayerShape(x.layers[i])
      ensures Reaches(Navigates(v.layers), v.rootLayer, v.layers[i].id) <==> Reaches(Navigates(x.layers), x.rootLayer, x.layers[i].id)
    {
      assert NamesLayer(ids, v.layers[i]);
      LayerShapeRenamed(v.layers[i], ids, red);
      RenamedId(v.layers[i], ids, red);
      RenamedReach(ids.layer, Navigates(v.layers), Navigates(x.layers), v.rootLayer, v.layers[i].id);
    }
    hide NamesView, RenameView;
  }

  lemma RenamedId(l: Layer<int>, ids: Maps, red: Redactor)
    requires NamesLayer(ids, l)
    ensures l.id in ids.layer && RenameLayer(l, ids, red).id == ids.layer[l.id]
  {
  }

  lemma ActionsShapeRenamed(v: View<int>, x: View<string>, ids: Maps, red: Redactor)
    requires ids.AllInjective() && NamesView(ids, v) && x == RenameView(v, ids, red)
    ensures ActionsShape(v) <==> ActionsShape(x)
  {
    hide RenameLayer, RenameAction, Injective, ActionShape, NamesAction;
    assert |x.layers| == |v.layers|;
    forall i | 0 <= i < |v.layers|
      ensures |x.layers[i].actions| == |v.layers[i].actions|
      ensures forall j | 0 <= j < |v.layers[i].actions| ::
        ActionShape(v, v.layers[i], v.layers[i].actions[j]) <==> ActionShape(x, x.layers[i], x.layers[i].actions[j])
    {
      assert NamesLayer(ids, v.layers[i]);
      RenamedActions(v.layers[i], ids, red);
      forall j | 0 <= j < |v.layers[i].actions| {
        ActionShapeRenamed(v, x, ids, red, v.layers[i], v.layers[i].actions[j]);
      }
    }
    hide NamesView, RenameView;
  }

  /**
   The exported view passes the validator's graph conditions exactly when the raw closure
   does: layer membership, edge endpoints, action sources, navigate targets, reachability,
   connectivity and expand cycles all survive the renaming, in both directions.
   */
  lemma ExportPreservesShape(v: View<int>, x: View<string>, ids: Maps, red: Redactor, version: int)
    requires ids.AllInjective() && NamesView(ids, v) && x == RenameView(v, ids, red)
    ensures ViewShape(v, version) <==> ViewShape(x, version)
  {
    hide ExpandAcyclic, LayersShape, ActionsShape, Injective;
    AcyclicRenamed(v, x, ids, red, version);
    LayersShapeRenamed(v, x, ids, red);
    ActionsShapeRenamed(v, x, ids, red);
    LayersNamed(v, ids);
    RenamedLayerIds(v, ids, red);
    NamedDistinct(ids.layer, LayerIds(v.layers));
    NamedMember(ids.layer, LayerIds(v.layers), v.rootLayer);
  }

  lemma RenamedLayerIds(v: View<int>, ids: Maps, red: Redactor)
    ensures LayerIds(RenameView(v, ids, red).layers) == NameAll(ids.layer, LayerIds(v.layers))
  {
  }

  lemma RenamedActions(l: Layer<int>, ids: Maps, red: Redactor)
    ensures var x := RenameLayer(l, ids, red);
      |x.actions| == |l.actions| && forall j | 0 <= j < |l.actions| :: x.actions[j] == RenameAction(l.actions[j], ids, red)
  {
  }

  /** A view the validator accepts has the shape that renaming preserves. */
  lemma AcceptedHasShape<I(!new)>(v: View<I>, version: int, bound: seq<Action<I>>)
    requires ViewOk(v, version, bound)
    ensures ViewShape(v, version)
  {
    hide ExpandAcyclic, Connected, Navigates, Reaches, NodesAgree, EdgesAgree, ActionsAgree, Distinct;
    forall i | 0 <= i < |v.layers|
      ensures LayerShape(v.layers[i]) && Reaches(Navigates(v.layers), v.rootLayer, v.layers[i].id)
    {
      assert v.layers[i] in v.layers;
      assert LayerIds(v.layers)[i] == v.layers[i].id;
      assert LayerOk(v.layers[i]);
    }
    forall i, j | 0 <= i < |v.layers| && 0 <= j < |v.layers[i].actions|
      ensures ActionShape(v, v.layers[i], v.layers[i].actions[j])
    {
      assert v.layers[i] in v.layers && v.layers[i].actions[j] in v.layers[i].actions;
      assert ActionInPlace(v, version, bound, v.layers[i], v.layers[i].actions[j]);
    }
  }

  // ------------------------------------------------------------ seeding from an imported view

  /** The naming gives an action, its input bindings and its source layer their imported names. */
  ghost predicate ActionSeeded(ids: Maps, a: Action<int>, imported: Action<string>) {
    && a.kind == imported.kind
    && Bound(ids.action, a.id, imported.id)
    && |a.inputActions| == |imported.inputActions|
    && (forall k | 0 <= k < |a.inputActions| :: Bound(ids.action, a.inputActions[k], imported.inputActions[k]))
    && (a.sourceLayer.Some? && imported.sourceLayer.Some? ==> Bound(ids.layer, a.sourceLayer.value, imported.sourceLayer.value))
  }

  ghost predicate RecordsSeeded(ids: Maps, l: Layer<int>, imported: Layer<string>) {
    && Bound(ids.layer, l.id, imported.id)
    && |l.nodes| == |imported.nodes|
    && (forall k | 0 <= k < |l.nodes| :: Bound(ids.node, l.nodes[k].id, imported.nodes[k].id))
    && |l.edges| == |imported.edges|
    && (forall k | 0 <= k < |l.edges| :: Bound(ids.edge, l.edges[k].id, imported.edges[k].id))
  }

  ghost predicate LayerSeeded(ids: Maps, l: Layer<int>, imported: Layer<string>) {
    && RecordsSeeded(ids, l, imported)
    && |l.actions| == |imported.actions|
    && (forall k | 0 <= k < |l.actions| :: ActionSeeded(ids, l.actions[k], imported.actions[k]))
  }

  /** The naming gives every record of the closure the name of the imported record in its place. */
  ghost predicate ViewSeeded(ids: Maps, v: View<int>, imported: View<string>) {
    && Bound(ids.action, v.rootAction.id, imported.rootAction.id)
    && |v.layers| == |imported.layers|
    && (forall k | 0 <= k < |v.layers| :: LayerSeeded(ids, v.layers[k], imported.layers[k]))
  }

  lemma ActionSeededStays(ids: Maps, later: Maps, a: Action<int>, imported: Action<string>)
    requires ActionSeeded(ids, a, imported) && ids.GrowsTo(later)
    ensures ActionSeeded(later, a, imported)
  {
  }

  lemma LayerSeededStays(ids: Maps, later: Maps, l: Layer<int>, imported: Layer<string>)
    requires LayerSeeded(ids, l, imported) && ids.GrowsTo(later)
    ensures LayerSeeded(later, l, imported)
  {
    forall k | 0 <= k < |l.actions|
      ensures ActionSeeded(later, l.actions[k], imported.actions[k])
    {
      ActionSeededStays(ids, later, l.actions[k], imported.actions[k]);
    }
  }

  method SeedAction(a: Action<int>, imported: Action<string>, ids: PortableIds) returns (ok: bool)
    requires ids.Valid()
    modifies ids
    ensures ids.Valid() && old(ids.State()).GrowsTo(ids.State())
    ensures ok ==> ActionSeeded(ids.State(), a, imported)
    ensures forall f | Fits(f, old(ids.State())) && ActionSeeded(f, a, imported) :: ok && Fits(f, ids.State())
  {
    hide Injective, Answer, Fits;
    if imported.kind != a.kind {
      return false;
    }
    ok := ids.BindAction(a.id, imported.id);
    if !ok || |a.inputActions| != |imported.inputActions| {
      return false;
    }
    for i := 0 to |a.inputActions|
      invariant ids.Valid() && old(ids.State()).GrowsTo(ids.State())
      invariant Bound(ids.action, a.id, imported.id)
      invariant forall k | 0 <= k < i :: Bound(ids.action, a.inputActions[k], imported.inputActions[k])
      invariant forall f | Fits(f, old(ids.State())) && ActionSeeded(f, a, imported) :: Fits(f, ids.State())
    {
      ok := ids.BindAction(a.inputActions[i], imported.inputActions[i]);
      if !ok {
        return;
      }
    }
    ok := true;
    if a.sourceLayer.Some? && imported.sourceLayer.Some? {
      ok := ids.BindLayer(a.sourceLayer.value, imported.sourceLayer.value);
    }
  }

  method SeedNodes(l: Layer<int>, imported: Layer<string>, ids: PortableIds) returns (ok: bool)
    requires ids.Valid() && |l.nodes| == |imported.nodes|
    modifies ids
    ensures ids.Valid() && old(ids.State()).GrowsTo(ids.State())
    ensures ok ==> forall k | 0 <= k < |l.nodes| :: Bound(ids.node, l.nodes[k].id, imported.nodes[k].id)
    ensures forall f | Fits(f, old(ids.State())) && RecordsSeeded(f, l, imported) :: ok && Fits(f, ids.State())
  {
    hide Injective, Answer, Fits;
    for i := 0 to |l.nodes|
      invariant ids.Valid() && old(ids.State()).GrowsTo(ids.State())
      invariant forall k | 0 <= k < i :: Bound(ids.node, l.nodes[k].id, imported.nodes[k].id)
      invariant forall f | Fits(f, old(ids.State())) && RecordsSeeded(f, l, imported) :: Fits(f, ids.State())
    {
      ok := ids.BindNode(l.nodes[i].id, imported.nodes[i].id);
      if !ok {
        return;
      }
    }
    ok := true;
  }

  method SeedEdges(l: Layer<int>, imported: Layer<string>, ids: PortableIds) returns (ok: bool)
    requires ids.Valid() && |l.edges| == |imported.edges|
    modifies ids
    ensures ids.Valid() && old(ids.State()).GrowsTo(ids.State())
    ensures ok ==> forall k | 0 <= k < |l.edges| :: Bound(ids.edge, l.edges[k].id, imported.edges[k].id)
    ensures forall f | Fits(f, old(ids.State())) && RecordsSeeded(f, l, imported) :: ok && Fits(f, ids.State())
  {
    hide Injective, Answer, Fits;
    for i := 0 to |l.edges|
      invariant ids.Valid() && old(ids.State()).GrowsTo(ids.State())
      invariant forall k | 0 <= k < i :: Bound(ids.edge, l.edges[k].id, imported.edges[k].id)
      invariant forall f | Fits(f, old(ids.State())) && RecordsSeeded(f, l, imported) :: Fits(f, ids.State())
    {
      ok := ids.BindEdge(l.edges[i].id, imported.edges[i].id);
      if !ok {
        return;
      }
    }
    ok := true;
  }

  method SeedRecords(l: Layer<int>, imported: Layer<string>, ids: PortableIds) returns (ok: bool)
    requires ids.Valid()
    modifies ids
    ensures ids.Valid() && old(ids.State()).GrowsTo(ids.State())
    ensures ok ==> RecordsSeeded(ids.State(), l, imported)
    ensures forall f | Fits(f, old(ids.State())) && RecordsSeeded(f, l, imported) :: ok && Fits(f, ids.State())
  {
    hide Injective, Answer, Fits;
    ok := ids.BindLayer(l.id, imported.id);
    if !ok || |l.nodes| != |imported.nodes| || |l.edges| != |imported.edges| {
      return false;
    }
    ok := SeedNodes(l, imported, ids);
    if !ok {
      return;
    }
    ok := SeedEdges(l, imported, ids);
  }

  method SeedLayer(l: Layer<int>, imported: Layer<string>, ids: PortableIds) returns (ok: bool)
    requires ids.Valid()
    modifies ids
    ensures ids.Valid() && old(ids.State()).GrowsTo(ids.State())
    ensures ok ==> LayerSeeded(ids.State(), l, imported)
    ensures forall f | Fits(f, old(ids.State())) && LayerSeeded(f, l, imported) :: ok && Fits(f, ids.State())
  {
    hide Injective, ActionSeeded, Fits;
    ok := SeedRecords(l, imported, ids);
    if !ok || |l.actions| != |imported.actions| {
      return false;
    }
    for i := 0 to |l.actions|
      invariant ids.Valid() && old(ids.State()).GrowsTo(ids.State()) && RecordsSeeded(ids.State(), l, imported)
      invariant forall k | 0 <= k < i :: ActionSeeded(ids.State(), l.actions[k], imported.actions[k])
      invariant forall f | Fits(f, old(ids.State())) && LayerSeeded(f, l, imported) :: Fits(f, ids.State())
    {
      ghost var before := ids.State();
      ok := SeedAction(l.actions[i], imported.actions[i], ids);
      forall k | 0 <= k < i { ActionSeededStays(before, ids.State(), l.actions[k], imported.actions[k]); }
      if !ok {
        return;
      }
    }
    ok := true;
  }

  method SeedLayers(v: View<int>, imported: View<string>, ids: PortableIds) returns (ok: bool)
    requires ids.Valid()
    modifies ids
    ensures ids.Valid() && old(ids.State()).GrowsTo(ids.State())
    ensures ok ==> ViewSeeded(ids.State(), v, imported)
    ensures forall f | Fits(f, old(ids.State())) && ViewSeeded(f, v, imported) :: ok && Fits(f, ids.State())
  {
    hide Injective, LayerSeeded, Answer, Fits;
    ok := ids.BindAction(v.rootAction.id, imported.rootAction.id);
    if !ok || |v.layers| != |imported.layers| {
      return false;
    }
    for i := 0 to |v.layers|
      invariant ids.Valid() && old(ids.State()).GrowsTo(ids.State())
      invariant Bound(ids.action, v.rootAction.id, imported.rootAction.id)
      invariant forall k | 0 <= k < i :: LayerSeeded(ids.State(), v.layers[k], imported.layers[k])
      invariant forall f | Fits(f, old(ids.State())) && ViewSeeded(f, v, imported) :: Fits(f, ids.State())
    {
      ghost var before := ids.State();
      ok := SeedLayer(v.layers[i], imported.layers[i], ids);
      forall k | 0 <= k < i { LayerSeededStays(before, ids.State(), v.layers[k], imported.layers[k]); }
      if !ok {
        return;
      }
    }
    ok := true;
  }

  /** Seeding succeeds exactly when some injective naming, extending the one there, gives the imported names. */
  method SeedImportedActionIds(v: View<int>, imported: View<string>, ids: PortableIds) returns (ok: bool)
    requires ids.Valid()
    modifies ids
    ensures ids.Valid() && old(ids.State()).GrowsTo(ids.State())
    ensures ok <==> exists f :: Fits(f, old(ids.State())) && ViewSeeded(f, v, imported)
    ensures ok ==> ViewSeeded(ids.State(), v, imported)
  {
    hide ViewSeeded;
    ok := SeedLayers(v, imported, ids);
    if ok {
      assert Fits(ids.State(), old(ids.State()));
    }
  }

  // ------------------------------------------------------------ exporting again

  /** Every identifier the closure refers to is the identifier of one of its records. */
  ghost predicate SelfContained(v: View<int>) {
    && v.rootAction.sourceNode == v.interactionNode && v.rootAction.sourceLayer.None? && v.rootAction.inputActions == []
    && v.rootAction.kind == Navigate && v.rootAction.target == Some(v.rootLayer)
    && IdsShape(v) && ActionsShape(v)
    && (forall i | 0 <= i < |v.layers| :: LayerShape(v.layers[i]))
  }

  lemma SeededMembers(l: Layer<int>, imported: Layer<string>, ids: Maps, f: Maps, red: Redactor, n: int)
    requires LayerShape(l) && RecordsSeeded(ids, l, imported) && imported == RenameLayer(l, f, red) && NamesLayer(f, l)
    requires n in l.memberNodes
    ensures n in ids.node && n in f.node && ids.node[n] == f.node[n]
  {
    var k :| 0 <= k < |l.memberNodes| && l.memberNodes[k] == n;
    assert l.nodes[k].id == n && imported.nodes[k].id == f.node[n];
    assert Bound(ids.node, l.nodes[k].id, imported.nodes[k].id);
  }

  lemma SeededEdges(l: Layer<int>, imported: Layer<string>, ids: Maps, f: Maps, red: Redactor, k: nat)
    requires LayerShape(l) && RecordsSeeded(ids, l, imported) && imported == RenameLayer(l, f, red) && NamesLayer(f, l)
    requires k < |l.edges|
    ensures NamesEdge(ids, l.edges[k]) && RenameEdge(l.edges[k], ids) == RenameEdge(l.edges[k], f)
  {
    var e := l.edges[k];
    assert EdgeShape(l, e) && NamesEdge(f, e);
    SeededMembers(l, imported, ids, f, red, e.left);
    SeededMembers(l, imported, ids, f, red, e.right);
    assert imported.edges[k] == RenameEdge(e, f);
    assert Bound(ids.edge, e.id, imported.edges[k].id);
  }

  lemma SeededTarget(v: View<int>, imported: View<string>, ids: Maps, f: Maps, red: Redactor, target: int)
    requires NamesView(f, v) && ViewSeeded(ids, v, imported) && imported == RenameView(v, f, red)
    requires target in LayerIds(v.layers)
    ensures Bound(ids.layer, target, Name(f.layer, target))
  {
    var k :| 0 <= k < |v.layers| && LayerIds(v.layers)[k] == target;
    assert LayerSeeded(ids, v.layers[k], imported.layers[k]);
    assert imported.layers[k] == RenameLayer(v.layers[k], f, red);
  }

  lemma SeededAction(v: View<int>, imported: View<string>, ids: Maps, f: Maps, red: Redactor, i: nat, j: nat)
    requires NamesView(f, v) && ViewSeeded(ids, v, imported) && imported == RenameView(v, f, red) && SelfContained(v)
    requires i < |v.layers| && j < |v.layers[i].actions|
    ensures NamesAction(ids, v.layers[i].actions[j])
    ensures RenameAction(v.layers[i].actions[j], ids, red) == RenameAction(v.layers[i].actions[j], f, red)
  {
    var l := v.layers[i];
    var a := l.actions[j];
    assert NamesLayer(f, l) && NamesAction(f, a) && LayerSeeded(ids, l, imported.layers[i]);
    assert ActionShape(v, l, a) && LayerShape(l);
    assert imported.layers[i] == RenameLayer(l, f, red);
    assert imported.layers[i].actions[j] == RenameAction(a, f, red);
    assert ActionSeeded(ids, a, RenameAction(a, f, red));
    SeededMembers(l, imported.layers[i], ids, f, red, a.sourceNode);
    if a.kind == Navigate {
      SeededTarget(v, imported, ids, f, red, a.target.value);
    }
    hide RenameView, RenameLayer, LayerShape, NamesView, SelfContained;
    assert NameAll(ids.action, a.inputActions) == NameAll(f.action, a.inputActions) by {
      forall k | 0 <= k < |a.inputActions|
        ensures Name(ids.action, a.inputActions[k]) == Name(f.action, a.inputActions[k])
      {
        assert Bound(ids.action, a.inputActions[k], RenameAction(a, f, red).inputActions[k]);
      }
    }
  }

  lemma SeededLayer(v: View<int>, imported: View<string>, ids: Maps, f: Maps, red: Redactor, i: nat)
    requires NamesView(f, v) && ViewSeeded(ids, v, imported) && imported == RenameView(v, f, red) && SelfContained(v)
    requires i < |v.layers|
    ensures NamesLayer(ids, v.layers[i]) && RenameLayer(v.layers[i], ids, red) == RenameLayer(v.layers[i], f, red)
  {
    var l := v.layers[i];
    assert imported.layers[i] == RenameLayer(l, f, red) && NamesLayer(f, l) && LayerSeeded(ids, l, imported.layers[i]);
    assert LayerShape(l);
    forall j | 0 <= j < |l.actions| { SeededAction(v, imported, ids, f, red, i, j); }
    hide NamesView, RenameView, ViewSeeded, SelfContained, ActionSeeded, NamesAction, RenameAction;
    SeededRecords(l, imported.layers[i], ids, f, red);
  }

  /** The imported layer `imported` of `l` was written under `f`, and the maps `ids` were seeded from it. */
  ghost predicate Rewritten(l: Layer<int>, imported: Layer<string>, ids: Maps, f: Maps, red: Redactor) {
    LayerShape(l) && RecordsSeeded(ids, l, imported) && imported == RenameLayer(l, f, red) && NamesLayer(f, l)
  }

  lemma SeededList(l: Layer<int>, imported: Layer<string>, ids: Maps, f: Maps, red: Redactor, s: seq<int>)
    requires Rewritten(l, imported, ids, f, red) && forall n | n in s :: n in l.memberNodes
    ensures Covered(ids.node, s) && NameAll(ids.node, s) == NameAll(f.node, s)
  {
    hide LayerShape, RecordsSeeded, RenameLayer, NamesLayer;
    forall k | 0 <= k < |s|
      ensures s[k] in ids.node && Name(ids.node, s[k]) == Name(f.node, s[k])
    {
      SeededMembers(l, imported, ids, f, red, s[k]);
    }
  }

  lemma SeededMembership(l: Layer<int>, imported: Layer<string>, ids: Maps, f: Maps, red: Redactor)
    requires Rewritten(l, imported, ids, f, red)
    ensures NamesMembers(ids, l) && Name(ids.layer, l.id) == Name(f.layer, l.id)
    ensures NameOption(ids.node, l.defaultNode) == NameOption(f.node, l.defaultNode)
    ensures NameAll(ids.node, l.memberNodes) == NameAll(f.node, l.memberNodes)
    ensures NameAll(ids.edge, l.memberEdges) == NameAll(f.edge, l.memberEdges)
  {
    hide NamesAction, RenameAction, Connected, LayoutOk;
    SeededList(l, imported, ids, f, red, l.memberNodes);
    forall k | 0 <= k < |l.memberEdges|
      ensures l.memberEdges[k] in ids.edge && Name(ids.edge, l.memberEdges[k]) == Name(f.edge, l.memberEdges[k])
    {
      SeededEdges(l, imported, ids, f, red, k);
    }
    assert NameAll(ids.edge, l.memberEdges) == NameAll(f.edge, l.memberEdges);
    if l.defaultNode.Some? {
      SeededMembers(l, imported, ids, f, red, l.defaultNode.value);
    }
  }

  lemma SeededRoute(l: Layer<int>, imported: Layer<string>, ids: Maps, f: Maps, red: Redactor, r: Route<int>)
    requires Rewritten(l, imported, ids, f, red) && RouteOk(l.edges, r)
    ensures NamesRoute(ids, r) && RenameRoute(r, ids) == RenameRoute(r, f)
  {
    var e :| e in l.edges && e.id == r.edge && EndsOk(r.ends, e);
    var k :| 0 <= k < |l.edges| && l.edges[k] == e;
    assert EdgeShape(l, l.edges[k]);
    SeededEdges(l, imported, ids, f, red, k);
    hide LayerShape, RecordsSeeded, RenameLayer, NamesLayer;
    SeededList(l, imported, ids, f, red, r.ends);
  }

  lemma SeededLayout(l: Layer<int>, imported: Layer<string>, ids: Maps, f: Maps, red: Redactor)
    requires Rewritten(l, imported, ids, f, red)
    ensures NamesLayout(ids, l.layout) && RenameLayoutOption(l.layout, ids) == RenameLayoutOption(l.layout, f)
  {
    if l.layout.Some? {
      var y := l.layout.value;
      assert LayoutOk(l, y);
      hide LayerShape, RecordsSeeded, RenameLayer, NamesLayer, RouteOk, NamesRoute, RenameRoute, Distinct, Rewritten;
      SeededList(l, imported, ids, f, red, y.placements);
      forall i | 0 <= i < |y.routes|
        ensures NamesRoute(ids, y.routes[i]) && RenameRoute(y.routes[i], ids) == RenameRoute(y.routes[i], f)
      {
        SeededRoute(l, imported, ids, f, red, y.routes[i]);
      }
      assert RenameRoutes(y.routes, ids) == RenameRoutes(y.routes, f);
    }
  }

  lemma SeededNodes(l: Layer<int>, imported: Layer<string>, ids: Maps, f: Maps, red: Redactor)
    requires Rewritten(l, imported, ids, f, red)
    ensures RenameNodes(l.nodes, ids, red) == RenameNodes(l.nodes, f, red)
    ensures forall k | 0 <= k < |l.nodes| :: l.nodes[k].id in ids.node
  {
    hide NamesAction, RenameAction, Connected, LayoutOk, PortableNode, Distinct;
    forall k | 0 <= k < |l.nodes|
      ensures l.nodes[k].id in ids.node && RenameNode(l.nodes[k], ids, red) == RenameNode(l.nodes[k], f, red)
    {
      assert l.memberNodes[k] == l.nodes[k].id;
      SeededMembers(l, imported, ids, f, red, l.nodes[k].id);
    }
  }

  lemma SeededRecords(l: Layer<int>, imported: Layer<string>, ids: Maps, f: Maps, red: Redactor)
    requires Rewritten(l, imported, ids, f, red)
    requires forall j | 0 <= j < |l.actions| ::
      NamesAction(ids, l.actions[j]) && RenameAction(l.actions[j], ids, red) == RenameAction(l.actions[j], f, red)
    ensures NamesLayer(ids, l) && RenameLayer(l, ids, red) == RenameLayer(l, f, red)
  {
    hide NamesAction, RenameAction, LayerShape, NamesMembers, NameAll, RenameNodes, RenameLayoutOption, NamesLayout, KeptRenderer, NamesEdge, RenameEdge, RecordsSeeded;
    forall k | 0 <= k < |l.edges| { SeededEdges(l, imported, ids, f, red, k); }
    SeededMembership(l, imported, ids, f, red);
    SeededNodes(l, imported, ids, f, red);
    SeededLayout(l, imported, ids, f, red);
  }

  /**
   Export, import, seed and export again: a self-contained closure whose imported view was
   written under the naming `f` is written with exactly the same identifiers, whatever
   other names the maps hold or gain later.
   */
  lemma ReExportReproduces(v: View<int>, imported: View<string>, ids: Maps, later: Maps, f: Maps, red: Redactor)
    requires NamesView(f, v) && imported == RenameView(v, f, red) && SelfContained(v)
    requires ViewSeeded(ids, v, imported) && Bound(ids.node, v.interactionNode, imported.interactionNode)
    requires ids.GrowsTo(later)
    ensures NamesView(later, v) && RenameView(v, later, red) == imported
  {
    forall i | 0 <= i < |v.layers|
      ensures NamesLayer(later, v.layers[i]) && RenameLayer(v.layers[i], later, red) == RenameLayer(v.layers[i], f, red)
    {
      SeededLayer(v, imported, ids, f, red, i);
      LayerStable(v.layers[i], ids, later, red);
    }
    SeededTarget(v, imported, ids, f, red, v.rootLayer);
    hide NamesLayer, RenameLayer, ActionsShape, IdsShape, LayerSeeded, LayerShape;
    assert NameAll(later.action, []) == NameAll(f.action, []);
  }

  /** Seeding accepts what the exporter wrote: the naming it was written under gives every imported name. */
  lemma WrittenIsSeeded(v: View<int>, f: Maps, red: Redactor)
    requires NamesView(f, v)
    ensures ViewSeeded(f, v, RenameView(v, f, red)) && Bound(f.node, v.interactionNode, RenameView(v, f, red).interactionNode)
  {
    var x := RenameView(v, f, red);
    forall k | 0 <= k < |v.layers|
      ensures LayerSeeded(f, v.layers[k], x.layers[k])
    {
      assert NamesLayer(f, v.layers[k]);
      WrittenLayerIsSeeded(v.layers[k], f, red);
    }
  }

  lemma WrittenLayerIsSeeded(l: Layer<int>, f: Maps, red: Redactor)
    requires NamesLayer(f, l)
    ensures LayerSeeded(f, l, RenameLayer(l, f, red))
  {
    var x := RenameLayer(l, f, red);
    RenamedActions(l, f, red);
    forall k | 0 <= k < |l.actions|
      ensures ActionSeeded(f, l.actions[k], x.actions[k])
    {
      assert NamesAction(f, l.actions[k]);
    }
    hide ActionSeeded, NamesAction, RenameAction;
    assert forall k | 0 <= k < |l.edges| :: NamesEdge(f, l.edges[k]);
  }

  /**
   Exporting an imported turn again: bind its interaction node, seed, export. Whatever the
   maps already hold, if the imported view is the self-contained closure written under some
   naming still open to them, every step succeeds and the imported view comes out again.
   */
  method ReExport(v: View<int>, imported: View<string>, ids: PortableIds, red: Redactor) returns (ok: bool, x: View<string>)
    requires ids.Valid()
    modifies ids
    ensures ids.Valid() && old(ids.State()).GrowsTo(ids.State())
    ensures ok ==> NamesView(ids.State(), v) && x == RenameView(v, ids.State(), red)
    ensures SelfContained(v) ==> forall f | Fits(f, old(ids.State())) && NamesView(f, v) && imported == RenameView(v, f, red) ::
      ok && x == imported
  {
    hide Injective, Answer, Fits, NamesView, RenameView, ViewSeeded, SelfContained;
    x := imported;
    forall f | NamesView(f, v) && imported == RenameView(v, f, red)
      ensures ViewSeeded(f, v, imported) && Bound(f.node, v.interactionNode, imported.interactionNode)
    {
      WrittenIsSeeded(v, f, red);
    }
    ok := ids.BindNode(v.interactionNode, imported.interactionNode);
    if !ok {
      return;
    }
    ok := SeedLayers(v, imported, ids);
    if !ok {
      return;
    }
    ghost var seeded := ids.State();
    x := ExportView(v, ids, red);
    forall f | SelfContained(v) && NamesView(f, v) && imported == RenameView(v, f, red)
      ensures x == imported
    {
      ReExportReproduces(v, imported, seeded, ids.State(), f, red);
    }
  }
}
