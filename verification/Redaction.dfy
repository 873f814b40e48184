/**
 What an export tells, and nothing more: two raw closures export to the same view exactly
 when they agree on every identifier and on every text after redaction. The agreement is
 stated on the raw records' own fields.
 */
module Redaction {
  import opened GraphChecks
  import opened ExportModel
  import opened PortableIds
  import opened ExportBuilder
  import opened RenamingTheorems

  // ------------------------------------------------------------ alike after redaction

  ghost predicate SameText(x: string, y: string, red: Redactor) { red.text(x) == red.text(y) }

  ghost predicate SameOptional(x: Option<string>, y: Option<string>, red: Redactor) {
    x.Some? == y.Some? && (x.Some? && y.Some? ==> SameText(x.value, y.value, red))
  }

  /** A share replaces keys, so it shows nothing of them. */
  ghost predicate SameKey(x: Option<string>, y: Option<string>, red: Redactor) {
    red.share || SameOptional(x, y, red)
  }

  /** A share that finds an artifact sensitive shows none. */
  ghost predicate Hides(artifact: Option<string>, red: Redactor) {
    artifact.None? || (red.share && red.sensitive(artifact.value))
  }

  ghost predicate SameArtifact(x: Option<string>, y: Option<string>, red: Redactor) {
    x == y || (Hides(x, red) && Hides(y, red))
  }

  /** A detail is shown as it is, or only the reason it was withheld for. */
  ghost predicate SameDetail(x: Option<string>, y: Option<string>, red: Redactor) {
    x == y || (x.Some? && y.Some? && red.omission(x.value).Some? && red.omission(x.value) == red.omission(y.value))
  }

  ghost predicate NodesAlike(m: Node<int>, n: Node<int>, red: Redactor) {
    && m.id == n.id && SameKey(m.clientKey, n.clientKey, red) && SameText(m.base, n.base, red)
    && SameArtifact(m.artifact, n.artifact, red) && SameDetail(m.authoredDetail, n.authoredDetail, red)
  }

  /** An invoke's resolved target is not shown. */
  ghost predicate ActionsAlike(a: Action<int>, b: Action<int>, red: Redactor) {
    && a.id == b.id && a.sourceNode == b.sourceNode && a.sourceLayer == b.sourceLayer
    && a.kind == b.kind && a.relation == b.relation && a.converted == b.converted && a.reusable == b.reusable
    && a.inputActions == b.inputActions && (a.kind == Navigate ==> a.target == b.target)
    && SameKey(a.clientKey, b.clientKey, red) && SameText(a.face, b.face, red)
    && SameOptional(a.interactionText, b.interactionText, red) && SameOptional(a.input, b.input, red)
  }

  ghost predicate LayersAlike(l: Layer<int>, k: Layer<int>, red: Redactor) {
    && l.id == k.id && SameKey(l.clientKey, k.clientKey, red)
    && l.memberNodes == k.memberNodes && l.memberEdges == k.memberEdges && l.defaultNode == k.defaultNode
    && |l.nodes| == |k.nodes| && (forall i | 0 <= i < |l.nodes| :: NodesAlike(l.nodes[i], k.nodes[i], red))
    && l.edges == k.edges
    && |l.actions| == |k.actions| && (forall i | 0 <= i < |l.actions| :: ActionsAlike(l.actions[i], k.actions[i], red))
    && l.layout == k.layout
    && (l.renderer == k.renderer || exists i :: 0 <= i < |l.nodes| && Hides(l.nodes[i].artifact, red))
  }

  ghost predicate ViewsAlike(v: View<int>, w: View<int>, red: Redactor) {
    && v.interactionNode == w.interactionNode && v.rootLayer == w.rootLayer && ActionsAlike(v.rootAction, w.rootAction, red)
    && |v.layers| == |w.layers| && forall i | 0 <= i < |v.layers| :: LayersAlike(v.layers[i], w.layers[i], red)
  }

  // ------------------------------------------------------------ names tell identifiers apart

  lemma NamesTell(m: map<int, string>, x: int, y: int)
    requires Injective(m) && x in m && y in m
    ensures Name(m, x) == Name(m, y) <==> x == y
  {
  }

  lemma OptionNamesTell(m: map<int, string>, x: Option<int>, y: Option<int>)
    requires Injective(m) && (x.Some? ==> x.value in m) && (y.Some? ==> y.value in m)
    ensures NameOption(m, x) == NameOption(m, y) <==> x == y
  {
  }

  lemma NodesTell(m: Node<int>, n: Node<int>, ids: Maps, red: Redactor)
    requires Injective(ids.node) && m.id in ids.node && n.id in ids.node
    ensures RenameNode(m, ids, red) == RenameNode(n, ids, red) <==> NodesAlike(m, n, red)
  {
    NamesTell(ids.node, m.id, n.id);
  }

  lemma EdgesTell(d: Edge<int>, e: Edge<int>, ids: Maps)
    requires ids.AllInjective() && NamesEdge(ids, d) && NamesEdge(ids, e)
    ensures RenameEdge(d, ids) == RenameEdge(e, ids) <==> d == e
  {
    NamesTell(ids.edge, d.id, e.id);
    NamesTell(ids.node, d.left, e.left);
    NamesTell(ids.node, d.right, e.right);
  }

  lemma OptionalTells(x: Option<string>, y: Option<string>, red: Redactor)
    ensures red.Optional(x) == red.Optional(y) <==> SameOptional(x, y, red)
  {
  }

  lemma KeyTells(x: Option<string>, y: Option<string>, id: string, red: Redactor)
    ensures red.Key(x, id) == red.Key(y, id) <==> SameKey(x, y, red)
  {
  }

  lemma ActionsTell(a: Action<int>, b: Action<int>, ids: Maps, red: Redactor)
    requires ids.AllInjective() && NamesAction(ids, a) && NamesAction(ids, b)
    ensures RenameAction(a, ids, red) == RenameAction(b, ids, red) <==> ActionsAlike(a, b, red)
  {
    hide Injective, NameAll, Name, NameOption, SameOptional, SameKey, Redactor.Key, Redactor.Optional;
    NamesTell(ids.action, a.id, b.id);
    NamesTell(ids.node, a.sourceNode, b.sourceNode);
    OptionNamesTell(ids.layer, a.sourceLayer, b.sourceLayer);
    if a.kind == Navigate && b.kind == Navigate {
      OptionNamesTell(ids.layer, a.target, b.target);
    }
    NamedEqual(ids.action, a.inputActions, b.inputActions);
    KeyTells(a.clientKey, b.clientKey, Name(ids.action, a.id), red);
    OptionalTells(a.interactionText, b.interactionText, red);
    OptionalTells(a.input, b.input, red);
  }

  lemma RoutesTell(r: Route<int>, q: Route<int>, ids: Maps)
    requires ids.AllInjective() && NamesRoute(ids, r) && NamesRoute(ids, q)
    ensures RenameRoute(r, ids) == RenameRoute(q, ids) <==> r == q
  {
    NamesTell(ids.edge, r.edge, q.edge);
    NamedEqual(ids.node, r.ends, q.ends);
  }

  lemma LayoutsTell(y: Option<Layout<int>>, z: Option<Layout<int>>, ids: Maps)
    requires ids.AllInjective() && NamesLayout(ids, y) && NamesLayout(ids, z)
    ensures RenameLayoutOption(y, ids) == RenameLayoutOption(z, ids) <==> y == z
  {
    if y.Some? && z.Some? && RenameLayoutOption(y, ids) == RenameLayoutOption(z, ids) {
      hide RenameRoute, NamesRoute, Injective;
      var r, q := y.value.routes, z.value.routes;
      NamedEqual(ids.node, y.value.placements, z.value.placements);
      assert |RenameRoutes(r, ids)| == |r| == |q|;
      forall i | 0 <= i < |r|
        ensures r[i] == q[i]
      {
        assert RenameRoutes(r, ids)[i] == RenameRoutes(q, ids)[i];
        RoutesTell(r[i], q[i], ids);
      }
      assert r == q;
      assert y.value.style == z.value.style;
    }
  }

  lemma NodeListsTell(ms: seq<Node<int>>, ns: seq<Node<int>>, ids: Maps, red: Redactor)
    requires Injective(ids.node)
    requires (forall i | 0 <= i < |ms| :: ms[i].id in ids.node) && (forall i | 0 <= i < |ns| :: ns[i].id in ids.node)
    ensures RenameNodes(ms, ids, red) == RenameNodes(ns, ids, red) <==>
      |ms| == |ns| && forall i | 0 <= i < |ms| :: NodesAlike(ms[i], ns[i], red)
  {
    hide RenameNode, NodesAlike, Injective;
    var xs, ys := RenameNodes(ms, ids, red), RenameNodes(ns, ids, red);
    if |ms| == |ns| {
      forall i | 0 <= i < |ms|
        ensures xs[i] == ys[i] <==> NodesAlike(ms[i], ns[i], red)
      {
        NodesTell(ms[i], ns[i], ids, red);
      }
    }
  }

  /** The renderer is shown exactly when no artifact of the layer is hidden. */
  lemma RendererShown(l: Layer<int>, ids: Maps, red: Redactor)
    ensures KeptRenderer(l.renderer, RenameNodes(l.nodes, ids, red)) ==
      if exists i :: 0 <= i < |l.nodes| && Hides(l.nodes[i].artifact, red) then None else l.renderer
  {
    var xs := RenameNodes(l.nodes, ids, red);
    forall i | 0 <= i < |l.nodes|
      ensures xs[i].artifact.None? <==> Hides(l.nodes[i].artifact, red)
    {
    }
    hide RenameNode, Hides;
    if i :| 0 <= i < |l.nodes| && Hides(l.nodes[i].artifact, red) {
      assert xs[i] in xs;
    }
  }

  lemma RenderersTell(l: Layer<int>, k: Layer<int>, ids: Maps, red: Redactor)
    requires |l.nodes| == |k.nodes| && forall i | 0 <= i < |l.nodes| :: NodesAlike(l.nodes[i], k.nodes[i], red)
    ensures KeptRenderer(l.renderer, RenameNodes(l.nodes, ids, red)) == KeptRenderer(k.renderer, RenameNodes(k.nodes, ids, red)) <==>
      l.renderer == k.renderer || exists i :: 0 <= i < |l.nodes| && Hides(l.nodes[i].artifact, red)
  {
    RendererShown(l, ids, red);
    RendererShown(k, ids, red);
    forall i | 0 <= i < |l.nodes|
      ensures Hides(l.nodes[i].artifact, red) <==> Hides(k.nodes[i].artifact, red)
    {
      assert NodesAlike(l.nodes[i], k.nodes[i], red);
    }
    hide RenameNodes, KeptRenderer, Hides, NodesAlike;
  }

  // ------------------------------------------------------------ layers and views

  lemma EdgeListsTell(ds: seq<Edge<int>>, es: seq<Edge<int>>, xs: seq<Edge<string>>, ys: seq<Edge<string>>, ids: Maps)
    requires ids.AllInjective() && |xs| == |ds| && |ys| == |es|
    requires forall i | 0 <= i < |ds| :: NamesEdge(ids, ds[i]) && xs[i] == RenameEdge(ds[i], ids)
    requires forall i | 0 <= i < |es| :: NamesEdge(ids, es[i]) && ys[i] == RenameEdge(es[i], ids)
    ensures xs == ys <==> ds == es
  {
    hide RenameEdge, NamesEdge, Injective;
    if |ds| == |es| {
      forall i | 0 <= i < |ds|
        ensures xs[i] == ys[i] <==> ds[i] == es[i]
      {
        EdgesTell(ds[i], es[i], ids);
      }
      if xs == ys {
        assert forall i | 0 <= i < |ds| :: xs[i] == ys[i];
      }
    }
  }

  lemma ActionListsTell(cs: seq<Action<int>>, ds: seq<Action<int>>, xs: seq<Action<string>>, ys: seq<Action<string>>, ids: Maps, red: Redactor)
    requires ids.AllInjective() && |xs| == |cs| && |ys| == |ds|
    requires forall i | 0 <= i < |cs| :: NamesAction(ids, cs[i]) && xs[i] == RenameAction(cs[i], ids, red)
    requires forall i | 0 <= i < |ds| :: NamesAction(ids, ds[i]) && ys[i] == RenameAction(ds[i], ids, red)
    ensures xs == ys <==> |cs| == |ds| && forall i | 0 <= i < |cs| :: ActionsAlike(cs[i], ds[i], red)
  {
    hide RenameAction, NamesAction, ActionsAlike, Injective;
    if |cs| == |ds| {
      forall i | 0 <= i < |cs|
        ensures xs[i] == ys[i] <==> ActionsAlike(cs[i], ds[i], red)
      {
        ActionsTell(cs[i], ds[i], ids, red);
      }
    }
  }

  lemma EdgesOfLayer(l: Layer<int>, ids: Maps, red: Redactor)
    requires NamesLayer(ids, l)
    ensures |RenameLayer(l, ids, red).edges| == |l.edges|
    ensures var x := RenameLayer(l, ids, red); forall i | 0 <= i < |l.edges| :: NamesEdge(ids, l.edges[i]) && x.edges[i] == RenameEdge(l.edges[i], ids)
  {
  }

  lemma MembersTell(l: Layer<int>, k: Layer<int>, ids: Maps, red: Redactor)
    requires ids.AllInjective() && NamesMembers(ids, l) && NamesMembers(ids, k)
    ensures
      (&& Name(ids.layer, l.id) == Name(ids.layer, k.id) && red.Key(l.clientKey, Name(ids.layer, l.id)) == red.Key(k.clientKey, Name(ids.layer, k.id))
       && NameAll(ids.node, l.memberNodes) == NameAll(ids.node, k.memberNodes) && NameAll(ids.edge, l.memberEdges) == NameAll(ids.edge, k.memberEdges)
       && NameOption(ids.node, l.defaultNode) == NameOption(ids.node, k.defaultNode)) <==>
      (&& l.id == k.id && SameKey(l.clientKey, k.clientKey, red)
       && l.memberNodes == k.memberNodes && l.memberEdges == k.memberEdges && l.defaultNode == k.defaultNode)
  {
    NamesTell(ids.layer, l.id, k.id);
    KeyTells(l.clientKey, k.clientKey, Name(ids.layer, l.id), red);
    NamedEqual(ids.node, l.memberNodes, k.memberNodes);
    NamedEqual(ids.edge, l.memberEdges, k.memberEdges);
    OptionNamesTell(ids.node, l.defaultNode, k.defaultNode);
    hide Injective, Name, NameAll, NameOption, SameKey, Redactor.Key;
  }

  lemma LayersTell(l: Layer<int>, k: Layer<int>, ids: Maps, red: Redactor)
    requires ids.AllInjective() && NamesLayer(ids, l) && NamesLayer(ids, k)
    ensures RenameLayer(l, ids, red) == RenameLayer(k, ids, red) <==> LayersAlike(l, k, red)
  {
    EdgesOfLayer(l, ids, red);
    EdgesOfLayer(k, ids, red);
    RenamedActions(l, ids, red);
    RenamedActions(k, ids, red);
    hide Injective, NamesMembers, NamesEdge, NamesAction, NamesLayout, RenameAction, RenameEdge, RenameNodes, RenameLayoutOption, KeptRenderer;
    hide NodesAlike, ActionsAlike, SameKey, Hides, Name, NameAll, NameOption, Redactor.Key;
    var x, y := RenameLayer(l, ids, red), RenameLayer(k, ids, red);
    MembersTell(l, k, ids, red);
    NodeListsTell(l.nodes, k.nodes, ids, red);
    EdgeListsTell(l.edges, k.edges, x.edges, y.edges, ids);
    ActionListsTell(l.actions, k.actions, x.actions, y.actions, ids, red);
    LayoutsTell(l.layout, k.layout, ids);
    if |l.nodes| == |k.nodes| && forall i | 0 <= i < |l.nodes| :: NodesAlike(l.nodes[i], k.nodes[i], red) {
      RenderersTell(l, k, ids, red);
    }
  }

  /**
   Two closures, exported under the same maps by the same redactor, come out equal exactly
   when they are alike: every text reaches the export through the redactor alone, and
   everything else is shown in full.
   */
  lemma ExportsEqualIffAlike(v: View<int>, w: View<int>, x: View<string>, y: View<string>, ids: Maps, red: Redactor)
    requires ids.AllInjective() && NamesView(ids, v) && NamesView(ids, w)
    requires x == RenameView(v, ids, red) && y == RenameView(w, ids, red)
    ensures x == y <==> ViewsAlike(v, w, red)
  {
    NamesTell(ids.node, v.interactionNode, w.interactionNode);
    NamesTell(ids.layer, v.rootLayer, w.rootLayer);
    ActionsTell(v.rootAction, w.rootAction, ids, red);
    hide Injective, NamesAction, NamesLayer, RenameAction, RenameLayer, ActionsAlike, LayersAlike, Name;
    assert |x.layers| == |v.layers| && |y.layers| == |w.layers|;
    if |v.layers| == |w.layers| {
      forall i | 0 <= i < |v.layers|
        ensures x.layers[i] == y.layers[i] <==> LayersAlike(v.layers[i], w.layers[i], red)
      {
        LayersTell(v.layers[i], w.layers[i], ids, red);
      }
    }
  }

  // ------------------------------------------------------------ nothing gets past the redactor

  /** The only text an exported action shows, its portable key aside, is `k`. */
  ghost predicate ActionShowsOnly(a: Action<string>, k: string, share: bool) {
    && a.face == k && (a.interactionText.Some? ==> a.interactionText.value == k) && (a.input.Some? ==> a.input.value == k)
    && (a.clientKey.Some? ==> a.clientKey.value == if share then a.id else k)
  }

  ghost predicate NodeShowsOnly(n: Node<string>, k: string, share: bool) {
    n.base == k && (n.clientKey.Some? ==> n.clientKey.value == if share then n.id else k)
  }

  ghost predicate LayerShowsOnly(l: Layer<string>, k: string, share: bool) {
    && (l.clientKey.Some? ==> l.clientKey.value == if share then l.id else k)
    && (forall n | n in l.nodes :: NodeShowsOnly(n, k, share))
    && (forall a | a in l.actions :: ActionShowsOnly(a, k, share))
  }

  lemma LayerRedacted(l: Layer<int>, ids: Maps, red: Redactor, k: string)
    requires forall s :: red.text(s) == k
    ensures LayerShowsOnly(RenameLayer(l, ids, red), k, red.share)
  {
    var x := RenameLayer(l, ids, red);
    RenamedActions(l, ids, red);
    forall i | 0 <= i < |x.actions|
      ensures ActionShowsOnly(x.actions[i], k, red.share)
    {
      ActionRedacted(l.actions[i], ids, red, k);
    }
    forall i | 0 <= i < |x.nodes|
      ensures NodeShowsOnly(x.nodes[i], k, red.share)
    {
      assert x.nodes[i] == RenameNode(l.nodes[i], ids, red);
    }
  }

  lemma ActionRedacted(a: Action<int>, ids: Maps, red: Redactor, k: string)
    requires forall s :: red.text(s) == k
    ensures ActionShowsOnly(RenameAction(a, ids, red), k, red.share)
  {
  }

  /** A redactor that rewrites every text to `k` leaves no other base, face, input, invoke text or authored key in the export. */
  lemma NothingUnredacted(v: View<int>, x: View<string>, ids: Maps, red: Redactor, k: string)
    requires x == RenameView(v, ids, red) && forall s :: red.text(s) == k
    ensures ActionShowsOnly(x.rootAction, k, red.share) && forall l | l in x.layers :: LayerShowsOnly(l, k, red.share)
  {
    hide LayerShowsOnly, RenameLayer, ActionShowsOnly, RenameAction;
    ActionRedacted(v.rootAction, ids, red, k);
    forall l | l in x.layers
      ensures LayerShowsOnly(l, k, red.share)
    {
      var i :| 0 <= i < |x.layers| && x.layers[i] == l;
      LayerRedacted(v.layers[i], ids, red, k);
    }
  }

  // ------------------------------------------------------------ what is shown in full

  /** An exported action says of its raw action exactly this, under the names given. */
  ghost predicate ActionSays(b: Action<string>, a: Action<int>, ids: Maps, red: Redactor) {
    && a.id in ids.action && b.id == ids.action[a.id] && a.sourceNode in ids.node && b.sourceNode == ids.node[a.sourceNode]
    && (a.sourceLayer.None? <==> b.sourceLayer.None?)
    && (a.sourceLayer.Some? && b.sourceLayer.Some? ==> a.sourceLayer.value in ids.layer && b.sourceLayer.value == ids.layer[a.sourceLayer.value])
    && b.kind == a.kind && b.relation == a.relation && b.converted == a.converted && b.reusable == a.reusable
    && (a.kind == Navigate && a.target.Some? ==> b.target.Some? && a.target.value in ids.layer && b.target.value == ids.layer[a.target.value])
    && (a.kind != Navigate || a.target.None? ==> b.target.None?)
    && |b.inputActions| == |a.inputActions|
    && (forall i | 0 <= i < |a.inputActions| :: a.inputActions[i] in ids.action && b.inputActions[i] == ids.action[a.inputActions[i]])
    && b.face == red.text(a.face)
    && (a.interactionText.None? <==> b.interactionText.None?) && (a.interactionText.Some? && b.interactionText.Some? ==> b.interactionText.value == red.text(a.interactionText.value))
    && (a.input.None? <==> b.input.None?) && (a.input.Some? && b.input.Some? ==> b.input.value == red.text(a.input.value))
  }

  lemma ActionIsSaid(a: Action<int>, ids: Maps, red: Redactor)
    requires NamesAction(ids, a)
    ensures ActionSays(RenameAction(a, ids, red), a, ids, red)
  {
  }

  /** Members, edges, default node and records of an exported layer, one by one. */
  ghost predicate LayerSays(x: Layer<string>, l: Layer<int>, ids: Maps, red: Redactor) {
    && l.id in ids.layer && x.id == ids.layer[l.id]
    && |x.memberNodes| == |l.memberNodes| && (forall i | 0 <= i < |l.memberNodes| :: l.memberNodes[i] in ids.node && x.memberNodes[i] == ids.node[l.memberNodes[i]])
    && |x.memberEdges| == |l.memberEdges| && (forall i | 0 <= i < |l.memberEdges| :: l.memberEdges[i] in ids.edge && x.memberEdges[i] == ids.edge[l.memberEdges[i]])
    && (l.defaultNode.Some? ==> x.defaultNode.Some? && l.defaultNode.value in ids.node && x.defaultNode.value == ids.node[l.defaultNode.value])
    && |x.nodes| == |l.nodes| && (forall i | 0 <= i < |l.nodes| ::
          l.nodes[i].id in ids.node && x.nodes[i].id == ids.node[l.nodes[i].id] && x.nodes[i].base == red.text(l.nodes[i].base))
    && |x.edges| == |l.edges| && (forall i | 0 <= i < |l.edges| :: EdgeSays(x.edges[i], l.edges[i], ids))
    && |x.actions| == |l.actions| && (forall i | 0 <= i < |l.actions| :: ActionSays(x.actions[i], l.actions[i], ids, red))
  }

  ghost predicate EdgeSays(x: Edge<string>, e: Edge<int>, ids: Maps) {
    && e.id in ids.edge && x.id == ids.edge[e.id]
    && e.left in ids.node && x.left == ids.node[e.left] && e.right in ids.node && x.right == ids.node[e.right]
  }

  lemma LayerIsSaid(l: Layer<int>, ids: Maps, red: Redactor)
    requires NamesLayer(ids, l)
    ensures LayerSays(RenameLayer(l, ids, red), l, ids, red)
  {
    RenamedActions(l, ids, red);
    EdgesOfLayer(l, ids, red);
    hide ActionSays, RenameAction, NamesAction, EdgeSays, RenameEdge, NamesEdge;
    forall i | 0 <= i < |l.actions| { ActionIsSaid(l.actions[i], ids, red); }
    forall i | 0 <= i < |l.edges| { EdgeIsSaid(l.edges[i], ids); }
  }

  lemma EdgeIsSaid(e: Edge<int>, ids: Maps)
    requires NamesEdge(ids, e)
    ensures EdgeSays(RenameEdge(e, ids), e, ids)
  {
  }

  /** An exported view says of its closure, layer by layer, what the records say, renamed and redacted. */
  lemma ViewIsSaid(v: View<int>, x: View<string>, ids: Maps, red: Redactor)
    requires NamesView(ids, v) && x == RenameView(v, ids, red)
    ensures v.interactionNode in ids.node && x.interactionNode == ids.node[v.interactionNode]
    ensures v.rootLayer in ids.layer && x.rootLayer == ids.layer[v.rootLayer] && ActionSays(x.rootAction, v.rootAction, ids, red)
    ensures |x.layers| == |v.layers| && forall i | 0 <= i < |v.layers| :: LayerSays(x.layers[i], v.layers[i], ids, red)
  {
    ActionIsSaid(v.rootAction, ids, red);
    hide LayerSays, ActionSays, RenameLayer, NamesLayer;
    forall i | 0 <= i < |v.layers| { LayerIsSaid(v.layers[i], ids, red); }
  }
}
