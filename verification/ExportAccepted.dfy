/**
 What the builder writes, the validator accepts: an acceptable raw closure stays acceptable
 under the portable renaming exactly when redaction keeps invoke texts nonblank and does not
 collapse client keys that must stay apart. A share, which replaces every key by a portable
 identifier, can only fail on a text.
 */
module ExportAccepted {
  import opened Text
  import opened Walks
  import opened GraphChecks
  import opened ExportModel
  import opened PortableIds
  import opened AcceptedView
  import opened ExportBuilder
  import opened RenamingTheorems

  // ------------------------------------------------------------ what redaction must keep

  ghost predicate TextKept(a: Action<int>, red: Redactor) {
    a.interactionText.Some? ==> !Blank(red.text(a.interactionText.value))
  }

  predicate Collide(x: Option<string>, y: Option<string>, red: Redactor) {
    x.Some? && y.Some? && red.text(x.value) == red.text(y.value)
  }

  ghost predicate ActionKeysKept(v: View<int>, red: Redactor) {
    forall a, b | a in ActionsOf(v.layers) && b in ActionsOf(v.layers) && a.sourceNode == b.sourceNode
      && Collide(a.clientKey, b.clientKey, red) :: a.id == b.id
  }

  ghost predicate NodeKeysKept(v: View<int>, red: Redactor) {
    forall a, b | a in NodesOf(v.layers) && b in NodesOf(v.layers) && Collide(a.clientKey, b.clientKey, red) :: a.id == b.id
  }

  ghost predicate LayerKeysKept(v: View<int>, red: Redactor) {
    forall a, b | a in v.layers && b in v.layers && Collide(a.clientKey, b.clientKey, red) :: a.id == b.id
  }

  /** Invoke texts stay nonblank; unless sharing, keys of one source stay apart, and before V3 node and layer keys too. */
  ghost predicate RedactionKeeps(v: View<int>, version: int, red: Redactor) {
    && (forall a | a in ActionsOf(v.layers) :: TextKept(a, red))
    && (red.share || (ActionKeysKept(v, red) && (version < V3 ==> NodeKeysKept(v, red) && LayerKeysKept(v, red))))
  }

  function RenameActions(actions: seq<Action<int>>, ids: Maps, red: Redactor): (xs: seq<Action<string>>)
    ensures |xs| == |actions| && forall i | 0 <= i < |actions| :: xs[i] == RenameAction(actions[i], ids, red)
  {
    seq(|actions|, i requires 0 <= i < |actions| => RenameAction(actions[i], ids, red))
  }

  /** The maps are injective and name everything in the view and among the bound inputs. */
  ghost predicate Names(ids: Maps, v: View<int>, bound: seq<Action<int>>) {
    ids.AllInjective() && NamesView(ids, v) && forall i | 0 <= i < |bound| :: NamesAction(ids, bound[i])
  }

  // ------------------------------------------------------------ records and their copies

  lemma LayerOut(v: View<int>, ids: Maps, red: Redactor, l: Layer<int>)
    requires NamesView(ids, v) && l in v.layers
    ensures RenameLayer(l, ids, red) in RenameView(v, ids, red).layers && NamesLayer(ids, l)
  {
    hide RenameLayer, NamesLayer;
    var i :| 0 <= i < |v.layers| && v.layers[i] == l;
    assert RenameView(v, ids, red).layers[i] == RenameLayer(l, ids, red);
  }

  lemma LayerIn(v: View<int>, ids: Maps, red: Redactor, y: Layer<string>) returns (l: Layer<int>)
    requires NamesView(ids, v) && y in RenameView(v, ids, red).layers
    ensures l in v.layers && y == RenameLayer(l, ids, red) && NamesLayer(ids, l)
  {
    hide RenameLayer, NamesLayer;
    var x := RenameView(v, ids, red);
    var i :| 0 <= i < |x.layers| && x.layers[i] == y;
    l := v.layers[i];
  }

  lemma ActionOut(v: View<int>, ids: Maps, red: Redactor, a: Action<int>)
    requires NamesView(ids, v) && a in ActionsOf(v.layers)
    ensures RenameAction(a, ids, red) in ActionsOf(RenameView(v, ids, red).layers) && NamesAction(ids, a)
  {
    var l :| l in v.layers && a in l.actions;
    LayerOut(v, ids, red, l);
    RenamedActions(l, ids, red);
    hide RenameLayer, RenameView, RenameAction, NamesAction;
    var j :| 0 <= j < |l.actions| && l.actions[j] == a;
    assert RenameLayer(l, ids, red).actions[j] in RenameLayer(l, ids, red).actions;
  }

  lemma ActionIn(v: View<int>, ids: Maps, red: Redactor, b: Action<string>) returns (a: Action<int>)
    requires NamesView(ids, v) && b in ActionsOf(RenameView(v, ids, red).layers)
    ensures a in ActionsOf(v.layers) && b == RenameAction(a, ids, red) && NamesAction(ids, a)
  {
    hide RenameLayer, RenameView, RenameAction, NamesAction, NamesView, NamesLayer;
    var y :| y in RenameView(v, ids, red).layers && b in y.actions;
    var l := LayerIn(v, ids, red, y);
    a := ActionBack(l, ids, red, b);
  }

  lemma NodeOut(v: View<int>, ids: Maps, red: Redactor, n: Node<int>)
    requires NamesView(ids, v) && n in NodesOf(v.layers)
    ensures RenameNode(n, ids, red) in NodesOf(RenameView(v, ids, red).layers) && n.id in ids.node
  {
    var l :| l in v.layers && n in l.nodes;
    LayerOut(v, ids, red, l);
    var k :| 0 <= k < |l.nodes| && l.nodes[k] == n;
    assert RenameLayer(l, ids, red).nodes[k] == RenameNode(n, ids, red);
    hide RenameLayer, RenameView, RenameNode;
    assert RenameLayer(l, ids, red).nodes[k] in RenameLayer(l, ids, red).nodes;
  }

  lemma NodeIn(v: View<int>, ids: Maps, red: Redactor, m: Node<string>) returns (n: Node<int>)
    requires NamesView(ids, v) && m in NodesOf(RenameView(v, ids, red).layers)
    ensures n in NodesOf(v.layers) && m == RenameNode(n, ids, red) && n.id in ids.node
  {
    var y :| y in RenameView(v, ids, red).layers && m in y.nodes;
    var l := LayerIn(v, ids, red, y);
    hide RenameView, RenameNode;
    var k :| 0 <= k < |y.nodes| && y.nodes[k] == m;
    n := l.nodes[k];
    assert n in l.nodes;
  }

  lemma EdgeIn(v: View<int>, ids: Maps, red: Redactor, d: Edge<string>) returns (e: Edge<int>)
    requires NamesView(ids, v) && d in EdgesOf(RenameView(v, ids, red).layers)
    ensures e in EdgesOf(v.layers) && d == RenameEdge(e, ids) && NamesEdge(ids, e)
  {
    var y :| y in RenameView(v, ids, red).layers && d in y.edges;
    var l := LayerIn(v, ids, red, y);
    hide RenameView, RenameEdge;
    var k :| 0 <= k < |y.edges| && y.edges[k] == d;
    e := l.edges[k];
    assert e in l.edges;
  }

  // ------------------------------------------------------------ one definition per identifier

  lemma EdgesStillAgree(v: View<int>, ids: Maps, red: Redactor)
    requires ids.AllInjective() && NamesView(ids, v) && EdgesAgree(EdgesOf(v.layers))
    ensures EdgesAgree(EdgesOf(RenameView(v, ids, red).layers))
  {
    hide RenameView, NamesView, EdgesOf;
    var xs := EdgesOf(RenameView(v, ids, red).layers);
    forall c, d | c in xs && d in xs && c.id == d.id
      ensures c == d
    {
      var e := EdgeIn(v, ids, red, c);
      var f := EdgeIn(v, ids, red, d);
      assert e.id == f.id;
    }
  }

  lemma NodesStillAgree(v: View<int>, ids: Maps, red: Redactor, version: int)
    requires ids.AllInjective() && NamesView(ids, v) && NodesAgree(NodesOf(v.layers), version)
    ensures NodesAgree(NodesOf(RenameView(v, ids, red).layers), version) <==> version >= V3 || red.share || NodeKeysKept(v, red)
  {
    hide RenameView, NamesView, NodesOf;
    var xs := NodesOf(RenameView(v, ids, red).layers);
    forall c, d | c in xs && d in xs && c.id == d.id
      ensures c == d
    {
      var m := NodeIn(v, ids, red, c);
      var n := NodeIn(v, ids, red, d);
      assert m.id == n.id;
    }
    if version < V3 { NodeKeysDecide(v, ids, red); }
  }

  lemma NodeKeysDecide(v: View<int>, ids: Maps, red: Redactor)
    requires ids.AllInjective() && NamesView(ids, v)
    ensures (forall c, d | c in NodesOf(RenameView(v, ids, red).layers) && d in NodesOf(RenameView(v, ids, red).layers)
              && c.clientKey.Some? && c.clientKey == d.clientKey :: c.id == d.id) <==> red.share || NodeKeysKept(v, red)
  {
    hide RenameView, NamesView, NodesOf;
    var xs := NodesOf(RenameView(v, ids, red).layers);
    if red.share || NodeKeysKept(v, red) {
      forall c, d | c in xs && d in xs && c.clientKey.Some? && c.clientKey == d.clientKey
        ensures c.id == d.id
      {
        var m := NodeIn(v, ids, red, c);
        var n := NodeIn(v, ids, red, d);
        assert !red.share ==> Collide(m.clientKey, n.clientKey, red);
      }
    }
    if !red.share && !NodeKeysKept(v, red) {
      var m, n :| m in NodesOf(v.layers) && n in NodesOf(v.layers) && Collide(m.clientKey, n.clientKey, red) && m.id != n.id;
      NodeOut(v, ids, red, m);
      NodeOut(v, ids, red, n);
      assert RenameNode(m, ids, red).id != RenameNode(n, ids, red).id;
    }
  }

  lemma LayerKeysDecide(v: View<int>, ids: Maps, red: Redactor)
    requires ids.AllInjective() && NamesView(ids, v)
    ensures LayerKeysAgree(RenameView(v, ids, red).layers) <==> red.share || LayerKeysKept(v, red)
  {
    hide RenameView, NamesView;
    var xs := RenameView(v, ids, red).layers;
    if red.share || LayerKeysKept(v, red) {
      forall c, d | c in xs && d in xs && c.clientKey.Some? && c.clientKey == d.clientKey
        ensures c.id == d.id
      {
        var m := LayerIn(v, ids, red, c);
        var n := LayerIn(v, ids, red, d);
        assert !red.share ==> Collide(m.clientKey, n.clientKey, red);
      }
    }
    if !red.share && !LayerKeysKept(v, red) {
      var m, n :| m in v.layers && n in v.layers && Collide(m.clientKey, n.clientKey, red) && m.id != n.id;
      LayerOut(v, ids, red, m);
      LayerOut(v, ids, red, n);
      assert RenameLayer(m, ids, red).id != RenameLayer(n, ids, red).id;
    }
  }

  lemma ActionsDefinedOnce(v: View<int>, ids: Maps, red: Redactor)
    requires ids.AllInjective() && NamesView(ids, v) && OneDefinition(ActionsOf(v.layers))
    ensures OneDefinition(ActionsOf(RenameView(v, ids, red).layers))
  {
    hide RenameView, NamesView, ActionsOf;
    var xs := ActionsOf(RenameView(v, ids, red).layers);
    forall c, d | c in xs && d in xs && c.id == d.id
      ensures c == d
    {
      var a := ActionIn(v, ids, red, c);
      var b := ActionIn(v, ids, red, d);
      assert a.id == b.id;
    }
  }

  lemma ActionKeysDecide(v: View<int>, ids: Maps, red: Redactor)
    requires ids.AllInjective() && NamesView(ids, v)
    ensures OneKeyHolder(ActionsOf(RenameView(v, ids, red).layers)) <==> red.share || ActionKeysKept(v, red)
  {
    hide RenameView, NamesView, ActionsOf;
    var xs := ActionsOf(RenameView(v, ids, red).layers);
    if red.share || ActionKeysKept(v, red) {
      forall c, d | c in xs && d in xs && c.sourceNode == d.sourceNode && c.clientKey.Some? && c.clientKey == d.clientKey
        ensures c.id == d.id
      {
        var a := ActionIn(v, ids, red, c);
        var b := ActionIn(v, ids, red, d);
        assert a.sourceNode == b.sourceNode;
        assert !red.share ==> Collide(a.clientKey, b.clientKey, red);
      }
    }
    if !red.share && !ActionKeysKept(v, red) {
      var a, b :| a in ActionsOf(v.layers) && b in ActionsOf(v.layers) && a.sourceNode == b.sourceNode
        && Collide(a.clientKey, b.clientKey, red) && a.id != b.id;
      ActionOut(v, ids, red, a);
      ActionOut(v, ids, red, b);
      assert RenameAction(a, ids, red).id != RenameAction(b, ids, red).id;
    }
  }

  lemma RelationsStillAgree(v: View<int>, ids: Maps, red: Redactor)
    requires ids.AllInjective() && NamesView(ids, v) && OneRelation(ActionsOf(v.layers), v.rootLayer)
    ensures OneRelation(ActionsOf(RenameView(v, ids, red).layers), RenameView(v, ids, red).rootLayer)
  {
    assert v.rootLayer in ids.layer && RenameView(v, ids, red).rootLayer == ids.layer[v.rootLayer];
    hide RenameView, NamesView, ActionsOf;
    var xs, root := ActionsOf(RenameView(v, ids, red).layers), ids.layer[v.rootLayer];
    forall c, d | c in xs && d in xs && c.kind == Navigate && d.kind == Navigate && c.target == d.target
      ensures c.relation == d.relation
    {
      var a := ActionIn(v, ids, red, c);
      var b := ActionIn(v, ids, red, d);
      assert a.target == b.target;
    }
    forall c | c in xs && c.kind == Navigate && c.target == Some(root)
      ensures c.relation == Some(Expand)
    {
      var a := ActionIn(v, ids, red, c);
      assert a.target == Some(v.rootLayer);
    }
  }

  // ------------------------------------------------------------ one action in its place

  /** A well-formed action stays well formed exactly when its text stays nonblank. */
  lemma ActionOkRenamed(a: Action<int>, ids: Maps, red: Redactor)
    requires ids.AllInjective() && NamesAction(ids, a) && ActionOk(a)
    ensures ActionOk(RenameAction(a, ids, red)) <==> TextKept(a, red)
  {
    hide Blank;
    var b := RenameAction(a, ids, red);
    assert |b.inputActions| == |a.inputActions|;
    forall i, j | 0 <= i < j < |a.inputActions|
      ensures b.inputActions[i] != b.inputActions[j]
    {
      assert a.inputActions[i] != a.inputActions[j];
    }
  }

  lemma BindingStillResolved(v: View<int>, bound: seq<Action<int>>, ids: Maps, red: Redactor, id: int, source: int)
    requires Names(ids, v, bound) && BindingResolved(v, bound, id, source)
    ensures BindingResolved(RenameView(v, ids, red), RenameActions(bound, ids, red), Name(ids.action, id), Name(ids.node, source))
  {
    var x, y := RenameView(v, ids, red), RenameActions(bound, ids, red);
    if c, l :| l in v.layers && c in l.actions && Binds(c, id, source) {
      assert c in ActionsOf(v.layers);
      ActionOut(v, ids, red, c);
      var d := RenameAction(c, ids, red);
      hide RenameView;
      var k :| k in x.layers && d in k.actions;
      assert Binds(d, Name(ids.action, id), Name(ids.node, source));
    } else {
      var c :| c in bound && Binds(c, id, source);
      var i :| 0 <= i < |bound| && bound[i] == c;
      assert y[i] in y && Binds(y[i], Name(ids.action, id), Name(ids.node, source));
    }
  }

  lemma SourceStillInLayer(v: View<int>, ids: Maps, red: Redactor, a: Action<int>, y: Layer<string>)
    requires ids.AllInjective() && NamesView(ids, v) && NamesAction(ids, a)
    requires forall s | s in v.layers && a.sourceLayer == Some(s.id) :: a.sourceNode in s.memberNodes
    requires y in RenameView(v, ids, red).layers && RenameAction(a, ids, red).sourceLayer == Some(y.id)
    ensures RenameAction(a, ids, red).sourceNode in y.memberNodes
  {
    var l := LayerIn(v, ids, red, y);
    assert a.sourceLayer == Some(l.id);
    NamedMember(ids.node, l.memberNodes, a.sourceNode);
  }

  lemma StillInPlace(v: View<int>, version: int, bound: seq<Action<int>>, ids: Maps, red: Redactor, l: Layer<int>, a: Action<int>)
    requires Names(ids, v, bound) && l in v.layers && a in l.actions
    requires ActionInPlace(v, version, bound, l, a) && TextKept(a, red)
    ensures ActionInPlace(RenameView(v, ids, red), version, RenameActions(bound, ids, red), RenameLayer(l, ids, red), RenameAction(a, ids, red))
  {
    hide BindingResolved, ActionOk, RenameView, RenameLayer, Injective;
    var x, b := RenameView(v, ids, red), RenameAction(a, ids, red);
    NamesActionOf(v, ids, l, a);
    ActionOkRenamed(a, ids, red);
    ActionShapeRenamed(v, x, ids, red, l, a);
    forall id | id in b.inputActions
      ensures BindingResolved(x, RenameActions(bound, ids, red), id, b.sourceNode)
    {
      var i :| 0 <= i < |b.inputActions| && b.inputActions[i] == id;
      assert a.inputActions[i] in a.inputActions;
      BindingStillResolved(v, bound, ids, red, a.inputActions[i], a.sourceNode);
    }
    forall y | y in x.layers && b.sourceLayer == Some(y.id)
      ensures b.sourceNode in y.memberNodes
    {
      SourceStillInLayer(v, ids, red, a, y);
    }
  }

  lemma NamesActionOf(v: View<int>, ids: Maps, l: Layer<int>, a: Action<int>)
    requires NamesView(ids, v) && l in v.layers && a in l.actions
    ensures NamesAction(ids, a) && NamesLayer(ids, l)
  {
    var i :| 0 <= i < |v.layers| && v.layers[i] == l;
    var j :| 0 <= j < |l.actions| && l.actions[j] == a;
    assert NamesAction(ids, l.actions[j]);
  }

  // ------------------------------------------------------------ layers and the root

  lemma LayerStillOk(l: Layer<int>, ids: Maps, red: Redactor)
    requires ids.AllInjective() && NamesLayer(ids, l) && LayerOk(l)
    ensures LayerOk(RenameLayer(l, ids, red))
  {
    var x := RenameLayer(l, ids, red);
    assert LayerShape(l) by { hide LayoutOk, Connected; ShapeOfLayer(l); }
    LayerShapeRenamed(l, ids, red);
    RenamedActionIds(l, ids, red);
    NamedDistinct(ids.action, ActionIds(l.actions));
    LayerCounts(l, ids, red);
    hide RenameLayer, NamesLayer, LayoutOk, Connected, Distinct;
    assert forall i | 0 <= i < |x.edges| :: EdgeShape(x, x.edges[i]);
  }

  lemma ShapeOfLayer(l: Layer<int>)
    requires LayerOk(l)
    ensures LayerShape(l)
  {
    assert forall i | 0 <= i < |l.edges| :: l.edges[i] in l.edges;
  }

  lemma LayerCounts(l: Layer<int>, ids: Maps, red: Redactor)
    ensures var x := RenameLayer(l, ids, red);
      && |x.nodes| == |l.nodes| && |x.edges| == |l.edges| && |x.actions| == |l.actions|
      && forall n | n in x.nodes :: !(n.authoredDetail.Some? && n.authoredDetailOmitted.Some?)
  {
  }

  lemma RenamedActionIds(l: Layer<int>, ids: Maps, red: Redactor)
    requires NamesLayer(ids, l)
    ensures ActionIds(RenameLayer(l, ids, red).actions) == NameAll(ids.action, ActionIds(l.actions)) && Covered(ids.action, ActionIds(l.actions))
  {
    RenamedActions(l, ids, red);
    hide RenameLayer;
    assert forall i | 0 <= i < |l.actions| :: NamesAction(ids, l.actions[i]);
  }

  lemma LayersDecide(v: View<int>, version: int, ids: Maps, red: Redactor)
    requires ids.AllInjective() && NamesView(ids, v) && LayersOk(v, version)
    ensures LayersOk(RenameView(v, ids, red), version) <==> version >= V3 || red.share || LayerKeysKept(v, red)
  {
    hide LayerOk, Injective, Distinct, LayerKeysAgree, LayerKeysKept, RenameLayer;
    var x := RenameView(v, ids, red);
    forall y | y in x.layers
      ensures LayerOk(y)
    {
      var l := LayerIn(v, ids, red, y);
      LayerStillOk(l, ids, red);
    }
    LayersNamed(v, ids);
    RenamedLayerIds(v, ids, red);
    NamedDistinct(ids.layer, LayerIds(v.layers));
    NamedMember(ids.layer, LayerIds(v.layers), v.rootLayer);
    LayerKeysDecide(v, ids, red);
  }

  lemma RootStillOk(v: View<int>, ids: Maps, red: Redactor)
    requires ids.AllInjective() && NamesView(ids, v) && RootActionOk(v)
    ensures RootActionOk(RenameView(v, ids, red))
  {
    ActionOkRenamed(v.rootAction, ids, red);
  }

  // ------------------------------------------------------------ the whole view

  lemma RecordsDecide(v: View<int>, version: int, bound: seq<Action<int>>, ids: Maps, red: Redactor)
    requires Names(ids, v, bound) && Records(v, version, bound)
    ensures Records(RenameView(v, ids, red), version, RenameActions(bound, ids, red)) <==>
      && (forall a | a in ActionsOf(v.layers) :: TextKept(a, red))
      && (red.share || (ActionKeysKept(v, red) && (version < V3 ==> NodeKeysKept(v, red))))
  {
    hide ActionInPlace, NamesView, RenameView, ActionKeysKept, NodeKeysKept, OneDefinition, OneKeyHolder, OneRelation, NodesAgree, EdgesAgree;
    EdgesStillAgree(v, ids, red);
    NodesStillAgree(v, ids, red, version);
    ActionsDefinedOnce(v, ids, red);
    ActionKeysDecide(v, ids, red);
    if version < V3 { RelationsStillAgree(v, ids, red); }
    PlacesDecide(v, version, bound, ids, red);
  }

  ghost predicate AllInPlace<I(!new)>(v: View<I>, version: int, bound: seq<Action<I>>) {
    forall l, a | l in v.layers && a in l.actions :: ActionInPlace(v, version, bound, l, a)
  }

  lemma PlacesDecide(v: View<int>, version: int, bound: seq<Action<int>>, ids: Maps, red: Redactor)
    requires Names(ids, v, bound) && AllInPlace(v, version, bound)
    ensures AllInPlace(RenameView(v, ids, red), version, RenameActions(bound, ids, red)) <==>
      (forall a | a in ActionsOf(v.layers) :: TextKept(a, red))
  {
    var x, y := RenameView(v, ids, red), RenameActions(bound, ids, red);
    hide ActionInPlace, NamesView, RenameView, TextKept, RenameAction, NamesLayer, NamesAction, RenameLayer, RenameActions;
    if forall a | a in ActionsOf(v.layers) :: TextKept(a, red) {
      forall k, b | k in x.layers && b in k.actions
        ensures ActionInPlace(x, version, y, k, b)
      {
        var l := LayerIn(v, ids, red, k);
        var a := ActionBack(l, ids, red, b);
        assert a in ActionsOf(v.layers);
        StillInPlace(v, version, bound, ids, red, l, a);
      }
    }
    if AllInPlace(x, version, y) {
      forall a | a in ActionsOf(v.layers)
        ensures TextKept(a, red)
      {
        ActionOut(v, ids, red, a);
        var l :| l in v.layers && a in l.actions;
        var k :| k in x.layers && RenameAction(a, ids, red) in k.actions;
        InPlaceIsOk(v, version, bound, l, a);
        InPlaceIsOk(x, version, y, k, RenameAction(a, ids, red));
        ActionOkRenamed(a, ids, red);
      }
    }
  }

  lemma InPlaceIsOk<I>(v: View<I>, version: int, bound: seq<Action<I>>, l: Layer<I>, a: Action<I>)
    requires ActionInPlace(v, version, bound, l, a)
    ensures ActionOk(a)
  {
  }

  lemma ClosureStillReached(v: View<int>, version: int, bound: seq<Action<int>>, ids: Maps, red: Redactor)
    requires Names(ids, v, bound) && ViewOk(v, version, bound)
    ensures var x := RenameView(v, ids, red);
      && ExpandAcyclic(x, version)
      && forall id | id in LayerIds(x.layers) :: Reaches(Navigates(x.layers), x.rootLayer, id)
  {
    var x := RenameView(v, ids, red);
    hide ViewOk, RenameView, NamesView, ActionsShape, Reaches, Navigates, LayerShape, ExpandAcyclic, Injective;
    AcceptedHasShape(v, version, bound);
    ExportPreservesShape(v, x, ids, red, version);
  }

  /**
   The exported view of an acceptable closure passes the whole validation exactly when
   redaction keeps what it must: both directions, for every naming, redactor and version.
   */
  lemma ExportAcceptedIff(v: View<int>, version: int, bound: seq<Action<int>>, ids: Maps, red: Redactor)
    requires Names(ids, v, bound) && ViewOk(v, version, bound)
    ensures ViewOk(RenameView(v, ids, red), version, RenameActions(bound, ids, red)) <==> RedactionKeeps(v, version, red)
  {
    hide LayersOk, Records, ExpandAcyclic, Reaches, Navigates, RenameView, NamesView, RootActionOk, RenameActions;
    hide ActionKeysKept, NodeKeysKept, LayerKeysKept, TextKept;
    RootStillOk(v, ids, red);
    LayersDecide(v, version, ids, red);
    RecordsDecide(v, version, bound, ids, red);
    ClosureStillReached(v, version, bound, ids, red);
  }

  /** A share of an acceptable closure is accepted unless it blanks an invoke's text. */
  lemma ShareAccepted(v: View<int>, version: int, bound: seq<Action<int>>, ids: Maps, red: Redactor)
    requires Names(ids, v, bound) && ViewOk(v, version, bound) && red.share
    ensures ViewOk(RenameView(v, ids, red), version, RenameActions(bound, ids, red)) <==>
      (forall a | a in ActionsOf(v.layers) :: TextKept(a, red))
  {
    hide ViewOk, RenameView, TextKept, Names, RenameActions;
    ExportAcceptedIff(v, version, bound, ids, red);
  }

  /** Outside a share, redacting two keys of one source node to the same text makes the export unacceptable. */
  lemma CollapsedKeysRefused(v: View<int>, version: int, bound: seq<Action<int>>, ids: Maps, red: Redactor, a: Action<int>, b: Action<int>)
    requires Names(ids, v, bound) && ViewOk(v, version, bound) && !red.share
    requires a in ActionsOf(v.layers) && b in ActionsOf(v.layers) && a.id != b.id
    requires a.sourceNode == b.sourceNode && Collide(a.clientKey, b.clientKey, red)
    ensures !ViewOk(RenameView(v, ids, red), version, RenameActions(bound, ids, red))
  {
    hide ViewOk, RenameView, TextKept, Names, RenameActions, ActionsOf;
    ExportAcceptedIff(v, version, bound, ids, red);
  }
}
