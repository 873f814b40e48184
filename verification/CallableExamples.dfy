/**
 A family of one-layer views around a callable that binds an input: two nodes joined by an
 edge that is drawn, an input on one of them, and an invoke on the first that asks for one
 input by its id. Which of them are accepted is told in plain fields.
 */
module CallableExamples {
  import opened Text
  import opened Walks
  import opened GraphChecks
  import opened ExportModel
  import opened AcceptedView
  import opened ExportStream

  /** `source` is the node the input stands on, `wanted` the id the invoke binds. */
  datatype Names = Names(
    interaction: Id, layer: Id, near: Id, far: Id, edge: Id, open: Id, ask: Id, call: Id,
    source: Id, wanted: Id, text: string, reversed: bool)
  {
    ghost predicate Apart() {
      near != far && ask != call && open != ask && open != call && (source == near || source == far)
    }
  }

  function Asks(n: Names): Action<Id> {
    Action(n.ask, Some("ask"), n.source, Some(n.layer), Input, None, None, false, None, Some("form"), [], None, "Ask")
  }

  function Calls(n: Names): Action<Id> {
    Action(n.call, Some("call"), n.near, Some(n.layer), Invoke, None, None, false, Some(n.text), None, [n.wanted], Some(true), "Call")
  }

  function Drawing(n: Names): Layout<Id> {
    Layout([n.far, n.near], [Route(n.edge, if n.reversed then [n.far, n.near] else [n.near, n.far], true, "")], "")
  }

  function OnlyLayer(n: Names): Layer<Id> {
    Layer(n.layer, None, [n.near, n.far], [n.edge], Some(n.far),
          [Node(n.near, Some("near"), "Near", None, None, None, []), Node(n.far, Some("far"), "Far", None, Some("More"), None, [])],
          [Edge(n.edge, n.near, n.far)], [Asks(n), Calls(n)], Some(Drawing(n)), None)
  }

  function CallableView(n: Names): View<Id> {
    View(n.interaction,
         Action(n.open, None, n.interaction, None, Navigate, Some(Expand), Some(n.layer), false, None, None, [], None, "Open"),
         n.layer, [OnlyLayer(n)])
  }

  lemma {:induction false} Joined(n: Names)
    ensures Connected([n.near, n.far], [Edge(n.edge, n.near, n.far)])
  {
    var edges := [Edge(n.edge, n.near, n.far)];
    var r := Joins(edges);
    assert edges[0] in edges && r(n.near, n.far) && r(n.far, n.near);
    ReachesSelf(r, n.near);
    ReachesSelf(r, n.far);
    ReachesStep(r, n.near, n.near, n.far);
    ReachesStep(r, n.far, n.far, n.near);
  }

  lemma {:induction false} Drawn(n: Names)
    requires n.Apart()
    ensures LayoutOk(OnlyLayer(n), Drawing(n))
  {
    var l, y := OnlyLayer(n), Drawing(n);
    assert RouteIds(y.routes) == [n.edge];
    assert l.edges[0] in l.edges && EndsOk(y.routes[0].ends, l.edges[0]);
  }

  lemma {:induction false} OnlyLayerOk(n: Names)
    requires n.Apart()
    ensures LayerOk(OnlyLayer(n))
  {
    hide LayoutOk, Connected;
    var l := OnlyLayer(n);
    Joined(n);
    Drawn(n);
    assert NodeIds(l.nodes) == [n.near, n.far] && EdgeIds(l.edges) == [n.edge] && ActionIds(l.actions) == [n.ask, n.call];
  }

  /** The binding finds an input of its id on the invoke's own node, in the layer or the header. */
  ghost predicate Found(n: Names, held: seq<Action<Id>>) {
    (n.wanted == n.ask && n.source == n.near) || exists x :: x in held && x.id == n.wanted && x.kind == Input && x.sourceNode == n.near
  }

  lemma {:induction false} FoundIsResolved(n: Names, held: seq<Action<Id>>)
    requires n.Apart()
    ensures BindingResolved(CallableView(n), held, n.wanted, n.near) <==> Found(n, held)
  {
    var v := CallableView(n);
    assert v.layers[0] in v.layers && OnlyLayer(n).actions[0] in OnlyLayer(n).actions;
    if n.wanted == n.ask && n.source == n.near {
      assert Binds(Asks(n), n.wanted, n.near);
    }
    if x :| x in held && x.id == n.wanted && x.kind == Input && x.sourceNode == n.near {
      assert Binds(x, n.wanted, n.near);
    }
  }

  lemma {:induction false} AskInPlace(n: Names, version: int, held: seq<Action<Id>>)
    requires n.Apart()
    ensures ActionInPlace(CallableView(n), version, held, OnlyLayer(n), Asks(n))
  {
  }

  lemma {:induction false} CallInPlace(n: Names, version: int, held: seq<Action<Id>>)
    requires n.Apart()
    ensures ActionInPlace(CallableView(n), version, held, OnlyLayer(n), Calls(n)) <==> version == V4 && !Blank(n.text) && Found(n, held)
  {
    hide BindingResolved, Found, Blank;
    FoundIsResolved(n, held);
    assert Calls(n).inputActions[0] in Calls(n).inputActions;
  }

  lemma {:induction false} RecordsDecide(n: Names, version: int, held: seq<Action<Id>>)
    requires n.Apart()
    ensures Records(CallableView(n), version, held) <==> version == V4 && !Blank(n.text) && Found(n, held)
  {
    hide ActionInPlace, Found, Blank, NodesAgree, EdgesAgree, ActionsAgree, NodesOf, EdgesOf, ActionsOf;
    var v, l := CallableView(n), OnlyLayer(n);
    AskInPlace(n, version, held);
    CallInPlace(n, version, held);
    assert v.layers[0] == l && l in v.layers && l.actions[0] == Asks(n) && l.actions[1] == Calls(n) && l.actions[1] in l.actions;
    NodesAndEdgesAgree(n);
    TwoActionsAgree(n);
  }

  lemma {:induction false} NodesAndEdgesAgree(n: Names)
    requires n.Apart()
    ensures var ls := CallableView(n).layers; NodesAgree(NodesOf(ls), V4) && EdgesAgree(EdgesOf(ls))
  {
    var v, l := CallableView(n), OnlyLayer(n);
    assert forall x | x in NodesOf(v.layers) :: x == l.nodes[0] || x == l.nodes[1];
    assert forall x | x in EdgesOf(v.layers) :: x == l.edges[0];
  }

  lemma {:induction false} TwoActionsAgree(n: Names)
    requires n.Apart()
    ensures ActionsAgree(ActionsOf(CallableView(n).layers), n.layer, V4)
  {
    var v := CallableView(n);
    assert forall x | x in ActionsOf(v.layers) :: x == Asks(n) || x == Calls(n);
    hide ActionsOf;
  }

  lemma {:induction false} NothingExpands(n: Names, c: Id)
    ensures !OnCycle(Expands(CallableView(n).layers), c)
  {
    hide OnCycle;
    if OnCycle(Expands(CallableView(n).layers), c) {
      CycleSteps(Expands(CallableView(n).layers), c);
    }
  }

  /**
   Such a view is accepted exactly in V4, with a nonblank invoke text, when the invoke binds
   an input that stands on its own node, in the layer or among the header's bound inputs.
   */
  lemma {:induction false} CallableAcceptedIff(n: Names, version: int, held: seq<Action<Id>>)
    requires n.Apart()
    ensures ViewOk(CallableView(n), version, held) <==> version == V4 && !Blank(n.text) && Found(n, held)
  {
    hide LayerOk, Records, OnCycle, Navigates, Expands, Reaches, Found, Blank;
    var v := CallableView(n);
    OnlyLayerOk(n);
    RecordsDecide(n, version, held);
    assert LayerIds(v.layers) == [n.layer];
    ReachesSelf(Navigates(v.layers), n.layer);
    forall c { NothingExpands(n, c); }
  }
}
