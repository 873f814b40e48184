/**
 Building a portable view from a raw accepted closure: every identifier is renamed through
 the portable-id maps, every text passes the redactor, and nothing else about the graph
 changes. Identifiers of the raw graph are integers.
 */
module ExportBuilder {
  import opened GraphChecks
  import opened ExportModel
  import opened PortableIds

  /** What the exporting policy does to text: rewriting, and what it withholds from a node. */
  datatype Redactor = Redactor(share: bool, text: string -> string, omission: string -> Option<string>, sensitive: string -> bool) {
    function Optional(s: Option<string>): Option<string> {
      if s.Some? then Some(text(s.value)) else None
    }

    /** A share replaces an authored key by the portable id. */
    function Key(key: Option<string>, id: string): Option<string> {
      if share then Some(id) else Optional(key)
    }
  }

  // ------------------------------------------------------------ the renaming

  function Name(m: map<int, string>, raw: int): string {
    if raw in m then m[raw] else ""
  }

  function NameOption(m: map<int, string>, raw: Option<int>): Option<string> {
    if raw.Some? then Some(Name(m, raw.value)) else None
  }

  function NameAll(m: map<int, string>, raws: seq<int>): (r: seq<string>)
    ensures |r| == |raws| && forall i | 0 <= i < |raws| :: r[i] == Name(m, raws[i])
  {
    seq(|raws|, i requires 0 <= i < |raws| => Name(m, raws[i]))
  }

  /** The portable copy of a node under a given name; a withheld detail leaves its reason. */
  function PortableNode(n: Node<int>, id: string, red: Redactor): Node<string> {
    var omitted := if n.authoredDetail.Some? then red.omission(n.authoredDetail.value) else None;
    Node(id, red.Key(n.clientKey, id), red.text(n.base),
         if n.artifact.Some? && red.share && red.sensitive(n.artifact.value) then None else n.artifact,
         if omitted.Some? then None else n.authoredDetail, omitted, [])
  }

  function RenameNode(n: Node<int>, ids: Maps, red: Redactor): Node<string> {
    PortableNode(n, Name(ids.node, n.id), red)
  }

  function RenameEdge(e: Edge<int>, ids: Maps): Edge<string> {
    Edge(Name(ids.edge, e.id), Name(ids.node, e.left), Name(ids.node, e.right))
  }

  /** An invoke's resolved target is runtime state, so only navigate targets are kept. */
  function RenameAction(a: Action<int>, ids: Maps, red: Redactor): Action<string> {
    var id := Name(ids.action, a.id);
    Action(id, red.Key(a.clientKey, id), Name(ids.node, a.sourceNode), NameOption(ids.layer, a.sourceLayer),
           a.kind, a.relation, if a.kind == Navigate then NameOption(ids.layer, a.target) else None, a.converted,
           red.Optional(a.interactionText), red.Optional(a.input), NameAll(ids.action, a.inputActions), a.reusable, red.text(a.face))
  }

  function RenameRoute(r: Route<int>, ids: Maps): Route<string> {
    Route(Name(ids.edge, r.edge), NameAll(ids.node, r.ends), r.bent, r.path)
  }

  function RenameRoutes(routes: seq<Route<int>>, ids: Maps): (xs: seq<Route<string>>)
    ensures |xs| == |routes| && forall i | 0 <= i < |routes| :: xs[i] == RenameRoute(routes[i], ids)
  {
    seq(|routes|, i requires 0 <= i < |routes| => RenameRoute(routes[i], ids))
  }

  function RenameLayout(y: Layout<int>, ids: Maps): Layout<string> {
    Layout(NameAll(ids.node, y.placements), RenameRoutes(y.routes, ids), y.style)
  }

  function RenameLayoutOption(y: Option<Layout<int>>, ids: Maps): Option<Layout<string>> {
    if y.Some? then Some(RenameLayout(y.value, ids)) else None
  }

  /** A layer whose artifacts were not all kept reads as an ordinary graph. */
  function KeptRenderer(renderer: Option<string>, nodes: seq<Node<string>>): Option<string> {
    if forall n | n in nodes :: n.artifact.Some? then renderer else None
  }

  function RenameNodes(nodes: seq<Node<int>>, ids: Maps, red: Redactor): (xs: seq<Node<string>>)
    ensures |xs| == |nodes| && forall i | 0 <= i < |nodes| :: xs[i] == RenameNode(nodes[i], ids, red)
  {
    seq(|nodes|, i requires 0 <= i < |nodes| => RenameNode(nodes[i], ids, red))
  }

  function RenameLayer(l: Layer<int>, ids: Maps, red: Redactor): Layer<string> {
    var id := Name(ids.layer, l.id);
    Layer(id, red.Key(l.clientKey, id), NameAll(ids.node, l.memberNodes), NameAll(ids.edge, l.memberEdges),
          NameOption(ids.node, l.defaultNode),
          RenameNodes(l.nodes, ids, red),
          seq(|l.edges|, i requires 0 <= i < |l.edges| => RenameEdge(l.edges[i], ids)),
          seq(|l.actions|, i requires 0 <= i < |l.actions| => RenameAction(l.actions[i], ids, red)),
          RenameLayoutOption(l.layout, ids), KeptRenderer(l.renderer, RenameNodes(l.nodes, ids, red)))
  }

  function RenameView(v: View<int>, ids: Maps, red: Redactor): View<string> {
    View(Name(ids.node, v.interactionNode), RenameAction(v.rootAction, ids, red), Name(ids.layer, v.rootLayer),
         seq(|v.layers|, i requires 0 <= i < |v.layers| => RenameLayer(v.layers[i], ids, red)))
  }

  // ------------------------------------------------------------ which names a record needs

  ghost predicate NamesEdge(ids: Maps, e: Edge<int>) {
    e.id in ids.edge && e.left in ids.node && e.right in ids.node
  }

  ghost predicate NamesAction(ids: Maps, a: Action<int>) {
    && a.id in ids.action && a.sourceNode in ids.node
    && (a.sourceLayer.Some? ==> a.sourceLayer.value in ids.layer)
    && (a.kind == Navigate && a.target.Some? ==> a.target.value in ids.layer)
    && (forall i | 0 <= i < |a.inputActions| :: a.inputActions[i] in ids.action)
  }

  ghost predicate NamesMembers(ids: Maps, l: Layer<int>) {
    && l.id in ids.layer
    && (l.defaultNode.Some? ==> l.defaultNode.value in ids.node)
    && (forall i | 0 <= i < |l.memberNodes| :: l.memberNodes[i] in ids.node)
    && (forall i | 0 <= i < |l.memberEdges| :: l.memberEdges[i] in ids.edge)
  }

  ghost predicate NamesRecords(ids: Maps, l: Layer<int>) {
    && (forall i | 0 <= i < |l.nodes| :: l.nodes[i].id in ids.node)
    && (forall i | 0 <= i < |l.edges| :: NamesEdge(ids, l.edges[i]))
    && (forall i | 0 <= i < |l.actions| :: NamesAction(ids, l.actions[i]))
  }

  ghost predicate NamesRoute(ids: Maps, r: Route<int>) {
    r.edge in ids.edge && forall i | 0 <= i < |r.ends| :: r.ends[i] in ids.node
  }

  ghost predicate NamesLayout(ids: Maps, y: Option<Layout<int>>) {
    y.Some? ==>
      && (forall i | 0 <= i < |y.value.placements| :: y.value.placements[i] in ids.node)
      && (forall i | 0 <= i < |y.value.routes| :: NamesRoute(ids, y.value.routes[i]))
  }

  ghost predicate NamesLayer(ids: Maps, l: Layer<int>) {
    NamesMembers(ids, l) && NamesRecords(ids, l) && NamesLayout(ids, l.layout)
  }

  ghost predicate NamesView(ids: Maps, v: View<int>) {
    && v.interactionNode in ids.node && v.rootLayer in ids.layer && NamesAction(ids, v.rootAction)
    && (forall i | 0 <= i < |v.layers| :: NamesLayer(ids, v.layers[i]))
  }

  /** Maps only grow, so a record once named keeps its renaming. */
  lemma ActionStable(a: Action<int>, ids: Maps, later: Maps, red: Redactor)
    requires NamesAction(ids, a) && ids.GrowsTo(later)
    ensures NamesAction(later, a) && RenameAction(a, later, red) == RenameAction(a, ids, red)
  {
    assert NameAll(later.action, a.inputActions) == NameAll(ids.action, a.inputActions);
  }

  lemma RecordsStable(l: Layer<int>, ids: Maps, later: Maps, red: Redactor)
    requires NamesRecords(ids, l) && ids.GrowsTo(later)
    ensures NamesRecords(later, l)
    ensures RenameLayer(l, later, red).nodes == RenameLayer(l, ids, red).nodes
    ensures RenameLayer(l, later, red).edges == RenameLayer(l, ids, red).edges
    ensures RenameLayer(l, later, red).actions == RenameLayer(l, ids, red).actions
  {
    forall i | 0 <= i < |l.actions|
      ensures NamesAction(later, l.actions[i]) && RenameAction(l.actions[i], later, red) == RenameAction(l.actions[i], ids, red)
    {
      ActionStable(l.actions[i], ids, later, red);
    }
    hide NamesAction, RenameAction;
  }

  lemma RouteStable(r: Route<int>, ids: Maps, later: Maps)
    requires NamesRoute(ids, r) && ids.GrowsTo(later)
    ensures NamesRoute(later, r) && RenameRoute(r, later) == RenameRoute(r, ids)
  {
    assert NameAll(later.node, r.ends) == NameAll(ids.node, r.ends);
  }

  lemma LayoutStable(y: Option<Layout<int>>, ids: Maps, later: Maps)
    requires NamesLayout(ids, y) && ids.GrowsTo(later)
    ensures NamesLayout(later, y) && RenameLayoutOption(y, later) == RenameLayoutOption(y, ids)
  {
    if y.Some? {
      forall i | 0 <= i < |y.value.routes|
        ensures NamesRoute(later, y.value.routes[i]) && RenameRoute(y.value.routes[i], later) == RenameRoute(y.value.routes[i], ids)
      {
        RouteStable(y.value.routes[i], ids, later);
      }
      assert NameAll(later.node, y.value.placements) == NameAll(ids.node, y.value.placements);
      assert RenameRoutes(y.value.routes, later) == RenameRoutes(y.value.routes, ids);
    }
  }

  lemma LayerStable(l: Layer<int>, ids: Maps, later: Maps, red: Redactor)
    requires NamesLayer(ids, l) && ids.GrowsTo(later)
    ensures NamesLayer(later, l) && RenameLayer(l, later, red) == RenameLayer(l, ids, red)
  {
    RecordsStable(l, ids, later, red);
    LayoutStable(l.layout, ids, later);
    MembersStable(l, ids, later);
    hide NamesRecords, NamesMembers, NameAll, NamesLayout, RenameNode, RenameEdge, RenameAction, RenameLayoutOption, KeptRenderer;
  }

  // ------------------------------------------------------------ the builder

  /** Names every raw id of a list through one of the four maps. */
  method NodeNames(raws: seq<int>, ids: PortableIds) returns (names: seq<string>)
    requires ids.Valid()
    modifies ids
    ensures ids.Valid() && old(ids.State()).GrowsTo(ids.State())
    ensures names == NameAll(ids.node, raws) && forall i | 0 <= i < |raws| :: raws[i] in ids.node
  {
    hide Injective, Named, Answer;
    names := [];
    for i := 0 to |raws|
      invariant ids.Valid() && old(ids.State()).GrowsTo(ids.State())
      invariant |names| == i && forall k | 0 <= k < i :: raws[k] in ids.node && names[k] == ids.node[raws[k]]
    {
      var name := ids.Node(raws[i]);
      names := names + [name];
    }
  }

  method EdgeNames(raws: seq<int>, ids: PortableIds) returns (names: seq<string>)
    requires ids.Valid()
    modifies ids
    ensures ids.Valid() && old(ids.State()).GrowsTo(ids.State())
    ensures names == NameAll(ids.edge, raws) && forall i | 0 <= i < |raws| :: raws[i] in ids.edge
  {
    hide Injective, Named, Answer;
    names := [];
    for i := 0 to |raws|
      invariant ids.Valid() && old(ids.State()).GrowsTo(ids.State())
      invariant |names| == i && forall k | 0 <= k < i :: raws[k] in ids.edge && names[k] == ids.edge[raws[k]]
    {
      var name := ids.Edge(raws[i]);
      names := names + [name];
    }
  }

  method ActionNames(raws: seq<int>, ids: PortableIds) returns (names: seq<string>)
    requires ids.Valid()
    modifies ids
    ensures ids.Valid() && old(ids.State()).GrowsTo(ids.State())
    ensures names == NameAll(ids.action, raws) && forall i | 0 <= i < |raws| :: raws[i] in ids.action
  {
    hide Injective, Named, Answer;
    names := [];
    for i := 0 to |raws|
      invariant ids.Valid() && old(ids.State()).GrowsTo(ids.State())
      invariant |names| == i && forall k | 0 <= k < i :: raws[k] in ids.action && names[k] == ids.action[raws[k]]
    {
      var name := ids.Action(raws[i]);
      names := names + [name];
    }
  }

  method LayerName(raw: Option<int>, ids: PortableIds) returns (name: Option<string>)
    requires ids.Valid()
    modifies ids
    ensures ids.Valid() && old(ids.State()).GrowsTo(ids.State())
    ensures name == NameOption(ids.layer, raw) && (raw.Some? ==> raw.value in ids.layer)
  {
    name := None;
    if raw.Some? {
      var id := ids.Layer(raw.value);
      name := Some(id);
    }
  }

  method ExportAction(a: Action<int>, ids: PortableIds, red: Redactor) returns (x: Action<string>)
    requires ids.Valid()
    modifies ids
    ensures ids.Valid() && old(ids.State()).GrowsTo(ids.State())
    ensures NamesAction(ids.State(), a) && x == RenameAction(a, ids.State(), red)
  {
    hide Injective, Named, Answer;
    var id := ids.Action(a.id);
    var sourceNode := ids.Node(a.sourceNode);
    var sourceLayer := LayerName(a.sourceLayer, ids);
    var target := LayerName(if a.kind == Navigate then a.target else None, ids);
    var inputActions := ActionNames(a.inputActions, ids);
    x := Action(id, red.Key(a.clientKey, id), sourceNode, sourceLayer, a.kind, a.relation, target, a.converted,
                red.Optional(a.interactionText), red.Optional(a.input), inputActions, a.reusable, red.text(a.face));
  }

  method ExportEdge(e: Edge<int>, ids: PortableIds) returns (x: Edge<string>)
    requires ids.Valid()
    modifies ids
    ensures ids.Valid() && old(ids.State()).GrowsTo(ids.State())
    ensures NamesEdge(ids.State(), e) && x == RenameEdge(e, ids.State())
  {
    hide Injective, Named, Answer;
    var id := ids.Edge(e.id);
    var left := ids.Node(e.left);
    var right := ids.Node(e.right);
    x := Edge(id, left, right);
  }

  method ExportNodes(l: Layer<int>, ids: PortableIds, red: Redactor) returns (xs: seq<Node<string>>)
    requires ids.Valid()
    modifies ids
    ensures ids.Valid() && old(ids.State()).GrowsTo(ids.State())
    ensures |xs| == |l.nodes|
    ensures forall i | 0 <= i < |l.nodes| :: l.nodes[i].id in ids.node && xs[i] == RenameNode(l.nodes[i], ids.State(), red)
  {
    hide Injective, Named, Answer, PortableNode;
    xs := [];
    for i := 0 to |l.nodes|
      invariant ids.Valid() && old(ids.State()).GrowsTo(ids.State())
      invariant |xs| == i
      invariant forall k | 0 <= k < i :: l.nodes[k].id in ids.node && xs[k] == RenameNode(l.nodes[k], ids.State(), red)
    {
      var id := ids.Node(l.nodes[i].id);
      xs := xs + [PortableNode(l.nodes[i], id, red)];
    }
  }

  method ExportEdges(l: Layer<int>, ids: PortableIds) returns (xs: seq<Edge<string>>)
    requires ids.Valid()
    modifies ids
    ensures ids.Valid() && old(ids.State()).GrowsTo(ids.State())
    ensures |xs| == |l.edges|
    ensures forall i | 0 <= i < |l.edges| :: NamesEdge(ids.State(), l.edges[i]) && xs[i] == RenameEdge(l.edges[i], ids.State())
  {
    hide Injective;
    xs := [];
    for i := 0 to |l.edges|
      invariant ids.Valid() && old(ids.State()).GrowsTo(ids.State())
      invariant |xs| == i
      invariant forall k | 0 <= k < i :: NamesEdge(ids.State(), l.edges[k]) && xs[k] == RenameEdge(l.edges[k], ids.State())
    {
      var x := ExportEdge(l.edges[i], ids);
      xs := xs + [x];
    }
  }

  method ExportActions(l: Layer<int>, ids: PortableIds, red: Redactor) returns (xs: seq<Action<string>>)
    requires ids.Valid()
    modifies ids
    ensures ids.Valid() && old(ids.State()).GrowsTo(ids.State())
    ensures |xs| == |l.actions|
    ensures forall i | 0 <= i < |l.actions| :: NamesAction(ids.State(), l.actions[i]) && xs[i] == RenameAction(l.actions[i], ids.State(), red)
  {
    hide Injective, NamesAction, RenameAction;
    xs := [];
    for i := 0 to |l.actions|
      invariant ids.Valid() && old(ids.State()).GrowsTo(ids.State())
      invariant |xs| == i
      invariant forall k | 0 <= k < i :: NamesAction(ids.State(), l.actions[k]) && xs[k] == RenameAction(l.actions[k], ids.State(), red)
    {
      ghost var before := ids.State();
      var x := ExportAction(l.actions[i], ids, red);
      forall k | 0 <= k < i { ActionStable(l.actions[k], before, ids.State(), red); }
      xs := xs + [x];
    }
  }

  method ExportRecords(l: Layer<int>, ids: PortableIds, red: Redactor)
    returns (nodes: seq<Node<string>>, edges: seq<Edge<string>>, actions: seq<Action<string>>)
    requires ids.Valid()
    modifies ids
    ensures ids.Valid() && old(ids.State()).GrowsTo(ids.State()) && NamesRecords(ids.State(), l)
    ensures var x := RenameLayer(l, ids.State(), red); nodes == x.nodes && edges == x.edges && actions == x.actions
  {
    hide Injective, RenameNode, RenameAction, NamesAction, Answer;
    nodes := ExportNodes(l, ids, red);
    ghost var afterNodes := ids.State();
    edges := ExportEdges(l, ids);
    ghost var afterEdges := ids.State();
    actions := ExportActions(l, ids, red);
    NodesStable(l, afterNodes, ids.State(), red);
    EdgesStable(l, afterEdges, ids.State());
  }

  method ExportMembers(l: Layer<int>, ids: PortableIds)
    returns (id: string, defaultNode: Option<string>, memberNodes: seq<string>, memberEdges: seq<string>)
    requires ids.Valid()
    modifies ids
    ensures ids.Valid() && old(ids.State()).GrowsTo(ids.State()) && NamesMembers(ids.State(), l)
    ensures id == Name(ids.layer, l.id) && defaultNode == NameOption(ids.node, l.defaultNode)
    ensures memberNodes == NameAll(ids.node, l.memberNodes) && memberEdges == NameAll(ids.edge, l.memberEdges)
  {
    hide Injective, Answer;
    defaultNode := None;
    if l.defaultNode.Some? {
      var node := ids.Node(l.defaultNode.value);
      defaultNode := Some(node);
    }
    id := ids.Layer(l.id);
    memberNodes := NodeNames(l.memberNodes, ids);
    memberEdges := EdgeNames(l.memberEdges, ids);
  }

  method ExportRoutes(routes: seq<Route<int>>, ids: PortableIds) returns (xs: seq<Route<string>>)
    requires ids.Valid()
    modifies ids
    ensures ids.Valid() && old(ids.State()).GrowsTo(ids.State())
    ensures |xs| == |routes|
    ensures forall i | 0 <= i < |routes| :: NamesRoute(ids.State(), routes[i]) && xs[i] == RenameRoute(routes[i], ids.State())
  {
    hide Injective, Answer, NamesRoute, RenameRoute;
    xs := [];
    for i := 0 to |routes|
      invariant ids.Valid() && old(ids.State()).GrowsTo(ids.State())
      invariant |xs| == i
      invariant forall k | 0 <= k < i :: NamesRoute(ids.State(), routes[k]) && xs[k] == RenameRoute(routes[k], ids.State())
    {
      ghost var before := ids.State();
      var x := ExportRoute(routes[i], ids);
      forall k | 0 <= k < i { RouteStable(routes[k], before, ids.State()); }
      xs := xs + [x];
    }
  }

  method ExportRoute(r: Route<int>, ids: PortableIds) returns (x: Route<string>)
    requires ids.Valid()
    modifies ids
    ensures ids.Valid() && old(ids.State()).GrowsTo(ids.State())
    ensures NamesRoute(ids.State(), r) && x == RenameRoute(r, ids.State())
  {
    hide Injective, Answer;
    var edge := ids.Edge(r.edge);
    var ends := NodeNames(r.ends, ids);
    x := Route(edge, ends, r.bent, r.path);
  }

  method ExportLayout(y: Option<Layout<int>>, ids: PortableIds) returns (x: Option<Layout<string>>)
    requires ids.Valid()
    modifies ids
    ensures ids.Valid() && old(ids.State()).GrowsTo(ids.State())
    ensures NamesLayout(ids.State(), y) && x == RenameLayoutOption(y, ids.State())
  {
    hide Injective, Answer, NamesRoute, RenameRoute;
    x := None;
    if y.Some? {
      var placements := NodeNames(y.value.placements, ids);
      ghost var placed := ids.State();
      var routes := ExportRoutes(y.value.routes, ids);
      assert NameAll(ids.node, y.value.placements) == NameAll(placed.node, y.value.placements);
      assert routes == RenameRoutes(y.value.routes, ids.State());
      x := Some(Layout(placements, routes, y.value.style));
    }
  }

  method ExportLayer(l: Layer<int>, ids: PortableIds, red: Redactor) returns (x: Layer<string>)
    requires ids.Valid()
    modifies ids
    ensures ids.Valid() && old(ids.State()).GrowsTo(ids.State())
    ensures NamesLayer(ids.State(), l) && x == RenameLayer(l, ids.State(), red)
  {
    hide Injective, NamesRecords, NamesMembers, NamesLayout, NameAll, Extends, KeptRenderer, RenameLayoutOption;
    var nodes, edges, actions := ExportRecords(l, ids, red);
    ghost var records := ids.State();
    var id, defaultNode, memberNodes, memberEdges := ExportMembers(l, ids);
    ghost var members := ids.State();
    var layout := ExportLayout(l.layout, ids);
    GrowsOn(records, members, ids.State());
    GrowsOn(old(ids.State()), records, ids.State());
    RecordsStable(l, records, ids.State(), red);
    MembersStable(l, members, ids.State());
    x := Layer(id, red.Key(l.clientKey, id), memberNodes, memberEdges, defaultNode, nodes, edges, actions,
               layout, KeptRenderer(l.renderer, nodes));
  }

  lemma MembersStable(l: Layer<int>, ids: Maps, later: Maps)
    requires NamesMembers(ids, l) && ids.GrowsTo(later)
    ensures NamesMembers(later, l) && Name(later.layer, l.id) == Name(ids.layer, l.id)
    ensures NameOption(later.node, l.defaultNode) == NameOption(ids.node, l.defaultNode)
    ensures NameAll(later.node, l.memberNodes) == NameAll(ids.node, l.memberNodes)
    ensures NameAll(later.edge, l.memberEdges) == NameAll(ids.edge, l.memberEdges)
  {
    assert NameAll(later.node, l.memberNodes) == NameAll(ids.node, l.memberNodes);
    assert NameAll(later.edge, l.memberEdges) == NameAll(ids.edge, l.memberEdges);
  }

  lemma NodesStable(l: Layer<int>, ids: Maps, later: Maps, red: Redactor)
    requires ids.GrowsTo(later) && forall i | 0 <= i < |l.nodes| :: l.nodes[i].id in ids.node
    ensures RenameLayer(l, later, red).nodes == RenameLayer(l, ids, red).nodes
  {
    assert forall i | 0 <= i < |l.nodes| :: RenameNode(l.nodes[i], later, red) == RenameNode(l.nodes[i], ids, red);
  }

  lemma EdgesStable(l: Layer<int>, ids: Maps, later: Maps)
    requires ids.GrowsTo(later) && forall i | 0 <= i < |l.edges| :: NamesEdge(ids, l.edges[i])
    ensures forall i | 0 <= i < |l.edges| :: NamesEdge(later, l.edges[i]) && RenameEdge(l.edges[i], later) == RenameEdge(l.edges[i], ids)
  {
  }

  method ExportLayers(v: View<int>, ids: PortableIds, red: Redactor) returns (xs: seq<Layer<string>>)
    requires ids.Valid()
    modifies ids
    ensures ids.Valid() && old(ids.State()).GrowsTo(ids.State())
    ensures |xs| == |v.layers|
    ensures forall k | 0 <= k < |v.layers| :: NamesLayer(ids.State(), v.layers[k]) && xs[k] == RenameLayer(v.layers[k], ids.State(), red)
  {
    hide Injective, NamesLayer, RenameLayer, Answer;
    xs := [];
    for i := 0 to |v.layers|
      invariant ids.Valid() && old(ids.State()).GrowsTo(ids.State())
      invariant |xs| == i
      invariant forall k | 0 <= k < i :: NamesLayer(ids.State(), v.layers[k]) && xs[k] == RenameLayer(v.layers[k], ids.State(), red)
    {
      ghost var before := ids.State();
      var x := ExportLayer(v.layers[i], ids, red);
      forall k | 0 <= k < i { LayerStable(v.layers[k], before, ids.State(), red); }
      xs := xs + [x];
    }
  }

  /** The export of a closure is its renaming under the maps it leaves, which extend the maps it found. */
  method ExportView(v: View<int>, ids: PortableIds, red: Redactor) returns (x: View<string>)
    requires ids.Valid()
    modifies ids
    ensures ids.Valid() && old(ids.State()).GrowsTo(ids.State())
    ensures NamesView(ids.State(), v) && x == RenameView(v, ids.State(), red)
  {
    hide Injective, NamesAction, RenameAction, NamesLayer, RenameLayer, Answer;
    var interactionNode := ids.Node(v.interactionNode);
    var rootAction := ExportAction(v.rootAction, ids, red);
    ghost var atRoot := ids.State();
    var rootLayer := ids.Layer(v.rootLayer);
    var layers := ExportLayers(v, ids, red);
    ActionStable(v.rootAction, atRoot, ids.State(), red);
    x := View(interactionNode, rootAction, rootLayer, layers);
  }
}
