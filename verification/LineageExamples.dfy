/**
 A family of small streams at the edge of invoke lineage, for any choice of distinct names.
 Two actions of a first layer open a second layer; one of them is a converted invoke, and
 `both` says whether the other is one too. The first turn alone is always accepted. A second
 turn that has the second layer as its root, with the converted invoke as its origin, makes
 a stream that is accepted exactly when one action converts to that layer.
 */
module LineageExamples {
  import opened Text
  import opened Walks
  import opened GraphChecks
  import opened ExportModel
  import opened AcceptedView
  import opened Definitions
  import opened ExportStream

  datatype Names = Names(
    both: bool, turn: Id, interaction: Id, near: Id, far: Id, first: Id, second: Id, open: Id, one: Id, two: Id,
    result: Id, answer: Id, reopen: Id, text: string, base: string, face: string)
  {
    ghost predicate Apart() {
      && near != far && first != second && turn != result && interaction != answer
      && open != one && open != two && one != two && reopen != open && reopen != one && reopen != two
      && !Blank(text)
    }
  }

  function Plain(id: Id, base: string): Node<Id> {
    Node(id, None, base, None, None, None, [])
  }

  function Opens(id: Id, source: Id, sourceLayer: Option<Id>, target: Id, converted: bool, face: string): Action<Id> {
    Action(id, None, source, sourceLayer, Navigate, Some(Expand), Some(target), converted, None, None, [], None, face)
  }

  function FirstLayer(n: Names): Layer<Id> {
    Layer(n.first, None, [n.near], [], None, [Plain(n.near, n.base)], [],
          [Opens(n.one, n.near, Some(n.first), n.second, true, n.face), Opens(n.two, n.near, Some(n.first), n.second, n.both, n.face)], None, None)
  }

  function SecondLayer(n: Names): Layer<Id> {
    Layer(n.second, None, [n.far], [], None, [Plain(n.far, n.base)], [], [], None, None)
  }

  function FirstView(n: Names): View<Id> {
    View(n.interaction, Opens(n.open, n.interaction, None, n.first, false, n.face), n.first, [FirstLayer(n), SecondLayer(n)])
  }

  function FirstTurn(n: Names): Turn {
    Turn(n.turn, 1, n.text, User, None, Accepted, Some(FirstView(n)), [], [])
  }

  lemma SmallLayers(n: Names)
    requires n.Apart()
    ensures LayerOk(FirstLayer(n)) && LayerOk(SecondLayer(n))
  {
    ReachesSelf(Joins<Id>([]), n.near);
    ReachesSelf(Joins<Id>([]), n.far);
    assert ActionIds(FirstLayer(n).actions) == [n.one, n.two];
    assert NodeIds(FirstLayer(n).nodes) == [n.near] && NodeIds(SecondLayer(n).nodes) == [n.far];
  }

  lemma SharedLayers(n: Names)
    requires n.Apart()
    ensures LayersOk(FirstView(n), V3)
  {
    hide LayerOk;
    SmallLayers(n);
    assert LayerIds(FirstView(n).layers) == [n.first, n.second];
  }

  lemma SharedActions(n: Names, l: Layer<Id>, x: Action<Id>)
    requires n.Apart() && l in FirstView(n).layers && x in l.actions
    ensures l == FirstLayer(n) && (x == FirstLayer(n).actions[0] || x == FirstLayer(n).actions[1])
    ensures ActionInPlace(FirstView(n), V3, [], l, x)
  {
    assert LayerIds(FirstView(n).layers) == [n.first, n.second];
  }

  lemma SharedRecords(n: Names)
    requires n.Apart()
    ensures Records(FirstView(n), V3, [])
  {
    var v := FirstView(n);
    forall l, x | l in v.layers && x in l.actions
      ensures ActionInPlace(v, V3, [], l, x) && (x == FirstLayer(n).actions[0] || x == FirstLayer(n).actions[1])
    {
      SharedActions(n, l, x);
    }
    hide ActionInPlace;
    forall x | x in NodesOf(v.layers)
      ensures x == Plain(x.id, n.base)
    {
    }
  }

  lemma SharedExpand(n: Names, c: Id)
    requires n.Apart()
    ensures !OnCycle(Expands(FirstView(n).layers), c)
  {
    var exp, order := Expands(FirstView(n).layers), [n.second, n.first];
    forall x, y | exp(x, y)
      ensures x == n.first && y == n.second
    {
      var l, a :| l in FirstView(n).layers && l.id == x && a in l.actions && a.target == Some(y);
      SharedActions(n, l, a);
    }
    assert order[..1] == [n.second];
    assert StepsBack(exp, order);
    if c in order {
      OrderedIsAcyclic(exp, order, c);
    } else if OnCycle(exp, c) {
      CycleSteps(exp, c);
    }
  }

  lemma SharedReach(n: Names)
    requires n.Apart()
    ensures LayerIds(FirstView(n).layers) == [n.first, n.second]
    ensures Reaches(Navigates(FirstView(n).layers), n.first, n.first)
    ensures Reaches(Navigates(FirstView(n).layers), n.first, n.second)
  {
    var nav := Navigates(FirstView(n).layers);
    assert nav(n.first, n.second) by {
      assert FirstLayer(n) in FirstView(n).layers && FirstLayer(n).actions[0] in FirstLayer(n).actions;
    }
    ReachesSelf(nav, n.first);
    ReachesStep(nav, n.first, n.first, n.second);
  }

  lemma FirstViewOk(n: Names)
    requires n.Apart()
    ensures ViewOk(FirstView(n), V3, [])
  {
    hide LayersOk, Records, OnCycle, Navigates, Expands, Reaches;
    SharedLayers(n);
    SharedRecords(n);
    SharedReach(n);
    forall c { SharedExpand(n, c); }
  }

  // ------------------------------------------------------------ the second turn

  function ResultView(n: Names): View<Id> {
    View(n.answer, Opens(n.reopen, n.answer, None, n.second, false, n.face), n.second, [SecondLayer(n)])
  }

  function ResultTurn(n: Names): Turn {
    Turn(n.result, 2, n.text, FromAction(n.turn, n.one), None, Accepted, Some(ResultView(n)), [], [])
  }

  lemma ResultLayers(n: Names)
    requires n.Apart()
    ensures LayerIds(ResultView(n).layers) == [n.second]
    ensures LayersOk(ResultView(n), V3)
  {
    hide LayerOk;
    SmallLayers(n);
    assert LayerIds(ResultView(n).layers) == [n.second];
  }

  lemma ResultExpand(n: Names, c: Id)
    ensures !OnCycle(Expands(ResultView(n).layers), c)
  {
    var exp := Expands(ResultView(n).layers);
    assert forall x, y :: !exp(x, y);
    if OnCycle(exp, c) {
      CycleSteps(exp, c);
    }
  }

  lemma ResultRecords(n: Names)
    requires n.Apart()
    ensures Records(ResultView(n), V3, [])
  {
    assert forall x | x in NodesOf(ResultView(n).layers) :: x == Plain(x.id, n.base);
  }

  lemma ResultViewOk(n: Names)
    requires n.Apart()
    ensures ViewOk(ResultView(n), V3, [])
  {
    hide LayersOk, Records, OnCycle, Navigates, Expands, Reaches;
    ResultLayers(n);
    ResultRecords(n);
    ReachesSelf(Navigates(ResultView(n).layers), n.second);
    forall c { ResultExpand(n, c); }
  }

  // ------------------------------------------------------------ what the streams contain

  /** The turns hold no layers but these two, whose actions are two in the first, and no context. */
  ghost predicate Small(ts: seq<Turn>, l: Layer<Id>, m: Layer<Id>, x: Action<Id>, y: Action<Id>) {
    && (forall t | t in ts :: t.contexts == [] && forall k | k in LayersIn(t) :: k == l || k == m)
    && (exists t | t in ts :: l in LayersIn(t))
    && l.actions == [x, y] && m.actions == [] && l.edges == m.edges == []
  }

  lemma SmallActions(ts: seq<Turn>, l: Layer<Id>, m: Layer<Id>, x: Action<Id>, y: Action<Id>)
    requires Small(ts, l, m, x, y)
    ensures AllActions(ts) == {x, y}
    ensures LayerActionIds(ts) == {x.id, y.id}
    ensures ContextIds(ts) == {} && AllContexts(ts) == {}
  {
    assert x in l.actions && y in l.actions;
  }

  lemma SmallConverted(ts: seq<Turn>, l: Layer<Id>, m: Layer<Id>, x: Action<Id>, y: Action<Id>, root: Id)
    requires Small(ts, l, m, x, y) && x.converted && x.target == y.target
    ensures ConvertedTo(ts, root) == if x.target != Some(root) then {} else if y.converted then {x.id, y.id} else {x.id}
  {
    assert x in l.actions && y in l.actions;
  }

  lemma PairIsOneEach<K, V>(s: set<V>, x: V, y: V, key: V -> K)
    requires key(x) != key(y) && s <= {x, y}
    ensures OneEach(s, key)
  {
  }

  lemma SmallRecords(ts: seq<Turn>, l: Layer<Id>, m: Layer<Id>, x: Action<Id>, y: Action<Id>)
    requires Small(ts, l, m, x, y)
    ensures AllLayers(ts) <= {l, m} && AllEdges(ts) == {}
  {
  }

  lemma SmallCopies(ts: seq<Turn>, l: Layer<Id>, m: Layer<Id>, x: Action<Id>, y: Action<Id>)
    requires Small(ts, l, m, x, y) && |l.nodes| == |m.nodes| == 1
    ensures AllCopies(ts) <= {NodeCopy(l.nodes[0]), NodeCopy(m.nodes[0])}
  {
    hide NodeCopy;
    forall s, k, n | s in ts && k in LayersIn(s) && n in k.nodes
      ensures n == l.nodes[0] || n == m.nodes[0]
    {
    }
  }

  lemma SmallDefinitions(ts: seq<Turn>, l: Layer<Id>, m: Layer<Id>, x: Action<Id>, y: Action<Id>)
    requires Small(ts, l, m, x, y) && l.id != m.id && x.id != y.id
    requires |l.nodes| == |m.nodes| == 1 && l.nodes[0].id != m.nodes[0].id
    ensures DefinitionsAgree(ts)
  {
    hide AllActions, AllCopies, AllLayers, AllEdges, OneEach, PartsOf;
    SmallActions(ts, l, m, x, y);
    SmallRecords(ts, l, m, x, y);
    SmallCopies(ts, l, m, x, y);
    PairIsOneEach(AllActions(ts), x, y, ActionKey);
    PairIsOneEach(AllLayers(ts), l, m, LayerKey);
    assert OneEach({}, EdgeKey) by { NoneIsOneEach(EdgeKey); }
  }

  lemma NoneIsOneEach<K, V>(key: V -> K)
    ensures OneEach({}, key)
  {
  }

  ghost predicate OfNames(n: Names, ts: seq<Turn>) {
    Small(ts, FirstLayer(n), SecondLayer(n), FirstLayer(n).actions[0], FirstLayer(n).actions[1])
  }

  lemma StreamsAreSmall(n: Names)
    ensures OfNames(n, [FirstTurn(n)]) && OfNames(n, [FirstTurn(n), ResultTurn(n)])
  {
    assert FirstTurn(n) in [FirstTurn(n)] && FirstTurn(n) in [FirstTurn(n), ResultTurn(n)];
    assert FirstLayer(n) in LayersIn(FirstTurn(n));
  }

  /** Everything the two streams contain. */
  lemma StreamFacts(n: Names, ts: seq<Turn>)
    requires n.Apart() && OfNames(n, ts)
    ensures LayerActionIds(ts) == {n.one, n.two} && ContextIds(ts) == {} && AllContexts(ts) == {}
    ensures ConvertedTo(ts, n.first) == {}
    ensures ConvertedTo(ts, n.second) == if n.both then {n.one, n.two} else {n.one}
    ensures DefinitionsAgree(ts)
  {
    hide Small, LayerActionIds, ContextIds, AllContexts, ConvertedTo, DefinitionsAgree;
    var l, m := FirstLayer(n), SecondLayer(n);
    SmallActions(ts, l, m, l.actions[0], l.actions[1]);
    SmallConverted(ts, l, m, l.actions[0], l.actions[1], n.first);
    SmallConverted(ts, l, m, l.actions[0], l.actions[1], n.second);
    SmallDefinitions(ts, l, m, l.actions[0], l.actions[1]);
  }

  lemma NothingYet(id: Id)
    ensures ConvertedTo([], id) == {} && LayerActionIds([]) == {} && ContextIds([]) == {} && RootIds([]) == {} && InteractionIds([]) == {}
  {
  }

  lemma OwnIds(t: Turn)
    requires t.view.Some?
    ensures RootIds([t]) == {t.view.value.rootAction.id} && InteractionIds([t]) == {t.view.value.interactionNode}
  {
    assert t in [t];
  }

  lemma IsFresh(ts: seq<Turn>, t: Turn)
    requires t.view.Some? && ContextIds(ts + [t]) == {} && t.view.value.interactionNode !in InteractionIds(ts)
    requires t.view.value.rootAction.id !in RootIds(ts) + LayerActionIds(ts) + LayerActionIds([t])
    requires LayerActionIds([t]) !! RootIds(ts)
    ensures ViewFresh(ts, t)
  {
    hide LayerActionIds, ContextIds, InteractionIds, RootIds;
    IdsSplit(ts, t);
    OwnIds(t);
  }

  lemma FirstFresh(n: Names)
    requires n.Apart()
    ensures ViewFresh([], FirstTurn(n))
  {
    hide LayerActionIds, ContextIds, InteractionIds, RootIds, OfNames, AllContexts, ConvertedTo, DefinitionsAgree, ViewFresh;
    var t := FirstTurn(n);
    StreamsAreSmall(n);
    StreamFacts(n, [t]);
    NothingYet(n.first);
    assert [] + [t] == [t];
    IsFresh([], t);
  }

  lemma FirstAdmitted(n: Names, h: Header)
    requires n.Apart() && h.version == V3 && h.invocations == [] && h.boundInputs == []
    requires h.turns != [] && h.turns[0] == Manifest(n.turn, 1)
    ensures Admits(h, [], FirstTurn(n))
  {
    hide ViewOk, DefinitionsAgree, ViewFresh, ConvertedTo, LayersIn, AllActions, LayerActionIds, AllContexts, OfNames;
    var t := FirstTurn(n);
    FirstViewOk(n);
    FirstFresh(n);
    StreamsAreSmall(n);
    StreamFacts(n, [t]);
    NothingYet(n.first);
    assert [] + [t] == [t];
  }

  lemma ResultHasNoActions(n: Names)
    ensures LayerActionIds([ResultTurn(n)]) == {}
  {
  }

  lemma ResultFresh(n: Names)
    requires n.Apart()
    ensures ViewFresh([FirstTurn(n)], ResultTurn(n))
  {
    hide LayerActionIds, ContextIds, InteractionIds, RootIds, OfNames, AllContexts, ConvertedTo, DefinitionsAgree, ViewFresh;
    var s, t := FirstTurn(n), ResultTurn(n);
    StreamsAreSmall(n);
    StreamFacts(n, [s]);
    StreamFacts(n, [s, t]);
    ResultHasNoActions(n);
    OwnIds(s);
    assert [s] + [t] == [s, t];
    IsFresh([s], t);
  }

  lemma ActionsOfTwo(l: Layer<Id>, m: Layer<Id>)
    requires m.actions == []
    ensures ActionsIn([l, m]) == l.actions
  {
    assert [l, m][..1] == [l] && [l][..0] == [];
    assert ActionsIn([l]) == [] + l.actions == l.actions;
    assert ActionsIn([l, m]) == l.actions + [] == l.actions;
  }

  lemma FirstInvoke(x: Action<Id>, y: Action<Id>)
    requires x.converted && x.id != y.id
    ensures x.id in InvokesOf([x, y]) && InvokesOf([x, y])[x.id] == x.target
  {
    assert [x, y][..1] == [x] && [x][..0] == [];
  }

  lemma OnlyPrior(s: Turn, action: Id)
    ensures Prior([s], s.id, action) ==
      var invokes := InvokesOf(ActionsIn(LayersIn(s))); if action in invokes then Some(invokes[action]) else None
    ensures s.origin.User? ==> ConvertedOrigins([s]) == {}
  {
    hide InvokesOf, ActionsIn, LayersIn;
    assert [s][..0] == [];
  }

  /** The first turn's converted invoke is remembered with its target. */
  lemma ResultOrigin(n: Names)
    requires n.Apart()
    ensures Prior([FirstTurn(n)], n.turn, n.one) == Some(Some(n.second))
    ensures ConvertedOrigins([FirstTurn(n)]) == {}
  {
    hide Prior, ConvertedOrigins, InvokesOf, ActionsIn;
    ActionsOfTwo(FirstLayer(n), SecondLayer(n));
    FirstInvoke(FirstLayer(n).actions[0], FirstLayer(n).actions[1]);
    OnlyPrior(FirstTurn(n), n.one);
  }

  lemma ResultAdmitted(n: Names, h: Header)
    requires n.Apart() && h.version == V3 && h.invocations == [] && h.boundInputs == []
    requires |h.turns| > 1 && h.turns[1] == Manifest(n.result, 2)
    ensures Admits(h, [FirstTurn(n)], ResultTurn(n))
  {
    hide ViewOk, DefinitionsAgree, ViewFresh, ConvertedTo, LayersIn, AllActions, LayerActionIds, AllContexts, OfNames;
    hide Prior, ConvertedOrigins, FirstTurn;
    var s, t := FirstTurn(n), ResultTurn(n);
    ResultViewOk(n);
    ResultFresh(n);
    ResultOrigin(n);
    StreamsAreSmall(n);
    StreamFacts(n, [s]);
    StreamFacts(n, [s, t]);
    assert [s] + [t] == [s, t];
  }

  // ------------------------------------------------------------ accepted or not

  function HeaderOf(turns: seq<Manifest>): Header { Header(V3, turns, [], []) }

  lemma HeadersOk(n: Names)
    requires n.Apart()
    ensures HeaderOk(HeaderOf([Manifest(n.turn, 1)]))
    ensures HeaderOk(HeaderOf([Manifest(n.turn, 1), Manifest(n.result, 2)]))
  {
    assert ActionIds<Id>([]) == [];
  }

  /**
   An accepted stream may hold two converted invokes of one layer: uniqueness is only
   checked for layers that are some turn's accepted root, which is the hypothesis of
   `ConvertedLineage`.
   */
  lemma ConvertedTargetMayBeShared(n: Names)
    requires n.Apart() && n.both
    ensures AcceptedStream(HeaderOf([Manifest(n.turn, 1)]), [FirstTurn(n)])
    ensures ConvertedTo([FirstTurn(n)], n.second) == {n.one, n.two} && n.one != n.two
    ensures FirstTurn(n).view.value.rootLayer != n.second
  {
    hide Admits, ConvertedTo, OfNames, HeaderOk, DefinitionsAgree;
    var ts := [FirstTurn(n)];
    StreamsAreSmall(n);
    StreamFacts(n, ts);
    HeadersOk(n);
    FirstAdmitted(n, HeaderOf([Manifest(n.turn, 1)]));
    assert ts[..0] == [];
  }

  /**
   With a result turn, the second layer is an accepted root: every turn is admitted either
   way, and the complete stream is accepted exactly when one action converts to that layer.
   */
  lemma ResultAcceptedIffUnshared(n: Names)
    requires n.Apart()
    ensures var h := HeaderOf([Manifest(n.turn, 1), Manifest(n.result, 2)]); var ts := [FirstTurn(n), ResultTurn(n)];
      && HeaderOk(h) && Admitted(h, ts)
      && ConvertedTo(ts, ts[1].view.value.rootLayer) != {}
      && (AcceptedStream(h, ts) <==> !n.both)
  {
    hide Admits, ConvertedTo, OfNames, HeaderOk, DefinitionsAgree, FirstLayer, SecondLayer, Opens, LayerActionIds, AllContexts, ContextIds;
    var h := HeaderOf([Manifest(n.turn, 1), Manifest(n.result, 2)]);
    var ts := [FirstTurn(n), ResultTurn(n)];
    StreamsAreSmall(n);
    StreamFacts(n, ts);
    HeadersOk(n);
    FirstAdmitted(n, h);
    ResultAdmitted(n, h);
    assert Admitted(h, ts) by {
      assert ts[..0] == [] && ts[..1] == [FirstTurn(n)];
    }
    hide Admitted;
    assert n.one in ConvertedTo(ts, n.second);
    assert n.both ==> |ConvertedTo(ts, n.second)| == 2;
    LineageOfTwo(ts[0], ts[1]);
  }

  lemma LineageOfTwo(s: Turn, t: Turn)
    requires s.view.Some? && t.view.Some?
    ensures LineageOk([s, t]) <==>
      && RootLineageOk([s, t], s.view.value.rootLayer, OriginAction(s))
      && RootLineageOk([s, t], t.view.value.rootLayer, OriginAction(t))
  {
    hide RootLineageOk;
    assert s in [s, t] && t in [s, t];
  }
}
