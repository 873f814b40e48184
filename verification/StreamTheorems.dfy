/** What every accepted stream guarantees, over all its turns at once. */
module StreamTheorems {
  import opened ExportModel
  import opened Definitions
  import opened AcceptedView
  import opened ExportStream

  lemma LastPrefix(ts: seq<Turn>)
    requires ts != []
    ensures ts[..|ts| - 1] + [ts[|ts| - 1]] == ts
  {
  }

  lemma AdmittedFront(h: Header, ts: seq<Turn>)
    requires ts != [] && Admitted(h, ts)
    ensures Admitted(h, ts[..|ts| - 1])
    ensures Admits(h, ts[..|ts| - 1], ts[|ts| - 1])
  {
    hide Admits;
    var front := ts[..|ts| - 1];
    assert Admits(h, ts[..|ts| - 1], ts[|ts| - 1]);
    forall i | 0 <= i < |front|
      ensures Admits(h, front[..i], front[i])
    {
      assert front[..i] == ts[..i];
      assert Admits(h, ts[..i], ts[i]);
    }
  }

  lemma DefinitionsOfStream(h: Header, ts: seq<Turn>)
    requires Admitted(h, ts)
    ensures DefinitionsAgree(ts)
  {
    if ts == [] {
      assert AllCopies(ts) == {};
    } else {
      hide DefinitionsAgree, TurnOk;
      AdmittedFront(h, ts);
      LastPrefix(ts);
    }
  }

  /** Two records of one node show the same base, and nothing optional that both carry differs. */
  predicate SameNode(m: Node<Id>, n: Node<Id>) {
    && m.base == n.base
    && (m.artifact.Some? && n.artifact.Some? ==> m.artifact.value == n.artifact.value)
    && (m.authoredDetail.Some? && n.authoredDetail.Some? ==> m.authoredDetail.value == n.authoredDetail.value)
    && (m.assets != [] && n.assets != [] ==> m.assets == n.assets)
  }

  /** Two copies of one node register together exactly when their records agree field by field. */
  lemma TwoCopiesAgree(m: Node<Id>, n: Node<Id>)
    requires m.id == n.id
    ensures CopiesAgree({NodeCopy(m), NodeCopy(n)}) <==> SameNode(m, n)
  {
    var s := {NodeCopy(m), NodeCopy(n)};
    if CopiesAgree(s) {
      assert NodeCopy(m) in s && NodeCopy(n) in s;
      assert PartsAgree(NodeCopy(m).parts, NodeCopy(n).parts);
    }
  }

  lemma SameRecords(ts: seq<Turn>, s: Turn, t: Turn, l: Layer<Id>, k: Layer<Id>)
    requires DefinitionsAgree(ts) && s in ts && t in ts && l in LayersIn(s) && k in LayersIn(t)
    ensures l.id == k.id ==> l == k
    ensures forall d, e | d in l.edges && e in k.edges && d.id == e.id :: d == e
    ensures forall a, b | a in l.actions && b in k.actions && a.id == b.id :: a == b
    ensures forall m, n | m in l.nodes && n in k.nodes && m.id == n.id :: SameNode(m, n)
  {
    hide LayersIn, PartsAgree, PartsOf, SameNode;
    assert l in AllLayers(ts) && k in AllLayers(ts);
    assert forall d | d in l.edges || d in k.edges :: d in AllEdges(ts);
    assert forall a | a in l.actions || a in k.actions :: a in AllActions(ts);
    assert forall n | n in l.nodes || n in k.nodes :: NodeCopy(n) in AllCopies(ts);
    hide AllLayers, AllEdges, AllActions, AllCopies;
    forall m, n | m in l.nodes && n in k.nodes && m.id == n.id
      ensures SameNode(m, n)
    {
      assert NodeCopy(m) in AllCopies(ts) && NodeCopy(n) in AllCopies(ts);
      TwoCopiesAgree(m, n);
    }
  }

  /**
   Two occurrences of a layer, edge or layer action id, in whichever turns, are identical, and
   two occurrences of a node agree on their base and on every optional part both carry.
   */
  lemma OneDefinitionAcrossStream(h: Header, ts: seq<Turn>)
    requires Admitted(h, ts)
    ensures forall s, t, l, k | s in ts && t in ts && l in LayersIn(s) && k in LayersIn(t) ::
      && (l.id == k.id ==> l == k)
      && (forall d, e | d in l.edges && e in k.edges && d.id == e.id :: d == e)
      && (forall a, b | a in l.actions && b in k.actions && a.id == b.id :: a == b)
      && (forall m, n | m in l.nodes && n in k.nodes && m.id == n.id :: SameNode(m, n))
  {
    hide Admitted, DefinitionsAgree, LayersIn, SameNode;
    DefinitionsOfStream(h, ts);
    forall s, t, l, k | s in ts && t in ts && l in LayersIn(s) && k in LayersIn(t) {
      SameRecords(ts, s, t, l, k);
    }
  }

  lemma SameBase(ts: seq<Turn>, s: Turn, t: Turn, c: Context, k: Layer<Id>, n: Node<Id>)
    requires DefinitionsAgree(ts) && s in ts && t in ts && c in s.contexts && k in LayersIn(t) && n in k.nodes && c.target == n.id
    ensures c.base == n.base
  {
    hide AllLayers, AllEdges, AllActions, OneEach, PartAgrees;
    assert ContextCopy(c) in AllCopies(ts) && NodeCopy(n) in AllCopies(ts);
    hide AllCopies;
    assert PartsAgree(ContextCopy(c).parts, NodeCopy(n).parts);
  }

  /** A context, in whichever turn, shows its target as every view shows that node. */
  lemma ContextShowsItsTarget(h: Header, ts: seq<Turn>)
    requires Admitted(h, ts)
    ensures forall s, t, c, k, n | s in ts && t in ts && c in s.contexts && k in LayersIn(t) && n in k.nodes && c.target == n.id ::
      c.base == n.base
  {
    hide Admitted, DefinitionsAgree, LayersIn;
    DefinitionsOfStream(h, ts);
    forall s, t, c, k, n | s in ts && t in ts && c in s.contexts && k in LayersIn(t) && n in k.nodes && c.target == n.id {
      SameBase(ts, s, t, c, k, n);
    }
  }

  // ------------------------------------------------------------ identifier namespaces

  /** Root actions, layer actions and context actions never share an id, whichever turn comes first. */
  lemma {:induction false} NamespacesDisjoint(h: Header, ts: seq<Turn>)
    requires Admitted(h, ts)
    ensures RootIds(ts) !! LayerActionIds(ts)
    ensures ContextIds(ts) !! RootIds(ts)
    ensures ContextIds(ts) !! LayerActionIds(ts)
  {
    if ts != [] {
      var front, last := ts[..|ts| - 1], ts[|ts| - 1];
      AdmittedFront(h, ts);
      LastPrefix(ts);
      NamespacesDisjoint(h, front);
      IdsSplit(front, last);
      LastTurnFresh(h, front, last);
    }
  }

  lemma LastTurnFresh(h: Header, front: seq<Turn>, t: Turn)
    requires Admits(h, front, t)
    ensures RootIds([t]) !! LayerActionIds(front)
    ensures RootIds(front + [t]) !! LayerActionIds([t])
    ensures ContextIds([t]) !! RootIds(front) && ContextIds([t]) !! LayerActionIds(front)
    ensures ContextIds(front + [t]) !! RootIds([t]) && ContextIds(front + [t]) !! LayerActionIds([t])
    ensures RootIds([t]) !! RootIds(front) && InteractionIds([t]) !! InteractionIds(front)
    ensures ContextIds([t]) !! ContextIds(front)
  {
    hide TurnOk, ConversionKept, DefinitionsAgree, InvocationAgrees, OwnersOccur;
    assert ContextsFresh(front, t) && ViewFresh(front, t);
    if t.view.None? {
      assert LayerActionIds([t]) == {};
    }
  }

  lemma MemberIds(ts: seq<Turn>, i: nat)
    requires i < |ts|
    ensures RootIds([ts[i]]) <= RootIds(ts)
    ensures InteractionIds([ts[i]]) <= InteractionIds(ts)
    ensures ContextIds([ts[i]]) <= ContextIds(ts)
  {
    assert ts[i] in ts;
  }

  /** Root action ids, interaction node ids and context action ids each belong to one turn only. */
  lemma IdsBelongToOneTurn(h: Header, ts: seq<Turn>, i: nat, j: nat)
    requires Admitted(h, ts) && i < |ts| && j < |ts| && i != j
    ensures RootIds([ts[i]]) !! RootIds([ts[j]])
    ensures InteractionIds([ts[i]]) !! InteractionIds([ts[j]])
    ensures ContextIds([ts[i]]) !! ContextIds([ts[j]])
  {
    var a, b := if i < j then i else j, if i < j then j else i;
    assert Admits(h, ts[..b], ts[b]);
    hide Admits;
    LastTurnFresh(h, ts[..b], ts[b]);
    assert ts[..b][a] == ts[a];
    MemberIds(ts[..b], a);
  }

  // ------------------------------------------------------------ invoke lineage

  /** The layer action `x` stands in turn `t`. */
  ghost predicate StandsIn(t: Turn, x: Action<Id>) {
    exists l :: l in LayersIn(t) && x in l.actions
  }

  lemma {:induction false} ActionsInMember(layers: seq<Layer<Id>>, x: Action<Id>)
    requires x in ActionsIn(layers)
    ensures exists l :: l in layers && x in l.actions
  {
    var n := |layers| - 1;
    if x in layers[n].actions {
      assert layers[n] in layers;
    } else {
      ActionsInMember(layers[..n], x);
      var l :| l in layers[..n] && x in l.actions;
      assert l in layers;
    }
  }

  lemma {:induction false} InvokesOfSource(actions: seq<Action<Id>>, id: Id) returns (x: Action<Id>)
    requires id in InvokesOf(actions)
    ensures x in actions && x.id == id && Invokes(x)
    ensures InvokesOf(actions)[id] == if x.converted then x.target else None
  {
    var a := actions[|actions| - 1];
    if Invokes(a) && a.id == id {
      x := a;
    } else {
      x := InvokesOfSource(actions[..|actions| - 1], id);
    }
  }

  /** A resolved source action stands in an earlier turn of that id. */
  lemma {:induction false} PriorSource(ts: seq<Turn>, turn: Id, action: Id) returns (i: nat, x: Action<Id>)
    requires Prior(ts, turn, action).Some?
    ensures i < |ts| && ts[i].id == turn && StandsIn(ts[i], x)
    ensures x.id == action && Invokes(x)
    ensures Prior(ts, turn, action) == Some(if x.converted then x.target else None)
  {
    var n := |ts| - 1;
    if ts[n].id != turn {
      i, x := PriorSource(ts[..n], turn, action);
    } else {
      i := n;
      x := InvokesOfSource(ActionsIn(LayersIn(ts[n])), action);
      ActionsInMember(LayersIn(ts[n]), x);
    }
  }

  lemma {:induction false} MemberActionsIn(layers: seq<Layer<Id>>, l: Layer<Id>, x: Action<Id>)
    requires l in layers && x in l.actions
    ensures x in ActionsIn(layers)
  {
    var n := |layers| - 1;
    if l != layers[n] {
      assert layers == layers[..n] + [layers[n]];
      MemberActionsIn(layers[..n], l, x);
    }
  }

  lemma {:induction false} InvokesOfHas(actions: seq<Action<Id>>, x: Action<Id>)
    requires x in actions && (x.kind == Invoke || x.converted)
    ensures x.id in InvokesOf(actions)
  {
    var n := |actions| - 1;
    if x != actions[n] {
      assert actions == actions[..n] + [actions[n]];
      InvokesOfHas(actions[..n], x);
    }
  }

  /** An invoke standing in the only turn of its id is found there. */
  lemma {:induction false} PriorFinds(ts: seq<Turn>, i: nat, x: Action<Id>)
    requires i < |ts| && StandsIn(ts[i], x) && (x.kind == Invoke || x.converted)
    requires forall j | i < j < |ts| :: ts[j].id != ts[i].id
    ensures Prior(ts, ts[i].id, x.id).Some?
  {
    var n := |ts| - 1;
    if i == n {
      var l :| l in LayersIn(ts[n]) && x in l.actions;
      MemberActionsIn(LayersIn(ts[n]), l, x);
      InvokesOfHas(ActionsIn(LayersIn(ts[n])), x);
    } else {
      PriorFinds(ts[..n], i, x);
    }
  }

  lemma {:induction false} OriginRemembered(ts: seq<Turn>, j: nat, n: nat)
    requires j < n <= |ts| && NamesConverted(ts[..j], ts[j])
    ensures ts[j].origin.sourceAction in ConvertedOrigins(ts[..n])
  {
    assert ts[..n][..n - 1] == ts[..n - 1];
    if j < n - 1 {
      OriginRemembered(ts, j, n - 1);
    }
  }

  lemma OneMember<T>(s: set<T>, x: T)
    ensures |s| == 1 && x in s <==> s == {x}
  {
    if |s| == 1 && x in s {
      assert |s - {x}| == 0;
    }
  }

  /** The accepted root of the `k`-th turn is the target of a converted invoke somewhere in the stream. */
  ghost predicate ConvertedRoot(ts: seq<Turn>, k: nat) {
    k < |ts| && ts[k].view.Some? && ConvertedTo(ts, ts[k].view.value.rootLayer) != {}
  }

  /** The origin of the `k`-th turn is action `x`, standing in the earlier turn `i`, converted to that turn's root. */
  ghost predicate ComesFrom(ts: seq<Turn>, k: nat, i: nat, x: Action<Id>)
    requires k < |ts| && ts[k].view.Some?
  {
    && ts[k].origin.FromAction? && i < k && ts[i].id == ts[k].origin.sourceTurn && StandsIn(ts[i], x)
    && x.id == ts[k].origin.sourceAction && x.converted && x.target == Some(ts[k].view.value.rootLayer)
  }

  lemma RootFacts(ts: seq<Turn>, k: nat)
    requires LineageOk(ts) && ConvertedRoot(ts, k)
    ensures ts[k].origin.FromAction? && ConvertedTo(ts, ts[k].view.value.rootLayer) == {ts[k].origin.sourceAction}
  {
    hide ConvertedTo;
    assert ts[k] in ts;
    var to := ConvertedTo(ts, ts[k].view.value.rootLayer);
    assert RootLineageOk(ts, ts[k].view.value.rootLayer, OriginAction(ts[k]));
    OneMember(to, ts[k].origin.sourceAction);
  }

  lemma OriginStandsEarlier(h: Header, ts: seq<Turn>, k: nat) returns (i: nat, x: Action<Id>)
    requires LineageOk(ts) && DefinitionsAgree(ts) && ConvertedRoot(ts, k) && OriginResolved(h, ts[..k], ts[k])
    ensures ComesFrom(ts, k, i, x) && NamesConverted(ts[..k], ts[k])
  {
    hide DefinitionsAgree, ConvertedTo, LineageOk;
    RootFacts(ts, k);
    var root, origin := ts[k].view.value.rootLayer, ts[k].origin;
    i, x := PriorSource(ts[..k], origin.sourceTurn, origin.sourceAction);
    var y := ConvertedAction(ts, root, origin.sourceAction);
    assert ts[..k][i] == ts[i];
    SameAction(ts, i, x, y);
  }

  lemma OriginsResolved(h: Header, ts: seq<Turn>)
    requires Admitted(h, ts)
    ensures forall k | 0 <= k < |ts| :: OriginResolved(h, ts[..k], ts[k]) && ConversionOnce(ts[..k], ts[k])
  {
    forall k | 0 <= k < |ts|
      ensures OriginResolved(h, ts[..k], ts[k]) && ConversionOnce(ts[..k], ts[k])
    {
      assert Admits(h, ts[..k], ts[k]);
      hide ViewOk, Prior, ConvertedTo, DefinitionsAgree, OriginResolved, ConversionOnce;
      assert TurnOk(h, ts[..k], ts[k]);
    }
  }

  /**
   A turn whose accepted root some converted invoke opens: its origin is that invoke, standing
   converted in a strictly earlier turn.
   */
  lemma ConvertedOriginIsEarlier(h: Header, ts: seq<Turn>)
    requires AcceptedStream(h, ts)
    ensures forall k: nat | ConvertedRoot(ts, k) :: (exists i, x :: ComesFrom(ts, k, i, x)) && NamesConverted(ts[..k], ts[k])
  {
    hide AcceptedStream, Admitted, DefinitionsAgree, LineageOk, ConvertedTo, ComesFrom, NamesConverted, OriginResolved, ConversionOnce;
    AcceptedParts(h, ts);
    OriginsResolved(h, ts);
    DefinitionsOfStream(h, ts);
    forall k: nat | ConvertedRoot(ts, k)
      ensures (exists i, x :: ComesFrom(ts, k, i, x)) && NamesConverted(ts[..k], ts[k])
    {
      var i, x := OriginStandsEarlier(h, ts, k);
    }
  }

  lemma AcceptedParts(h: Header, ts: seq<Turn>)
    requires AcceptedStream(h, ts)
    ensures Admitted(h, ts) && LineageOk(ts)
  {
  }

  lemma ConvertedAction(ts: seq<Turn>, root: Id, id: Id) returns (y: Action<Id>)
    requires id in ConvertedTo(ts, root)
    ensures y in AllActions(ts) && y.id == id && y.converted && y.target == Some(root)
  {
    var t, l, a :| t in ts && l in LayersIn(t) && a in l.actions && a.converted && a.target == Some(root) && a.id == id;
    y := a;
  }

  lemma SameAction(ts: seq<Turn>, i: nat, x: Action<Id>, y: Action<Id>)
    requires DefinitionsAgree(ts) && i < |ts| && StandsIn(ts[i], x) && y in AllActions(ts) && x.id == y.id
    ensures x == y
  {
    var l :| l in LayersIn(ts[i]) && x in l.actions;
    assert ts[i] in ts;
    assert x in AllActions(ts);
    assert ActionKey(x) == ActionKey(y);
  }

  /** Layer action `x` of an earlier turn may be the origin of `t`: an open invoke, or one converted to exactly the root of `t`. */
  ghost predicate MayOriginate(ts: seq<Turn>, turn: Id, id: Id, t: Turn, i: nat, x: Action<Id>) {
    && i < |ts| && ts[i].id == turn && StandsIn(ts[i], x) && x.id == id
    && (x.kind == Invoke || x.converted)
    && (x.converted ==> t.view.Some? && x.target == Some(t.view.value.rootLayer))
  }

  lemma TurnIdsDiffer(h: Header, ts: seq<Turn>)
    requires HeaderOk(h) && Admitted(h, ts)
    ensures forall i, j | 0 <= i < j < |ts| :: ts[i].id != ts[j].id
  {
    forall i, j | 0 <= i < j < |ts|
      ensures ts[i].id != ts[j].id
    {
      assert Admits(h, ts[..i], ts[i]) && Admits(h, ts[..j], ts[j]);
      hide TurnOk, InvocationAgrees, ConversionKept, ConversionOnce, DefinitionsAgree, ViewFresh, Admitted;
      assert Declared(h, i, ts[i]) && Declared(h, j, ts[j]);
    }
  }

  lemma ConvertedHasTarget(h: Header, ts: seq<Turn>)
    requires Admitted(h, ts)
    ensures forall i, x | 0 <= i < |ts| && StandsIn(ts[i], x) && x.converted :: x.target.Some?
  {
    forall i, x | 0 <= i < |ts| && StandsIn(ts[i], x) && x.converted
      ensures x.target.Some?
    {
      assert Admits(h, ts[..i], ts[i]);
      var l :| l in LayersIn(ts[i]) && x in l.actions;
      hide InvocationAgrees, ConversionKept, ConversionOnce, DefinitionsAgree, ViewFresh, Admitted, LayersOk, ExpandAcyclic;
      assert ActionInPlace(ts[i].view.value, h.version, h.boundInputs, l, x);
    }
  }

  /**
   The origin of an action-created turn, without the maps that decide it: it is resolved
   exactly when some turn of that id so far holds a layer action of that id that is an open
   invoke, or one converted to the very root the new turn shows.
   */
  lemma OriginResolvedIff(h: Header, ts: seq<Turn>, t: Turn)
    requires HeaderOk(h) && Admitted(h, ts) && t.origin.FromAction?
    ensures OriginResolved(h, ts, t) <==> exists i, x :: MayOriginate(ts, t.origin.sourceTurn, t.origin.sourceAction, t, i, x)
  {
    hide HeaderOk, Admitted, DefinitionsAgree, StandsIn, Prior, OriginResolved, MayOriginate;
    TurnIdsDiffer(h, ts);
    ConvertedHasTarget(h, ts);
    DefinitionsOfStream(h, ts);
    if OriginResolved(h, ts, t) {
      ResolvedHasSource(h, ts, t);
    }
    if i, x :| MayOriginate(ts, t.origin.sourceTurn, t.origin.sourceAction, t, i, x) {
      SourceResolves(h, ts, t, i, x);
    }
  }

  lemma ResolvedHasSource(h: Header, ts: seq<Turn>, t: Turn)
    requires t.origin.FromAction? && OriginResolved(h, ts, t)
    requires forall i, x | 0 <= i < |ts| && StandsIn(ts[i], x) && x.converted :: x.target.Some?
    ensures exists i, x :: MayOriginate(ts, t.origin.sourceTurn, t.origin.sourceAction, t, i, x)
  {
    hide StandsIn, Prior;
    var i, x := PriorSource(ts, t.origin.sourceTurn, t.origin.sourceAction);
    assert MayOriginate(ts, t.origin.sourceTurn, t.origin.sourceAction, t, i, x);
  }

  lemma SourceResolves(h: Header, ts: seq<Turn>, t: Turn, i: nat, x: Action<Id>)
    requires t.origin.FromAction? && MayOriginate(ts, t.origin.sourceTurn, t.origin.sourceAction, t, i, x)
    requires DefinitionsAgree(ts) && forall j, k | 0 <= j < k < |ts| :: ts[j].id != ts[k].id
    ensures OriginResolved(h, ts, t)
  {
    hide StandsIn, Prior, DefinitionsAgree;
    PriorFinds(ts, i, x);
    var j, y := PriorSource(ts, t.origin.sourceTurn, t.origin.sourceAction);
    StandsAmong(ts, j, y);
    SameAction(ts, i, x, y);
  }

  /** Node `node` is a member of a layer `layer` that turn `i`, of id `turn`, shows. */
  ghost predicate ShownIn(ts: seq<Turn>, turn: Id, layer: Id, node: Id, i: nat, l: Layer<Id>) {
    i < |ts| && ts[i].id == turn && l in LayersIn(ts[i]) && l.id == layer && node in l.memberNodes
  }

  /** An owned context's occurrence, without the map that decides it. */
  lemma {:induction false} OccursIff(ts: seq<Turn>, turn: Id, layer: Id, node: Id)
    requires forall i, j | 0 <= i < j < |ts| :: ts[i].id != ts[j].id
    ensures Occurs(ts, turn, layer, node) <==> exists i, l :: ShownIn(ts, turn, layer, node, i, l)
  {
    if ts != [] {
      var n := |ts| - 1;
      OccursIff(ts[..n], turn, layer, node);
      if ts[n].id == turn && ts[n].view.Some? {
        if Holds(ts[n].view.value.layers, layer, node) {
          var l :| l in ts[n].view.value.layers && l.id == layer && node in l.memberNodes;
          assert ShownIn(ts, turn, layer, node, n, l);
        }
      } else {
        if i, l :| ShownIn(ts[..n], turn, layer, node, i, l) {
          assert ShownIn(ts, turn, layer, node, i, l);
        }
        if i, l :| ShownIn(ts, turn, layer, node, i, l) {
          assert ShownIn(ts[..n], turn, layer, node, i, l);
        }
      }
    }
  }

  lemma StandsAmong(ts: seq<Turn>, j: nat, y: Action<Id>)
    requires j < |ts| && StandsIn(ts[j], y)
    ensures y in AllActions(ts)
  {
    assert ts[j] in ts;
  }

  /** Two turns never share one converted invoke as origin. */
  lemma OneResultPerOrigin(h: Header, ts: seq<Turn>)
    requires Admitted(h, ts)
    ensures forall j, k | 0 <= j < k < |ts| && NamesConverted(ts[..j], ts[j]) && NamesConverted(ts[..k], ts[k]) ::
      ts[j].origin.sourceAction != ts[k].origin.sourceAction
  {
    hide Admitted, OriginResolved, Prior, ConvertedOrigins;
    OriginsResolved(h, ts);
    forall j, k | 0 <= j < k < |ts| && NamesConverted(ts[..j], ts[j]) && NamesConverted(ts[..k], ts[k])
      ensures ts[j].origin.sourceAction != ts[k].origin.sourceAction
    {
      assert ConversionOnce(ts[..k], ts[k]);
      OriginRemembered(ts, j, k);
    }
  }

  /**
   Whole-stream invoke lineage. When a layer is both some turn's accepted root and the
   target of a converted invoke anywhere in the stream: one action id converts to it, no
   other turn has it as its root, and the turn's origin is that action, standing converted
   in a strictly earlier turn.
   */
  lemma ConvertedLineage(h: Header, ts: seq<Turn>)
    requires AcceptedStream(h, ts)
    ensures forall k: nat | ConvertedRoot(ts, k) ::
      && (exists i, x :: ComesFrom(ts, k, i, x))
      && ConvertedTo(ts, ts[k].view.value.rootLayer) == {ts[k].origin.sourceAction}
      && (forall j | 0 <= j < |ts| && ts[j].view.Some? && ts[j].view.value.rootLayer == ts[k].view.value.rootLayer :: j == k)
  {
    hide AcceptedStream, Admitted, LineageOk, StandsIn, NamesConverted, ConvertedTo;
    AcceptedParts(h, ts);
    ConvertedOriginIsEarlier(h, ts);
    OneResultPerOrigin(h, ts);
    forall k: nat | ConvertedRoot(ts, k)
      ensures ConvertedTo(ts, ts[k].view.value.rootLayer) == {ts[k].origin.sourceAction}
      ensures forall j | 0 <= j < |ts| && ts[j].view.Some? && ts[j].view.value.rootLayer == ts[k].view.value.rootLayer :: j == k
    {
      RootFacts(ts, k);
      forall j | 0 <= j < |ts| && ts[j].view.Some? && ts[j].view.value.rootLayer == ts[k].view.value.rootLayer
        ensures j == k
      {
        assert ConvertedRoot(ts, j);
        RootFacts(ts, j);
      }
    }
  }

  /**
   The exact condition, for all streams: once every turn was admitted, the finished stream is
   accepted exactly when each accepted root that is a conversion target has its own origin
   action as its only converting action.
   */
  lemma AcceptedIffOneConversion(h: Header, ts: seq<Turn>)
    requires HeaderOk(h) && |ts| == |h.turns| && Admitted(h, ts)
    ensures AcceptedStream(h, ts) <==>
      (forall t | t in ts && t.view.Some? && ConvertedTo(ts, t.view.value.rootLayer) != {} ::
        t.origin.FromAction? && ConvertedTo(ts, t.view.value.rootLayer) == {t.origin.sourceAction})
  {
    hide HeaderOk, Admitted, ConvertedTo;
    forall t | t in ts && t.view.Some? && t.origin.FromAction?
      ensures var to := ConvertedTo(ts, t.view.value.rootLayer); |to| == 1 && t.origin.sourceAction in to <==> to == {t.origin.sourceAction}
    {
      OneMember(ConvertedTo(ts, t.view.value.rootLayer), t.origin.sourceAction);
    }
  }
}
