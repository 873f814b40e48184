/**
 The incremental validator: it keeps inventories, provenance and definitions, never whole
 turns, and decides exactly the streams `ExportStream.AcceptedStream` describes.
 */
module ExportValidator {
  import opened Text
  import opened GraphChecks
  import opened ExportModel
  import opened Definitions
  import opened AcceptedView
  import opened ExportStream

  // ------------------------------------------------------------ what the fields say about the turns pushed so far

  function Lookup(priors: map<Id, map<Id, Option<Id>>>, turn: Id, action: Id): Option<Option<Id>> {
    if turn in priors && action in priors[turn] then Some(priors[turn][action]) else None
  }

  ghost predicate PriorsKept(priors: map<Id, map<Id, Option<Id>>>, ts: seq<Turn>) {
    forall turn, action :: Lookup(priors, turn, action) == Prior(ts, turn, action)
  }

  function TargetsOf(targets: map<Id, set<Id>>, root: Id): set<Id> {
    if root in targets then targets[root] else {}
  }

  ghost predicate TargetsKept(targets: map<Id, set<Id>>, ts: seq<Turn>) {
    && (forall root :: TargetsOf(targets, root) == ConvertedTo(ts, root))
    && (forall root | root in targets :: targets[root] != {})
  }

  function RootOrigins(ts: seq<Turn>): seq<(Id, Option<Id>)> {
    if ts == [] then [] else
      var last := ts[|ts| - 1];
      RootOrigins(ts[..|ts| - 1]) + if last.view.Some? then [(last.view.value.rootLayer, OriginAction(last))] else []
  }

  function Occurrence(m: map<Id, map<Id, set<Id>>>, turn: Id, layer: Id, node: Id): bool {
    turn in m && layer in m[turn] && node in m[turn][layer]
  }

  ghost predicate OccurrencesKept(m: map<Id, map<Id, set<Id>>>, ts: seq<Turn>) {
    forall turn, layer, node :: Occurrence(m, turn, layer, node) <==> Occurs(ts, turn, layer, node)
  }

  ghost predicate OwnersKept(owners: map<Id, Id>, cs: set<Context>) {
    && (forall c | c in cs && c.owner.Some? :: c.layer in owners && owners[c.layer] == c.owner.value)
    && (forall k | k in owners :: exists c :: c in cs && c.layer == k && c.owner == Some(owners[k]))
  }

  // ------------------------------------------------------------ how a turn adds to the whole

  function EdgesIn(layers: seq<Layer<Id>>): seq<Edge<Id>> {
    if layers == [] then [] else EdgesIn(layers[..|layers| - 1]) + layers[|layers| - 1].edges
  }

  function CopiesOf(nodes: seq<Node<Id>>): (cs: seq<Copy<Id>>)
    ensures |cs| == |nodes| && forall i | 0 <= i < |nodes| :: cs[i] == NodeCopy(nodes[i])
  {
    seq(|nodes|, i requires 0 <= i < |nodes| => NodeCopy(nodes[i]))
  }

  function CopiesIn(layers: seq<Layer<Id>>): seq<Copy<Id>> {
    if layers == [] then [] else CopiesIn(layers[..|layers| - 1]) + CopiesOf(layers[|layers| - 1].nodes)
  }

  function ContextCopies(contexts: seq<Context>): (cs: seq<Copy<Id>>)
    ensures |cs| == |contexts| && forall i | 0 <= i < |contexts| :: cs[i] == ContextCopy(contexts[i])
  {
    seq(|contexts|, i requires 0 <= i < |contexts| => ContextCopy(contexts[i]))
  }

  lemma {:induction false} FlattenedMembers(layers: seq<Layer<Id>>)
    ensures forall a :: a in ActionsIn(layers) <==> exists l :: l in layers && a in l.actions
    ensures forall e :: e in EdgesIn(layers) <==> exists l :: l in layers && e in l.edges
  {
    if layers != [] {
      var n := |layers| - 1;
      FlattenedMembers(layers[..n]);
      assert layers == layers[..n] + [layers[n]];
      assert forall l :: l in layers <==> l in layers[..n] || l == layers[n];
    }
  }

  lemma {:induction false} FlattenedCopies(layers: seq<Layer<Id>>)
    ensures forall c :: c in CopiesIn(layers) <==> exists l, n :: l in layers && n in l.nodes && c == NodeCopy(n)
  {
    if layers != [] {
      var k := |layers| - 1;
      FlattenedCopies(layers[..k]);
      assert forall l :: l in layers <==> l in layers[..k] || l == layers[k];
      forall c
        ensures c in CopiesOf(layers[k].nodes) <==> exists n :: n in layers[k].nodes && c == NodeCopy(n)
      {
        if c in CopiesOf(layers[k].nodes) {
          var i :| 0 <= i < |layers[k].nodes| && CopiesOf(layers[k].nodes)[i] == c;
          assert layers[k].nodes[i] in layers[k].nodes;
        }
        if n :| n in layers[k].nodes && c == NodeCopy(n) {
          var i :| 0 <= i < |layers[k].nodes| && layers[k].nodes[i] == n;
          assert CopiesOf(layers[k].nodes)[i] == c;
        }
      }
      hide NodeCopy, CopiesOf;
    }
  }

  lemma RecordsSplit(ts: seq<Turn>, t: Turn)
    ensures AllLayers(ts + [t]) == AllLayers(ts) + Elements(LayersIn(t))
    ensures AllEdges(ts + [t]) == AllEdges(ts) + Elements(EdgesIn(LayersIn(t)))
    ensures AllActions(ts + [t]) == AllActions(ts) + Elements(ActionsIn(LayersIn(t)))
  {
    assert forall x :: x in ts + [t] <==> x in ts || x == t;
    FlattenedMembers(LayersIn(t));
    hide ActionsIn, EdgesIn;
  }

  lemma CopiesSplit(ts: seq<Turn>, t: Turn)
    ensures AllCopies(ts + [t]) == AllCopies(ts) + Elements(ContextCopies(t.contexts)) + Elements(CopiesIn(LayersIn(t)))
  {
    var ns, cs := CopiesIn(LayersIn(t)), ContextCopies(t.contexts);
    assert forall x :: x in ts + [t] <==> x in ts || x == t;
    FlattenedCopies(LayersIn(t));
    forall c
      ensures c in cs <==> exists x :: x in t.contexts && c == ContextCopy(x)
    {
      if c in cs {
        var i :| 0 <= i < |cs| && cs[i] == c;
        assert t.contexts[i] in t.contexts;
      }
      if x :| x in t.contexts && c == ContextCopy(x) {
        var i :| 0 <= i < |cs| && t.contexts[i] == x;
        assert cs[i] == c;
      }
    }
    hide NodeCopy, ContextCopy, CopiesIn, ContextCopies;
  }

  lemma ActionKeys(m: map<Id, Action<Id>>, ts: seq<Turn>)
    requires ById(m, AllActions(ts), ActionKey)
    ensures m.Keys == LayerActionIds(ts)
  {
    forall k | k in m
      ensures k in LayerActionIds(ts)
    {
      assert m[k] in AllActions(ts) && ActionKey(m[k]) == k;
    }
    forall k | k in LayerActionIds(ts)
      ensures k in m
    {
      var t, l, a :| t in ts && l in LayersIn(t) && a in l.actions && a.id == k;
      assert a in AllActions(ts);
      assert ActionKey(a) in m;
    }
  }

  // ------------------------------------------------------------ checks that change nothing

  method ConversionVersionOk(h: Header, t: Turn) returns (ok: bool)
    ensures ok <==> ConversionAllowed(h, t)
  {
    if h.version >= V3 || t.view.None? {
      return true;
    }
    if t.view.value.rootAction.converted {
      return false;
    }
    var actions := ActionsIn(LayersIn(t));
    FlattenedMembers(LayersIn(t));
    hide ActionsIn;
    for i := 0 to |actions|
      invariant forall k | 0 <= k < i :: !actions[k].converted
    {
      if actions[i].converted {
        assert actions[i] in actions;
        return false;
      }
    }
    forall l, a | l in LayersIn(t) && a in l.actions
      ensures !a.converted
    {
      assert a in actions;
    }
    ok := true;
  }

  method ContextsOk(t: Turn) returns (ok: bool)
    ensures ok <==> ContextsDistinct(t)
  {
    var ids, targets := {}, {};
    for i := 0 to |t.contexts|
      invariant forall x :: x in ids <==> exists k :: 0 <= k < i && t.contexts[k].id == x
      invariant forall x :: x in targets <==> exists k :: 0 <= k < i && t.contexts[k].target == x
      invariant forall k, l | 0 <= k < l < i :: t.contexts[k].id != t.contexts[l].id
      invariant forall k, l | 0 <= k < l < i :: t.contexts[k].target != t.contexts[l].target
    {
      var c := t.contexts[i];
      if c.id in ids || c.target in targets {
        return false;
      }
      ids, targets := ids + {c.id}, targets + {c.target};
    }
    ok := true;
  }

  method OriginOk(h: Header, t: Turn, priors: map<Id, map<Id, Option<Id>>>, ghost ts: seq<Turn>) returns (ok: bool)
    requires PriorsKept(priors, ts)
    ensures ok <==> OriginResolved(h, ts, t)
  {
    match t.origin
    case User => ok := true;
    case FromInvocation(_) => ok := h.version == V4;
    case FromAction(turn, action) =>
      assert Lookup(priors, turn, action) == Prior(ts, turn, action);
      ok := turn in priors && action in priors[turn]
            && (priors[turn][action].Some? ==> t.view.Some? && t.view.value.rootLayer == priors[turn][action].value);
  }

  method ContentOk(t: Turn) returns (ok: bool)
    ensures ok <==> HasContent(t)
  {
    hide Blank;
    if t.submittedInputs != [] || t.status.Failed? || t.status.Stopped? {
      return true;
    }
    if !Blank(t.text) {
      return true;
    }
    for i := 0 to |t.contexts|
      invariant forall k, a | 0 <= k < i && a in t.contexts[k].annotations :: Blank(a)
    {
      var annotations := t.contexts[i].annotations;
      for j := 0 to |annotations|
        invariant forall k | 0 <= k < j :: Blank(annotations[k])
      {
        if !Blank(annotations[j]) {
          assert t.contexts[i] in t.contexts && annotations[j] in annotations;
          return true;
        }
      }
    }
    return false;
  }

  method ValidateTurn(h: Header, t: Turn, priors: map<Id, map<Id, Option<Id>>>, ghost ts: seq<Turn>) returns (ok: bool)
    requires PriorsKept(priors, ts)
    ensures ok <==> TurnOk(h, ts, t)
  {
    hide ViewOk, OriginResolved, ContextsDistinct, PriorsKept, HasContent;
    ok := ContextsOk(t);
    if !ok || ((t.contexts != [] || t.submittedInputs != []) && t.interactionNode.None?) {
      return false;
    }
    ok := ContentOk(t);
    if !ok {
      return false;
    }
    ok := OriginOk(h, t, priors, ts);
    if !ok || t.status.Accepted? != t.view.Some? {
      return false;
    }
    if t.view.Some? {
      if t.interactionNode.Some? && t.interactionNode.value != t.view.value.interactionNode {
        return false;
      }
      ok := ValidateAcceptedView(t.view.value, h.version, h.boundInputs);
    }
  }

  method InvocationOk(h: Header, t: Turn) returns (ok: bool)
    requires HeaderOk(h)
    ensures ok <==> InvocationAgrees(h, t)
  {
    if t.origin.FromInvocation? {
      var i := 0;
      while i < |h.invocations| && h.invocations[i].id != t.origin.invocation
        invariant 0 <= i <= |h.invocations|
        invariant forall k | 0 <= k < i :: h.invocations[k].id != t.origin.invocation
      {
        i := i + 1;
      }
      if i == |h.invocations| {
        return false;
      }
      assert forall c | c in h.invocations && c.id == t.origin.invocation :: c == h.invocations[i];
      var call := h.invocations[i];
      if call.resultTurn != Some(t.id) || (t.text != call.instruction && t.text != Trim(call.instruction)) {
        return false;
      }
      if call.succeeded && (!t.status.Accepted? || t.view.None?) {
        return false;
      }
      var child := if t.interactionNode.Some? then t.interactionNode
        else if t.view.Some? then Some(t.view.value.interactionNode) else None;
      if child != Some(call.child) {
        return false;
      }
      ok := t.view.None? || (call.returned == Some(t.view.value.rootLayer) && call.succeeded);
    } else {
      for i := 0 to |h.invocations|
        invariant forall k | 0 <= k < i :: h.invocations[k].resultTurn != Some(t.id)
      {
        if h.invocations[i].resultTurn == Some(t.id) {
          assert h.invocations[i] in h.invocations;
          return false;
        }
      }
      ok := true;
    }
  }

  method ConversionOk(t: Turn, priors: map<Id, map<Id, Option<Id>>>, targets: map<Id, set<Id>>, ghost ts: seq<Turn>) returns (ok: bool)
    requires PriorsKept(priors, ts) && TargetsKept(targets, ts)
    ensures ok <==> ConversionKept(ts, t)
  {
    if t.view.None? || t.view.value.rootLayer !in targets {
      assert t.view.Some? ==> TargetsOf(targets, t.view.value.rootLayer) == {};
      return true;
    }
    var root := t.view.value.rootLayer;
    assert TargetsOf(targets, root) == ConvertedTo(ts, root) != {};
    ok := t.origin.FromAction?
          && t.origin.sourceAction in targets[root]
          && Lookup(priors, t.origin.sourceTurn, t.origin.sourceAction) == Some(Some(root));
  }

  // ------------------------------------------------------------ contexts

  lemma OwnerInserted(owners: map<Id, Id>, cs: set<Context>, c: Context)
    requires OwnersKept(owners, cs)
    ensures c.owner.None? ==> OwnersKept(owners, cs + {c})
    ensures c.owner.Some? ==>
      if c.layer in owners && owners[c.layer] != c.owner.value then !OneOwner(cs + {c})
      else OwnersKept(owners[c.layer := c.owner.value], cs + {c})
  {
    assert forall x | x in cs :: x in cs + {c};
    assert c in cs + {c};
    if c.owner.Some? && c.layer in owners && owners[c.layer] != c.owner.value {
      var x :| x in cs && x.layer == c.layer && x.owner == Some(owners[c.layer]);
      assert x in cs + {c};
    }
  }

  lemma OwnersAgree(owners: map<Id, Id>, cs: set<Context>)
    requires OwnersKept(owners, cs)
    ensures OneOwner(cs)
  {
  }

  lemma OneOwnerShrinks(s: set<Context>, t: set<Context>)
    requires s <= t
    ensures OneOwner(t) ==> OneOwner(s)
  {
  }

  ghost predicate ContextOk(h: Header, ts: seq<Turn>, c: Context) {
    && (c.owner.Some? ==> h.version >= V3 && Occurs(ts, c.owner.value, c.layer, c.target))
    && c.id !in ContextIds(ts) && c.id !in RootIds(ts) && c.id !in LayerActionIds(ts)
  }

  /** One context against the prefix; `taken` are the ids of this turn's earlier contexts. */
  method CheckContext(h: Header, c: Context, occurrences: map<Id, map<Id, set<Id>>>, owners: map<Id, Id>,
                      contextActions: map<Id, Context>, rootIds: set<Id>, actions: map<Id, Action<Id>>,
                      ghost ts: seq<Turn>, ghost seen: set<Context>, ghost taken: set<Id>)
    returns (ok: bool, owners': map<Id, Id>, contextActions': map<Id, Context>)
    requires OccurrencesKept(occurrences, ts) && OwnersKept(owners, seen) && c.id !in taken
    requires contextActions.Keys == ContextIds(ts) + taken && rootIds == RootIds(ts) && actions.Keys == LayerActionIds(ts)
    ensures ok <==> ContextOk(h, ts, c) && OneOwner(seen + {c})
    ensures ok ==> OwnersKept(owners', seen + {c}) && contextActions'.Keys == contextActions.Keys + {c.id}
  {
    hide OwnersKept, OneOwner, Occurs, ContextIds, RootIds, LayerActionIds;
    ok, owners', contextActions' := false, owners, contextActions;
    OwnerInserted(owners, seen, c);
    if c.owner.Some? {
      assert Occurrence(occurrences, c.owner.value, c.layer, c.target) <==> Occurs(ts, c.owner.value, c.layer, c.target);
      if h.version < V3 || !Occurrence(occurrences, c.owner.value, c.layer, c.target) {
        return;
      }
      if c.layer in owners && owners[c.layer] != c.owner.value {
        return;
      }
      owners' := owners[c.layer := c.owner.value];
    }
    OwnersAgree(owners', seen + {c});
    if c.id in contextActions || c.id in rootIds || c.id in actions {
      return;
    }
    ok, contextActions' := true, contextActions[c.id := c];
  }

  ghost function IdsOf(cs: seq<Context>): set<Id> {
    set c | c in cs :: c.id
  }

  lemma OneMoreContext(t: Turn, i: nat)
    requires ContextsDistinct(t) && i < |t.contexts|
    ensures IdsOf(t.contexts[..i + 1]) == IdsOf(t.contexts[..i]) + {t.contexts[i].id}
    ensures t.contexts[i].id !in IdsOf(t.contexts[..i])
  {
    assert t.contexts[..i + 1] == t.contexts[..i] + [t.contexts[i]];
  }

  lemma ContextsDecide(h: Header, ts: seq<Turn>, t: Turn)
    ensures (forall k | 0 <= k < |t.contexts| :: ContextOk(h, ts, t.contexts[k])) <==> OwnersOccur(h, ts, t) && ContextsFresh(ts, t)
  {
    hide ContextIds, RootIds, LayerActionIds, Occurs, AllContexts;
    if OwnersOccur(h, ts, t) && ContextsFresh(ts, t) {
      forall k | 0 <= k < |t.contexts|
        ensures ContextOk(h, ts, t.contexts[k])
      {
        assert t.contexts[k] in t.contexts;
      }
    }
    if forall k | 0 <= k < |t.contexts| :: ContextOk(h, ts, t.contexts[k]) {
      forall c | c in t.contexts
        ensures ContextOk(h, ts, c)
      {
        var k :| 0 <= k < |t.contexts| && t.contexts[k] == c;
      }
    }
  }

  lemma ContextsGrow(ts: seq<Turn>, t: Turn)
    ensures ContextIds(ts + [t]) == ContextIds(ts) + IdsOf(t.contexts)
    ensures AllContexts(ts + [t]) == AllContexts(ts) + Elements(t.contexts)
  {
    IdsSplit(ts, t);
    assert ContextIds([t]) == IdsOf(t.contexts);
  }

  lemma NoIds(t: Turn)
    ensures IdsOf(t.contexts[..0]) == {}
  {
  }

  method CheckContexts(h: Header, t: Turn, occurrences: map<Id, map<Id, set<Id>>>, owners: map<Id, Id>,
                       contextActions: map<Id, Context>, rootIds: set<Id>, actions: map<Id, Action<Id>>, ghost ts: seq<Turn>)
    returns (ok: bool, owners': map<Id, Id>, contextActions': map<Id, Context>)
    requires ContextsDistinct(t) && OccurrencesKept(occurrences, ts) && OwnersKept(owners, AllContexts(ts))
    requires contextActions.Keys == ContextIds(ts) && rootIds == RootIds(ts) && actions.Keys == LayerActionIds(ts)
    ensures ok <==> OwnersOccur(h, ts, t) && OneOwner(AllContexts(ts + [t])) && ContextsFresh(ts, t)
    ensures ok ==> OwnersKept(owners', AllContexts(ts + [t])) && contextActions'.Keys == ContextIds(ts + [t])
  {
    hide OwnersKept, OneOwner, ContextOk, OwnersOccur, ContextsFresh, OccurrencesKept, ContextsDistinct;
    hide AllContexts, LayerActionIds, RootIds, ContextIds, Elements, IdsOf;
    NoIds(t);
    owners', contextActions' := owners, contextActions;
    NoneSeen(AllContexts(ts), t.contexts);
    ContextsDecide(h, ts, t);
    ContextsGrow(ts, t);
    for i := 0 to |t.contexts|
      invariant OwnersKept(owners', AllContexts(ts) + Elements(t.contexts[..i]))
      invariant contextActions'.Keys == ContextIds(ts) + IdsOf(t.contexts[..i])
      invariant forall k | 0 <= k < i :: ContextOk(h, ts, t.contexts[k])
    {
      OneMoreSeen(AllContexts(ts), t.contexts, i);
      OneMoreContext(t, i);
      ok, owners', contextActions' := CheckContext(h, t.contexts[i], occurrences, owners', contextActions', rootIds, actions,
        ts, AllContexts(ts) + Elements(t.contexts[..i]), IdsOf(t.contexts[..i]));
      if !ok {
        OneOwnerShrinks(AllContexts(ts) + Elements(t.contexts[..i + 1]), AllContexts(ts + [t]));
        return;
      }
    }
    ok := true;
    assert t.contexts[..|t.contexts|] == t.contexts;
    OwnersAgree(owners', AllContexts(ts + [t]));
  }

  // ------------------------------------------------------------ the view's identifiers

  lemma OwnActionIds(t: Turn)
    ensures forall x :: x in LayerActionIds([t]) <==> exists a :: a in ActionsIn(LayersIn(t)) && a.id == x
  {
    FlattenedMembers(LayersIn(t));
    hide ActionsIn;
    assert forall s :: s in [t] <==> s == t;
  }

  /** No action of the list has an id in `ids`. */
  method NoneNamed(actions: seq<Action<Id>>, ids: set<Id>) returns (ok: bool)
    ensures ok <==> forall a | a in actions :: a.id !in ids
  {
    for i := 0 to |actions|
      invariant forall k | 0 <= k < i :: actions[k].id !in ids
    {
      if actions[i].id in ids {
        assert actions[i] in actions;
        return false;
      }
    }
    ok := true;
  }

  method ViewIdsOk(t: Turn, contextActions: map<Id, Context>, interactionIds: set<Id>, rootIds: set<Id>, actions: map<Id, Action<Id>>,
                   ghost ts: seq<Turn>)
    returns (ok: bool)
    requires contextActions.Keys == ContextIds(ts + [t]) && interactionIds == InteractionIds(ts)
    requires rootIds == RootIds(ts) && actions.Keys == LayerActionIds(ts)
    ensures ok <==> ViewFresh(ts, t)
  {
    hide ContextIds, InteractionIds, RootIds, LayerActionIds, ActionsIn;
    if t.view.None? {
      return true;
    }
    var v, own := t.view.value, ActionsIn(LayersIn(t));
    OwnActionIds(t);
    var apart := NoneNamed(own, contextActions.Keys);
    if v.rootAction.id in contextActions || !apart {
      return false;
    }
    if v.interactionNode in interactionIds || v.rootAction.id in rootIds || v.rootAction.id in actions {
      return false;
    }
    assert RootIds(ts + [t]) == rootIds + {v.rootAction.id} by { RootIdsGrow(ts, t); }
    ok := NoneNamed(own, rootIds + {v.rootAction.id});
  }

  lemma RootIdsGrow(ts: seq<Turn>, t: Turn)
    ensures t.view.Some? ==> RootIds(ts + [t]) == RootIds(ts) + {t.view.value.rootAction.id}
    ensures t.view.Some? ==> InteractionIds(ts + [t]) == InteractionIds(ts) + {t.view.value.interactionNode}
    ensures t.view.None? ==> RootIds(ts + [t]) == RootIds(ts) && InteractionIds(ts + [t]) == InteractionIds(ts)
  {
    IdsSplit(ts, t);
    assert forall s :: s in [t] <==> s == t;
  }

  // ------------------------------------------------------------ what a pushed turn leaves behind

  lemma PriorsPushed(priors: map<Id, map<Id, Option<Id>>>, ts: seq<Turn>, t: Turn)
    requires PriorsKept(priors, ts)
    ensures PriorsKept(priors[t.id := InvokesOf(ActionsIn(LayersIn(t)))], ts + [t])
  {
    hide InvokesOf, ActionsIn, LayersIn;
    assert (ts + [t])[..|ts|] == ts;
    var after := priors[t.id := InvokesOf(ActionsIn(LayersIn(t)))];
    forall turn, action
      ensures Lookup(after, turn, action) == Prior(ts + [t], turn, action)
    {
      assert Lookup(priors, turn, action) == Prior(ts, turn, action);
    }
  }

  ghost function ConvertedIn(actions: seq<Action<Id>>, root: Id): set<Id> {
    set a | a in actions && a.converted && a.target == Some(root) :: a.id
  }

  lemma ConvertedSplit(ts: seq<Turn>, t: Turn, root: Id)
    ensures ConvertedTo(ts + [t], root) == ConvertedTo(ts, root) + ConvertedIn(ActionsIn(LayersIn(t)), root)
  {
    FlattenedMembers(LayersIn(t));
    hide ActionsIn;
    assert forall x :: x in ts + [t] <==> x in ts || x == t;
  }

  lemma ConvertedOneMore(actions: seq<Action<Id>>, i: nat, root: Id)
    requires i < |actions|
    ensures ConvertedIn(actions[..i + 1], root) ==
      ConvertedIn(actions[..i], root) + if actions[i].converted && actions[i].target == Some(root) then {actions[i].id} else {}
  {
    assert actions[..i + 1] == actions[..i] + [actions[i]];
  }

  method AddTargets(targets: map<Id, set<Id>>, t: Turn, ghost ts: seq<Turn>) returns (targets': map<Id, set<Id>>)
    requires TargetsKept(targets, ts)
    ensures TargetsKept(targets', ts + [t])
  {
    hide ConvertedTo, ConvertedIn, ActionsIn, LayersIn;
    targets' := targets;
    var actions := ActionsIn(LayersIn(t));
    assert forall root :: ConvertedIn(actions[..0], root) == {} by { NoneConverted(actions); }
    for i := 0 to |actions|
      invariant forall root :: TargetsOf(targets', root) == ConvertedTo(ts, root) + ConvertedIn(actions[..i], root)
      invariant forall root | root in targets' :: targets'[root] != {}
    {
      var a := actions[i];
      forall root { ConvertedOneMore(actions, i, root); }
      if a.converted && a.target.Some? {
        targets' := targets'[a.target.value := TargetsOf(targets', a.target.value) + {a.id}];
      }
    }
    assert actions[..|actions|] == actions;
    forall root { ConvertedSplit(ts, t, root); }
  }

  lemma NoneConverted(actions: seq<Action<Id>>)
    ensures forall root :: ConvertedIn(actions[..0], root) == {}
  {
  }

  function OccurrenceMap(layers: seq<Layer<Id>>): map<Id, set<Id>> {
    if layers == [] then map[] else
      var l := layers[|layers| - 1];
      OccurrenceMap(layers[..|layers| - 1])[l.id := set n | n in l.memberNodes]
  }

  lemma {:induction false} OccurrenceMapHolds(layers: seq<Layer<Id>>, layer: Id, node: Id)
    requires Distinct(LayerIds(layers))
    ensures layer in OccurrenceMap(layers) ==> layer in LayerIds(layers)
    ensures layer in OccurrenceMap(layers) && node in OccurrenceMap(layers)[layer] <==> Holds(layers, layer, node)
  {
    if layers != [] {
      var k := |layers| - 1;
      var l, front := layers[k], layers[..k];
      assert LayerIds(front) == LayerIds(layers)[..k];
      OccurrenceMapHolds(front, layer, node);
      assert LayerIds(layers)[k] == l.id;
      assert forall x :: x in layers <==> x in front || x == l;
      if layer == l.id {
        assert forall x | x in front :: x.id != l.id by {
          forall x | x in front
            ensures x.id != l.id
          {
            var i :| 0 <= i < k && front[i] == x;
            assert LayerIds(layers)[i] != LayerIds(layers)[k];
          }
        }
      }
    }
  }

  lemma OccurrencesPushed(m: map<Id, map<Id, set<Id>>>, ts: seq<Turn>, t: Turn)
    requires OccurrencesKept(m, ts)
    requires t.view.Some? ==> Distinct(LayerIds(t.view.value.layers))
    ensures OccurrencesKept(if t.view.Some? then m[t.id := OccurrenceMap(t.view.value.layers)] else m, ts + [t])
  {
    hide Holds, Distinct, OccurrenceMap;
    assert (ts + [t])[..|ts|] == ts;
    var after := if t.view.Some? then m[t.id := OccurrenceMap(t.view.value.layers)] else m;
    forall turn, layer, node
      ensures Occurrence(after, turn, layer, node) <==> Occurs(ts + [t], turn, layer, node)
    {
      assert Occurrence(m, turn, layer, node) <==> Occurs(ts, turn, layer, node);
      if t.view.Some? {
        OccurrenceMapHolds(t.view.value.layers, layer, node);
      }
    }
  }

  // ------------------------------------------------------------ the validator

  lemma NothingKept()
    ensures PriorsKept(map[], []) && ConvertedOrigins([]) == {} && TargetsKept(map[], []) && RootOrigins([]) == []
    ensures OccurrencesKept(map[], []) && OwnersKept(map[], AllContexts([])) && ContextIds([]) == {}
    ensures InteractionIds([]) == {} && RootIds([]) == {}
    ensures ById(map[], AllLayers([]), LayerKey) && Merged(map[], AllCopies([]))
    ensures ById(map[], AllEdges([]), EdgeKey) && ById(map[], AllActions([]), ActionKey)
  {
    assert AllCopies([]) == {};
  }

  class ConversationExportValidator {
    const header: Header
    var nextTurn: nat
    var priorInvokes: map<Id, map<Id, Option<Id>>>
    var convertedOrigins: set<Id>
    var convertedTargets: map<Id, set<Id>>
    var acceptedRootOrigins: seq<(Id, Option<Id>)>
    var acceptedOccurrences: map<Id, map<Id, set<Id>>>
    var contextLayerOwners: map<Id, Id>
    var interactionIds: set<Id>
    var rootActionIds: set<Id>
    var layersById: map<Id, Layer<Id>>
    var nodesById: map<Id, NodeParts>
    var edgesById: map<Id, Edge<Id>>
    var actionsById: map<Id, Action<Id>>
    var contextActionsById: map<Id, Context>
    /** The turns pushed so far, which no field keeps whole. */
    ghost var turns: seq<Turn>

    ghost predicate LineageFields()
      reads this
    {
      && PriorsKept(priorInvokes, turns)
      && convertedOrigins == ConvertedOrigins(turns)
      && TargetsKept(convertedTargets, turns)
      && acceptedRootOrigins == RootOrigins(turns)
    }

    ghost predicate ContextFields()
      reads this
    {
      && OccurrencesKept(acceptedOccurrences, turns)
      && OwnersKept(contextLayerOwners, AllContexts(turns))
      && contextActionsById.Keys == ContextIds(turns)
    }

    ghost predicate DefinitionFields()
      reads this
    {
      && interactionIds == InteractionIds(turns)
      && rootActionIds == RootIds(turns)
      && ById(layersById, AllLayers(turns), LayerKey)
      && Merged(nodesById, AllCopies(turns))
      && ById(edgesById, AllEdges(turns), EdgeKey)
      && ById(actionsById, AllActions(turns), ActionKey)
    }

    ghost predicate Valid()
      reads this
    {
      && HeaderOk(header)
      && nextTurn == |turns|
      && Admitted(header, turns)
      && LineageFields() && ContextFields() && DefinitionFields()
    }

    constructor (h: Header)
      requires HeaderOk(h)
      ensures Valid() && header == h && turns == []
    {
      header, nextTurn := h, 0;
      priorInvokes, convertedOrigins, convertedTargets, acceptedRootOrigins := map[], {}, map[], [];
      acceptedOccurrences, contextLayerOwners, contextActionsById := map[], map[], map[];
      interactionIds, rootActionIds := {}, {};
      layersById, nodesById, edgesById, actionsById := map[], map[], map[], map[];
      turns := [];
      new;
      NothingKept();
      hide PriorsKept, ConvertedOrigins, TargetsKept, RootOrigins, OccurrencesKept, OwnersKept, AllContexts, ContextIds, InteractionIds, RootIds;
      hide ById, Merged, AllLayers, AllCopies, AllEdges, AllActions, HeaderOk, Admits;
    }

    /** The checks a turn passes before anything is registered. */
    method CheckTurn(t: Turn) returns (ok: bool)
      requires Valid()
      ensures ok <==>
        && Declared(header, |turns|, t) && ConversionAllowed(header, t) && TurnOk(header, turns, t)
        && InvocationAgrees(header, t) && ConversionKept(turns, t) && ConversionOnce(turns, t)
    {
      hide Admitted, HeaderOk, ContextFields, DefinitionFields, TurnOk, InvocationAgrees, ConversionKept, ConversionAllowed;
      hide PriorsKept, TargetsKept, ConvertedOrigins, RootOrigins;
      if nextTurn >= |header.turns| || t.id != header.turns[nextTurn].id || t.sequence != header.turns[nextTurn].sequence {
        return false;
      }
      ok := ConversionVersionOk(header, t);
      if !ok {
        return;
      }
      ok := ValidateTurn(header, t, priorInvokes, turns);
      if !ok {
        return;
      }
      ok := InvocationOk(header, t);
      if !ok {
        return;
      }
      ok := ConversionOk(t, priorInvokes, convertedTargets, turns);
      if !ok {
        return;
      }
      var names := NamesConvertedOrigin(t, priorInvokes, turns);
      ok := !(names && t.origin.sourceAction in convertedOrigins);
    }

    /** Accepts exactly the turns that may follow the ones pushed so far, and then holds one turn more. */
    method PushTurn(t: Turn) returns (ok: bool)
      requires Valid()
      modifies this
      ensures ok <==> Admits(header, old(turns), t)
      ensures ok ==> Valid() && turns == old(turns) + [t]
    {
      hide HeaderOk, Declared, ConversionAllowed, InvocationAgrees, ConversionKept, OwnersOccur, ContextsFresh, ViewFresh;
      hide Admitted, OneOwner, ConversionOnce, DefinitionsAgree, TurnOk;
      hide PriorsKept, TargetsKept, ConvertedOrigins, RootOrigins, OccurrencesKept, OwnersKept, ById, Merged;
      hide AllLayers, AllEdges, AllActions, AllCopies, AllContexts, ContextIds, RootIds, InteractionIds, LayerActionIds;
      ghost var ts := turns;
      ok := CheckTurn(t);
      if !ok {
        return;
      }
      TurnFacts(header, ts, t);
      ActionKeys(actionsById, ts);
      ok, contextLayerOwners, contextActionsById :=
        CheckContexts(header, t, acceptedOccurrences, contextLayerOwners, contextActionsById, rootActionIds, actionsById, ts);
      if !ok {
        return;
      }
      ok := ViewIdsOk(t, contextActionsById, interactionIds, rootActionIds, actionsById, ts);
      if !ok {
        return;
      }
      ok := RegisterRecords(t, ts);
      if !ok {
        return;
      }
      Remember(t, ts);
      AdmittedMore(header, ts, t);
    }

    /** Registers the turn's context targets and view records; refused exactly when two definitions disagree. */
    method RegisterRecords(t: Turn, ghost ts: seq<Turn>) returns (ok: bool)
      requires interactionIds == InteractionIds(ts) && rootActionIds == RootIds(ts)
      requires ById(layersById, AllLayers(ts), LayerKey) && Merged(nodesById, AllCopies(ts))
      requires ById(edgesById, AllEdges(ts), EdgeKey) && ById(actionsById, AllActions(ts), ActionKey)
      modifies this`interactionIds, this`rootActionIds, this`layersById, this`nodesById, this`edgesById, this`actionsById
      ensures ok <==> DefinitionsAgree(ts + [t])
      ensures ok ==> interactionIds == InteractionIds(ts + [t]) && rootActionIds == RootIds(ts + [t])
      ensures ok ==> ById(layersById, AllLayers(ts + [t]), LayerKey) && Merged(nodesById, AllCopies(ts + [t]))
      ensures ok ==> ById(edgesById, AllEdges(ts + [t]), EdgeKey) && ById(actionsById, AllActions(ts + [t]), ActionKey)
    {
      hide ById, Merged, OneEach, CopiesAgree, AllLayers, AllEdges, AllActions, AllCopies, RootIds, InteractionIds;
      hide ActionsIn, EdgesIn, CopiesIn, ContextCopies, LayersIn;
      RecordsSplit(ts, t);
      CopiesSplit(ts, t);
      RootIdsGrow(ts, t);
      ok, nodesById := RegisterCopies(nodesById, ContextCopies(t.contexts), AllCopies(ts));
      if !ok {
        CopiesAgreeShrinks(AllCopies(ts) + Elements(ContextCopies(t.contexts)), AllCopies(ts + [t]));
        return;
      }
      if t.view.Some? {
        interactionIds := interactionIds + {t.view.value.interactionNode};
        rootActionIds := rootActionIds + {t.view.value.rootAction.id};
      }
      var layers := LayersIn(t);
      ok, layersById := RegisterAll(layersById, layers, LayerKey, AllLayers(ts));
      if !ok {
        return;
      }
      ok, nodesById := RegisterCopies(nodesById, CopiesIn(layers), AllCopies(ts) + Elements(ContextCopies(t.contexts)));
      if !ok {
        return;
      }
      ok, edgesById := RegisterAll(edgesById, EdgesIn(layers), EdgeKey, AllEdges(ts));
      if !ok {
        return;
      }
      ok, actionsById := RegisterAll(actionsById, ActionsIn(layers), ActionKey, AllActions(ts));
    }

    /** Records an admitted turn's provenance. */
    method Remember(t: Turn, ghost ts: seq<Turn>)
      requires turns == ts && nextTurn == |ts| && LineageFields()
      requires OccurrencesKept(acceptedOccurrences, ts)
      requires t.view.Some? ==> Distinct(LayerIds(t.view.value.layers))
      modifies this`nextTurn, this`turns, this`priorInvokes, this`convertedOrigins, this`convertedTargets,
               this`acceptedRootOrigins, this`acceptedOccurrences
      ensures turns == ts + [t] && nextTurn == |turns| && LineageFields()
      ensures OccurrencesKept(acceptedOccurrences, turns)
    {
      hide PriorsKept, TargetsKept, OccurrencesKept, NamesConverted, InvokesOf, ActionsIn, OccurrenceMap;
      assert (ts + [t])[..|ts|] == ts;
      var names := NamesConvertedOrigin(t, priorInvokes, ts);
      if names {
        convertedOrigins := convertedOrigins + {t.origin.sourceAction};
      }
      OccurrencesPushed(acceptedOccurrences, ts, t);
      if t.view.Some? {
        acceptedRootOrigins := acceptedRootOrigins + [(t.view.value.rootLayer, OriginAction(t))];
        acceptedOccurrences := acceptedOccurrences[t.id := OccurrenceMap(t.view.value.layers)];
      }
      convertedTargets := AddTargets(convertedTargets, t, ts);
      PriorsPushed(priorInvokes, ts, t);
      priorInvokes := priorInvokes[t.id := InvokesOf(ActionsIn(LayersIn(t)))];
      nextTurn := nextTurn + 1;
      turns := turns + [t];
    }

    /** The last pass over the complete inventory. */
    method Finish() returns (ok: bool)
      requires Valid()
      ensures ok <==> AcceptedStream(header, turns)
    {
      hide Admitted, HeaderOk, ContextFields, DefinitionFields, PriorsKept, ConvertedOrigins, RootOrigins, ConvertedTo;
      if nextTurn != |header.turns| {
        return false;
      }
      RootOriginsDecide(turns);
      hide LineageOk;
      for i := 0 to |acceptedRootOrigins|
        invariant forall k | 0 <= k < i :: RootLineageOk(turns, acceptedRootOrigins[k].0, acceptedRootOrigins[k].1)
      {
        var (root, origin) := acceptedRootOrigins[i];
        assert TargetsOf(convertedTargets, root) == ConvertedTo(turns, root);
        if root in convertedTargets {
          var actions := convertedTargets[root];
          EmptyOrNot(actions);
          if |actions| > 1 || origin.None? || origin.value !in actions {
            assert acceptedRootOrigins[i] in RootOrigins(turns);
            return false;
          }
        }
      }
      ok := true;
    }
  }

  lemma EmptyOrNot<T>(s: set<T>)
    ensures s != {} <==> |s| >= 1
  {
  }

  method NamesConvertedOrigin(t: Turn, priors: map<Id, map<Id, Option<Id>>>, ghost ts: seq<Turn>) returns (names: bool)
    requires PriorsKept(priors, ts)
    ensures names <==> NamesConverted(ts, t)
    ensures names ==> t.origin.FromAction?
  {
    if !t.origin.FromAction? {
      return false;
    }
    var prior := Lookup(priors, t.origin.sourceTurn, t.origin.sourceAction);
    assert prior == Prior(ts, t.origin.sourceTurn, t.origin.sourceAction);
    names := prior.Some? && prior.value.Some?;
  }

  lemma TurnFacts(h: Header, ts: seq<Turn>, t: Turn)
    requires TurnOk(h, ts, t)
    ensures ContextsDistinct(t)
    ensures t.view.Some? ==> Distinct(LayerIds(t.view.value.layers))
  {
  }

  lemma AdmittedMore(h: Header, ts: seq<Turn>, t: Turn)
    requires Admitted(h, ts) && Admits(h, ts, t)
    ensures Admitted(h, ts + [t])
  {
    hide Admits;
    var more := ts + [t];
    forall i | 0 <= i < |more|
      ensures Admits(h, more[..i], more[i])
    {
      assert more[..i] == ts[..i];
      if i == |ts| {
        assert ts[..i] == ts;
      }
    }
  }

  lemma {:induction false} RootOriginsMembers(ts: seq<Turn>)
    ensures forall e :: e in RootOrigins(ts) <==> exists t :: t in ts && t.view.Some? && e == (t.view.value.rootLayer, OriginAction(t))
  {
    if ts != [] {
      var n := |ts| - 1;
      RootOriginsMembers(ts[..n]);
      assert forall t :: t in ts <==> t in ts[..n] || t == ts[n];
    }
  }

  lemma RootOriginsDecide(ts: seq<Turn>)
    ensures LineageOk(ts) <==> forall e | e in RootOrigins(ts) :: RootLineageOk(ts, e.0, e.1)
  {
    hide RootOrigins, RootLineageOk;
    RootOriginsMembers(ts);
    forall t | t in ts && t.view.Some?
      ensures (t.view.value.rootLayer, OriginAction(t)) in RootOrigins(ts)
    {
    }
    if forall e | e in RootOrigins(ts) :: RootLineageOk(ts, e.0, e.1) {
      forall t | t in ts && t.view.Some?
        ensures RootLineageOk(ts, t.view.value.rootLayer, OriginAction(t))
      {
        var e := (t.view.value.rootLayer, OriginAction(t));
        assert e in RootOrigins(ts);
      }
    }
  }

  // ------------------------------------------------------------ the header

  method DeclaresTurn(h: Header, id: Id) returns (found: bool)
    ensures found <==> exists t | t in h.turns :: t.id == id
  {
    for i := 0 to |h.turns|
      invariant forall k | 0 <= k < i :: h.turns[k].id != id
    {
      if h.turns[i].id == id {
        assert h.turns[i] in h.turns;
        return true;
      }
    }
    return false;
  }

  /** The `n`-th call shares no id, child or result with an earlier one, its result is declared, and it returns a layer iff it succeeded. */
  ghost predicate CallFits(h: Header, n: nat)
    requires n < |h.invocations|
  {
    var c := h.invocations[n];
    && (forall k | 0 <= k < n :: h.invocations[k].id != c.id)
    && (forall k | 0 <= k < n :: h.invocations[k].child != c.child)
    && (c.resultTurn.Some? ==> forall k | 0 <= k < n :: h.invocations[k].resultTurn != c.resultTurn)
    && (c.resultTurn.Some? ==> exists t | t in h.turns :: t.id == c.resultTurn.value)
    && (c.succeeded <==> c.returned.Some?)
  }

  lemma CallsDecide(h: Header)
    ensures InvocationsOk(h) <==>
      && (h.invocations != [] ==> h.version == V4) && |h.invocations| <= MAX_TURNS
      && (forall n | 0 <= n < |h.invocations| :: CallFits(h, n))
  {
    var calls := h.invocations;
    if InvocationsOk(h) {
      forall n | 0 <= n < |calls|
        ensures CallFits(h, n)
      {
        assert calls[n] in calls;
      }
    }
    if forall n | 0 <= n < |calls| :: CallFits(h, n) {
      forall c | c in calls
        ensures (c.resultTurn.Some? ==> exists t | t in h.turns :: t.id == c.resultTurn.value) && (c.succeeded <==> c.returned.Some?)
      {
        var n :| 0 <= n < |calls| && calls[n] == c;
        assert CallFits(h, n);
      }
      forall i, j | 0 <= i < j < |calls|
        ensures calls[i].id != calls[j].id && calls[i].child != calls[j].child
        ensures calls[i].resultTurn.Some? ==> calls[i].resultTurn != calls[j].resultTurn
      {
        assert CallFits(h, j);
      }
    }
  }

  ghost function CallIds(calls: seq<Invocation>): set<Id> { set c | c in calls :: c.id }
  ghost function CallChildren(calls: seq<Invocation>): set<Id> { set c | c in calls :: c.child }
  ghost function CallResults(calls: seq<Invocation>): set<Id> { set c | c in calls && c.resultTurn.Some? :: c.resultTurn.value }

  /** What the three sets hold after the first `n` calls. */
  ghost predicate Gathered(h: Header, n: nat, ids: set<Id>, children: set<Id>, results: set<Id>)
    requires n <= |h.invocations|
  {
    var calls := h.invocations[..n];
    ids == CallIds(calls) && children == CallChildren(calls) && results == CallResults(calls)
  }

  method CheckCall(h: Header, n: nat, ids: set<Id>, children: set<Id>, results: set<Id>) returns (ok: bool)
    requires n < |h.invocations| && Gathered(h, n, ids, children, results)
    ensures ok <==> CallFits(h, n)
  {
    var call := h.invocations[n];
    assert forall k | 0 <= k < n :: h.invocations[..n][k] == h.invocations[k] && h.invocations[k] in h.invocations[..n];
    if call.id in ids || call.child in children {
      return false;
    }
    if call.resultTurn.Some? {
      var declared := DeclaresTurn(h, call.resultTurn.value);
      if call.resultTurn.value in results || !declared {
        return false;
      }
    }
    ok := call.succeeded == call.returned.Some?;
  }

  lemma GatherOne(h: Header, n: nat, ids: set<Id>, children: set<Id>, results: set<Id>)
    requires n < |h.invocations| && Gathered(h, n, ids, children, results)
    ensures var c := h.invocations[n];
      Gathered(h, n + 1, ids + {c.id}, children + {c.child}, if c.resultTurn.Some? then results + {c.resultTurn.value} else results)
  {
    assert h.invocations[..n + 1] == h.invocations[..n] + [h.invocations[n]];
  }

  method ValidateInvocations(h: Header) returns (ok: bool)
    ensures ok <==> InvocationsOk(h)
  {
    hide InvocationsOk, Gathered, CallFits;
    CallsDecide(h);
    var calls := h.invocations;
    if (calls != [] && h.version != V4) || |calls| > MAX_TURNS {
      return false;
    }
    var ids: set<Id>, children: set<Id>, results: set<Id> := {}, {}, {};
    assert Gathered(h, 0, ids, children, results) by { NothingGathered(h); }
    for i := 0 to |calls|
      invariant Gathered(h, i, ids, children, results) && forall n | 0 <= n < i :: CallFits(h, n)
    {
      var call := calls[i];
      ok := CheckCall(h, i, ids, children, results);
      if !ok {
        return;
      }
      GatherOne(h, i, ids, children, results);
      ids, children := ids + {call.id}, children + {call.child};
      results := if call.resultTurn.Some? then results + {call.resultTurn.value} else results;
    }
    ok := true;
  }

  lemma NothingGathered(h: Header)
    ensures Gathered(h, 0, {}, {}, {})
  {
  }

  method ValidateBoundInputs(h: Header) returns (ok: bool)
    ensures ok <==> (forall a | a in h.boundInputs :: ActionOk(a) && a.kind == Input && !a.converted) && Distinct(ActionIds(h.boundInputs))
  {
    hide ActionOk;
    for i := 0 to |h.boundInputs|
      invariant forall k | 0 <= k < i :: ActionOk(h.boundInputs[k]) && h.boundInputs[k].kind == Input && !h.boundInputs[k].converted
    {
      var a := h.boundInputs[i];
      ok := ValidateAction(a);
      if !ok || a.kind != Input || a.converted {
        assert a in h.boundInputs;
        return false;
      }
    }
    ok := AllDistinct(ActionIds(h.boundInputs));
  }

  method ValidateManifest(h: Header) returns (ok: bool)
    ensures ok <==>
      && 1 <= |h.turns| <= MAX_TURNS
      && (forall i | 0 <= i < |h.turns| :: h.turns[i].sequence == i + 1)
      && (forall i, j | 0 <= i < j < |h.turns| :: h.turns[i].id != h.turns[j].id)
  {
    if h.turns == [] || |h.turns| > MAX_TURNS {
      return false;
    }
    var ids: set<Id> := {};
    for i := 0 to |h.turns|
      invariant ids == set k | 0 <= k < i :: h.turns[k].id
      invariant forall k | 0 <= k < i :: h.turns[k].sequence == k + 1
      invariant forall k, j | 0 <= k < j < i :: h.turns[k].id != h.turns[j].id
    {
      if h.turns[i].id in ids || h.turns[i].sequence != i + 1 {
        return false;
      }
      ids := ids + {h.turns[i].id};
    }
    ok := true;
  }

  method ValidateHeader(h: Header) returns (ok: bool)
    ensures ok <==> HeaderOk(h)
  {
    hide InvocationsOk, ActionOk;
    if h.version != 1 && h.version != 2 && h.version != V3 && h.version != V4 {
      return false;
    }
    ok := ValidateInvocations(h);
    if !ok || (h.boundInputs != [] && h.version != V4) {
      return false;
    }
    ok := ValidateBoundInputs(h);
    if !ok {
      return;
    }
    ok := ValidateManifest(h);
  }

  /** Validates a stream by pushing its turns one at a time. */
  method ValidateStream(h: Header, ts: seq<Turn>) returns (ok: bool)
    ensures ok <==> AcceptedStream(h, ts)
  {
    hide Admits, ConversationExportValidator.LineageFields, ConversationExportValidator.ContextFields;
    hide ConversationExportValidator.DefinitionFields, LineageOk;
    hide HeaderOk;
    ok := ValidateHeader(h);
    if !ok {
      return;
    }
    var validator := new ConversationExportValidator(h);
    for i := 0 to |ts|
      invariant validator.Valid() && validator.header == h && validator.turns == ts[..i]
      invariant fresh(validator)
    {
      ok := validator.PushTurn(ts[i]);
      if !ok {
        assert !Admits(h, ts[..i], ts[i]);
        return;
      }
      assert ts[..i + 1] == ts[..i] + [ts[i]];
    }
    assert ts[..|ts|] == ts;
    ok := validator.Finish();
  }

  /** The whole file: its first record is the header, no other is, and the rest is an acceptable stream. */
  method ValidateExportRecords(records: seq<Record>) returns (ok: bool)
    ensures ok <==> AcceptedRecords(records)
  {
    hide AcceptedStream;
    if records == [] || records[0].TurnRecord? {
      return false;
    }
    var h, ts := records[0].header, [];
    for i := 1 to |records|
      invariant |ts| == i - 1 && forall k | 0 <= k < i - 1 :: records[k + 1] == TurnRecord(ts[k])
    {
      if records[i].HeaderRecord? {
        if AcceptedRecords(records) { OnlyFirstIsHeader(records, i); }
        return false;
      }
      ts := ts + [records[i].turn];
    }
    assert records == [HeaderRecord(h)] + TurnRecords(ts);
    ok := ValidateStream(h, ts);
    if !ok {
      HeaderAndTurnsAreUnique(h, ts);
    }
  }

  lemma OnlyFirstIsHeader(records: seq<Record>, i: nat)
    requires AcceptedRecords(records) && 0 < i < |records|
    ensures records[i].TurnRecord?
  {
    hide AcceptedStream;
    var h, ts :| records == [HeaderRecord(h)] + TurnRecords(ts) && AcceptedStream(h, ts);
    assert records[i] == TurnRecord(ts[i - 1]);
  }

  lemma HeaderAndTurnsAreUnique(h: Header, ts: seq<Turn>)
    ensures AcceptedRecords([HeaderRecord(h)] + TurnRecords(ts)) ==> AcceptedStream(h, ts)
  {
    hide AcceptedStream;
    var records := [HeaderRecord(h)] + TurnRecords(ts);
    forall h', ts' | records == [HeaderRecord(h')] + TurnRecords(ts')
      ensures h' == h && ts' == ts
    {
      assert records[0] == HeaderRecord(h');
      assert |ts'| == |ts|;
      forall i | 0 <= i < |ts|
        ensures ts'[i] == ts[i]
      {
        assert records[i + 1] == TurnRecord(ts'[i]);
      }
    }
  }
}
