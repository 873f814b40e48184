/**
 A whole export stream: a header and the turns it declares. This module says, over turns
 alone, which turns may follow a prefix and when a complete stream is acceptable; it names
 none of the maps the incremental validator keeps.
 */
module ExportStream {
  import opened Text
  import opened ExportModel
  import opened GraphChecks
  import opened Definitions
  import opened AcceptedView

  type Id = string

  const MAX_TURNS := 10_000

  datatype Origin =
    | User
    | FromInvocation(invocation: Id)
    | FromAction(sourceTurn: Id, sourceAction: Id)

  datatype CompletionStatus = NotStarted | Running | Submitted | WaitingForApproval | Accepted | Failed | Stopped

  /** A node attached to a turn; `rest` holds its source interaction. */
  datatype Context = Context(
    id: Id, target: Id, base: string, layer: Id, owner: Option<Id>, annotations: seq<string>, rest: string)

  datatype Turn = Turn(
    id: Id, sequence: nat, text: string, origin: Origin, interactionNode: Option<Id>,
    status: CompletionStatus, view: Option<View<Id>>, contexts: seq<Context>, submittedInputs: seq<Id>)

  datatype Invocation = Invocation(
    id: Id, instruction: string, resultTurn: Option<Id>, succeeded: bool, child: Id, returned: Option<Id>)

  datatype Manifest = Manifest(id: Id, sequence: nat)

  datatype Header = Header(version: int, turns: seq<Manifest>, invocations: seq<Invocation>, boundInputs: seq<Action<Id>>)

  /** One record of the file. */
  datatype Record = HeaderRecord(header: Header) | TurnRecord(turn: Turn)

  // ------------------------------------------------------------ what a list of turns contains

  function LayerKey(l: Layer<Id>): Id { l.id }
  function EdgeKey(e: Edge<Id>): Id { e.id }
  function ActionKey(a: Action<Id>): Id { a.id }

  function LayersIn(t: Turn): seq<Layer<Id>> {
    if t.view.Some? then t.view.value.layers else []
  }

  ghost function AllLayers(ts: seq<Turn>): set<Layer<Id>> {
    set t, l | t in ts && l in LayersIn(t) :: l
  }

  ghost function AllEdges(ts: seq<Turn>): set<Edge<Id>> {
    set t, l, e | t in ts && l in LayersIn(t) && e in l.edges :: e
  }

  /** Every layer action; a turn's root action is not one. */
  ghost function AllActions(ts: seq<Turn>): set<Action<Id>> {
    set t, l, a | t in ts && l in LayersIn(t) && a in l.actions :: a
  }

  function NodeCopy(n: Node<Id>): Copy<Id> { Copy(n.id, PartsOf(n)) }

  /** A context target is a copy of a node that carries only the base. */
  function ContextCopy(c: Context): Copy<Id> { Copy(c.target, NodeParts(c.base, None, None, None)) }

  ghost function AllCopies(ts: seq<Turn>): set<Copy<Id>> {
    (set t, l, n | t in ts && l in LayersIn(t) && n in l.nodes :: NodeCopy(n))
    + (set t, c | t in ts && c in t.contexts :: ContextCopy(c))
  }

  ghost function AllContexts(ts: seq<Turn>): set<Context> {
    set t, c | t in ts && c in t.contexts :: c
  }

  ghost function ContextIds(ts: seq<Turn>): set<Id> {
    set t, c | t in ts && c in t.contexts :: c.id
  }

  ghost function LayerActionIds(ts: seq<Turn>): set<Id> {
    set t, l, a | t in ts && l in LayersIn(t) && a in l.actions :: a.id
  }

  ghost function RootIds(ts: seq<Turn>): set<Id> {
    set t | t in ts && t.view.Some? :: t.view.value.rootAction.id
  }

  ghost function InteractionIds(ts: seq<Turn>): set<Id> {
    set t | t in ts && t.view.Some? :: t.view.value.interactionNode
  }

  /** The ids of the converted invokes that open layer `target`. */
  ghost function ConvertedTo(ts: seq<Turn>, target: Id): set<Id> {
    set t, l, a | t in ts && l in LayersIn(t) && a in l.actions && a.converted && a.target == Some(target) :: a.id
  }

  lemma IdsSplit(ts: seq<Turn>, t: Turn)
    ensures RootIds(ts + [t]) == RootIds(ts) + RootIds([t])
    ensures InteractionIds(ts + [t]) == InteractionIds(ts) + InteractionIds([t])
    ensures LayerActionIds(ts + [t]) == LayerActionIds(ts) + LayerActionIds([t])
    ensures ContextIds(ts + [t]) == ContextIds(ts) + ContextIds([t])
    ensures AllContexts(ts + [t]) == AllContexts(ts) + Elements(t.contexts)
  {
    assert forall x :: x in ts + [t] <==> x in ts || x in [t];
  }

  // ------------------------------------------------------------ invoke provenance

  predicate Invokes(a: Action<Id>) {
    a.kind == Invoke || a.converted
  }

  /** What an earlier turn's action says about a result: absent, an open invoke, or a converted target. */
  function InvokesOf(actions: seq<Action<Id>>): map<Id, Option<Id>> {
    if actions == [] then map[] else
      var a, before := actions[|actions| - 1], InvokesOf(actions[..|actions| - 1]);
      if Invokes(a) then before[a.id := if a.converted then a.target else None] else before
  }

  function ActionsIn(layers: seq<Layer<Id>>): seq<Action<Id>> {
    if layers == [] then [] else ActionsIn(layers[..|layers| - 1]) + layers[|layers| - 1].actions
  }

  function Prior(ts: seq<Turn>, turn: Id, action: Id): Option<Option<Id>> {
    if ts == [] then None else
      var last := ts[|ts| - 1];
      if last.id != turn then Prior(ts[..|ts| - 1], turn, action) else
        var invokes := InvokesOf(ActionsIn(LayersIn(last)));
        if action in invokes then Some(invokes[action]) else None
  }

  /** The turn's origin names an earlier converted invoke. */
  predicate NamesConverted(ts: seq<Turn>, t: Turn) {
    && t.origin.FromAction?
    && var p := Prior(ts, t.origin.sourceTurn, t.origin.sourceAction);
       p.Some? && p.value.Some?
  }

  function ConvertedOrigins(ts: seq<Turn>): set<Id> {
    if ts == [] then {} else
      var front, last := ts[..|ts| - 1], ts[|ts| - 1];
      ConvertedOrigins(front) + if NamesConverted(front, last) then {last.origin.sourceAction} else {}
  }

  // ------------------------------------------------------------ one turn against its prefix

  ghost predicate Declared(h: Header, n: nat, t: Turn) {
    n < |h.turns| && t.id == h.turns[n].id && t.sequence == h.turns[n].sequence
  }

  ghost predicate ConversionAllowed(h: Header, t: Turn) {
    h.version >= V3 ||
    (t.view.Some? ==> !t.view.value.rootAction.converted && forall l, a | l in LayersIn(t) && a in l.actions :: !a.converted)
  }

  ghost predicate ContextsDistinct(t: Turn) {
    && (forall i, j | 0 <= i < j < |t.contexts| :: t.contexts[i].id != t.contexts[j].id)
    && (forall i, j | 0 <= i < j < |t.contexts| :: t.contexts[i].target != t.contexts[j].target)
  }

  /** An action-created turn names an earlier invoke, or a converted one that opens its exact root. */
  predicate OriginResolved(h: Header, ts: seq<Turn>, t: Turn) {
    match t.origin
    case User => true
    case FromInvocation(_) => h.version == V4
    case FromAction(turn, action) =>
      var p := Prior(ts, turn, action);
      p.Some? && (p.value.Some? ==> t.view.Some? && t.view.value.rootLayer == p.value.value)
  }

  ghost predicate Annotated(t: Turn) {
    exists c, a :: c in t.contexts && a in c.annotations && !Blank(a)
  }

  /** A turn says something, or its run ended before it could. */
  ghost predicate HasContent(t: Turn) {
    !Blank(t.text) || t.submittedInputs != [] || Annotated(t) || t.status.Failed? || t.status.Stopped?
  }

  ghost predicate TurnOk(h: Header, ts: seq<Turn>, t: Turn) {
    && ContextsDistinct(t)
    && (t.contexts != [] || t.submittedInputs != [] ==> t.interactionNode.Some?)
    && HasContent(t)
    && OriginResolved(h, ts, t)
    && (t.status.Accepted? <==> t.view.Some?)
    && (t.view.Some? ==>
          && (t.interactionNode.Some? ==> t.interactionNode.value == t.view.value.interactionNode)
          && ViewOk(t.view.value, h.version, h.boundInputs))
  }

  /** The child interaction a result turn stands for. */
  function ResultNode(t: Turn): Option<Id> {
    if t.interactionNode.Some? then t.interactionNode
    else if t.view.Some? then Some(t.view.value.interactionNode) else None
  }

  ghost predicate ResultMatches(call: Invocation, t: Turn) {
    && call.resultTurn == Some(t.id)
    && (t.text == call.instruction || t.text == Trim(call.instruction))
    && (call.succeeded ==> t.status.Accepted? && t.view.Some?)
    && ResultNode(t) == Some(call.child)
    && (t.view.Some? ==> call.returned == Some(t.view.value.rootLayer) && call.succeeded)
  }

  /** A turn is an invocation's result exactly when both sides say so. */
  ghost predicate InvocationAgrees(h: Header, t: Turn) {
    if t.origin.FromInvocation? then
      (exists c :: c in h.invocations && c.id == t.origin.invocation)
      && forall c | c in h.invocations && c.id == t.origin.invocation :: ResultMatches(c, t)
    else
      forall c | c in h.invocations :: c.resultTurn != Some(t.id)
  }

  /** A turn whose root an earlier view's converted invoke opens must name such an invoke as its origin. */
  ghost predicate ConversionKept(ts: seq<Turn>, t: Turn) {
    t.view.Some? && ConvertedTo(ts, t.view.value.rootLayer) != {} ==>
      && t.origin.FromAction?
      && t.origin.sourceAction in ConvertedTo(ts, t.view.value.rootLayer)
      && Prior(ts, t.origin.sourceTurn, t.origin.sourceAction) == Some(Some(t.view.value.rootLayer))
  }

  ghost predicate ConversionOnce(ts: seq<Turn>, t: Turn) {
    NamesConverted(ts, t) ==> t.origin.sourceAction !in ConvertedOrigins(ts)
  }

  predicate Holds(layers: seq<Layer<Id>>, layer: Id, node: Id) {
    exists l | l in layers :: l.id == layer && node in l.memberNodes
  }

  function Occurs(ts: seq<Turn>, turn: Id, layer: Id, node: Id): bool {
    if ts == [] then false else
      var last := ts[|ts| - 1];
      if last.id == turn && last.view.Some? then Holds(last.view.value.layers, layer, node)
      else Occurs(ts[..|ts| - 1], turn, layer, node)
  }

  /** Owned contexts point at an exact earlier occurrence. */
  ghost predicate OwnersOccur(h: Header, ts: seq<Turn>, t: Turn) {
    forall c | c in t.contexts && c.owner.Some? :: h.version >= V3 && Occurs(ts, c.owner.value, c.layer, c.target)
  }

  ghost predicate OneOwner(cs: set<Context>) {
    forall x, y | x in cs && y in cs && x.layer == y.layer && x.owner.Some? && y.owner.Some? :: x.owner == y.owner
  }

  ghost predicate ContextsFresh(ts: seq<Turn>, t: Turn) {
    forall c | c in t.contexts :: c.id !in ContextIds(ts) && c.id !in RootIds(ts) && c.id !in LayerActionIds(ts)
  }

  ghost predicate ViewFresh(ts: seq<Turn>, t: Turn) {
    t.view.Some? ==>
      var v := t.view.value;
      && v.rootAction.id !in ContextIds(ts + [t])
      && LayerActionIds([t]) !! ContextIds(ts + [t])
      && v.interactionNode !in InteractionIds(ts)
      && v.rootAction.id !in RootIds(ts)
      && v.rootAction.id !in LayerActionIds(ts)
      && LayerActionIds([t]) !! RootIds(ts + [t])
  }

  ghost predicate DefinitionsAgree(ts: seq<Turn>) {
    && OneEach(AllLayers(ts), LayerKey)
    && CopiesAgree(AllCopies(ts))
    && OneEach(AllEdges(ts), EdgeKey)
    && OneEach(AllActions(ts), ActionKey)
  }

  /** Turn `t` may follow the accepted turns `ts`. */
  ghost predicate Admits(h: Header, ts: seq<Turn>, t: Turn) {
    && Declared(h, |ts|, t)
    && ConversionAllowed(h, t)
    && TurnOk(h, ts, t)
    && InvocationAgrees(h, t)
    && ConversionKept(ts, t)
    && ConversionOnce(ts, t)
    && OwnersOccur(h, ts, t)
    && OneOwner(AllContexts(ts + [t]))
    && ContextsFresh(ts, t)
    && ViewFresh(ts, t)
    && DefinitionsAgree(ts + [t])
  }

  // ------------------------------------------------------------ the complete stream

  ghost predicate InvocationsOk(h: Header) {
    var calls := h.invocations;
    && (calls != [] ==> h.version == V4)
    && |calls| <= MAX_TURNS
    && (forall i, j | 0 <= i < j < |calls| :: calls[i].id != calls[j].id && calls[i].child != calls[j].child)
    && (forall i, j | 0 <= i < j < |calls| && calls[i].resultTurn.Some? :: calls[i].resultTurn != calls[j].resultTurn)
    && (forall c | c in calls && c.resultTurn.Some? :: exists t | t in h.turns :: t.id == c.resultTurn.value)
    && (forall c | c in calls :: c.succeeded <==> c.returned.Some?)
  }

  ghost predicate HeaderOk(h: Header) {
    && 1 <= h.version <= 4
    && InvocationsOk(h)
    && (h.boundInputs != [] ==> h.version == V4)
    && (forall a | a in h.boundInputs :: ActionOk(a) && a.kind == Input && !a.converted)
    && Distinct(ActionIds(h.boundInputs))
    && 1 <= |h.turns| <= MAX_TURNS
    && (forall i | 0 <= i < |h.turns| :: h.turns[i].sequence == i + 1)
    && (forall i, j | 0 <= i < j < |h.turns| :: h.turns[i].id != h.turns[j].id)
  }

  function OriginAction(t: Turn): Option<Id> {
    if t.origin.FromAction? then Some(t.origin.sourceAction) else None
  }

  /** A root that converted invokes open is opened by exactly one, and that one is the turn's origin. */
  ghost predicate RootLineageOk(ts: seq<Turn>, root: Id, origin: Option<Id>) {
    ConvertedTo(ts, root) != {} ==> |ConvertedTo(ts, root)| == 1 && origin.Some? && origin.value in ConvertedTo(ts, root)
  }

  /** The last pass, over the complete inventory. */
  ghost predicate LineageOk(ts: seq<Turn>) {
    forall t | t in ts && t.view.Some? :: RootLineageOk(ts, t.view.value.rootLayer, OriginAction(t))
  }

  ghost predicate Admitted(h: Header, ts: seq<Turn>) {
    forall i | 0 <= i < |ts| :: Admits(h, ts[..i], ts[i])
  }

  ghost predicate AcceptedStream(h: Header, ts: seq<Turn>) {
    && HeaderOk(h)
    && |ts| == |h.turns|
    && Admitted(h, ts)
    && LineageOk(ts)
  }

  function TurnRecords(ts: seq<Turn>): (rs: seq<Record>)
    ensures |rs| == |ts| && forall i | 0 <= i < |ts| :: rs[i] == TurnRecord(ts[i])
  {
    seq(|ts|, i requires 0 <= i < |ts| => TurnRecord(ts[i]))
  }

  /** A file is one header followed by the turns of an acceptable stream. */
  ghost predicate AcceptedRecords(rs: seq<Record>) {
    exists h, ts :: rs == [HeaderRecord(h)] + TurnRecords(ts) && AcceptedStream(h, ts)
  }
}
