/**
 Restart recovery of launched recursive children. A pass lists the interrupted executions of
 the product store, fails each graph current that is still active, and copies the graph's
 outcome into the product. Two stores cannot be written together, so the pass may stop at any
 await, by a crash or by a failing call, whether or not the write it was waiting for was
 applied; and a harness that outlived the server may still move a current. The graph's
 contract is its compare-and-swap on the head revision, the receipt it keeps per operation
 key, and that a terminal current never moves again.
 */
module Restart {
  import opened ExportModel

  type Id = nat

  datatype Output = Output(nodeId: Option<Id>, content: string)

  datatype Lifecycle = Active | Succeeded | Stopped | Failed

  /** `receipt` is the revision the restart failure was committed against, once it was. */
  datatype Current = Current(
    lifecycle: Lifecycle, head: nat, reason: Option<string>, output: Option<Output>, receipt: Option<nat>)

  datatype Phase = Reserved | Launching | Attached | Settled

  datatype Status = NotStarted | Running | Submitted | WaitingForApproval | Accepted | FailedRun | StoppedRun

  /** One completion execution with the interaction it belongs to. `recursive` is the listing's join condition. */
  datatype Row = Row(
    graphId: Id, recursive: bool, phase: Phase, settlement: Option<Output>, reason: Option<string>,
    status: Status, node: Option<Id>, output: Option<Output>, error: Option<string>)

  type Graph = map<Id, Current>
  type Product = map<Id, Row>

  datatype Settlement = AcceptedAs(output: Output) | FailedAs(reason: string)

  const RESTART: string := "application_restart"

  // ------------------------------------------------------------ one execution

  predicate Launched(row: Row) { row.phase.Launching? || row.phase.Attached? }

  predicate Interrupted(row: Row) { row.recursive && Launched(row) }

  predicate Open(status: Status) {
    status.NotStarted? || status.Running? || status.Submitted? || status.WaitingForApproval?
  }

  /** The restart failure, committed against the head the caller expected. */
  function FailedBy(c: Current): Current {
    c.(lifecycle := Failed, head := c.head + 1, reason := Some(RESTART), receipt := Some(c.head))
  }

  /** What the pass makes of a terminal current; None is one of its errors. */
  function Outcome(g: Id, c: Current): Option<Settlement> {
    match c.lifecycle
    case Active => None
    case Succeeded =>
      if c.output.Some? && c.output.value.nodeId == Some(g) then Some(AcceptedAs(c.output.value)) else None
    case _ => if c.reason.Some? then Some(FailedAs(c.reason.value)) else None
  }

  /** The product transaction; None is a conflict, which leaves the row alone. */
  function Settle(row: Row, st: Settlement): Option<Row> {
    if row.phase.Settled? then Some(row)
    else if !Launched(row) || (st.FailedAs? && st.reason == "") || row.settlement.Some? || row.reason.Some? then None
    else
      var fenced := match st
        case AcceptedAs(output) => row.(phase := Settled, settlement := Some(output))
        case FailedAs(reason) => row.(phase := Settled, reason := Some(reason));
      if Open(row.status) && row.node == Some(row.graphId) then
        Some(match st
          case AcceptedAs(output) => fenced.(status := Accepted, output := Some(output), error := None)
          case FailedAs(reason) => fenced.(status := FailedRun, output := None, error := Some(reason)))
      // A cancelled approval may have stopped the interaction first; a failure keeps that stop.
      else if row.status.StoppedRun? && row.output.None? && st.FailedAs? then Some(fenced)
      else None
  }

  /** The agreement the two stores are to reach. */
  predicate Agrees(row: Row, c: Current) {
    && row.phase.Settled?
    && !c.lifecycle.Active?
    && (c.lifecycle.Succeeded? ==>
          && row.settlement.Some? && row.settlement == c.output && row.status.Accepted? && row.output == c.output
          && row.output.value.nodeId == Some(row.graphId) && row.reason == None && row.error == None)
    && (!c.lifecycle.Succeeded? ==>
          && c.reason.Some? && c.reason.value != "" && row.reason == c.reason && row.settlement == None && row.output == None
          && (row.status.StoppedRun? || (row.status.FailedRun? && row.error == c.reason)))
  }

  lemma SettledAgrees(row: Row, c: Current)
    requires Launched(row) && Outcome(row.graphId, c).Some? && Settle(row, Outcome(row.graphId, c).value).Some?
    ensures Agrees(Settle(row, Outcome(row.graphId, c).value).value, c)
  {
  }

  // ------------------------------------------------------------ the protocol

  /** What the pass is waiting for. */
  datatype Await =
    | Looking
    | Fetching
    | Rereading
    | Recovering(expected: nat, active: bool)
    | Failing(expected: nat)
    | Settling(settlement: Settlement)

  /** The execution at the head of `todo` is the one in hand. */
  datatype Work = Idle | Done | Busy(todo: seq<Id>, at: Await)

  datatype State = State(graph: Graph, product: Product, work: Work)

  datatype Step =
    | Start(listing: seq<Id>)
    | Advance
    | Crash(applied: bool)
    | LateFailure(interaction: Id)
    | HarnessMoves(g: Id, next: Current)

  /** What the query returns: every interrupted execution once. */
  ghost predicate Lists(listing: seq<Id>, product: Product) {
    && (forall i :: i in listing <==> i in product && Interrupted(product[i]))
    && (forall i, j | 0 <= i < j < |listing| :: listing[i] != listing[j])
  }

  ghost predicate Enabled(s: State, step: Step) {
    match step
    case Start(listing) => (s.work.Idle? || s.work.Done?) && Lists(listing, s.product)
    case Advance => s.work.Busy?
    case Crash(_) => true
    // A failure an earlier process had requested before it died.
    case LateFailure(i) =>
      i in s.product && Interrupted(s.product[i]) && s.product[i].graphId in s.graph
      && s.graph[s.product[i].graphId].lifecycle.Active?
    case HarnessMoves(g, next) =>
      g in s.graph && s.graph[g].lifecycle.Active? && next.head == s.graph[g].head + 1 && next.receipt == None
  }

  /** Whether the graph takes the failure committed against `expected`; an existing receipt counts. */
  predicate Takes(c: Current, expected: nat) {
    if c.receipt.Some? then c.receipt == Some(expected) else c.lifecycle.Active? && c.head == expected
  }

  function Commit(graph: Graph, g: Id, expected: nat): Graph {
    if g in graph && Takes(graph[g], expected) && graph[g].receipt.None? then graph[g := FailedBy(graph[g])] else graph
  }

  function Record(product: Product, i: Id, st: Settlement): Product {
    if i in product && Settle(product[i], st).Some? then product[i := Settle(product[i], st).value] else product
  }

  /** One await of the pass. An error returns to Idle, where a later pass may start. */
  function Advanced(s: State): State {
    if !s.work.Busy? then s
    else if s.work.todo == [] then s.(work := Done)
    else
      var todo, i := s.work.todo, s.work.todo[0];
      if i !in s.product || s.product[i].graphId !in s.graph then s.(work := Idle)
      else
        var g := s.product[i].graphId;
        var c := s.graph[g];
        match s.work.at
        case Looking =>
          s.(work :=
            match c.lifecycle
            case Succeeded => Busy(todo, Fetching)
            case Active => Busy(todo, Rereading)
            case _ => if c.reason.Some? then Busy(todo, Settling(FailedAs(c.reason.value))) else Idle)
        case Fetching =>
          s.(work :=
            if c.output.Some? && c.output.value.nodeId == Some(g) then Busy(todo, Settling(AcceptedAs(c.output.value))) else Idle)
        case Rereading =>
          s.(work :=
            if c.lifecycle.Active? then Busy(todo, Recovering(c.head, true))
            else if c.head > 0 then Busy(todo, Recovering(c.head - 1, false))
            else Idle)
        case Recovering(expected, active) =>
          s.(work :=
            if c.receipt == Some(expected) then Busy(todo, Settling(FailedAs(RESTART)))
            else if c.receipt.None? && active then Busy(todo, Failing(expected))
            else Idle)
        case Failing(expected) =>
          s.(graph := Commit(s.graph, g, expected),
             work := if Takes(c, expected) then Busy(todo, Settling(FailedAs(RESTART))) else Idle)
        case Settling(st) =>
          s.(product := Record(s.product, i, st),
             work := if Settle(s.product[i], st).Some? then Busy(todo[1..], Looking) else Idle)
  }

  ghost function After(s: State, step: Step): State {
    match step
    case Start(listing) => s.(work := Busy(listing, Looking))
    case Advance => Advanced(s)
    case Crash(applied) => (if applied then Advanced(s) else s).(work := Idle)
    case LateFailure(i) =>
      if Enabled(s, step) then s.(graph := s.graph[s.product[i].graphId := FailedBy(s.graph[s.product[i].graphId])]) else s
    case HarnessMoves(g, next) => s.(graph := s.graph[g := next])
  }

  ghost predicate Runs(s: State, steps: seq<Step>) {
    steps == [] || (Runs(s, steps[..|steps| - 1]) && Enabled(End(s, steps[..|steps| - 1]), steps[|steps| - 1]))
  }

  ghost function End(s: State, steps: seq<Step>): State {
    if steps == [] then s else After(End(s, steps[..|steps| - 1]), steps[|steps| - 1])
  }

  // ------------------------------------------------------------ agreement, whatever interferes

  /** Receipts are the graph's own: one exists exactly for a committed restart failure. */
  ghost predicate ReceiptsOk(graph: Graph) {
    forall g | g in graph && graph[g].receipt.Some? ::
      graph[g].lifecycle.Failed? && graph[g].reason == Some(RESTART)
  }

  /** The work still ahead covers every interrupted execution, and the outcome in hand is the graph's. */
  ghost predicate WorkOk(s: State) {
    match s.work
    case Idle => true
    case Done => forall i | i in s.product :: !Interrupted(s.product[i])
    case Busy(todo, at) =>
      && Lists(todo, s.product)
      && (at.Settling? && todo != [] ==> InHand(s, todo[0], at.settlement))
      && (at.Fetching? && todo != [] ==> Finished(s, todo[0]))
  }

  ghost predicate InHand(s: State, i: Id, st: Settlement) {
    i in s.product && s.product[i].graphId in s.graph
    && Outcome(s.product[i].graphId, s.graph[s.product[i].graphId]) == Some(st)
  }

  ghost predicate Finished(s: State, i: Id) {
    i in s.product && s.product[i].graphId in s.graph && s.graph[s.product[i].graphId].lifecycle.Succeeded?
  }

  /** Rows only move from interrupted to settled, and a row that did agrees with its graph current. */
  ghost predicate RowsOk(first: Product, s: State) {
    && first.Keys == s.product.Keys
    && forall i | i in first :: RowOk(first[i], s.product[i], s.graph)
  }

  ghost predicate RowOk(was: Row, row: Row, graph: Graph) {
    && row.graphId == was.graphId
    && (row == was || (Interrupted(was) && row.graphId in graph && Agrees(row, graph[row.graphId])))
  }

  ghost predicate Inv(first: Product, s: State) {
    ReceiptsOk(s.graph) && WorkOk(s) && RowsOk(first, s)
  }

  /** Terminal currents are final. */
  ghost predicate Later(before: Graph, after: Graph) {
    forall g | g in before :: g in after && (before[g].lifecycle.Active? || after[g] == before[g])
  }

  lemma GraphStep(s: State, step: Step)
    requires Enabled(s, step) && ReceiptsOk(s.graph)
    ensures Later(s.graph, After(s, step).graph) && ReceiptsOk(After(s, step).graph)
  {
  }

  lemma RowsStayOk(first: Product, s: State, t: State)
    requires RowsOk(first, s) && Later(s.graph, t.graph) && s.product == t.product
    ensures RowsOk(first, t)
  {
    forall i | i in first ensures RowOk(first[i], t.product[i], t.graph) {
      assert RowOk(first[i], s.product[i], s.graph);
    }
  }

  /** The product moves only by the settlement in hand, which is the graph's own outcome. */
  lemma RecordKeepsRows(first: Product, s: State)
    requires RowsOk(first, s) && WorkOk(s) && s.work.Busy? && s.work.at.Settling? && s.work.todo != []
    ensures RowsOk(first, s.(product := Record(s.product, s.work.todo[0], s.work.at.settlement)))
  {
    hide Settle, Outcome, Agrees;
    var i := s.work.todo[0];
    var product := Record(s.product, i, s.work.at.settlement);
    assert RowOk(first[i], s.product[i], s.graph);
    SettleKeepsRow(first[i], s.product[i], s.graph, s.work.at.settlement);
    forall j | j in first ensures RowOk(first[j], product[j], s.graph) {
      assert RowOk(first[j], s.product[j], s.graph);
    }
  }

  lemma SettleKeepsRow(was: Row, row: Row, graph: Graph, st: Settlement)
    requires RowOk(was, row, graph) && Interrupted(row) && row.graphId in graph
    requires Outcome(row.graphId, graph[row.graphId]) == Some(st)
    ensures Settle(row, st).Some? ==> RowOk(was, Settle(row, st).value, graph) && Settle(row, st).value.phase.Settled?
  {
    if Settle(row, st).Some? {
      SettledAgrees(row, graph[row.graphId]);
    }
  }

  lemma RecordShortensList(product: Product, todo: seq<Id>, st: Settlement)
    requires Lists(todo, product) && todo != [] && todo[0] in product && Settle(product[todo[0]], st).Some?
    ensures Lists(todo[1..], Record(product, todo[0], st))
  {
    assert todo == [todo[0]] + todo[1..];
    assert forall i | i in todo :: i in product && Interrupted(product[i]);
    assert Settle(product[todo[0]], st).value.phase.Settled?;
  }

  /** One await of the pass keeps the pass's own bookkeeping. */
  lemma AdvanceKeepsWork(s: State)
    requires ReceiptsOk(s.graph) && WorkOk(s)
    ensures WorkOk(Advanced(s))
  {
    hide Lists, Settle, Record;
    if s.work.Busy? && s.work.todo == [] {
      AllListed(s.product);
    } else if s.work.Busy? && s.work.at.Settling? && Settle(s.product[s.work.todo[0]], s.work.at.settlement).Some? {
      RecordShortensList(s.product, s.work.todo, s.work.at.settlement);
    }
  }

  lemma AllListed(product: Product)
    requires Lists([], product)
    ensures forall i | i in product :: !Interrupted(product[i])
  {
    assert forall i: Id :: i !in [];
  }

  lemma OthersKeepWork(s: State, step: Step)
    requires Enabled(s, step) && WorkOk(s) && !step.Advance? && !step.Crash?
    ensures WorkOk(After(s, step))
  {
  }

  lemma StepKeeps(first: Product, s: State, step: Step)
    requires Inv(first, s) && Enabled(s, step)
    ensures Inv(first, After(s, step))
  {
    GraphStep(s, step);
    if step.Advance? || step.Crash? { AdvanceKeepsWork(s); } else { OthersKeepWork(s, step); }
    RowsAfterStep(first, s, step);
  }

  lemma RowsAfterStep(first: Product, s: State, step: Step)
    requires Inv(first, s) && Enabled(s, step)
    ensures RowsOk(first, After(s, step))
  {
    hide RowsOk, Settle, Outcome, Record, Takes;
    GraphStep(s, step);
    var t := After(s, step);
    if t.product == s.product {
      RowsStayOk(first, s, t);
    } else {
      RecordKeepsRows(first, s);
      var r := s.(product := Record(s.product, s.work.todo[0], s.work.at.settlement));
      assert t.product == r.product && t.graph == r.graph;
      RowsStayOk(first, r, t);
    }
  }

  lemma {:induction false} RunKeeps(first: State, steps: seq<Step>)
    requires ReceiptsOk(first.graph) && first.work.Idle? && Runs(first, steps)
    ensures Inv(first.product, End(first, steps))
  {
    if steps != [] {
      RunKeeps(first, steps[..|steps| - 1]);
      StepKeeps(first.product, End(first, steps[..|steps| - 1]), steps[|steps| - 1]);
    }
  }

  /**
   Whatever crashes, failing calls, late failures and surviving harnesses do, a pass that
   completes leaves no interrupted execution; each one there was is settled in agreement with
   its graph current, which is not active; and every other row is untouched.
   */
  lemma CompletedPassAgrees(first: State, steps: seq<Step>, i: Id)
    requires ReceiptsOk(first.graph) && first.work.Idle? && Runs(first, steps)
    requires End(first, steps).work.Done? && i in first.product
    ensures i in End(first, steps).product
    ensures var row := End(first, steps).product[i]; row.recursive ==> row.phase == Reserved || row.phase == Settled
    ensures var row := first.product[i];
      row.recursive && (row.phase == Launching || row.phase == Attached) ==> AgreesIn(End(first, steps), i)
    ensures var row := first.product[i];
      !(row.recursive && (row.phase == Launching || row.phase == Attached)) ==> End(first, steps).product[i] == row
  {
    hide Settle, Outcome, Agrees, End, Runs;
    RunKeeps(first, steps);
    var s := End(first, steps);
    assert RowOk(first.product[i], s.product[i], s.graph);
    assert !Interrupted(s.product[i]);
  }

  ghost predicate AgreesIn(s: State, i: Id)
    requires i in s.product
  {
    s.product[i].graphId in s.graph && Agrees(s.product[i], s.graph[s.product[i].graphId])
  }

  // ------------------------------------------------------------ convergence

  function Ended(c: Current): Current {
    if c.lifecycle.Active? then FailedBy(c) else c
  }

  ghost predicate Claimed(product: Product, g: Id) {
    exists i | i in product :: Interrupted(product[i]) && product[i].graphId == g
  }

  /** The stores every undisturbed recovery reaches, execution by execution. */
  ghost function FinalGraph(graph: Graph, product: Product): Graph {
    map g | g in graph :: if Claimed(product, g) then Ended(graph[g]) else graph[g]
  }

  function Verdict(row: Row, graph: Graph): Option<Row> {
    if row.graphId !in graph then None else
      match Outcome(row.graphId, Ended(graph[row.graphId]))
      case None => None
      case Some(st) => Settle(row, st)
  }

  function FinalRow(row: Row, graph: Graph): Row {
    if Interrupted(row) && Verdict(row, graph).Some? then Verdict(row, graph).value else row
  }

  function FinalProduct(graph: Graph, product: Product): Product {
    map i | i in product :: FinalRow(product[i], graph)
  }

  /** Every interrupted execution has a graph current whose outcome the product can take. */
  ghost predicate Recoverable(graph: Graph, product: Product) {
    forall i | i in product && Interrupted(product[i]) :: Verdict(product[i], graph).Some?
  }

  /** The product can still take an outcome: its row is unfenced, and its interaction is bound and open. */
  predicate Takeable(row: Row) {
    && row.settlement.None? && row.reason.None? && row.node == Some(row.graphId)
    && (row.status == NotStarted || row.status == Running || row.status == Submitted || row.status == WaitingForApproval)
  }

  /** Or the interaction was already stopped without an output, which a failure leaves as it is. */
  predicate TakeableFailure(row: Row) {
    Takeable(row) || (row.settlement.None? && row.reason.None? && row.status == StoppedRun && row.output.None?)
  }

  /** Exactly which interrupted executions are recoverable, field by field. */
  lemma RecoverableIff(row: Row, graph: Graph)
    requires row.phase == Launching || row.phase == Attached
    ensures Verdict(row, graph).Some? <==>
      && row.graphId in graph
      && var c := graph[row.graphId];
         match c.lifecycle
         case Active => TakeableFailure(row)
         case Succeeded => c.output.Some? && c.output.value.nodeId == Some(row.graphId) && Takeable(row)
         case _ => c.reason.Some? && c.reason.value != "" && TakeableFailure(row)
  {
  }

  /** The final graph: an active current of an interrupted execution has failed, one revision on, for the restart; every other is unchanged. */
  lemma FinalGraphIs(graph: Graph, product: Product, g: Id)
    requires g in graph
    ensures g in FinalGraph(graph, product)
    ensures var c, f := graph[g], FinalGraph(graph, product)[g];
      if c.lifecycle == Active && (exists i | i in product ::
           product[i].graphId == g && product[i].recursive && (product[i].phase == Launching || product[i].phase == Attached))
      then f.lifecycle == Failed && f.reason == Some("application_restart") && f.head == c.head + 1 && f.output == c.output
        && f.receipt == Some(c.head)
      else f == c
  {
  }

  /**
   A restart failure may be requested twice, by a pass that died and by the one after it:
   the second request against the same head is taken and changes nothing, against any other
   head it is refused.
   */
  lemma CommitIsIdempotent(graph: Graph, g: Id, expected: nat, other: nat)
    requires g in graph && graph[g].receipt.None? && Takes(graph[g], expected)
    ensures var once := Commit(graph, g, expected);
      && once[g].lifecycle == Failed && once[g].head == expected + 1 && (forall h | h in graph && h != g :: once[h] == graph[h])
      && (Takes(once[g], other) <==> other == expected) && Commit(once, g, other) == once
  {
  }

  lemma VerdictSettles(row: Row, graph: Graph)
    requires Verdict(row, graph).Some?
    ensures Verdict(row, graph).value.phase.Settled?
  {
  }

  lemma RecoverableDecides(graph: Graph, product: Product)
    ensures Recoverable(graph, product) <==>
      (forall i | i in FinalProduct(graph, product) :: !Interrupted(FinalProduct(graph, product)[i]))
  {
    hide Verdict;
    var final := FinalProduct(graph, product);
    forall i | i in product && Interrupted(product[i])
      ensures Verdict(product[i], graph).Some? <==> !Interrupted(final[i])
    {
      if Verdict(product[i], graph).Some? { VerdictSettles(product[i], graph); }
    }
  }

  lemma NothingInterruptedIsFinal(graph: Graph, product: Product)
    requires forall i | i in product :: !Interrupted(product[i])
    ensures FinalGraph(graph, product) == graph && FinalProduct(graph, product) == product
  {
  }

  /** Failing the active current of an interrupted execution is a step towards the final stores. */
  lemma FailKeepsFinal(graph: Graph, product: Product, i: Id)
    requires i in product && Interrupted(product[i]) && product[i].graphId in graph
    requires graph[product[i].graphId].lifecycle.Active?
    ensures var g := product[i].graphId; var after := graph[g := FailedBy(graph[g])];
      FinalGraph(after, product) == FinalGraph(graph, product) && FinalProduct(after, product) == FinalProduct(graph, product)
  {
    hide Settle, Outcome;
    var g := product[i].graphId;
    var after := graph[g := FailedBy(graph[g])];
    assert Claimed(product, g);
    forall j | j in product ensures FinalRow(product[j], after) == FinalRow(product[j], graph) {
      assert Verdict(product[j], after) == Verdict(product[j], graph);
    }
  }

  /** So is settling one with the outcome its graph current has. */
  lemma SettleKeepsFinal(graph: Graph, product: Product, i: Id, st: Settlement)
    requires i in product && Interrupted(product[i]) && product[i].graphId in graph
    requires Outcome(product[i].graphId, graph[product[i].graphId]) == Some(st) && Settle(product[i], st).Some?
    ensures Settle(product[i], st).value.phase.Settled?
    ensures var after := product[i := Settle(product[i], st).value];
      FinalGraph(graph, after) == FinalGraph(graph, product) && FinalProduct(graph, after) == FinalProduct(graph, product)
  {
    var row := product[i];
    assert Verdict(row, graph) == Settle(row, st);
    VerdictSettles(row, graph);
    hide Settle, Outcome, Verdict;
    var after := product[i := Settle(row, st).value];
    forall g | g in graph
      ensures FinalGraph(graph, after)[g] == FinalGraph(graph, product)[g]
    {
      if Claimed(product, g) && g != row.graphId {
        var j :| j in product && Interrupted(product[j]) && product[j].graphId == g;
        assert j in after && after[j] == product[j];
      }
      TerminalIsEnded(row.graphId, graph[row.graphId]);
    }
  }

  lemma TerminalIsEnded(g: Id, c: Current)
    requires Outcome(g, c).Some?
    ensures Ended(c) == c
  {
  }

  ghost predicate SameFinal(s: State, t: State) {
    FinalGraph(s.graph, s.product) == FinalGraph(t.graph, t.product) && FinalProduct(s.graph, s.product) == FinalProduct(t.graph, t.product)
  }

  lemma AdvanceKeepsFinal(s: State)
    requires ReceiptsOk(s.graph) && WorkOk(s)
    ensures SameFinal(s, Advanced(s))
  {
    hide FinalGraph, FinalProduct, Outcome, Settle;
    var t := Advanced(s);
    if t.graph != s.graph {
      assert s.work.todo[0] in s.work.todo;
      FailKeepsFinal(s.graph, s.product, s.work.todo[0]);
    } else if t.product != s.product {
      assert s.work.todo[0] in s.work.todo;
      SettleKeepsFinal(s.graph, s.product, s.work.todo[0], s.work.at.settlement);
    }
  }

  lemma StepKeepsFinal(s: State, step: Step)
    requires ReceiptsOk(s.graph) && WorkOk(s) && Enabled(s, step) && !step.HarnessMoves?
    ensures SameFinal(s, After(s, step))
  {
    hide FinalGraph, FinalProduct;
    AdvanceKeepsFinal(s);
    if step.LateFailure? {
      FailKeepsFinal(s.graph, s.product, step.interaction);
    }
  }

  lemma {:induction false} RunKeepsFinal(first: State, steps: seq<Step>)
    requires ReceiptsOk(first.graph) && first.work.Idle? && Runs(first, steps)
    requires forall step | step in steps :: !step.HarnessMoves?
    ensures SameFinal(first, End(first, steps))
  {
    if steps != [] {
      var before := steps[..|steps| - 1];
      RunKeepsFinal(first, before);
      RunKeeps(first, before);
      StepKeepsFinal(End(first, before), steps[|steps| - 1]);
    }
  }

  /**
   Convergence: however often the pass crashes, fails, or starts again, and whatever earlier
   failure requests still arrive, once a pass completes the stores are the ones a single
   uninterrupted pass would have left, and no pass completes unless every interrupted
   execution was recoverable to begin with.
   */
  lemma RestartConverges(first: State, steps: seq<Step>)
    requires ReceiptsOk(first.graph) && first.work.Idle? && Runs(first, steps)
    requires forall step | step in steps :: !step.HarnessMoves?
    requires End(first, steps).work.Done?
    ensures End(first, steps).graph == FinalGraph(first.graph, first.product)
    ensures End(first, steps).product == FinalProduct(first.graph, first.product)
    ensures Recoverable(first.graph, first.product)
  {
    hide FinalGraph, FinalProduct, End, Runs;
    RunKeeps(first, steps);
    RunKeepsFinal(first, steps);
    var s := End(first, steps);
    NothingInterruptedIsFinal(s.graph, s.product);
    RecoverableDecides(first.graph, first.product);
  }

  // ------------------------------------------------------------ progress

  /** The pass after `n` undisturbed awaits. */
  function Undisturbed(s: State, n: nat): State
    decreases n
  {
    if n == 0 then s else Undisturbed(Advanced(s), n - 1)
  }

  /** Where an undisturbed pass over recoverable executions can stand. */
  ghost predicate OnWay(s: State) {
    && ReceiptsOk(s.graph) && WorkOk(s) && Recoverable(s.graph, s.product) && s.work.Busy?
    && (s.work.todo == [] ==> s.work.at.Looking?)
    && (s.work.todo != [] && !s.work.at.Looking? ==> Ready(s, s.work.todo[0]))
  }

  ghost predicate Ready(s: State, i: Id)
    requires s.work.Busy?
  {
    && i in s.product && s.product[i].graphId in s.graph
    && var c := s.graph[s.product[i].graphId];
       match s.work.at
       case Rereading => c.lifecycle.Active?
       case Recovering(expected, active) => active && c.lifecycle.Active? && c.head == expected
       case Failing(expected) => c.lifecycle.Active? && c.head == expected
       case _ => true
  }

  function Left(s: State): nat {
    match s.work
    case Busy(todo, at) =>
      7 * |todo| + (match at
        case Looking => 6
        case Fetching => 2
        case Rereading => 5
        case Recovering(_, _) => 4
        case Failing(_) => 3
        case Settling(_) => 1)
    case _ => 0
  }

  /** Recoverability is a property of the final stores, so the pass keeps it. */
  lemma AdvanceKeepsRecoverable(s: State)
    requires ReceiptsOk(s.graph) && WorkOk(s)
    ensures Recoverable(Advanced(s).graph, Advanced(s).product) <==> Recoverable(s.graph, s.product)
  {
    hide FinalGraph, FinalProduct, Recoverable, Advanced;
    AdvanceKeepsFinal(s);
    RecoverableDecides(s.graph, s.product);
    RecoverableDecides(Advanced(s).graph, Advanced(s).product);
  }

  /** The execution in hand has a current, and a settlement in hand is one the product takes. */
  lemma HeadIsRecoverable(s: State)
    requires OnWay(s) && s.work.todo != []
    ensures var i := s.work.todo[0]; i in s.product && s.product[i].graphId in s.graph && Verdict(s.product[i], s.graph).Some?
    ensures s.work.at.Settling? ==> Settle(s.product[s.work.todo[0]], s.work.at.settlement).Some?
  {
    hide Settle, Outcome;
    assert s.work.todo[0] in s.work.todo;
    var row := s.product[s.work.todo[0]];
    assert Verdict(row, s.graph).Some?;
    if s.work.at.Settling? {
      TerminalIsEnded(row.graphId, s.graph[row.graphId]);
    }
  }

  lemma AdvanceProgress(s: State)
    requires OnWay(s)
    ensures Advanced(s).work.Done? || (OnWay(Advanced(s)) && Left(Advanced(s)) < Left(s))
  {
    hide Recoverable, Settle, Lists, Record;
    var t := Advanced(s);
    AdvanceKeepsWork(s);
    AdvanceKeepsRecoverable(s);
    assert ReceiptsOk(t.graph) by { GraphStep(s, Advance); }
    if s.work.todo != [] {
      HeadIsRecoverable(s);
    }
  }

  lemma {:induction false} PassCompletes(s: State)
    requires OnWay(s)
    ensures exists n: nat :: Undisturbed(s, n).work.Done?
    decreases Left(s)
  {
    hide OnWay, Advanced, Left;
    AdvanceProgress(s);
    var t := Advanced(s);
    if t.work.Done? {
      assert Undisturbed(t, 0) == t;
      assert Undisturbed(s, 1) == Undisturbed(t, 0);
    } else {
      PassCompletes(t);
      var n: nat :| Undisturbed(t, n).work.Done?;
      assert Undisturbed(s, n + 1) == Undisturbed(t, n);
    }
  }

  lemma {:induction false} UndisturbedKeeps(s: State, n: nat)
    requires ReceiptsOk(s.graph) && WorkOk(s)
    ensures SameFinal(s, Undisturbed(s, n)) && WorkOk(Undisturbed(s, n))
    decreases n
  {
    if n > 0 {
      hide WorkOk, Advanced, FinalGraph, FinalProduct;
      AdvanceKeepsFinal(s);
      AdvanceKeepsWork(s);
      AdvanceKeepsReceipts(s);
      UndisturbedKeeps(Advanced(s), n - 1);
    }
  }

  lemma AdvanceKeepsReceipts(s: State)
    requires ReceiptsOk(s.graph)
    ensures ReceiptsOk(Advanced(s).graph)
  {
    GraphStep(s, Crash(true));
  }

  /**
   Await by await, an undisturbed pass completes exactly when every interrupted execution is
   recoverable, and it then leaves the final stores: the ones `Stores.Reconcile` leaves.
   */
  lemma PassCompletesIffRecoverable(s: State, listing: seq<Id>)
    requires ReceiptsOk(s.graph) && Lists(listing, s.product)
    ensures var start := s.(work := Busy(listing, Looking));
      && ((exists n: nat :: Undisturbed(start, n).work.Done?) <==> Recoverable(s.graph, s.product))
      && forall n: nat | Undisturbed(start, n).work.Done? ::
           Undisturbed(start, n).graph == FinalGraph(s.graph, s.product) && Undisturbed(start, n).product == FinalProduct(s.graph, s.product)
  {
    var start := s.(work := Busy(listing, Looking));
    assert WorkOk(start);
    if Recoverable(s.graph, s.product) {
      PassCompletes(start);
    }
    hide Undisturbed, FinalGraph, FinalProduct, Recoverable, Lists;
    forall n: nat | Undisturbed(start, n).work.Done?
      ensures Recoverable(s.graph, s.product)
      ensures Undisturbed(start, n).graph == FinalGraph(s.graph, s.product) && Undisturbed(start, n).product == FinalProduct(s.graph, s.product)
    {
      var e := Undisturbed(start, n);
      UndisturbedKeeps(start, n);
      NothingInterruptedIsFinal(e.graph, e.product);
      RecoverableDecides(s.graph, s.product);
    }
  }

  // ------------------------------------------------------------ the pass itself

  /** The two stores as one startup sees them, with nothing else writing. */
  class Stores {
    var graph: Graph
    var product: Product

    constructor (graph: Graph, product: Product)
      ensures this.graph == graph && this.product == product
    {
      this.graph, this.product := graph, product;
    }

    /** The settlement for one execution, failing its current first where it is still active. */
    method Conclude(i: Id) returns (st: Option<Settlement>)
      requires ReceiptsOk(graph) && i in product && Interrupted(product[i])
      modifies this`graph
      ensures ReceiptsOk(graph)
      ensures FinalGraph(graph, product) == FinalGraph(old(graph), product)
      ensures FinalProduct(graph, product) == FinalProduct(old(graph), product)
      ensures var g := product[i].graphId; st == if g in graph then Outcome(g, graph[g]) else None
      ensures product[i].graphId in graph ==> !graph[product[i].graphId].lifecycle.Active?
    {
      var g := product[i].graphId;
      if g !in graph {
        return None;
      }
      var current := graph[g];
      match current.lifecycle
      case Succeeded =>
        st := if current.output.Some? && current.output.value.nodeId == Some(g) then Some(AcceptedAs(current.output.value)) else None;
      case Active =>
        FailKeepsFinal(graph, product, i);
        graph := Commit(graph, g, current.head);
        st := Some(FailedAs(RESTART));
      case _ =>
        st := if current.reason.Some? then Some(FailedAs(current.reason.value)) else None;
    }

    /**
     The pass completes exactly when every interrupted execution is recoverable. It then leaves
     the final stores and counts every execution; when it stops early, a later pass is still
     headed for the same final stores.
     */
    method Reconcile(listing: seq<Id>) returns (ok: bool, reconciled: nat)
      requires ReceiptsOk(graph) && Lists(listing, product)
      modifies this
      ensures ok <==> Recoverable(old(graph), old(product))
      ensures FinalGraph(graph, product) == FinalGraph(old(graph), old(product))
      ensures FinalProduct(graph, product) == FinalProduct(old(graph), old(product))
      ensures ok ==> graph == FinalGraph(old(graph), old(product)) && product == FinalProduct(old(graph), old(product))
      ensures ok ==> reconciled == |listing|
    {
      hide FinalGraph, FinalProduct, Recoverable, Outcome, Settle;
      reconciled := 0;
      RecoverableDecides(graph, product);
      for k := 0 to |listing|
        invariant ReceiptsOk(graph) && Lists(listing[k..], product) && reconciled == k
        invariant FinalGraph(graph, product) == FinalGraph(old(graph), old(product))
        invariant FinalProduct(graph, product) == FinalProduct(old(graph), old(product))
      {
        var i := listing[k];
        assert i in listing[k..];
        var st := Conclude(i);
        RecoverableDecides(graph, product);
        if Recoverable(graph, product) { RecoverableSettles(graph, product, i); }
        if st.None? || Settle(product[i], st.value).None? {
          return false, reconciled;
        }
        SettleKeepsFinal(graph, product, i, st.value);
        product := product[i := Settle(product[i], st.value).value];
        reconciled := reconciled + 1;
        assert listing[k..] == [i] + listing[k + 1..];
      }
      NothingInterruptedIsFinal(graph, product);
      RecoverableDecides(old(graph), old(product));
      ok := true;
    }
  }

  /** Once an execution's current has ended, its verdict is its current's outcome, settled. */
  lemma RecoverableSettles(graph: Graph, product: Product, i: Id)
    requires i in product && Interrupted(product[i])
    requires product[i].graphId in graph ==> !graph[product[i].graphId].lifecycle.Active?
    requires Recoverable(graph, product)
    ensures product[i].graphId in graph && Outcome(product[i].graphId, graph[product[i].graphId]).Some?
    ensures Settle(product[i], Outcome(product[i].graphId, graph[product[i].graphId]).value).Some?
  {
    assert Verdict(product[i], graph).Some?;
  }
}
