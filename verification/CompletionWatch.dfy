/**
 The watch over the children a parent launched: overlapping changes() calls take turns, a
 turn asks every child that is neither ended nor already asked, waits until some request has
 answered, and returns all that have. Each request is the client's observation loop against
 the broker, whose reads see the child's current as it moves. Every await is one step, and
 nothing is assumed of the broker beyond the graph's contract: a move takes an active current
 to the next revision, and a terminal current does not move.
 */
module CompletionWatch {
  import opened ExportModel

  type Id = nat

  datatype Lifecycle = Active | Succeeded | Stopped | Failed

  datatype Current = Current(lifecycle: Lifecycle, revision: nat)

  /** What a request resolves to: a current, or the error it failed with. */
  datatype Answer = Now(current: Current) | Broken

  /** How far one observation has come, at the broker or at the client. */
  datatype Stage =
    | Asking
    | Held(current: Current)
    | Rereading
    | Replied(current: Current)
    | Confirming
    | Answered(answer: Answer)

  datatype Request = Request(after: Option<nat>, stage: Stage)

  /**
   One watched child: its durable current, and what the watch's `seen`, `ended` and `pending`
   hold for it. `answers` and `asked` record the history of its requests.
   */
  datatype Child = Child(
    current: Current, seen: Option<nat>, ended: bool, pending: Option<Request>, answers: seq<Answer>, asked: nat)

  datatype Change = Change(child: Id, answer: Answer)

  datatype Turn = NoTurn | Racing | Taking(order: seq<Id>, changes: seq<Change>)

  /** Calls finish in the order they were made; `settledThen` records `settled` as each turn began. */
  datatype Watch = Watch(
    children: map<Id, Child>, called: nat, turn: Turn, results: seq<seq<Change>>, settledThen: seq<bool>)

  datatype Move =
    | Fails
    | BrokerReads
    | HoldEnds(news: bool)
    | BrokerRereads
    | ClientReceives
    | ClientConfirms
    | Moves(next: Current)

  datatype Step =
    | Call
    | Begin
    | Poll(order: seq<Id>)
    | Take
    | Finish
    | OnChild(child: Id, move: Move)

  predicate Ends(a: Answer) { a.Broken? || !a.current.lifecycle.Active? }

  predicate HasAnswer(c: Child) { c.pending.Some? && c.pending.value.stage.Answered? }

  ghost predicate Settled(w: Watch) { forall id | id in w.children :: w.children[id].ended }

  // ------------------------------------------------------------ one child's requests

  predicate CanMove(c: Child, move: Move) {
    match move
    case Moves(next) => c.current.lifecycle.Active? && next.revision == c.current.revision + 1
    case Fails => c.pending.Some? && !c.pending.value.stage.Answered?
    case BrokerReads => c.pending.Some? && c.pending.value.stage.Asking?
    case HoldEnds(_) => c.pending.Some? && c.pending.value.stage.Held?
    case BrokerRereads => c.pending.Some? && c.pending.value.stage.Rereading?
    case ClientReceives => c.pending.Some? && c.pending.value.stage.Replied?
    case ClientConfirms => c.pending.Some? && c.pending.value.stage.Confirming?
  }

  function At(c: Child, stage: Stage): Child
    requires c.pending.Some?
  {
    var moved := c.(pending := Some(c.pending.value.(stage := stage)));
    if stage.Answered? then moved.(answers := c.answers + [stage.answer]) else moved
  }

  predicate IsNews(revision: nat, after: Option<nat>) { after.None? || revision > after.value }

  function Moved(c: Child, move: Move): Child
    requires CanMove(c, move)
  {
    match move
    case Moves(next) => c.(current := next)
    case Fails => At(c, Answered(Broken))
    // The broker holds a request only while the current is active and not past the caller's.
    case BrokerReads =>
      if c.current.lifecycle.Active? && !IsNews(c.current.revision, c.pending.value.after) then At(c, Held(c.current))
      else At(c, Replied(c.current))
    case HoldEnds(news) => At(c, if news then Rereading else Replied(c.pending.value.stage.current))
    case BrokerRereads => At(c, Replied(c.current))
    case ClientReceives =>
      var reply := c.pending.value.stage.current;
      (match reply.lifecycle
       case Succeeded => At(c, Confirming)
       case Active => At(c, if IsNews(reply.revision, c.pending.value.after) then Answered(Now(reply)) else Asking)
       case _ => At(c, Answered(Now(reply))))
    case ClientConfirms => At(c, Answered(Now(c.current)))
  }

  function Asked(c: Child): Child {
    if c.ended || c.pending.Some? then c else c.(pending := Some(Request(c.seen, Asking)), asked := c.asked + 1)
  }

  function Taken(c: Child): Child
    requires HasAnswer(c)
  {
    var answer := c.pending.value.stage.answer;
    c.(pending := None,
       seen := if answer.Now? then Some(answer.current.revision) else c.seen,
       ended := c.ended || Ends(answer))
  }

  // ------------------------------------------------------------ the watch

  ghost predicate ListsAnswered(order: seq<Id>, children: map<Id, Child>) {
    && (forall id :: id in order <==> id in children && HasAnswer(children[id]))
    && (forall i, j | 0 <= i < j < |order| :: order[i] != order[j])
  }

  ghost predicate Enabled(w: Watch, step: Step) {
    match step
    case Call => true
    case Begin => w.turn.NoTurn? && |w.results| < w.called
    case Poll(order) => w.turn.Racing? && order != [] && ListsAnswered(order, w.children)
    case Take => w.turn.Taking? && w.turn.order != [] && w.turn.order[0] in w.children && HasAnswer(w.children[w.turn.order[0]])
    case Finish => w.turn.Taking? && w.turn.order == []
    case OnChild(id, move) => id in w.children && CanMove(w.children[id], move)
  }

  ghost function After(w: Watch, step: Step): Watch
    requires Enabled(w, step)
  {
    match step
    case Call => w.(called := w.called + 1)
    case Begin =>
      var asked := map id | id in w.children :: Asked(w.children[id]);
      var begun := w.(children := asked, settledThen := w.settledThen + [Settled(w)]);
      if exists id | id in asked :: asked[id].pending.Some? then begun.(turn := Racing) else begun.(results := w.results + [[]])
    case Poll(order) => w.(turn := Taking(order, []))
    case Take =>
      var id := w.turn.order[0];
      var change := Change(id, w.children[id].pending.value.stage.answer);
      w.(children := w.children[id := Taken(w.children[id])], turn := Taking(w.turn.order[1..], w.turn.changes + [change]))
    case Finish => w.(turn := NoTurn, results := w.results + [w.turn.changes])
    case OnChild(id, move) => w.(children := w.children[id := Moved(w.children[id], move)])
  }

  ghost predicate Runs(w: Watch, steps: seq<Step>) {
    steps == [] || (Runs(w, steps[..|steps| - 1]) && Enabled(End(w, steps[..|steps| - 1]), steps[|steps| - 1]))
  }

  ghost function End(w: Watch, steps: seq<Step>): Watch {
    if steps == [] then w else
      var before := End(w, steps[..|steps| - 1]);
      if Enabled(before, steps[|steps| - 1]) then After(before, steps[|steps| - 1]) else before
  }

  /** A new watch over children whose currents are whatever they are. */
  ghost predicate Fresh(w: Watch) {
    && w.called == 0 && w.turn.NoTurn? && w.results == [] && w.settledThen == []
    && forall id | id in w.children :: w.children[id] == Child(w.children[id].current, None, false, None, [], 0)
  }

  // ------------------------------------------------------------ what was returned

  function Joined(results: seq<seq<Change>>): seq<Change> {
    if results == [] then [] else Joined(results[..|results| - 1]) + results[|results| - 1]
  }

  /** Every change the calls returned so far, and those the turn under way will return. */
  function Returned(w: Watch): seq<Change> {
    Joined(w.results) + (if w.turn.Taking? then w.turn.changes else [])
  }

  function OfChild(changes: seq<Change>, id: Id): seq<Answer> {
    if changes == [] then [] else
      var last := changes[|changes| - 1];
      OfChild(changes[..|changes| - 1], id) + (if last.child == id then [last.answer] else [])
  }

  lemma OfChildAppend(changes: seq<Change>, change: Change, id: Id)
    ensures OfChild(changes + [change], id) == OfChild(changes, id) + (if change.child == id then [change.answer] else [])
  {
    assert (changes + [change])[..|changes|] == changes;
  }

  // ------------------------------------------------------------ invariants

  /** `c` was the child's current once, and `now` is its current today. */
  predicate Past(c: Current, now: Current) { c == now || (c.lifecycle.Active? && c.revision < now.revision) }

  predicate PastAfter(after: Option<nat>, now: Current) { after.Some? ==> Past(Current(Active, after.value), now) }

  predicate RequestOk(r: Request, now: Current) {
    && PastAfter(r.after, now)
    && match r.stage
       case Asking => true
       case Held(c) => c.lifecycle.Active? && Past(c, now)
       case Rereading => true
       case Replied(c) => Past(c, now) && (c.lifecycle.Active? || IsNews(c.revision, r.after))
       case Confirming => now.lifecycle.Succeeded? && IsNews(now.revision, r.after)
       case Answered(a) => a.Now? ==> Past(a.current, now) && IsNews(a.current.revision, r.after)
  }

  /** Only the last answer may end the child, and revisions strictly increase. */
  ghost predicate Increasing(answers: seq<Answer>) {
    forall i, j | 0 <= i < j < |answers| ::
      !Ends(answers[i]) && (answers[j].Now? ==> answers[i].current.revision < answers[j].current.revision)
  }

  /** `returned` are the child's answers that calls have returned. */
  ghost predicate ChildOk(c: Child, returned: seq<Answer>) {
    && Increasing(c.answers)
    && c.answers == returned + (if HasAnswer(c) then [c.pending.value.stage.answer] else [])
    && c.asked == |c.answers| + (if c.pending.Some? && !HasAnswer(c) then 1 else 0)
    && (c.ended <==> returned != [] && Ends(returned[|returned| - 1]))
    && (!c.ended ==> c.seen == (if returned == [] then None else Some(returned[|returned| - 1].current.revision)))
    && (!c.ended ==> PastAfter(c.seen, c.current))
    && (c.pending.Some? ==> !c.ended && c.pending.value.after == c.seen && RequestOk(c.pending.value, c.current))
  }

  ghost predicate ChildrenOk(w: Watch) {
    && (forall id | id in w.children :: ChildOk(w.children[id], OfChild(Returned(w), id)))
    && (forall change | change in Returned(w) :: change.child in w.children)
  }

  ghost predicate TurnOk(w: Watch) {
    && |w.settledThen| == |w.results| + (if w.turn.NoTurn? then 0 else 1) <= w.called
    && (forall k | 0 <= k < |w.results| :: w.results[k] == [] <==> w.settledThen[k])
    && (!w.turn.NoTurn? ==> !w.settledThen[|w.results|])
    && (w.turn.Racing? ==> exists id | id in w.children :: w.children[id].pending.Some?)
    && (w.turn.Taking? ==> TakingOk(w.turn.order, w.turn.changes, w.children))
  }

  ghost predicate TakingOk(order: seq<Id>, changes: seq<Change>, children: map<Id, Child>) {
    && (order == [] ==> changes != [])
    && (forall id | id in order :: id in children && HasAnswer(children[id]))
    && (forall i, j | 0 <= i < j < |order| :: order[i] != order[j])
  }

  lemma MoveKeeps(c: Child, move: Move, returned: seq<Answer>)
    requires ChildOk(c, returned) && CanMove(c, move)
    ensures ChildOk(Moved(c, move), returned)
    ensures HasAnswer(c) ==> HasAnswer(Moved(c, move))
    ensures c.pending.Some? <==> Moved(c, move).pending.Some?
  {
    var d := Moved(c, move);
    if HasAnswer(d) && !HasAnswer(c) {
      NewAnswerIncreases(c, returned, d.pending.value.stage.answer);
    }
  }

  /** An answer past the revision asked about continues the child's answers. */
  lemma NewAnswerIncreases(c: Child, returned: seq<Answer>, a: Answer)
    requires ChildOk(c, returned) && c.pending.Some? && !HasAnswer(c)
    requires a.Now? ==> IsNews(a.current.revision, c.pending.value.after)
    ensures Increasing(c.answers + [a])
  {
    assert c.answers == returned;
  }

  lemma AskKeeps(c: Child, returned: seq<Answer>)
    requires ChildOk(c, returned)
    ensures ChildOk(Asked(c), returned)
    ensures HasAnswer(c) <==> HasAnswer(Asked(c))
    ensures c.ended <==> Asked(c).pending.None?
  {
  }

  lemma TakeKeeps(c: Child, returned: seq<Answer>)
    requires ChildOk(c, returned) && HasAnswer(c)
    ensures ChildOk(Taken(c), returned + [c.pending.value.stage.answer])
  {
    var all := returned + [c.pending.value.stage.answer];
    assert c.answers == all && all[|all| - 1] == c.pending.value.stage.answer;
  }

  lemma SameReturned(w: Watch, step: Step)
    requires Enabled(w, step) && !step.Take?
    ensures Returned(After(w, step)) == Returned(w)
  {
    if step.Finish? {
      assert (w.results + [w.turn.changes])[..|w.results|] == w.results;
    } else if step.Begin? {
      assert (w.results + [[]])[..|w.results|] == w.results;
    }
  }

  lemma OtherStepsKeepChildren(w: Watch, step: Step)
    requires ChildrenOk(w) && Enabled(w, step) && !step.Take?
    ensures ChildrenOk(After(w, step))
  {
    hide ChildOk, Returned, OfChild, Moved, CanMove, ListsAnswered, Settled;
    SameReturned(w, step);
    var v := After(w, step);
    forall id | id in v.children ensures ChildOk(v.children[id], OfChild(Returned(w), id)) {
      assert ChildOk(w.children[id], OfChild(Returned(w), id));
      if step.Begin? {
        AskKeeps(w.children[id], OfChild(Returned(w), id));
      } else if step.OnChild? && id == step.child {
        MoveKeeps(w.children[id], step.move, OfChild(Returned(w), id));
      }
    }
  }

  lemma TakeKeepsChildren(w: Watch)
    requires ChildrenOk(w) && Enabled(w, Take)
    ensures ChildrenOk(After(w, Take))
  {
    hide ChildOk, OfChild, Taken, Joined;
    var v := After(w, Take);
    var id := w.turn.order[0];
    var change := Change(id, w.children[id].pending.value.stage.answer);
    assert Returned(v) == Returned(w) + [change];
    forall other | other in v.children ensures ChildOk(v.children[other], OfChild(Returned(v), other)) {
      assert ChildOk(w.children[other], OfChild(Returned(w), other));
      OfChildAppend(Returned(w), change, other);
      if other == id {
        TakeKeeps(w.children[id], OfChild(Returned(w), id));
      } else {
        assert OfChild(Returned(w), other) + [] == OfChild(Returned(w), other);
      }
    }
  }

  lemma BeginKeepsTurn(w: Watch)
    requires ChildrenOk(w) && TurnOk(w) && Enabled(w, Begin)
    ensures TurnOk(After(w, Begin))
  {
    hide ChildOk, Returned, OfChild, Asked;
    forall id | id in w.children ensures w.children[id].ended <==> Asked(w.children[id]).pending.None? {
      assert ChildOk(w.children[id], OfChild(Returned(w), id));
      AskKeeps(w.children[id], OfChild(Returned(w), id));
    }
    var v := After(w, Begin);
    assert v.children.Keys == w.children.Keys;
    if id :| id in w.children && !w.children[id].ended {
      assert v.children[id].pending.Some?;
    } else {
      assert forall id | id in v.children :: v.children[id] == Asked(w.children[id]);
    }
    assert forall k | 0 <= k < |w.results| :: v.results[k] == w.results[k] && v.settledThen[k] == w.settledThen[k];
  }

  lemma OnChildKeepsTurn(w: Watch, id: Id, move: Move)
    requires ChildrenOk(w) && TurnOk(w) && Enabled(w, OnChild(id, move))
    ensures TurnOk(After(w, OnChild(id, move)))
  {
    hide ChildOk, Returned, OfChild, Moved, CanMove;
    assert ChildOk(w.children[id], OfChild(Returned(w), id));
    MoveKeeps(w.children[id], move, OfChild(Returned(w), id));
    var v := After(w, OnChild(id, move));
    if w.turn.Racing? {
      var other :| other in w.children && w.children[other].pending.Some?;
      assert other in v.children && v.children[other].pending.Some?;
    }
  }

  lemma TakeKeepsTurn(w: Watch)
    requires TurnOk(w) && Enabled(w, Take)
    ensures TurnOk(After(w, Take))
  {
    hide Taken;
    var order := w.turn.order;
    assert order == [order[0]] + order[1..];
    var v := After(w, Take);
    forall id | id in order[1..] ensures id in v.children && HasAnswer(v.children[id]) {
      assert id in order && id != order[0];
    }
  }

  lemma StepKeeps(w: Watch, step: Step)
    requires ChildrenOk(w) && TurnOk(w) && Enabled(w, step)
    ensures ChildrenOk(After(w, step)) && TurnOk(After(w, step))
  {
    if step.Take? {
      TakeKeepsChildren(w);
      TakeKeepsTurn(w);
    } else {
      OtherStepsKeepChildren(w, step);
      if step.Begin? { BeginKeepsTurn(w); } else if step.OnChild? { OnChildKeepsTurn(w, step.child, step.move); }
    }
  }

  lemma {:induction false} RunKeeps(w: Watch, steps: seq<Step>)
    requires Fresh(w) && Runs(w, steps)
    ensures ChildrenOk(End(w, steps)) && TurnOk(End(w, steps))
  {
    hide ChildrenOk, TurnOk, Enabled, After;
    if steps == [] {
      FreshIsOk(w);
    } else {
      RunKeeps(w, steps[..|steps| - 1]);
      StepKeeps(End(w, steps[..|steps| - 1]), steps[|steps| - 1]);
    }
  }

  lemma FreshIsOk(w: Watch)
    requires Fresh(w)
    ensures ChildrenOk(w) && TurnOk(w)
  {
  }

  // ------------------------------------------------------------ over every run

  /**
   What all calls together returned for a child is what its requests answered, in order and
   without loss or repetition; at most the newest answer is still waiting to be returned, and
   at most one request is open.
   */
  lemma EveryAnswerReturnedOnce(w: Watch, steps: seq<Step>, id: Id)
    requires Fresh(w) && Runs(w, steps) && id in End(w, steps).children
    ensures var v := End(w, steps); var c := v.children[id];
      c.answers == OfChild(Returned(v), id) + (if HasAnswer(c) then [c.pending.value.stage.answer] else [])
      && c.asked == |c.answers| + (if c.pending.Some? && !HasAnswer(c) then 1 else 0)
    ensures var c := End(w, steps).children[id]; c.ended ==> c.pending.None?
  {
    hide End, Runs, OfChild, Returned;
    RunKeeps(w, steps);
    var v := End(w, steps);
    assert ChildOk(v.children[id], OfChild(Returned(v), id));
  }

  /**
   A terminal or failed answer is the child's last: nothing is asked after it. And revisions
   strictly increase from each answer to every later one, terminal answers included.
   */
  lemma AnswersIncrease(w: Watch, steps: seq<Step>, id: Id, i: nat)
    requires Fresh(w) && Runs(w, steps) && id in End(w, steps).children
    requires i < |End(w, steps).children[id].answers|
    ensures var c := End(w, steps).children[id];
      c.answers[i].Broken? || c.answers[i].current.lifecycle != Active ==> i == |c.answers| - 1 && c.asked == |c.answers|
    ensures var c := End(w, steps).children[id]; forall j | i < j < |c.answers| && c.answers[j].Now? ::
      c.answers[i].Now? && c.answers[i].current.revision < c.answers[j].current.revision
  {
    hide End, Runs, OfChild, Returned;
    RunKeeps(w, steps);
    var v := End(w, steps);
    var c := v.children[id];
    assert ChildOk(c, OfChild(Returned(v), id));
    var last := c.answers[|c.answers| - 1];
    assert i < |c.answers| - 1 ==> !Ends(c.answers[i]);
  }

  /** A call returns nothing exactly when the watch was settled as its turn began. */
  lemma EmptyIffSettled(w: Watch, steps: seq<Step>, k: nat)
    requires Fresh(w) && Runs(w, steps) && k < |End(w, steps).results|
    ensures |End(w, steps).settledThen| > k
    ensures End(w, steps).results[k] == [] <==> End(w, steps).settledThen[k]
  {
    hide End, Runs, ChildrenOk;
    RunKeeps(w, steps);
  }

  /** The watch reports settled exactly when every child's last returned answer ended it. */
  lemma SettledMeansEnded(w: Watch, steps: seq<Step>)
    requires Fresh(w) && Runs(w, steps)
    ensures Settled(End(w, steps)) <==>
      (forall id | id in End(w, steps).children :: EndedBy(OfChild(Returned(End(w, steps)), id)))
  {
    hide End, Runs, OfChild, Returned;
    RunKeeps(w, steps);
    var v := End(w, steps);
    forall id | id in v.children ensures v.children[id].ended <==> EndedBy(OfChild(Returned(v), id)) {
      assert ChildOk(v.children[id], OfChild(Returned(v), id));
    }
  }

  /** The last answer is an error or a current that is no longer active. */
  predicate EndedBy(returned: seq<Answer>) {
    returned != [] && (returned[|returned| - 1].Broken? || returned[|returned| - 1].current.lifecycle != Active)
  }

  /** No failed or silent child holds a turn back: one answered request lets it go on, and it takes every answer. */
  lemma TurnNeverStuck(w: Watch, steps: seq<Step>, id: Id)
    requires Fresh(w) && Runs(w, steps) && id in End(w, steps).children
    requires !End(w, steps).turn.NoTurn? && HasAnswer(End(w, steps).children[id])
    ensures exists step: Step :: !step.OnChild? && !step.Call? && Enabled(End(w, steps), step)
  {
    hide End, Runs, ChildrenOk;
    RunKeeps(w, steps);
    var v := End(w, steps);
    match v.turn
    case Racing =>
      var order := AnsweredIn(v.children);
      assert id in order;
      assert Enabled(v, Poll(order));
    case Taking(order, _) =>
      if order == [] { assert Enabled(v, Finish); } else { assert order[0] in order; assert Enabled(v, Take); }
  }

  lemma {:induction false} AnsweredIn(children: map<Id, Child>) returns (order: seq<Id>)
    ensures ListsAnswered(order, children)
    decreases |children|
  {
    if id :| id in children {
      var rest := children - {id};
      assert children.Keys == rest.Keys + {id};
      order := AnsweredIn(rest);
      if HasAnswer(children[id]) { order := order + [id]; }
    } else {
      order := [];
    }
  }

  // ------------------------------------------------------------ where answers come from

  /** The currents a child's request is carrying or has answered with. */
  ghost predicate Mentions(c: Child, current: Current) {
    || Now(current) in c.answers
    || (c.pending.Some? && (c.pending.value.stage == Held(current) || c.pending.value.stage == Replied(current)
                            || c.pending.value.stage == Answered(Now(current))))
  }

  /** A move makes up no current: what it mentions was mentioned before or is the child's own. */
  lemma MoveMentions(c: Child, move: Move, current: Current)
    requires CanMove(c, move) && Mentions(Moved(c, move), current)
    ensures Mentions(c, current) || current == c.current
  {
  }

  /** Only a failed request answers with an error, and it answers with nothing else. */
  lemma OnlyFailureBreaks(c: Child, move: Move)
    requires CanMove(c, move) && !HasAnswer(c) && HasAnswer(Moved(c, move))
    ensures Moved(c, move).pending.value.stage.answer == Broken <==> move == Fails
  {
  }

  /** Before some step of the run, or after its last, this was the child's current. */
  ghost predicate WasCurrent(w: Watch, steps: seq<Step>, id: Id, current: Current) {
    exists k: nat :: k <= |steps| && CurrentAt(w, steps, id, k) == Some(current)
  }

  ghost function CurrentAt(w: Watch, steps: seq<Step>, id: Id, k: nat): Option<Current>
    requires k <= |steps|
  {
    var v := End(w, steps[..k]);
    if id in v.children then Some(v.children[id].current) else None
  }

  lemma StepMentions(w: Watch, step: Step, id: Id, current: Current)
    requires Enabled(w, step) && id in After(w, step).children && Mentions(After(w, step).children[id], current)
    requires id in w.children ==> (HasAnswer(w.children[id]) && w.children[id].pending.value.stage.answer.Now? ==>
      w.children[id].pending.value.stage.answer in w.children[id].answers)
    ensures id in w.children && (Mentions(w.children[id], current) || current == w.children[id].current)
  {
    if step.OnChild? && id == step.child {
      MoveMentions(w.children[id], step.move, current);
    }
  }

  /** The same for the last step of a run. */
  lemma {:induction false} LastMentions(w: Watch, steps: seq<Step>, id: Id, current: Current)
    requires Fresh(w) && Runs(w, steps) && steps != [] && id in End(w, steps).children && Mentions(End(w, steps).children[id], current)
    ensures var v := End(w, steps[..|steps| - 1]);
      Runs(w, steps[..|steps| - 1]) && id in v.children && (Mentions(v.children[id], current) || current == v.children[id].current)
  {
    hide Enabled, After, Mentions, Fresh, ChildrenOk, TurnOk;
    var before, last := steps[..|steps| - 1], steps[|steps| - 1];
    assert Runs(w, before) && Enabled(End(w, before), last) && End(w, steps) == After(End(w, before), last);
    hide Runs, End;
    RunKeeps(w, before);
    AnswerRecorded(End(w, before), id);
    StepMentions(End(w, before), last, id, current);
  }

  lemma {:induction false} EarlierWasCurrent(w: Watch, steps: seq<Step>, n: nat, id: Id, current: Current)
    requires n <= |steps| && WasCurrent(w, steps[..n], id, current)
    ensures WasCurrent(w, steps, id, current)
  {
    hide End;
    var k: nat :| k <= n && CurrentAt(w, steps[..n], id, k) == Some(current);
    assert steps[..n][..k] == steps[..k];
    assert CurrentAt(w, steps, id, k) == Some(current);
  }

  lemma {:induction false} FreshMentionsNothing(w: Watch, id: Id, current: Current)
    requires Fresh(w) && id in w.children
    ensures !Mentions(w.children[id], current)
  {
  }

  lemma {:induction false} MentionedWasCurrent(w: Watch, steps: seq<Step>, id: Id, current: Current)
    requires Fresh(w) && Runs(w, steps) && id in End(w, steps).children && Mentions(End(w, steps).children[id], current)
    ensures WasCurrent(w, steps, id, current)
    decreases |steps|
  {
    if steps == [] {
      hide Mentions, Fresh, WasCurrent;
      FreshMentionsNothing(w, id, current);
    } else {
      hide Runs, End, Mentions, Fresh;
      var n := |steps| - 1;
      LastMentions(w, steps, id, current);
      if current == End(w, steps[..n]).children[id].current {
        assert CurrentAt(w, steps, id, n) == Some(current);
      } else {
        MentionedWasCurrent(w, steps[..n], id, current);
        EarlierWasCurrent(w, steps, n, id, current);
      }
    }
  }

  lemma AnswerRecorded(v: Watch, id: Id)
    requires ChildrenOk(v)
    ensures id in v.children && HasAnswer(v.children[id]) ==> v.children[id].pending.value.stage.answer in v.children[id].answers
  {
    hide OfChild, Returned;
    if id in v.children && HasAnswer(v.children[id]) {
      var c := v.children[id];
      assert ChildOk(c, OfChild(Returned(v), id));
      assert c.answers[|c.answers| - 1] == c.pending.value.stage.answer;
    }
  }

  /** Over every run, whatever a child is reported with was its own current at some moment of that run. */
  lemma AnswersAreCurrents(w: Watch, steps: seq<Step>, id: Id, i: nat)
    requires Fresh(w) && Runs(w, steps) && id in End(w, steps).children && i < |End(w, steps).children[id].answers|
    requires End(w, steps).children[id].answers[i].Now?
    ensures WasCurrent(w, steps, id, End(w, steps).children[id].answers[i].current)
  {
    hide Runs, End, WasCurrent;
    var c := End(w, steps).children[id];
    assert c.answers[i] in c.answers;
    MentionedWasCurrent(w, steps, id, c.answers[i].current);
  }

  /**
   An open request about a child that has moved past what was seen, or has ended, is answered
   with that very current by reading, receiving and, after success, confirming it; about any
   other child it is held open.
   */
  lemma RequestIsAnswered(c: Child)
    requires c.pending.Some? && c.pending.value.stage == Asking
    ensures var after, read := c.pending.value.after, Moved(c, BrokerReads);
      if c.current.lifecycle == Active && after.Some? && c.current.revision <= after.value
      then read.pending.value.stage == Held(c.current) && read.answers == c.answers
      else
        && CanMove(read, ClientReceives)
        && var received := Moved(read, ClientReceives);
           if c.current.lifecycle == Succeeded
           then CanMove(received, ClientConfirms) && Moved(received, ClientConfirms).answers == c.answers + [Now(c.current)]
           else received.answers == c.answers + [Now(c.current)]
  {
  }

  // ------------------------------------------------------------ a call delivers

  lemma {:induction false} OneMore(w: Watch, steps: seq<Step>, step: Step)
    requires Runs(w, steps) && Enabled(End(w, steps), step)
    ensures Runs(w, steps + [step]) && End(w, steps + [step]) == After(End(w, steps), step)
  {
    hide Enabled, After;
    assert (steps + [step])[..|steps|] == steps;
  }

  /** Between calls: every call made has returned, and no request is open. */
  ghost predicate Idle(w: Watch) {
    w.turn.NoTurn? && |w.results| == w.called && forall id | id in w.children :: w.children[id].pending.None?
  }

  /** The child has something to report: it ended, or is past the revision last reported. */
  ghost predicate HasNews(c: Child) {
    !c.ended && (c.current.lifecycle != Active || c.seen.None? || c.current.revision > c.seen.value)
  }

  /** Only the broker and the client act: no request fails and no child moves. */
  ghost predicate Calm(steps: seq<Step>) {
    forall i | 0 <= i < |steps| && steps[i].OnChild? :: !steps[i].move.Fails? && !steps[i].move.Moves?
  }

  /** What the requests of one child do until it has answered. */
  lemma {:induction false} RequestRuns(w: Watch, steps: seq<Step>, id: Id) returns (more: seq<Step>)
    requires Runs(w, steps) && Calm(steps)
    requires id in End(w, steps).children && HasNews(End(w, steps).children[id])
    requires End(w, steps).children[id].pending == Some(Request(End(w, steps).children[id].seen, Asking))
    ensures Runs(w, more) && Calm(more)
    ensures var v := End(w, steps); var c := v.children[id];
      End(w, more) == v.(children := v.children[id := At(c, Answered(Now(c.current)))])
  {
    hide Runs, End;
    var v := End(w, steps);
    var c := v.children[id];
    var c1 := At(c, Replied(c.current));
    assert Moved(c, BrokerReads) == c1;
    OneMore(w, steps, OnChild(id, BrokerReads));
    more := steps + [OnChild(id, BrokerReads)];
    assert End(w, more) == v.(children := v.children[id := c1]);
    OneMore(w, more, OnChild(id, ClientReceives));
    more := more + [OnChild(id, ClientReceives)];
    if c.current.lifecycle.Succeeded? {
      assert End(w, more) == v.(children := v.children[id := At(c, Confirming)]);
      OneMore(w, more, OnChild(id, ClientConfirms));
      more := more + [OnChild(id, ClientConfirms)];
    }
    assert End(w, more).children == v.children[id := At(c, Answered(Now(c.current)))];
  }

  /** The watch after a call and the start of its turn, from an idle one. */
  lemma {:induction false} TurnStarts(w: Watch, id: Id)
    requires Idle(w) && id in w.children && HasNews(w.children[id])
    ensures Runs(w, [Call, Begin])
    ensures var v := End(w, [Call, Begin]);
      && v.called == w.called + 1 && v.turn == Racing && v.results == w.results
      && v.children == map i | i in w.children :: Asked(w.children[i])
  {
    OneMore(w, [], Call);
    assert [] + [Call] == [Call];
    OneMore(w, [Call], Begin);
    assert [Call] + [Begin] == [Call, Begin];
    Begins(w.(called := w.called + 1), id);
  }

  /** A turn that asks some child starts racing. */
  lemma {:induction false} Begins(w: Watch, id: Id)
    requires Enabled(w, Begin) && id in w.children && (!w.children[id].ended || w.children[id].pending.Some?)
    ensures var v := After(w, Begin);
      && v.called == w.called && v.turn == Racing && v.results == w.results
      && v.children == map i | i in w.children :: Asked(w.children[i])
  {
    var asked := map i | i in w.children :: Asked(w.children[i]);
    assert id in asked && asked[id].pending.Some?;
    assert After(w, Begin).children == asked;
  }

  /** Polling, taking the one answer and returning it. */
  lemma {:induction false} TurnEnds(w: Watch, steps: seq<Step>, id: Id) returns (more: seq<Step>)
    requires Runs(w, steps) && Calm(steps) && End(w, steps).turn == Racing && id in End(w, steps).children
    requires HasAnswer(End(w, steps).children[id])
    requires forall i | i in End(w, steps).children && i != id :: !HasAnswer(End(w, steps).children[i])
    ensures Runs(w, more) && Calm(more)
    ensures var v, e := End(w, steps), End(w, more); var c := v.children[id];
      && e.turn == NoTurn && e.called == v.called && e.results == v.results + [[Change(id, c.pending.value.stage.answer)]]
      && e.children == v.children[id := Taken(c)]
  {
    hide Runs, End;
    var v := End(w, steps);
    assert [id][0] == id;
    OneMore(w, steps, Poll([id]));
    more := steps + [Poll([id])];
    assert End(w, more) == v.(turn := Taking([id], []));
    OneMore(w, more, Take);
    more := more + [Take];
    var c := v.children[id];
    var change := Change(id, c.pending.value.stage.answer);
    assert [id][1..] == [] && [] + [change] == [change];
    assert End(w, more) == v.(children := v.children[id := Taken(c)], turn := Taking([], [change]));
    OneMore(w, more, Finish);
    more := more + [Finish];
  }

  /**
   From any idle watch, whatever its siblings do not say, a child with something to report is
   reported by the next call with its very current, and the watch is past that revision then.
   */
  lemma {:induction false} NextCallDelivers(w: Watch, id: Id) returns (steps: seq<Step>)
    requires Idle(w) && id in w.children && HasNews(w.children[id])
    ensures Runs(w, steps) && Calm(steps)
    ensures var e, c := End(w, steps), w.children[id];
      && e.turn == NoTurn && e.results == w.results + [[Change(id, Now(c.current))]] && e.called == |e.results|
      && id in e.children && e.children[id].seen == Some(c.current.revision) && e.children[id].pending == None
      && (e.children[id].ended <==> c.current.lifecycle != Active)
      && forall i | i in w.children && i != id :: i in e.children && e.children[i] == Asked(w.children[i])
  {
    hide Runs, End;
    TurnStarts(w, id);
    var v := End(w, [Call, Begin]);
    steps := RequestRuns(w, [Call, Begin], id);
    var answered := End(w, steps);
    assert HasAnswer(answered.children[id]);
    assert forall i | i in answered.children && i != id :: answered.children[i] == Asked(w.children[i]);
    steps := TurnEnds(w, steps, id);
  }
}
