/**
 The execution-lease reconciler: one worker that sleeps on a wake-up it may have missed,
 retries what it could not settle, and races with debt arriving, with schedule calls, with
 failures and with other callers that settle a debt themselves. Every `await` of the source
 is one atomic step here; the wake-up follows tokio's Notify, which hands a notification to
 a waiting future or else stores a single permit.
 */
module LeaseWorker {
  import opened ExportModel

  datatype Attempt = Attempt(id: int)
  type Lease = string

  /** Where the worker's task is suspended. `todo` is the rest of the debts it enumerated. */
  datatype Phase =
    | Parked
    | Enumerating
    | Picking(todo: seq<Attempt>, unresolved: bool)
    | Reading(todo: seq<Attempt>, unresolved: bool, attempt: Attempt)
    | Releasing(todo: seq<Attempt>, unresolved: bool, attempt: Attempt, lease: Lease)
    | Acknowledging(todo: seq<Attempt>, unresolved: bool, attempt: Attempt, lease: Lease)
    | Rechecking(todo: seq<Attempt>, unresolved: bool, attempt: Attempt)
    | BackingOff
  {
    predicate Waiting() { Parked? || BackingOff? }

    predicate InPass() { !Parked? && !BackingOff? && !Enumerating? }

    /** The attempt whose reconciliation guard the worker holds. */
    function Holding(): Option<Attempt> {
      if Reading? || Releasing? || Acknowledging? || Rechecking? then Some(attempt) else None
    }
  }

  /**
   `debts` is the durable store; `guards` are the attempts other callers are settling;
   `scheduled` remembers which of the debts had a schedule call after they arrived.
   */
  datatype State = State(
    debts: map<Attempt, Lease>, guards: set<Attempt>, permit: bool, handed: bool, phase: Phase, scheduled: set<Attempt>)

  datatype Step =
    | Arrive(attempt: Attempt, lease: Lease)
    | Schedule
    | OtherBegins(attempt: Attempt)
    | OtherAcknowledges(attempt: Attempt)
    | OtherEnds(attempt: Attempt)
    | Wake
    | SleepElapses
    | Enumerate(order: seq<Attempt>)
    | EnumerateFails
    | Next
    | Read
    | Release
    | Acknowledge
    | AcknowledgeFails(applied: bool)
    | Recheck
    | CallFails

  const START := State(map[], {}, false, false, Parked, {})

  /** The order a query returns: every debt once. */
  ghost predicate Lists(order: seq<Attempt>, debts: map<Attempt, Lease>) {
    (forall a :: a in order <==> a in debts) && forall i, j | 0 <= i < j < |order| :: order[i] != order[j]
  }

  ghost predicate Enabled(s: State, step: Step) {
    match step
    case Arrive(a, _) => a !in s.debts
    case Schedule => true
    case OtherBegins(a) => a !in s.guards && s.phase.Holding() != Some(a)
    case OtherAcknowledges(a) => a in s.guards
    case OtherEnds(a) => a in s.guards
    case Wake => s.phase.Waiting() && (s.handed || s.permit)
    case SleepElapses => s.phase.BackingOff?
    case Enumerate(order) => s.phase.Enumerating? && Lists(order, s.debts)
    case EnumerateFails => s.phase.Enumerating?
    case Next => s.phase.Picking?
    case Read => s.phase.Reading?
    case Release => s.phase.Releasing?
    case Acknowledge => s.phase.Acknowledging?
    case AcknowledgeFails(_) => s.phase.Acknowledging?
    case Recheck => s.phase.Rechecking?
    case CallFails => s.phase.Reading? || s.phase.Releasing? || s.phase.Rechecking?
  }

  /** Whether the acknowledgement of the lease in hand finds that lease. */
  predicate Matches(s: State) {
    s.phase.Acknowledging? && s.phase.attempt in s.debts && s.debts[s.phase.attempt] == s.phase.lease
  }

  /** What the single-debt call returns in this step; None where no call returns. */
  ghost function Reports(s: State, step: Step): Option<bool>
    requires Enabled(s, step)
  {
    match step
    case Next => if s.phase.todo != [] && s.phase.todo[0] in s.guards then Some(false) else None
    case Read => if s.phase.attempt in s.debts then None else Some(true)
    case Acknowledge => if Matches(s) then Some(true) else None
    case AcknowledgeFails(_) => Some(false)
    case Recheck => Some(s.phase.attempt !in s.debts)
    case CallFails => Some(false)
    case _ => None
  }

  /** The debt that call was about. */
  ghost function Reported(s: State, step: Step): Attempt
    requires Enabled(s, step) && Reports(s, step).Some?
  {
    if step.Next? then s.phase.todo[0] else s.phase.attempt
  }

  /** The call returned; the pass remembers only whether some debt stayed unresolved. */
  function Returned(p: Phase, todo: seq<Attempt>, settled: Option<bool>): Phase
    requires p.InPass() && settled.Some?
  {
    Picking(todo, p.unresolved || !settled.value)
  }

  function Without(s: State, a: Attempt): State {
    s.(debts := s.debts - {a}, scheduled := s.scheduled - {a})
  }

  ghost function After(s: State, step: Step): State
    requires Enabled(s, step)
  {
    match step
    case Arrive(a, lease) => s.(debts := s.debts[a := lease], scheduled := s.scheduled - {a})
    case Schedule =>
      var notified := s.(scheduled := s.debts.Keys);
      if s.phase.Waiting() && !s.handed then notified.(handed := true) else notified.(permit := true)
    case OtherBegins(a) => s.(guards := s.guards + {a})
    case OtherAcknowledges(a) => Without(s, a)
    case OtherEnds(a) => s.(guards := s.guards - {a})
    case Wake => if s.handed then s.(handed := false, phase := Enumerating) else s.(permit := false, phase := Enumerating)
    // A notification handed to the wait that lost the race is passed on as a permit.
    case SleepElapses => s.(permit := s.permit || s.handed, handed := false, phase := Enumerating)
    case Enumerate(order) => s.(phase := if order == [] then Parked else Picking(order, false))
    case EnumerateFails => s.(phase := BackingOff)
    case Next =>
      var todo := s.phase.todo;
      if todo == [] then s.(phase := if s.phase.unresolved then BackingOff else Parked)
      else if todo[0] in s.guards then s.(phase := Returned(s.phase, todo[1..], Reports(s, step)))
      else s.(phase := Reading(todo[1..], s.phase.unresolved, todo[0]))
    case Read =>
      if s.phase.attempt in s.debts
      then s.(phase := Releasing(s.phase.todo, s.phase.unresolved, s.phase.attempt, s.debts[s.phase.attempt]))
      else s.(phase := Returned(s.phase, s.phase.todo, Reports(s, step)))
    case Release => s.(phase := Acknowledging(s.phase.todo, s.phase.unresolved, s.phase.attempt, s.phase.lease))
    case Acknowledge =>
      if Matches(s) then Without(s, s.phase.attempt).(phase := Returned(s.phase, s.phase.todo, Reports(s, step)))
      else s.(phase := Rechecking(s.phase.todo, s.phase.unresolved, s.phase.attempt))
    case AcknowledgeFails(applied) =>
      (if applied && Matches(s) then Without(s, s.phase.attempt) else s).(phase := Returned(s.phase, s.phase.todo, Reports(s, step)))
    case Recheck => s.(phase := Returned(s.phase, s.phase.todo, Reports(s, step)))
    case CallFails => s.(phase := Returned(s.phase, s.phase.todo, Reports(s, step)))
  }

  /** Every step of the run is enabled where it happens. */
  ghost predicate Runs(s: State, steps: seq<Step>) {
    steps == [] || (Runs(s, steps[..|steps| - 1]) && Enabled(End(s, steps[..|steps| - 1]), steps[|steps| - 1]))
  }

  ghost function End(s: State, steps: seq<Step>): State {
    if steps == [] then s else
      var before := End(s, steps[..|steps| - 1]);
      if Enabled(before, steps[|steps| - 1]) then After(before, steps[|steps| - 1]) else before
  }

  // ------------------------------------------------------------ safety

  /** The pass under way still covers the debt: it will look at it, or it will look again at everything. */
  ghost predicate StillCovers(p: Phase, a: Attempt) {
    match p
    case Parked => false
    case Enumerating => true
    case BackingOff => true
    case Picking(todo, unresolved) => unresolved || a in todo
    case _ => p.unresolved || a in p.todo || a == p.attempt
  }

  ghost predicate Inv(s: State) {
    && s.scheduled <= s.debts.Keys
    && (s.handed ==> s.phase.Waiting())
    && (s.handed || s.permit || forall a | a in s.scheduled :: StillCovers(s.phase, a))
  }

  lemma StepKeeps(s: State, step: Step)
    requires Inv(s) && Enabled(s, step)
    ensures Inv(After(s, step))
  {
    if step.Next? && s.phase.todo != [] {
      assert s.phase.todo == [s.phase.todo[0]] + s.phase.todo[1..];
    }
  }

  lemma {:induction false} RunKeeps(steps: seq<Step>)
    requires Runs(START, steps)
    ensures Inv(End(START, steps))
  {
    if steps != [] {
      RunKeeps(steps[..|steps| - 1]);
      StepKeeps(End(START, steps[..|steps| - 1]), steps[|steps| - 1]);
    }
  }

  lemma {:induction false} PrefixRuns(s: State, steps: seq<Step>, k: nat)
    requires Runs(s, steps) && k < |steps|
    ensures Runs(s, steps[..k]) && Enabled(End(s, steps[..k]), steps[k])
  {
    var before := steps[..|steps| - 1];
    if k < |before| {
      PrefixRuns(s, before, k);
      assert before[..k] == steps[..k];
    } else {
      assert before == steps[..k];
    }
  }

  lemma StepKeepsFound(s: State, step: Step, a: Attempt)
    requires Enabled(s, step) && a in After(s, step).debts
    requires step.Schedule? || !(step.Arrive? && step.attempt == a)
    ensures a in s.debts
    ensures a in s.scheduled || step.Schedule? ==> a in After(s, step).scheduled
  {
  }

  /** A debt that a schedule call found, and that has not arrived anew since, counts as scheduled. */
  lemma {:induction false} FoundByCall(steps: seq<Step>, j: nat, a: Attempt)
    requires Runs(START, steps) && j < |steps| && steps[j].Schedule?
    requires forall k | j < k < |steps| :: !(steps[k].Arrive? && steps[k].attempt == a)
    requires a in End(START, steps).debts
    ensures a in End(START, steps).scheduled
    decreases |steps|
  {
    hide Enabled, After;
    var before, last := steps[..|steps| - 1], steps[|steps| - 1];
    StepKeepsFound(End(START, before), last, a);
    if j < |before| {
      FoundByCall(before, j, a);
    }
  }

  /**
   No lost wake-up: over every interleaving, when the worker is parked with nothing to wake
   it, every debt whose arrival was followed by a schedule call has been settled: at some
   moment after its arrival the store no longer held it.
   */
  lemma NoLostWakeUp(steps: seq<Step>, i: nat, j: nat)
    requires Runs(START, steps)
    requires var s := End(START, steps); s.phase.Parked? && !s.permit && !s.handed
    requires i < j < |steps| && steps[i].Arrive? && steps[j].Schedule?
    ensures exists k | i < k <= |steps| :: steps[i].attempt !in End(START, steps[..k]).debts
  {
    var a := steps[i].attempt;
    if k :| j < k < |steps| && steps[k].Arrive? && steps[k].attempt == a {
      PrefixRuns(START, steps, k);
    } else {
      RunKeeps(steps);
      var s := End(START, steps);
      assert forall b | b in s.scheduled :: StillCovers(s.phase, b);
      if a in s.debts {
        FoundByCall(steps, j, a);
      }
      assert steps[..|steps|] == steps;
    }
  }

  /** A call that returns true leaves its debt gone, whatever the pass went through before it. */
  lemma SuccessMeansGone(s: State, step: Step)
    requires Enabled(s, step) && Reports(s, step) == Some(true)
    ensures s.phase.Holding() == Some(Reported(s, step)) && Reported(s, step) !in After(s, step).debts
  {
  }

  /** A call that could not start, or in which a store or provider call failed, returns false; any other returns whether its debt is gone. */
  lemma ResultIsExact(s: State, step: Step)
    requires Enabled(s, step) && Reports(s, step).Some?
    ensures step.Next? || step.AcknowledgeFails? || step.CallFails? ==> Reports(s, step) == Some(false)
    ensures !(step.Next? || step.AcknowledgeFails? || step.CallFails?) ==>
      (Reports(s, step) == Some(true) <==> Reported(s, step) !in After(s, step).debts)
    ensures After(s, step).phase.Picking?
  {
  }

  /** One step adds its own report to the pass's flag. */
  lemma StepFlags(s: State, step: Step)
    requires Enabled(s, step) && s.phase.InPass() && After(s, step).phase.InPass()
    ensures After(s, step).phase.unresolved <==> s.phase.unresolved || Reports(s, step) == Some(false)
  {
  }

  lemma OnlyEnumerateEntersPass(s: State, step: Step)
    requires Enabled(s, step) && After(s, step).phase.InPass() && !s.phase.InPass()
    ensures step.Enumerate? && !After(s, step).phase.unresolved && Reports(s, step) == None
  {
  }

  lemma EnumerateStartsPass(s: State, step: Step)
    requires Enabled(s, step) && step.Enumerate?
    ensures !s.phase.InPass()
  {
  }

  /** Whether some call of the pass that the `i`-th step began has returned false. */
  ghost predicate FalseSince(steps: seq<Step>, i: nat)
    requires Runs(START, steps)
  {
    exists k | i < k < |steps| :: ReportAt(steps, k) == Some(false)
  }

  ghost function ReportAt(steps: seq<Step>, k: nat): Option<bool>
    requires Runs(START, steps) && k < |steps|
  {
    PrefixRuns(START, steps, k);
    Reports(End(START, steps[..k]), steps[k])
  }

  /**
   The pass retries exactly when one of its own calls returned false: its flag says so at
   every moment, over every interleaving.
   */
  lemma {:induction false} UnresolvedIffSomeCallFailed(steps: seq<Step>, i: nat)
    requires Runs(START, steps) && End(START, steps).phase.InPass()
    requires i < |steps| && steps[i].Enumerate? && forall k | i < k < |steps| :: !steps[k].Enumerate?
    ensures End(START, steps).phase.unresolved <==> FalseSince(steps, i)
    decreases |steps|
  {
    hide Enabled, After, Reports;
    var before, last := steps[..|steps| - 1], steps[|steps| - 1];
    var s := End(START, before);
    assert ReportAt(steps, |steps| - 1) == Reports(s, last);
    if !s.phase.InPass() {
      OnlyEnumerateEntersPass(s, last);
    } else {
      if i == |before| { EnumerateStartsPass(s, last); }
      UnresolvedIffSomeCallFailed(before, i);
      StepFlags(s, last);
      forall k | i < k < |before| ensures ReportAt(before, k) == ReportAt(steps, k) {
        assert before[..k] == steps[..k];
      }
      if FalseSince(before, i) {
        var k :| i < k < |before| && ReportAt(before, k) == Some(false);
        assert ReportAt(steps, k) == Some(false);
      }
    }
  }

  // ------------------------------------------------------------ no debt goes without its release

  /** A step of somebody else, or of the notification, while the worker waits for its own call. */
  predicate FromOutside(step: Step) {
    step.Arrive? || step.Schedule? || step.OtherBegins? || step.OtherAcknowledges? || step.OtherEnds?
  }

  /** Between the two steps only others moved. */
  ghost predicate Undisturbed(steps: seq<Step>, from: nat, to: nat)
    requires to <= |steps|
  {
    forall k | from < k < to :: FromOutside(steps[k])
  }

  /** The `i`-th step read the debt of attempt `a`, which then had lease `l`. */
  ghost predicate ReadAt(steps: seq<Step>, i: nat, a: Attempt, l: Lease) {
    && i < |steps| && steps[i].Read?
    && var s := End(START, steps[..i]);
       s.phase.Reading? && s.phase.attempt == a && a in s.debts && s.debts[a] == l
  }

  /** The `r`-th step released lease `l` of attempt `a` at the provider. */
  ghost predicate ReleasedAt(steps: seq<Step>, r: nat, a: Attempt, l: Lease) {
    && r < |steps| && steps[r].Release?
    && var p := End(START, steps[..r]).phase;
       p.Releasing? && p.attempt == a && p.lease == l
  }

  /** The call in hand read its debt and, once it acknowledges, released exactly the lease it read. */
  ghost predicate CallSoFar(steps: seq<Step>, i: nat, r: nat) {
    var p := End(START, steps).phase;
    && (p.Releasing? ==> ReadAt(steps, i, p.attempt, p.lease) && Undisturbed(steps, i, |steps|))
    && (p.Acknowledging? ==>
          && ReadAt(steps, i, p.attempt, p.lease) && i < r && ReleasedAt(steps, r, p.attempt, p.lease)
          && Undisturbed(steps, i, r) && Undisturbed(steps, r, |steps|))
  }

  lemma CallsInHand(s: State, step: Step)
    requires Enabled(s, step)
    ensures var p := After(s, step).phase;
      && (p.Releasing? && !FromOutside(step) ==>
            step.Read? && s.phase.Reading? && p.attempt == s.phase.attempt && p.attempt in s.debts && p.lease == s.debts[p.attempt])
      && (p.Acknowledging? && !FromOutside(step) ==>
            step.Release? && s.phase.Releasing? && p.attempt == s.phase.attempt && p.lease == s.phase.lease)
      && (FromOutside(step) ==> p == s.phase)
  {
  }

  lemma {:induction false} CallTrace(steps: seq<Step>) returns (i: nat, r: nat)
    requires Runs(START, steps)
    ensures CallSoFar(steps, i, r)
    decreases |steps|
  {
    hide Enabled, After;
    i, r := 0, 0;
    if steps != [] {
      var n := |steps| - 1;
      var before := steps[..n];
      i, r := CallTrace(before);
      CallsInHand(End(START, before), steps[n]);
      assert forall k | 0 <= k <= n :: before[..k] == steps[..k];
      var p := End(START, steps).phase;
      if !FromOutside(steps[n]) && p.Releasing? {
        i := n;
      } else if !FromOutside(steps[n]) && p.Acknowledging? {
        r := n;
      }
    }
  }

  /** Apart from other callers' acknowledgements, a step removes no debt but the one in hand, at the lease in hand. */
  lemma OnlyDebtInHandGoes(s: State, step: Step, a: Attempt)
    requires Enabled(s, step) && !step.OtherAcknowledges? && a in s.debts && a !in After(s, step).debts
    ensures step.Acknowledge? || step == AcknowledgeFails(true)
    ensures s.phase.Acknowledging? && s.phase.attempt == a && s.phase.lease == s.debts[a]
  {
  }

  /** One call read the debt at step `i` and released its lease at step `r`, with nothing of the worker in between or until `j`. */
  ghost predicate ReleasedFirst(steps: seq<Step>, j: nat, a: Attempt, l: Lease, i: nat, r: nat) {
    && i < r < j <= |steps| && ReadAt(steps, i, a, l) && ReleasedAt(steps, r, a, l)
    && Undisturbed(steps, i, r) && Undisturbed(steps, r, j)
  }

  lemma PrefixTrace(steps: seq<Step>, j: nat, a: Attempt, l: Lease, i: nat, r: nat)
    requires j <= |steps| && ReleasedFirst(steps[..j], j, a, l, i, r)
    ensures ReleasedFirst(steps, j, a, l, i, r)
  {
    hide End;
    var before := steps[..j];
    assert before[..i] == steps[..i] && before[..r] == steps[..r];
    assert forall k | 0 <= k < j :: before[k] == steps[k];
  }

  /**
   Over every run, a debt the worker removes was released first: its own call read that debt,
   released exactly its lease at the provider, and only then acknowledged it, with nothing of
   the worker in between.
   */
  lemma {:induction false} RemovedAfterRelease(steps: seq<Step>, j: nat, a: Attempt)
    requires Runs(START, steps) && j < |steps| && !steps[j].OtherAcknowledges?
    requires a in End(START, steps[..j]).debts && a !in End(START, steps[..j + 1]).debts
    ensures exists i, r :: ReleasedFirst(steps, j, a, End(START, steps[..j]).debts[a], i, r)
  {
    PrefixRuns(START, steps, j);
    var before := steps[..j];
    assert steps[..j + 1][..j] == before;
    assert End(START, steps[..j + 1]) == After(End(START, before), steps[j]);
    hide Enabled, After, End, Runs, ReadAt, ReleasedAt, Undisturbed;
    OnlyDebtInHandGoes(End(START, before), steps[j], a);
    var i, r := CallTrace(before);
    PrefixTrace(steps, j, a, End(START, before).debts[a], i, r);
  }

  // ------------------------------------------------------------ progress

  /** What the worker does next when no store or provider call fails. */
  ghost function Succeeds(s: State): (step: Step)
    requires !(s.phase.Parked? && !s.permit && !s.handed)
    ensures Enabled(s, step)
  {
    match s.phase
    case Parked => Wake
    case BackingOff => SleepElapses
    case Enumerating => Listing(s.debts); Enumerate(var order :| Lists(order, s.debts); order)
    case Picking(_, _) => Next
    case Reading(_, _, _) => Read
    case Releasing(_, _, _, _) => Release
    case Acknowledging(_, _, _, _) => Acknowledge
    case Rechecking(_, _, _) => Recheck
  }

  lemma {:induction false} Listing(debts: map<Attempt, Lease>)
    ensures exists order :: Lists(order, debts)
    decreases |debts|
  {
    if debts.Keys == {} {
      assert Lists([], debts);
    } else {
      var a :| a in debts.Keys;
      var rest := debts - {a};
      assert debts.Keys == rest.Keys + {a};
      Listing(rest);
      var order :| Lists(order, rest);
      assert Lists(order + [a], debts);
    }
  }

  /** The debt in hand is one the current call will have to report as unsettled. */
  ghost predicate Clashes(s: State) {
    match s.phase
    case Releasing(_, _, a, lease) => a in s.debts && s.debts[a] != lease
    case Acknowledging(_, _, a, lease) => a in s.debts && s.debts[a] != lease
    case Rechecking(_, _, a) => a in s.debts
    case _ => false
  }

  ghost function Stage(s: State): nat {
    match s.phase
    case Parked => 0
    case Enumerating => 2
    case BackingOff => 3
    case Picking(_, unresolved) => if unresolved then 4 else 1
    case _ => if s.phase.unresolved || Clashes(s) then 4 else 1
  }

  ghost function Inner(p: Phase): nat {
    match p
    case Picking(todo, _) => 5 * |todo|
    case Reading(todo, _, _) => 5 * |todo| + 4
    case Releasing(todo, _, _, _) => 5 * |todo| + 3
    case Acknowledging(todo, _, _, _) => 5 * |todo| + 2
    case Rechecking(todo, _, _) => 5 * |todo| + 1
    case _ => 0
  }

  ghost function Notices(s: State): nat {
    (if s.permit then 1 else 0) + (if s.handed then 1 else 0)
  }

  /** Every debt the pass may still leave behind is ahead of it, or the pass will be repeated. */
  ghost predicate PassCovers(s: State) {
    Stage(s) == 1 ==> forall a | a in s.debts :: StillCovers(s.phase, a)
  }

  /**
   Progress: left alone, with no failing call and nobody else settling debts, the worker
   reaches its outer wait with no debt left. A pass under way that no longer covers every
   debt is followed by one that does, because a notification is pending.
   */
  lemma {:induction false} WorkerSettlesEverything(s: State) returns (n: nat, e: State)
    requires OnCourse(s)
    ensures e == Quiet(s, n) && e.phase.Parked? && Notices(e) == 0 && e.debts == map[]
    decreases Notices(s), Stage(s), Inner(s.phase)
  {
    hide After, Succeeds, PassCovers, Stage, Inner;
    var t := After(s, Succeeds(s));
    QuietStep(s);
    if t.phase.Parked? && Notices(t) == 0 {
      n, e := 1, t;
      assert Quiet(t, 0) == t;
    } else {
      n, e := WorkerSettlesEverything(t);
      n := n + 1;
    }
  }

  ghost predicate OnCourse(s: State) {
    && s.guards == {} && (s.handed ==> s.phase.Waiting())
    && (PassCovers(s) || Notices(s) > 0)
    && !(s.phase.Parked? && Notices(s) == 0)
  }

  ghost predicate Nearer(t: State, s: State) {
    || Notices(t) < Notices(s)
    || (Notices(t) == Notices(s) && Stage(t) < Stage(s))
    || (Notices(t) == Notices(s) && Stage(t) == Stage(s) && Inner(t.phase) < Inner(s.phase))
  }

  /** One undisturbed step ends the work with nothing left, or comes nearer to that. */
  lemma QuietStep(s: State)
    requires OnCourse(s)
    ensures var t := After(s, Succeeds(s));
      if t.phase.Parked? && Notices(t) == 0 then t.debts == map[] else OnCourse(t) && Nearer(t, s)
  {
    match s.phase
    case Parked => WakeStep(s);
    case BackingOff => WakeStep(s);
    case Enumerating => WakeStep(s);
    case Picking(_, _) => PickStep(s);
    case _ => CallStep(s);
  }

  lemma WakeStep(s: State)
    requires OnCourse(s) && (s.phase.Waiting() || s.phase.Enumerating?)
    ensures var t := After(s, Succeeds(s));
      if t.phase.Parked? && Notices(t) == 0 then t.debts == map[] else OnCourse(t) && Nearer(t, s)
  {
    if s.phase.Enumerating? && After(s, Succeeds(s)).phase.Parked? {
      assert s.debts.Keys == {};
    }
  }

  lemma PickStep(s: State)
    requires OnCourse(s) && s.phase.Picking?
    ensures var t := After(s, Succeeds(s));
      if t.phase.Parked? && Notices(t) == 0 then t.debts == map[] else OnCourse(t) && Nearer(t, s)
  {
    if s.phase.todo != [] {
      assert s.phase.todo == [s.phase.todo[0]] + s.phase.todo[1..];
    } else if !s.phase.unresolved && Notices(s) == 0 {
      assert PassCovers(s) && Stage(s) == 1;
      assert forall a | a in s.debts :: StillCovers(s.phase, a);
      assert s.debts.Keys == {};
    }
  }

  lemma CallStep(s: State)
    requires OnCourse(s) && s.phase.Holding().Some?
    ensures OnCourse(After(s, Succeeds(s))) && Nearer(After(s, Succeeds(s)), s)
  {
  }

  /** The state after `n` undisturbed, unfailing worker steps. */
  ghost function Quiet(s: State, n: nat): State
    decreases n
  {
    if n == 0 || (s.phase.Parked? && !s.permit && !s.handed) then s else Quiet(After(s, Succeeds(s)), n - 1)
  }

  /**
   And so every arrival that is followed by a schedule call is settled: from any state a run
   can reach with nobody else settling debts, the worker left alone settles it and all others.
   */
  lemma {:induction false} ArrivalSettles(steps: seq<Step>, a: Attempt, lease: Lease) returns (n: nat, e: State)
    requires Runs(START, steps) && a !in End(START, steps).debts && End(START, steps).guards == {}
    ensures Runs(START, steps + [Arrive(a, lease)] + [Schedule])
    ensures e == Quiet(End(START, steps + [Arrive(a, lease)] + [Schedule]), n)
    ensures a in End(START, steps + [Arrive(a, lease)] + [Schedule]).debts
    ensures e.phase.Parked? && Notices(e) == 0 && e.debts == map[]
  {
    RunKeeps(steps);
    var arrived, scheduled := steps + [Arrive(a, lease)], steps + [Arrive(a, lease)] + [Schedule];
    assert arrived[..|steps|] == steps && scheduled[..|arrived|] == arrived;
    var s := After(After(End(START, steps), Arrive(a, lease)), Schedule);
    assert End(START, scheduled) == s;
    hide Runs, End;
    n, e := WorkerSettlesEverything(s);
  }

  // ------------------------------------------------------------ notifications and guards

  /** A schedule call reaches a waiting worker or is kept for its next wait; only a wake-up uses one up, and one only. */
  lemma NotificationsKept(s: State, step: Step)
    requires Enabled(s, step)
    ensures step.Schedule? ==> if s.phase.Waiting() && !s.handed then After(s, step).handed else After(s, step).permit
    ensures step.Wake? ==> Notices(After(s, step)) == Notices(s) - 1
    ensures !step.Wake? && Notices(s) > 0 ==> Notices(After(s, step)) > 0
    ensures !step.Schedule? ==> Notices(After(s, step)) <= Notices(s)
  {
  }

  /** Over every run nobody else settles the debt that the worker's own call is settling. */
  lemma {:induction false} OneHolder(steps: seq<Step>, a: Attempt)
    requires Runs(START, steps) && End(START, steps).phase.Holding() == Some(a)
    ensures a !in End(START, steps).guards
    decreases |steps|
  {
    if steps != [] {
      var before, last := steps[..|steps| - 1], steps[|steps| - 1];
      if End(START, before).phase.Holding() == Some(a) {
        OneHolder(before, a);
      }
      HolderStep(End(START, before), last, a);
    }
  }

  lemma HolderStep(s: State, step: Step, a: Attempt)
    requires Enabled(s, step) && (s.phase.Holding() == Some(a) ==> a !in s.guards) && After(s, step).phase.Holding() == Some(a)
    ensures a !in After(s, step).guards
  {
  }
}
