/**
 The broker's long-poll hold: one caller waits on a completion's watch channel while
 observers publish revisions, guards are dropped, and the deadline passes. Channels follow
 tokio's watch: a receiver reads the latest value and is told of a change it has not seen
 even after the sender is gone; the timeout looks at the channel before it looks at the clock.
 */
module ObservationHold {
  import opened ExportModel

  type Id = nat

  datatype Observed = Observed(revision: nat, active: bool)

  /** A value sent, and whether the caller's deadline had passed by then. */
  datatype Entry = Entry(observed: Observed, late: bool)

  /** A channel is its history: its value is the last entry, its version how many there are. */
  datatype Channel = Channel(id: Id, entries: seq<Entry>, open: bool)

  datatype Hold =
    | Idle
    | Asleep
    | Looking(channel: nat)
    | Waiting(channel: nat, seen: nat)
    | Answered(news: bool, on: Option<nat>, count: nat)

  /** `registry` names the open channel of each completion; the caller asks about `id` after `after`. */
  datatype State = State(
    registry: map<Id, nat>, channels: seq<Channel>, id: Id, after: nat, hold: Hold, late: bool)

  datatype Step =
    | Publish(id: Id, observed: Observed)
    | Supervise(id: Id)
    | DropGuard(id: Id)
    | DeadlinePasses
    | HoldStarts
    | Look
    | Changed
    | Closed
    | TimesOut
    | SleepEnds

  predicate IsNews(o: Observed, after: nat) { o.revision > after || !o.active }

  predicate RegistryOk(s: State) {
    && (forall id | id in s.registry ::
          s.registry[id] < |s.channels| && s.channels[s.registry[id]].id == id && s.channels[s.registry[id]].open)
    && (forall k | 0 <= k < |s.channels| && s.channels[k].open ::
          s.channels[k].id in s.registry && s.registry[s.channels[k].id] == k)
  }

  predicate HoldInRange(s: State) {
    s.hold.Looking? || s.hold.Waiting? ==> s.hold.channel < |s.channels|
  }

  predicate Enabled(s: State, step: Step)
    requires HoldInRange(s)
  {
    match step
    case Publish(_, _) => true
    case Supervise(_) => true
    case DropGuard(_) => true
    case DeadlinePasses => true
    case HoldStarts => s.hold.Idle? && !s.late
    case Look => s.hold.Looking?
    case Changed => s.hold.Waiting? && |s.channels[s.hold.channel].entries| > s.hold.seen
    case Closed => s.hold.Waiting? && |s.channels[s.hold.channel].entries| <= s.hold.seen && !s.channels[s.hold.channel].open
    case TimesOut =>
      s.hold.Waiting? && |s.channels[s.hold.channel].entries| <= s.hold.seen && s.channels[s.hold.channel].open && s.late
    case SleepEnds => s.hold.Asleep? && s.late
  }

  function Registered(s: State, id: Id, entries: seq<Entry>): State {
    s.(registry := s.registry[id := |s.channels|], channels := s.channels + [Channel(id, entries, true)])
  }

  function After(s: State, step: Step): State
    requires RegistryOk(s) && HoldInRange(s) && Enabled(s, step)
  {
    match step
    case Publish(id, observed) =>
      var entry := Entry(observed, s.late);
      if id in s.registry then
        var k := s.registry[id];
        s.(channels := s.channels[k := s.channels[k].(entries := s.channels[k].entries + [entry])])
      else Registered(s, id, [entry])
    case Supervise(id) => if id in s.registry then s else Registered(s, id, [])
    case DropGuard(id) =>
      if id !in s.registry then s else
        var k := s.registry[id];
        s.(registry := s.registry - {id}, channels := s.channels[k := s.channels[k].(open := false)])
    case DeadlinePasses => s.(late := true)
    case HoldStarts => s.(hold := if s.id in s.registry then Looking(s.registry[s.id]) else Asleep)
    case Look =>
      var entries := s.channels[s.hold.channel].entries;
      if entries != [] && IsNews(entries[|entries| - 1].observed, s.after)
      then s.(hold := Answered(true, Some(s.hold.channel), |entries|))
      else s.(hold := Waiting(s.hold.channel, |entries|))
    case Changed => s.(hold := Looking(s.hold.channel))
    case Closed => s.(hold := Answered(false, Some(s.hold.channel), s.hold.seen))
    case TimesOut => s.(hold := Answered(false, Some(s.hold.channel), s.hold.seen))
    case SleepEnds => s.(hold := Answered(false, None, 0))
  }

  /** A run, step by step, from a state the registry's invariant holds of. */
  predicate Runs(s: State, steps: seq<Step>)
    requires RegistryOk(s) && HoldInRange(s)
    decreases |steps|
  {
    steps == [] || (Enabled(s, steps[0]) && (RegistryStaysOk(s, steps[0]); Runs(After(s, steps[0]), steps[1..])))
  }

  function End(s: State, steps: seq<Step>): State
    requires RegistryOk(s) && HoldInRange(s) && Runs(s, steps)
    decreases |steps|
  {
    if steps == [] then s else RegistryStaysOk(s, steps[0]); End(After(s, steps[0]), steps[1..])
  }

  lemma RegisteredStaysOk(s: State, id: Id, entries: seq<Entry>)
    requires RegistryOk(s) && id !in s.registry
    ensures RegistryOk(Registered(s, id, entries))
  {
  }

  lemma RegistryStaysOk(s: State, step: Step)
    requires RegistryOk(s) && HoldInRange(s) && Enabled(s, step)
    ensures RegistryOk(After(s, step)) && HoldInRange(After(s, step))
  {
    match step
    case Publish(id, observed) => if id !in s.registry { RegisteredStaysOk(s, id, [Entry(observed, s.late)]); }
    case Supervise(id) => if id !in s.registry { RegisteredStaysOk(s, id, []); }
    case _ =>
  }

  // ------------------------------------------------------------ what the hold knows

  /** The newest of the first `n` values was no news. */
  predicate Stale(entries: seq<Entry>, n: nat, after: nat) {
    n <= |entries| && (n > 0 ==> !IsNews(entries[n - 1].observed, after))
  }

  ghost predicate Inv(s: State) {
    && RegistryOk(s)
    && HoldInRange(s)
    && match s.hold
       case Idle => true
       case Asleep => true
       case Looking(k) => s.channels[k].id == s.id
       case Waiting(k, seen) => s.channels[k].id == s.id && Stale(s.channels[k].entries, seen, s.after)
       case Answered(news, on, n) =>
         if on.None? then !news && s.late else AnswerOk(s, news, on.value, n)
  }

  ghost predicate AnswerOk(s: State, news: bool, k: nat, n: nat) {
    && k < |s.channels|
    && s.channels[k].id == s.id
    && n <= |s.channels[k].entries|
    && (news ==> n > 0 && IsNews(s.channels[k].entries[n - 1].observed, s.after))
    && (!news ==>
          && Stale(s.channels[k].entries, n, s.after)
          && (s.channels[k].open ==> s.late)
          && (forall j | n <= j < |s.channels[k].entries| :: s.channels[k].entries[j].late))
  }

  lemma StepKeeps(s: State, step: Step)
    requires Inv(s) && Enabled(s, step)
    ensures Inv(After(s, step))
  {
    RegistryStaysOk(s, step);
  }

  lemma {:induction false} RunKeeps(s: State, steps: seq<Step>)
    requires Inv(s) && Runs(s, steps)
    ensures Inv(End(s, steps))
    decreases |steps|
  {
    if steps != [] {
      StepKeeps(s, steps[0]);
      RunKeeps(After(s, steps[0]), steps[1..]);
    }
  }

  // ------------------------------------------------------------ no news is lost

  /** Revisions do not go back, and a completion that ended stays ended. */
  ghost predicate InOrder(entries: seq<Entry>) {
    forall i, j | 0 <= i < j < |entries| ::
      entries[i].observed.revision <= entries[j].observed.revision && (entries[j].observed.active ==> entries[i].observed.active)
  }

  /** After news, every value is news. */
  ghost predicate NewsStays(entries: seq<Entry>, after: nat) {
    forall i, j | 0 <= i < j < |entries| :: IsNews(entries[i].observed, after) ==> IsNews(entries[j].observed, after)
  }

  ghost predicate NewsAmong(entries: seq<Entry>, after: nat) {
    exists k | 0 <= k < |entries| :: IsNews(entries[k].observed, after)
  }

  /** What the channel had carried before the deadline. */
  function OnTime(entries: seq<Entry>): seq<Entry> {
    if entries == [] then [] else
      OnTime(entries[..|entries| - 1]) + (if entries[|entries| - 1].late then [] else [entries[|entries| - 1]])
  }

  lemma InOrderKeepsNews(entries: seq<Entry>, after: nat)
    requires InOrder(entries)
    ensures NewsStays(entries, after)
  {
  }

  lemma {:induction false} OnTimeAreEntries(entries: seq<Entry>, n: nat)
    requires n <= |entries| && forall j | n <= j < |entries| :: entries[j].late
    ensures forall e | e in OnTime(entries) :: e in entries[..n]
  {
    if entries != [] {
      var before := entries[..|entries| - 1];
      var m := if n < |entries| then n else n - 1;
      OnTimeAreEntries(before, m);
      assert forall e | e in before[..m] :: e in entries[..n];
      if n == |entries| {
        assert entries[|entries| - 1] in entries[..n];
      }
    }
  }

  /** A hold nobody has started, over any registry. */
  ghost predicate Fresh(s: State) { RegistryOk(s) && s.hold.Idle? }

  /**
   The hold is exact. In every interleaving, when it has answered about a channel whose news
   stays news, it answered true exactly when the channel had carried news by then; and if it
   answered false, the channel carried no news before the deadline, even after the answer.
   */
  lemma HoldLosesNoNews(s: State, steps: seq<Step>)
    requires Fresh(s) && Runs(s, steps)
    requires End(s, steps).hold.Answered? && End(s, steps).hold.on.Some?
    requires var e := End(s, steps); e.hold.on.value < |e.channels| ==> NewsStays(e.channels[e.hold.on.value].entries, e.after)
    ensures var e := End(s, steps);
      && e.hold.on.value < |e.channels| && e.channels[e.hold.on.value].id == e.id
      && var entries := e.channels[e.hold.on.value].entries;
         && e.hold.count <= |entries|
         && (e.hold.news <==> NewsAmong(entries[..e.hold.count], e.after))
         && (!e.hold.news ==> !NewsAmong(OnTime(entries), e.after))
  {
    RunKeeps(s, steps);
    var e := End(s, steps);
    hide End, Runs, OnTime;
    var k, n := e.hold.on.value, e.hold.count;
    assert AnswerOk(e, e.hold.news, k, n);
    var entries := e.channels[k].entries;
    if e.hold.news {
      assert IsNews(entries[..n][n - 1].observed, e.after);
    } else {
      StaleThroughout(entries, n, e.after);
      OnTimeAreEntries(entries, n);
      var early := OnTime(entries);
      forall j | 0 <= j < |early| ensures !IsNews(early[j].observed, e.after) {
        assert early[j] in entries[..n];
      }
    }
  }

  lemma StaleThroughout(entries: seq<Entry>, n: nat, after: nat)
    requires Stale(entries, n, after) && NewsStays(entries, after)
    ensures !NewsAmong(entries[..n], after)
    ensures forall e | e in entries[..n] :: !IsNews(e.observed, after)
  {
    forall k | 0 <= k < n ensures !IsNews(entries[k].observed, after) {
      assert n - 1 == k || k < n - 1;
    }
  }

  /** With no channel to wait on, the hold lasts its full interval and reports nothing. */
  lemma NoChannelNoNews(s: State, steps: seq<Step>)
    requires Fresh(s) && Runs(s, steps)
    requires End(s, steps).hold.Answered? && End(s, steps).hold.on.None?
    ensures !End(s, steps).hold.news && End(s, steps).late
  {
    RunKeeps(s, steps);
  }

  // ------------------------------------------------------------ exactly when news can be missed

  /** How many values came before the first late one. */
  function FirstLate(entries: seq<Entry>): (n: nat)
    ensures n <= |entries| && (forall k | 0 <= k < n :: !entries[k].late) && (n < |entries| ==> entries[n].late)
  {
    if entries == [] || entries[0].late then 0 else 1 + FirstLate(entries[1..])
  }

  /** Values are timely until the deadline and late from then on. */
  ghost predicate Staged(entries: seq<Entry>) {
    forall i, j | 0 <= i < j < |entries| :: entries[i].late ==> entries[j].late
  }

  /**
   The newest timely value, or one of the late ones that replaced it, is no news; or there is
   nothing timely at all.
   */
  ghost predicate Missable(entries: seq<Entry>, after: nat) {
    exists n | FirstLate(entries) <= n <= |entries| :: Stale(entries, n, after)
  }

  /** Some run, from a hold not yet started, ends with the hold's false answer on a channel of this history. */
  ghost predicate AnswersFalse(entries: seq<Entry>, after: nat) {
    exists s, steps, k, n :: FalseRun(entries, after, s, steps, k, n)
  }

  ghost predicate FalseRun(entries: seq<Entry>, after: nat, s: State, steps: seq<Step>, k: nat, n: nat) {
    && Fresh(s) && s.after == after && Runs(s, steps)
    && End(s, steps).hold == Answered(false, Some(k), n)
    && k < |End(s, steps).channels| && End(s, steps).channels[k].entries == entries
  }

  lemma {:induction false} AfterIsFixed(s: State, steps: seq<Step>)
    requires RegistryOk(s) && HoldInRange(s) && Runs(s, steps)
    ensures End(s, steps).after == s.after
    decreases |steps|
  {
    if steps != [] {
      RegistryStaysOk(s, steps[0]);
      AfterIsFixed(After(s, steps[0]), steps[1..]);
    }
  }

  /** Whatever the interleaving, a false answer is only given where the history lets news be missed. */
  lemma {:induction false} FalseOnlyIfMissable(entries: seq<Entry>, after: nat, s: State, steps: seq<Step>, k: nat, n: nat)
    requires FalseRun(entries, after, s, steps, k, n)
    ensures FirstLate(entries) <= n <= |entries| && Stale(entries, n, after)
  {
    RunKeeps(s, steps);
    AfterIsFixed(s, steps);
    hide Runs, End;
    assert AnswerOk(End(s, steps), false, k, n);
    LateFrom(entries, n);
  }

  lemma {:induction false} LateFrom(entries: seq<Entry>, n: nat)
    requires n <= |entries| && forall k | n <= k < |entries| :: entries[k].late
    ensures FirstLate(entries) <= n
  {
    if n > 0 && !entries[0].late {
      LateFrom(entries[1..], n - 1);
    }
  }

  /** One completion's channel and the hold on it. */
  function Only(id: Id, after: nat, entries: seq<Entry>, hold: Hold, late: bool): State {
    State(map[id := 0], [Channel(id, entries, true)], id, after, hold, late)
  }

  predicate OnFirst(hold: Hold) {
    hold.Looking? || hold.Waiting? ==> hold.channel == 0
  }

  lemma OnlyOk(id: Id, after: nat, entries: seq<Entry>, hold: Hold, late: bool)
    requires OnFirst(hold)
    ensures RegistryOk(Only(id, after, entries, hold, late)) && HoldInRange(Only(id, after, entries, hold, late))
  {
  }

  ghost predicate Leads(s: State, t: State) {
    RegistryOk(s) && HoldInRange(s) && exists steps :: Runs(s, steps) && End(s, steps) == t
  }

  lemma StaysLeads(s: State)
    requires RegistryOk(s) && HoldInRange(s)
    ensures Leads(s, s)
  {
    assert Runs(s, []) && End(s, []) == s;
  }

  lemma StepLeads(s: State, step: Step, t: State)
    requires RegistryOk(s) && HoldInRange(s) && Enabled(s, step) && Leads(After(s, step), t)
    ensures Leads(s, t)
  {
    hide RegistryOk, HoldInRange, Enabled, After;
    var steps :| Runs(After(s, step), steps) && End(After(s, step), steps) == t;
    var all := [step] + steps;
    assert all[0] == step && all[1..] == steps;
    assert Runs(s, all) && End(s, all) == t;
  }

  /** Publishing the rest of a history, all of it timely or all of it late. */
  lemma {:induction false} PublishesLead(id: Id, after: nat, hold: Hold, late: bool, entries: seq<Entry>, n: nat, t: State)
    requires n <= |entries| && OnFirst(hold) && forall k | n <= k < |entries| :: entries[k].late == late
    requires Leads(Only(id, after, entries, hold, late), t)
    ensures Leads(Only(id, after, entries[..n], hold, late), t)
    decreases |entries| - n
  {
    if n == |entries| {
      assert entries[..n] == entries;
    } else {
      PublishesLead(id, after, hold, late, entries, n + 1, t);
      PublishReaches(id, after, hold, late, entries[..n], entries[n].observed);
      assert entries[..n] + [entries[n]] == entries[..n + 1];
      hide Leads;
      StepLeads(Only(id, after, entries[..n], hold, late), Publish(id, entries[n].observed), t);
    }
  }

  lemma PublishReaches(id: Id, after: nat, hold: Hold, late: bool, entries: seq<Entry>, value: Observed)
    requires OnFirst(hold)
    ensures RegistryOk(Only(id, after, entries, hold, late)) && HoldInRange(Only(id, after, entries, hold, late))
    ensures After(Only(id, after, entries, hold, late), Publish(id, value)) == Only(id, after, entries + [Entry(value, late)], hold, late)
  {
  }

  /** Past its deadline, a hold whose newest value is no news looks once more and times out. */
  lemma StaleTimesOut(id: Id, after: nat, entries: seq<Entry>, t: State)
    requires Stale(entries, |entries|, after)
    requires Leads(Only(id, after, entries, Answered(false, Some(0), |entries|), true), t)
    ensures Leads(Only(id, after, entries, Waiting(0, 0), true), t)
  {
    hide Leads, Runs, End;
    var waiting, looking := Only(id, after, entries, Waiting(0, 0), true), Only(id, after, entries, Looking(0), true);
    var looked := Only(id, after, entries, Waiting(0, |entries|), true);
    StepLeads(looked, TimesOut, t);
    if entries != [] {
      StepLeads(looking, Look, t);
      StepLeads(waiting, Changed, t);
    }
  }

  /** A hold that nobody has started, over an empty registry, can be brought to wait before anything is published. */
  lemma StartLeads(id: Id, after: nat, t: State)
    requires Leads(Only(id, after, [], Waiting(0, 0), false), t)
    ensures Leads(State(map[], [], id, after, Idle, false), t)
  {
    hide Leads, Runs, End;
    var start, supervised := State(map[], [], id, after, Idle, false), Only(id, after, [], Idle, false);
    StepLeads(Only(id, after, [], Looking(0), false), Look, t);
    StepLeads(supervised, HoldStarts, t);
    assert After(start, Supervise(id)) == supervised;
    StepLeads(start, Supervise(id), t);
  }

  /** Where the history lets news be missed, some run from a fresh start misses it. */
  lemma {:induction false} OutOfOrderNewsIsLost(id: Id, after: nat, entries: seq<Entry>, n: nat)
    requires Staged(entries) && FirstLate(entries) <= n <= |entries| && Stale(entries, n, after)
    ensures Leads(State(map[], [], id, after, Idle, false), Only(id, after, entries, Answered(false, Some(0), n), true))
  {
    hide Leads;
    var m := FirstLate(entries);
    var answer := Answered(false, Some(0), n);
    var t := Only(id, after, entries, answer, true);
    forall k | m <= k < |entries| ensures entries[k].late { assert k == m || m < k; }
    OnlyOk(id, after, entries, answer, true);
    StaysLeads(t);
    PublishesLead(id, after, answer, true, entries, n, t);
    StaleTimesOut(id, after, entries[..n], t);
    PublishesLead(id, after, Waiting(0, 0), true, entries[..n], m, t);
    assert entries[..n][..m] == entries[..m];
    OnlyOk(id, after, entries[..m], Waiting(0, 0), false);
    StepLeads(Only(id, after, entries[..m], Waiting(0, 0), false), DeadlinePasses, t);
    PublishesLead(id, after, Waiting(0, 0), false, entries[..m], 0, t);
    assert entries[..m][..0] == [];
    StartLeads(id, after, t);
  }

  /**
   Exactly when: for every history a channel can have, some run ends with a false answer on it
   if and only if the newest timely value, or a late one after it, is no news.
   */
  lemma FalseIffMissable(entries: seq<Entry>, after: nat)
    requires Staged(entries)
    ensures AnswersFalse(entries, after) <==> Missable(entries, after)
  {
    if AnswersFalse(entries, after) {
      var s, steps, k, n :| FalseRun(entries, after, s, steps, k, n);
      FalseOnlyIfMissable(entries, after, s, steps, k, n);
    }
    if Missable(entries, after) {
      var n :| FirstLate(entries) <= n <= |entries| && Stale(entries, n, after);
      OutOfOrderNewsIsLost(0, after, entries, n);
      LeadsIsRun(entries, after, n);
    }
  }

  lemma LeadsIsRun(entries: seq<Entry>, after: nat, n: nat)
    requires Leads(State(map[], [], 0, after, Idle, false), Only(0, after, entries, Answered(false, Some(0), n), true))
    ensures AnswersFalse(entries, after)
  {
    var s, t := State(map[], [], 0, after, Idle, false), Only(0, after, entries, Answered(false, Some(0), n), true);
    var steps :| Runs(s, steps) && End(s, steps) == t;
    assert FalseRun(entries, after, s, steps, 0, n);
  }

  /**
   With nothing published late the newest value alone decides: a run can answer false exactly
   when nothing came, or the newest revision is not past the caller's and still active.
   */
  lemma NewestTimelyDecides(entries: seq<Entry>, after: nat)
    requires forall e | e in entries :: !e.late
    ensures AnswersFalse(entries, after) <==>
      entries == [] || (entries[|entries| - 1].observed.revision <= after && entries[|entries| - 1].observed.active)
  {
    hide AnswersFalse;
    var n := |entries|;
    assert Staged(entries) by { assert forall i | 0 <= i < n :: entries[i] in entries; }
    FalseIffMissable(entries, after);
    assert FirstLate(entries) == n;
    assert Stale(entries, n, after) ==> Missable(entries, after);
  }

  /** In-order publication is safe: once news came in time, no history after it can be missed. */
  lemma NewsInTimeIsSafe(entries: seq<Entry>, after: nat)
    requires NewsStays(entries, after) && NewsAmong(entries[..FirstLate(entries)], after)
    ensures !Missable(entries, after)
  {
    var k :| 0 <= k < FirstLate(entries) && IsNews(entries[k].observed, after);
    forall n | FirstLate(entries) <= n <= |entries|
      ensures !Stale(entries, n, after)
    {
      assert k == n - 1 || k < n - 1;
    }
  }

  /** A late value that is no news can hide timely news from a hold that had not looked yet. */
  lemma LateValueHidesNews(news: Observed, stale: Observed, after: nat)
    requires IsNews(news, after) && !IsNews(stale, after)
    ensures AnswersFalse([Entry(news, false), Entry(stale, true)], after)
  {
    var entries := [Entry(news, false), Entry(stale, true)];
    assert Stale(entries, 2, after) && FirstLate(entries) <= 2 == |entries|;
    FalseIffMissable(entries, after);
  }

  /** A true answer always rests on news: the value the hold looked at last. */
  lemma TrueMeansNews(s: State, steps: seq<Step>)
    requires Fresh(s) && Runs(s, steps)
    requires End(s, steps).hold.Answered? && End(s, steps).hold.news
    ensures var e := End(s, steps);
      && e.hold.on.Some? && e.hold.on.value < |e.channels| && e.channels[e.hold.on.value].id == e.id
      && 0 < e.hold.count <= |e.channels[e.hold.on.value].entries|
      && var o := e.channels[e.hold.on.value].entries[e.hold.count - 1].observed; o.revision > e.after || !o.active
  {
    RunKeeps(s, steps);
    hide Runs, End;
    var e := End(s, steps);
    assert Inv(e);
  }

  // ------------------------------------------------------------ the hold ends

  predicate OwnStep(step: Step) { step.Look? || step.Changed? || step.Closed? || step.TimesOut? || step.SleepEnds? }

  /** Nothing keeps the hold any longer: the deadline has passed, or its channel's guard was dropped. */
  ghost predicate Due(s: State)
    requires HoldInRange(s)
  {
    s.late || ((s.hold.Looking? || s.hold.Waiting?) && !s.channels[s.hold.channel].open)
  }

  lemma {:induction false} Stepped(s: State, step: Step, more: seq<Step>)
    requires RegistryOk(s) && HoldInRange(s) && Enabled(s, step)
    requires RegistryOk(After(s, step)) && HoldInRange(After(s, step)) && Runs(After(s, step), more)
    ensures Runs(s, [step] + more) && End(s, [step] + more) == End(After(s, step), more)
  {
    assert ([step] + more)[1..] == more;
  }

  /** How many of its own steps a started hold may need. */
  function Left(s: State): nat
    requires HoldInRange(s)
  {
    match s.hold
    case Looking(_) => 2
    case Waiting(k, seen) => if |s.channels[k].entries| > seen then 3 else 1
    case Asleep => 1
    case _ => 0
  }

  /** Left alone, a hold that is due answers within three steps of its own, whatever state a run left it in. */
  lemma {:induction false} HoldConcludes(s: State) returns (more: seq<Step>)
    requires Inv(s) && !s.hold.Idle? && (s.hold.Answered? || Due(s))
    ensures Runs(s, more) && End(s, more).hold.Answered?
    ensures |more| <= Left(s) && forall i | 0 <= i < |more| :: OwnStep(more[i])
    decreases Left(s)
  {
    if s.hold.Answered? {
      more := [];
    } else {
      var step := NextOwn(s);
      StepKeeps(s, step);
      var t := After(s, step);
      more := HoldConcludes(t);
      Stepped(s, step, more);
      more := [step] + more;
    }
  }

  lemma {:induction false} NextOwn(s: State) returns (step: Step)
    requires Inv(s) && !s.hold.Idle? && !s.hold.Answered? && Due(s)
    ensures OwnStep(step) && Enabled(s, step)
    ensures var t := After(s, step); HoldInRange(t) && !t.hold.Idle? && Left(t) < Left(s) && (t.hold.Answered? || Due(t))
  {
    match s.hold
    case Looking(_) => step := Look;
    case Waiting(k, seen) =>
      if |s.channels[k].entries| > seen { step := Changed; } else if s.channels[k].open { step := TimesOut; } else { step := Closed; }
    case Asleep => step := SleepEnds;
  }

  /** A hold begins before its deadline and looks at the channel registered for its completion, or sleeps where there is none. */
  lemma HoldBegins(s: State)
    requires Inv(s) && s.hold.Idle?
    ensures Enabled(s, HoldStarts) <==> !s.late
    ensures !s.late ==> var t := After(s, HoldStarts);
      if s.id in s.registry then t.hold == Looking(s.registry[s.id]) && t.channels[t.hold.channel].id == s.id && t.channels[t.hold.channel].open
      else t.hold == Asleep
  {
  }
}
