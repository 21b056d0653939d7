/** Several awaiters of one task, interleaved at their suspension points. */
module Await {
  import opened Wrappers

  type Value = nat
  type Diagnostic = nat

  /** The empty dict, which `await` leaves in the shared state while it waits. */
  const EMPTY_DICT: Value := 0

  /** Errors built by `await` carry the call site of the awaiter that built them. */
  datatype Error = Own(code: nat) | TaskPanicked(info: nat, at: nat) | AwaitCancelled(at: nat)

  datatype Outcome = Ok(value: Value) | Err(error: Error)

  /** What the join handle yields. */
  datatype Join = Finished(outcome: Outcome, diagnostics: seq<Diagnostic>) | Panicked(info: nat)

  /** The state behind the task's mutex. */
  datatype TaskState = Pending | Done(outcome: Outcome, diagnostics: seq<Diagnostic>)

  const SENTINEL: TaskState := Done(Ok(EMPTY_DICT), [])

  /** Where an `await` stands.  `Racing` holds the lock and the join handle. */
  datatype Awaiter =
    | Idle
    | Queued
    | Racing
    | Returned(outcome: Outcome, diagnostics: seq<Diagnostic>)
    | Dropped(racing: bool)

  datatype State = State(
    join: Option<Join>,
    shared: TaskState,
    owner: Option<nat>,
    awaiters: seq<Awaiter>,
    cancelled: set<nat>)

  /** `Complete`: the task ends.  `Cancel`: an awaiter's context is cancelled.  The others are what
      one awaiter does between two suspension points; `Drop` drops its future where it stands. */
  datatype Event =
    | Complete(join: Join)
    | Cancel(i: nat)
    | Start(i: nat)
    | Lock(i: nat)
    | Joined(i: nat)
    | SeeCancel(i: nat)
    | Drop(i: nat)

  function Init(n: nat): State {
    State(None, Pending, None, seq(n, _ => Idle), {})
  }

  function OutcomeOf(j: Join, i: nat): Outcome {
    match j
    case Finished(outcome, _) => outcome
    case Panicked(info) => Err(TaskPanicked(info, i))
  }

  function DiagnosticsOf(j: Join): seq<Diagnostic> {
    match j
    case Finished(_, diagnostics) => diagnostics
    case Panicked(_) => []
  }

  predicate Enabled(s: State, e: Event) {
    match e
    case Complete(_) => s.join.None?
    case Cancel(i) => true
    case Start(i) => i < |s.awaiters| && s.awaiters[i].Idle?
    case Lock(i) => i < |s.awaiters| && s.awaiters[i].Queued? && s.owner.None?
    case Joined(i) => i < |s.awaiters| && s.awaiters[i].Racing? && s.join.Some?
    case SeeCancel(i) => i < |s.awaiters| && s.awaiters[i].Racing? && i in s.cancelled
    case Drop(i) => i < |s.awaiters| && (s.awaiters[i].Queued? || s.awaiters[i].Racing?)
  }

  /** An event that cannot happen leaves the state alone. */
  function Step(s: State, e: Event): State {
    if !Enabled(s, e) then s
    else match e
      case Complete(j) => s.(join := Some(j))
      case Cancel(i) => s.(cancelled := s.cancelled + {i})
      case Start(i) => s.(awaiters := s.awaiters[i := Queued])
      case Lock(i) =>
        (match s.shared
         case Pending => s.(shared := SENTINEL, owner := Some(i), awaiters := s.awaiters[i := Racing])
         case Done(outcome, diagnostics) =>
           s.(shared := Done(outcome, []), awaiters := s.awaiters[i := Returned(outcome, diagnostics)]))
      case Joined(i) =>
        var outcome := OutcomeOf(s.join.value, i);
        s.(shared := Done(outcome, []), owner := None,
           awaiters := s.awaiters[i := Returned(outcome, DiagnosticsOf(s.join.value))])
      case SeeCancel(i) =>
        var outcome := Err(AwaitCancelled(i));
        s.(shared := Done(outcome, []), owner := None, awaiters := s.awaiters[i := Returned(outcome, [])])
      case Drop(i) =>
        if s.awaiters[i].Racing? then s.(owner := None, awaiters := s.awaiters[i := Dropped(true)])
        else s.(awaiters := s.awaiters[i := Dropped(false)])
  }

  function Exec(s: State, events: seq<Event>): State
    decreases |events|
  {
    if events == [] then s else Exec(Step(s, events[0]), events[1..])
  }

  // ---------- what every step keeps ----------

  /** Some awaiter was dropped while it held the lock and the handle. */
  predicate HandleLost(s: State) {
    exists i :: 0 <= i < |s.awaiters| && s.awaiters[i] == Dropped(true)
  }

  /** The task's own outcome as some awaiter would report it, or the cancellation of an awaiter
      whose context was cancelled. */
  predicate Legitimate(s: State, o: Outcome) {
    || (s.join.Some? && s.join.value.Finished? && o == s.join.value.outcome)
    || (s.join.Some? && s.join.value.Panicked? && o.Err? && o.error.TaskPanicked? && o.error.info == s.join.value.info)
    || (o.Err? && o.error.AwaitCancelled? && o.error.at in s.cancelled)
  }

  predicate LockInv(s: State) {
    && (s.owner.Some? ==> s.owner.value < |s.awaiters| && s.awaiters[s.owner.value].Racing? && s.shared == SENTINEL)
    && (forall i :: 0 <= i < |s.awaiters| && s.awaiters[i].Racing? ==> s.owner == Some(i))
  }

  /** While the handle is in the state, or in an awaiter's hands, nobody has returned or lost it. */
  predicate UndecidedInv(s: State) {
    s.shared.Pending? || s.owner.Some? ==>
      forall i :: 0 <= i < |s.awaiters| ==> !s.awaiters[i].Returned? && s.awaiters[i] != Dropped(true)
  }

  predicate DecidedInv(s: State) {
    s.shared.Done? && s.owner.None? ==>
      && s.shared.diagnostics == []
      && (forall i :: 0 <= i < |s.awaiters| && s.awaiters[i].Returned? ==> s.awaiters[i].outcome == s.shared.outcome)
      && (if HandleLost(s) then s.shared == SENTINEL else Legitimate(s, s.shared.outcome))
  }

  predicate Reports(s: State, i: int)
    requires 0 <= i < |s.awaiters|
  {
    s.awaiters[i].Returned? && s.awaiters[i].diagnostics != []
  }

  predicate DiagnosticsInv(s: State) {
    && (forall i, j :: 0 <= i < |s.awaiters| && 0 <= j < |s.awaiters| && Reports(s, i) && Reports(s, j) ==> i == j)
    && (forall i :: 0 <= i < |s.awaiters| && Reports(s, i) ==>
          s.join.Some? && s.awaiters[i].diagnostics == DiagnosticsOf(s.join.value))
  }

  predicate Inv(s: State) {
    LockInv(s) && UndecidedInv(s) && DecidedInv(s) && DiagnosticsInv(s)
  }

  lemma InitInv(n: nat)
    ensures Inv(Init(n))
  {
  }

  lemma LostMonotone(s: State, e: Event)
    requires HandleLost(s)
    ensures HandleLost(Step(s, e))
  {
    var i :| 0 <= i < |s.awaiters| && s.awaiters[i] == Dropped(true);
    assert Step(s, e).awaiters[i] == Dropped(true);
  }

  lemma LockKept(s: State, e: Event)
    requires Inv(s)
    ensures LockInv(Step(s, e))
  {
  }

  lemma UndecidedKept(s: State, e: Event)
    requires Inv(s)
    ensures UndecidedInv(Step(s, e))
  {
  }

  lemma DecidedKept(s: State, e: Event)
    requires Inv(s)
    ensures DecidedInv(Step(s, e))
  {
    var t := Step(s, e);
    if Enabled(s, e) {
      match e {
        case Drop(i) =>
          assert t.awaiters[i].Dropped?;
          if s.awaiters[i].Racing? { assert t.awaiters[i] == Dropped(true); }
          else { LostSame(s, t, i); }
        case Joined(i) => LostSame(s, t, i);
        case SeeCancel(i) => LostSame(s, t, i);
        case Lock(i) => LostSame(s, t, i);
        case Start(i) => LostSame(s, t, i);
        case Cancel(_) => assert HandleLost(t) == HandleLost(s);
        case Complete(_) => assert HandleLost(t) == HandleLost(s);
      }
    }
  }

  /** Changing one awaiter without dropping it mid-race neither loses nor recovers the handle. */
  lemma LostSame(s: State, t: State, i: nat)
    requires i < |s.awaiters| == |t.awaiters| && s.awaiters[i] != Dropped(true)
    requires t.awaiters == s.awaiters[i := t.awaiters[i]]
    requires t.awaiters[i] != Dropped(true)
    ensures HandleLost(t) == HandleLost(s)
  {
    if HandleLost(s) {
      var k :| 0 <= k < |s.awaiters| && s.awaiters[k] == Dropped(true);
      assert t.awaiters[k] == Dropped(true);
    }
    if HandleLost(t) {
      var k :| 0 <= k < |t.awaiters| && t.awaiters[k] == Dropped(true);
      assert s.awaiters[k] == Dropped(true);
    }
  }

  lemma DiagnosticsKept(s: State, e: Event)
    requires Inv(s)
    ensures DiagnosticsInv(Step(s, e))
  {
    var t := Step(s, e);
    if Enabled(s, e) && e.Joined? {
      assert s.owner == Some(e.i);
      assert forall k :: 0 <= k < |t.awaiters| && Reports(t, k) ==> k == e.i;
    } else {
      assert |t.awaiters| == |s.awaiters|;
      assert forall k :: 0 <= k < |t.awaiters| && Reports(t, k) ==> Reports(s, k) && t.awaiters[k] == s.awaiters[k];
    }
  }

  lemma StepKeepsInv(s: State, e: Event)
    requires Inv(s)
    ensures Inv(Step(s, e))
  {
    LockKept(s, e);
    UndecidedKept(s, e);
    DecidedKept(s, e);
    DiagnosticsKept(s, e);
  }

  lemma {:induction false} ExecKeepsInv(s: State, events: seq<Event>)
    requires Inv(s)
    ensures Inv(Exec(s, events))
    decreases |events|
  {
    if events != [] {
      StepKeepsInv(s, events[0]);
      ExecKeepsInv(Step(s, events[0]), events[1..]);
    }
  }

  // ---------- what holds of every run ----------

  /** However the awaiters, the task, cancellations and drops interleave, all completed awaits
      report one outcome.  It is the empty dict left behind when the awaiter holding the handle was
      dropped; otherwise it is the task's outcome or a cancellation. */
  lemma AwaitAgreement(n: nat, events: seq<Event>, i: nat, j: nat)
    requires i < |Exec(Init(n), events).awaiters| && Exec(Init(n), events).awaiters[i].Returned?
    requires j < |Exec(Init(n), events).awaiters| && Exec(Init(n), events).awaiters[j].Returned?
    ensures var s := Exec(Init(n), events);
            && s.awaiters[i].outcome == s.awaiters[j].outcome
            && (!HandleLost(s) ==> Legitimate(s, s.awaiters[i].outcome))
            && (HandleLost(s) ==> s.awaiters[i].outcome == Ok(EMPTY_DICT))
  {
    InitInv(n);
    ExecKeepsInv(Init(n), events);
  }

  /** The task's diagnostics reach at most one awaiter, whole. */
  lemma DiagnosticsReachOne(n: nat, events: seq<Event>, i: nat, j: nat)
    requires i < |Exec(Init(n), events).awaiters| && Reports(Exec(Init(n), events), i)
    requires j < |Exec(Init(n), events).awaiters|
    ensures var s := Exec(Init(n), events);
            && s.join.Some? && s.awaiters[i].diagnostics == DiagnosticsOf(s.join.value)
            && (Reports(s, j) ==> i == j)
  {
    InitInv(n);
    ExecKeepsInv(Init(n), events);
  }

  lemma {:induction false} ReturnedStays(s: State, events: seq<Event>, i: nat)
    requires i < |s.awaiters| && s.awaiters[i].Returned?
    ensures |Exec(s, events).awaiters| == |s.awaiters|
    ensures Exec(s, events).awaiters[i] == s.awaiters[i]
    decreases |events|
  {
    if events != [] {
      assert Step(s, events[0]).awaiters[i] == s.awaiters[i];
      ReturnedStays(Step(s, events[0]), events[1..], i);
    }
  }

  lemma {:induction false} ExecConcat(s: State, a: seq<Event>, b: seq<Event>)
    ensures Exec(s, a + b) == Exec(Exec(s, a), b)
    decreases |a|
  {
    if a == [] {
      assert a + b == b;
    } else {
      assert (a + b)[1..] == a[1..] + b;
      ExecConcat(Step(s, a[0]), a[1..], b);
    }
  }

  /** The first outcome an await reports is the one every later await reports, whatever happens
      in between: later cancellations and even the task's own end no longer matter. */
  lemma FirstOutcomeIsFinal(n: nat, before: seq<Event>, after: seq<Event>, i: nat, j: nat)
    requires i < |Exec(Init(n), before).awaiters| && Exec(Init(n), before).awaiters[i].Returned?
    requires j < |Exec(Init(n), before + after).awaiters| && Exec(Init(n), before + after).awaiters[j].Returned?
    ensures Exec(Init(n), before + after).awaiters[j].outcome == Exec(Init(n), before).awaiters[i].outcome
  {
    ExecConcat(Init(n), before, after);
    ReturnedStays(Exec(Init(n), before), after, i);
    AwaitAgreement(n, before + after, i, j);
  }

  // ---------- who decides, and who gets the diagnostics ----------

  /** Awaiter `i` decided the outcome, by the task's end or by its own cancellation; the diagnostics
      are all with it. */
  predicate Decider(s: State, i: int) {
    && 0 <= i < |s.awaiters| && s.shared.Done? && s.awaiters[i].Returned? && s.awaiters[i].outcome == s.shared.outcome
    && (|| (s.join.Some? && s.awaiters[i] == Returned(OutcomeOf(s.join.value, i), DiagnosticsOf(s.join.value)))
        || (i in s.cancelled && s.awaiters[i] == Returned(Err(AwaitCancelled(i)), [])))
    && forall k :: 0 <= k < |s.awaiters| && k != i && s.awaiters[k].Returned? ==>
         s.awaiters[k] == Returned(s.shared.outcome, [])
  }

  predicate Decided(s: State) {
    exists i :: 0 <= i < |s.awaiters| && Decider(s, i)
  }

  predicate EmptyAnswer(a: Awaiter) {
    a.Returned? ==> a == Returned(Ok(EMPTY_DICT), [])
  }

  predicate DeciderInv(s: State) {
    s.shared.Done? && s.owner.None? ==>
      if HandleLost(s) then forall k :: 0 <= k < |s.awaiters| ==> EmptyAnswer(s.awaiters[k]) else Decided(s)
  }

  lemma DeciderStays(s: State, e: Event, i: nat)
    requires Inv(s) && Decider(s, i) && s.owner.None?
    ensures Decider(Step(s, e), i)
  {
  }

  lemma NewDecider(s: State, e: Event)
    requires Inv(s) && s.owner.Some? && Step(s, e).owner.None? && !HandleLost(Step(s, e))
    ensures s.owner.value < |s.awaiters| && Decider(Step(s, e), s.owner.value)
  {
    var i := s.owner.value;
    assert Step(s, e).awaiters[i] != Dropped(true);
    assert e == Joined(i) || e == SeeCancel(i);
  }

  /** The event that loses the handle finds nobody returned; later ones find the empty dict. */
  lemma LostAnswers(s: State, e: Event, k: nat)
    requires Inv(s) && DeciderInv(s) && HandleLost(Step(s, e)) && Step(s, e).owner.None?
    requires k < |s.awaiters| == |Step(s, e).awaiters|
    ensures EmptyAnswer(Step(s, e).awaiters[k])
  {
    if HandleLost(s) {
      assert EmptyAnswer(s.awaiters[k]);
    } else {
      NewlyLost(s, e);
    }
  }

  lemma NewlyLost(s: State, e: Event)
    requires Inv(s) && HandleLost(Step(s, e)) && !HandleLost(s)
    ensures s.owner.Some? && e == Drop(s.owner.value)
  {
    var k :| 0 <= k < |Step(s, e).awaiters| && Step(s, e).awaiters[k] == Dropped(true);
    assert s.awaiters[k] != Dropped(true);
  }

  lemma DeciderKept(s: State, e: Event)
    requires Inv(s) && DeciderInv(s)
    ensures DeciderInv(Step(s, e))
  {
    var t := Step(s, e);
    assert |t.awaiters| == |s.awaiters|;
    if t.shared.Done? && t.owner.None? {
      if HandleLost(t) {
        forall k | 0 <= k < |t.awaiters| ensures EmptyAnswer(t.awaiters[k]) { LostAnswers(s, e, k); }
      } else if s.owner.Some? {
        NewDecider(s, e);
      } else {
        if HandleLost(s) { LostMonotone(s, e); }
        assert s.shared.Done? && Decided(s);
        var i :| 0 <= i < |s.awaiters| && Decider(s, i);
        DeciderStays(s, e, i);
      }
    }
  }

  lemma {:induction false} ExecKeepsDecider(s: State, events: seq<Event>)
    requires Inv(s) && DeciderInv(s)
    ensures Inv(Exec(s, events)) && DeciderInv(Exec(s, events))
    decreases |events|
  {
    if events != [] {
      StepKeepsInv(s, events[0]);
      DeciderKept(s, events[0]);
      ExecKeepsDecider(Step(s, events[0]), events[1..]);
    }
  }

  /** In every run, once somebody returned and no holder was dropped, one awaiter decided: it returned
      the task's outcome with all of the task's diagnostics, or its own cancellation, and everybody else
      returns the same outcome without diagnostics. */
  lemma OneDecides(n: nat, events: seq<Event>, i: nat)
    requires i < |Exec(Init(n), events).awaiters| && Exec(Init(n), events).awaiters[i].Returned?
    requires !HandleLost(Exec(Init(n), events))
    ensures Decided(Exec(Init(n), events))
  {
    InitInv(n);
    ExecKeepsDecider(Init(n), events);
  }

  predicate TaskOutcome(j: Join, o: Outcome) {
    match j
    case Finished(outcome, _) => o == outcome
    case Panicked(info) => o.Err? && o.error.TaskPanicked? && o.error.info == info
  }

  /** Where an await reported the task's own outcome, and it is no cancellation, exactly one awaiter
      received the task's diagnostics: the others report none. */
  lemma DiagnosticsReachExactlyOne(n: nat, events: seq<Event>, i: nat) returns (k: nat)
    requires var s := Exec(Init(n), events);
      && i < |s.awaiters| && s.awaiters[i].Returned? && !HandleLost(s)
      && s.join.Some? && TaskOutcome(s.join.value, s.awaiters[i].outcome)
      && !(s.awaiters[i].outcome.Err? && s.awaiters[i].outcome.error.AwaitCancelled?)
    ensures var s := Exec(Init(n), events);
      && k < |s.awaiters| && s.awaiters[k].Returned? && s.awaiters[k].diagnostics == DiagnosticsOf(s.join.value)
      && forall l :: 0 <= l < |s.awaiters| && l != k && s.awaiters[l].Returned? ==> s.awaiters[l].diagnostics == []
  {
    var s := Exec(Init(n), events);
    OneDecides(n, events, i);
    AwaitAgreement(n, events, i, i);
    k :| 0 <= k < |s.awaiters| && Decider(s, k);
  }

  // ---------- what the awaiter that races gets ----------

  /** Awaiter `i` holds the handle and the task has ended. */
  predicate Awaited(s: State, i: nat, j: Join) {
    i < |s.awaiters| && s.awaiters[i].Racing? && s.owner == Some(i) && s.join == Some(j)
  }

  lemma {:induction false} AwaitedArrives(s: State, i: nat, j: Join, later: seq<Event>)
    requires Inv(s) && Awaited(s, i, j) && SeeCancel(i) !in later && Drop(i) !in later
    ensures var u := Exec(s, later);
      if Joined(i) in later then i < |u.awaiters| && u.awaiters[i] == Returned(OutcomeOf(j, i), DiagnosticsOf(j))
      else Awaited(u, i, j)
    decreases |later|
  {
    if later != [] {
      var e := later[0];
      assert e in later;
      if e == Joined(i) {
        ReturnedStays(Step(s, e), later[1..], i);
      } else {
        StepKeepsInv(s, e);
        assert Awaited(Step(s, e), i, j);
        AwaitedArrives(Step(s, e), i, j, later[1..]);
        assert later == [e] + later[1..];
      }
    }
  }

  /** The awaiter that holds the handle returns what the task ends with, diagnostics included, whatever
      else happens, unless it is dropped or acts on its own cancellation. */
  lemma HolderGetsOutcome(n: nat, before: seq<Event>, i: nat, j: Join, later: seq<Event>)
    requires var s := Exec(Init(n), before);
      s.owner == Some(i) && s.join.None?
    requires SeeCancel(i) !in later && Drop(i) !in later
    ensures var u := Exec(Step(Exec(Init(n), before), Complete(j)), later);
      if Joined(i) in later then i < |u.awaiters| && u.awaiters[i] == Returned(OutcomeOf(j, i), DiagnosticsOf(j))
      else Awaited(u, i, j)
  {
    InitInv(n);
    ExecKeepsInv(Init(n), before);
    var s := Exec(Init(n), before);
    StepKeepsInv(s, Complete(j));
    AwaitedArrives(Step(s, Complete(j)), i, j, later);
  }

  lemma TwoSteps(s: State, e: Event, f: Event)
    ensures Exec(s, [e, f]) == Step(Step(s, e), f)
  {
    assert [e, f][1..] == [f] && [f][1..] == [];
    assert Exec(Step(s, e), [f]) == Exec(Step(Step(s, e), f), []);
  }

  /** The plain run: the first await returns the task's outcome with its diagnostics, the second the same
      outcome without them. */
  lemma AwaitRun(j: Join)
    ensures var s := Exec(Init(2), [Start(0), Lock(0)] + ([Complete(j), Joined(0)] + [Start(1), Lock(1)]));
      && |s.awaiters| == 2 && s.awaiters[0] == Returned(OutcomeOf(j, 0), DiagnosticsOf(j))
      && s.awaiters[1] == Returned(OutcomeOf(j, 0), [])
  {
    var s1 := Step(Init(2), Start(0));
    var s2 := Step(s1, Lock(0));
    var s3 := Step(s2, Complete(j));
    var s4 := Step(s3, Joined(0));
    var s5 := Step(s4, Start(1));
    assert s1.awaiters[0] == Queued && s2.awaiters[0] == Racing && s3.join == Some(j);
    assert s4.awaiters[0] == Returned(OutcomeOf(j, 0), DiagnosticsOf(j)) && s4.awaiters[1] == Idle;
    assert s5.awaiters[1] == Queued && s5.owner.None?;
    var s6 := Step(s5, Lock(1));
    assert |s6.awaiters| == 2 && s6.awaiters[1] == Returned(OutcomeOf(j, 0), []) && s6.awaiters[0] == s4.awaiters[0];
    ExecConcat(Init(2), [Start(0), Lock(0)], [Complete(j), Joined(0)] + [Start(1), Lock(1)]);
    TwoSteps(Init(2), Start(0), Lock(0));
    ExecConcat(s2, [Complete(j), Joined(0)], [Start(1), Lock(1)]);
    TwoSteps(s2, Complete(j), Joined(0));
    TwoSteps(s4, Start(1), Lock(1));
    assert Exec(Init(2), [Start(0), Lock(0)] + ([Complete(j), Joined(0)] + [Start(1), Lock(1)])) == s6;
  }

  /** The first end of the task among `events`. */
  function FirstEnd(events: seq<Event>): Option<Join> {
    if events == [] then None else if events[0].Complete? then Some(events[0].join) else FirstEnd(events[1..])
  }

  /** A context is cancelled by its own event only, and the task ends once. */
  lemma {:induction false} CausedByEvents(s: State, events: seq<Event>)
    ensures forall i :: i in Exec(s, events).cancelled <==> i in s.cancelled || Cancel(i) in events
    ensures Exec(s, events).join == if s.join.Some? then s.join else FirstEnd(events)
    decreases |events|
  {
    if events != [] {
      CausedByEvents(Step(s, events[0]), events[1..]);
      assert events == [events[0]] + events[1..];
    }
  }

  predicate DropsHolder(s: State, e: Event) {
    e.Drop? && e.i < |s.awaiters| && s.awaiters[e.i].Racing?
  }

  /** No event of the run drops an awaiter while it races. */
  predicate NoHolderDropped(s: State, events: seq<Event>)
    decreases |events|
  {
    events == [] || (!DropsHolder(s, events[0]) && NoHolderDropped(Step(s, events[0]), events[1..]))
  }

  /** The handle is lost exactly in the runs that drop an awaiter mid-await. */
  lemma {:induction false} LostIffHolderDropped(s: State, events: seq<Event>)
    ensures HandleLost(Exec(s, events)) <==> HandleLost(s) || !NoHolderDropped(s, events)
    decreases |events|
  {
    if events != [] {
      var e := events[0];
      var t := Step(s, e);
      LostIffHolderDropped(t, events[1..]);
      if HandleLost(s) {
        LostMonotone(s, e);
      } else if DropsHolder(s, e) {
        assert t.awaiters[e.i] == Dropped(true);
      } else {
        assert !HandleLost(t);
      }
    }
  }

  /** With no awaiter dropped mid-await, nothing but the task's outcome or a cancellation is ever
      returned: the empty dict placed under the lock is never seen, unless the task returned it. */
  lemma SentinelNeverReturned(n: nat, events: seq<Event>, i: nat)
    requires NoHolderDropped(Init(n), events)
    requires i < |Exec(Init(n), events).awaiters| && Exec(Init(n), events).awaiters[i].Returned?
    ensures Legitimate(Exec(Init(n), events), Exec(Init(n), events).awaiters[i].outcome)
  {
    LostIffHolderDropped(Init(n), events);
    AwaitAgreement(n, events, i, i);
  }

  /** Dropping the racing awaiter leaks the empty dict: the task returns 42, the next await does not. */
  lemma DropLeaksSentinel()
    ensures var s := Exec(Init(2), [Start(0), Lock(0), Drop(0), Complete(Finished(Ok(42), [])), Start(1), Lock(1)]);
            |s.awaiters| == 2 && s.join == Some(Finished(Ok(42), [])) && s.awaiters[1] == Returned(Ok(EMPTY_DICT), [])
  {
    var s0 := Init(2);
    var s1 := Step(s0, Start(0));
    var s2 := Step(s1, Lock(0));
    var s3 := Step(s2, Drop(0));
    var s4 := Step(s3, Complete(Finished(Ok(42), [])));
    var s5 := Step(s4, Start(1));
    var s6 := Step(s5, Lock(1));
    assert s2.awaiters[0] == Racing && s3.owner == None;
    assert s6.awaiters[1] == Returned(Ok(EMPTY_DICT), []);
    var events := [Start(0), Lock(0), Drop(0), Complete(Finished(Ok(42), [])), Start(1), Lock(1)];
    assert events[1..] == [Lock(0), Drop(0), Complete(Finished(Ok(42), [])), Start(1), Lock(1)];
    assert events[1..][1..] == [Drop(0), Complete(Finished(Ok(42), [])), Start(1), Lock(1)];
    assert events[1..][1..][1..] == [Complete(Finished(Ok(42), [])), Start(1), Lock(1)];
    assert events[1..][1..][1..][1..] == [Start(1), Lock(1)];
    assert events[1..][1..][1..][1..][1..] == [Lock(1)];
    assert Exec(s4, [Start(1), Lock(1)]) == s6;
    assert Exec(s3, [Complete(Finished(Ok(42), [])), Start(1), Lock(1)]) == s6;
    assert Exec(s1, events[1..]) == s6;
  }

  // ---------- the code that makes the steps ----------

  /** The shared task and its awaiters, updated in place. */
  class Runtime {
    var join: Option<Join>
    var shared: TaskState
    var owner: Option<nat>
    var awaiters: seq<Awaiter>
    var cancelled: set<nat>

    function View(): State
      reads this
    {
      State(join, shared, owner, awaiters, cancelled)
    }

    constructor (n: nat)
      ensures View() == Init(n)
    {
      join, shared, owner, awaiters, cancelled := None, Pending, None, seq(n, _ => Idle), {};
    }

    /** From taking the lock to the first suspension, or to the return when the task is done: the
        state is swapped for the sentinel, and a finished state is put back. */
    method TakeLock(i: nat)
      requires Enabled(View(), Lock(i))
      modifies this
      ensures View() == Step(old(View()), Lock(i))
    {
      var taken := shared;
      shared := SENTINEL;
      match taken {
        case Pending =>
          owner := Some(i);
          awaiters := awaiters[i := Racing];
        case Done(outcome, diagnostics) =>
          shared := Done(outcome, []);
          awaiters := awaiters[i := Returned(outcome, diagnostics)];
      }
    }

    /** The join handle wins the race: the result is cached without its diagnostics. */
    method ReceiveJoin(i: nat)
      requires Enabled(View(), Joined(i))
      modifies this
      ensures View() == Step(old(View()), Joined(i))
    {
      var outcome, diagnostics;
      match join.value {
        case Finished(o, ds) => outcome, diagnostics := o, ds;
        case Panicked(info) => outcome, diagnostics := Err(TaskPanicked(info, i)), [];
      }
      shared := Done(outcome, []);
      owner := None;
      awaiters := awaiters[i := Returned(outcome, diagnostics)];
    }

    /** The cancellation wins the race: it is cached for later awaits. */
    method ObserveCancel(i: nat)
      requires Enabled(View(), SeeCancel(i))
      modifies this
      ensures View() == Step(old(View()), SeeCancel(i))
    {
      var outcome := Err(AwaitCancelled(i));
      shared := Done(outcome, []);
      owner := None;
      awaiters := awaiters[i := Returned(outcome, [])];
    }

    /** Dropping the future releases the lock and leaves the state as it is. */
    method DropFuture(i: nat)
      requires Enabled(View(), Drop(i))
      modifies this
      ensures View() == Step(old(View()), Drop(i))
    {
      if awaiters[i].Racing? {
        owner := None;
        awaiters := awaiters[i := Dropped(true)];
      } else {
        awaiters := awaiters[i := Dropped(false)];
      }
    }
  }
}
