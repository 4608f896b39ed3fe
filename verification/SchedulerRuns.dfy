/** What holds of the alarm scheduler in every interleaving of its steps: invariant, refinement,
    convergence, delivery. */
module SchedulerRuns {
  import opened Common
  import opened AlarmDefs
  import opened SchedulerSpec

  ghost predicate Known(cfg: Config, i: AlarmIndex) {
    exists s :: (i, s) in cfg.defs
  }

  // Alarm i after the first k steps of the run.
  ghost function At(cfg: Config, es: seq<Event>, k: nat, i: AlarmIndex): Alarm
    requires k <= |es|
  {
    var st := After(cfg, es[..k]);
    if i in st.alarms then st.alarms[i] else NEW_ALARM
  }

  // Step k of the run sends an INFORM for alarm i (at the severity of its timer).
  ghost predicate Sends(cfg: Config, es: seq<Event>, k: nat, i: AlarmIndex)
    requires k < |es|
  {
    es[k].Pass? && Known(cfg, i) && Due(At(cfg, es, k, i), es[k].now)
  }

  // ---- stepping through a run ----

  lemma {:induction false} PrefixOfRun(cfg: Config, es: seq<Event>, k: nat)
    requires Run(cfg, es) && k <= |es|
    ensures Run(cfg, es[..k])
    ensures k < |es| ==> Enabled(cfg, After(cfg, es[..k]), Clock(es[..k]), es[k])
    ensures k < |es| ==> After(cfg, es[..k + 1]) == Step(cfg, After(cfg, es[..k]), es[k])
    decreases |es|
  {
    if k < |es| {
      assert Front(es[..k + 1]) == es[..k];
    }
    if k == |es| {
      assert es[..k] == es;
    } else if k + 1 == |es| {
      assert Front(es) == es[..k];
    } else {
      assert Front(es)[..k] == es[..k] && Front(es)[k] == es[k];
      PrefixOfRun(cfg, Front(es), k);
    }
  }

  lemma {:induction false} AlarmsAreKnown(cfg: Config, es: seq<Event>, i: AlarmIndex)
    requires Run(cfg, es)
    ensures i in After(cfg, es).alarms <==> Known(cfg, i)
  {
    if es == [] {
      if Known(cfg, i) {
        var s :| (i, s) in cfg.defs;
        assert (i, s).0 in Init(cfg).alarms;
      }
    } else {
      AlarmsAreKnown(cfg, Front(es), i);
      StepPointwise(cfg, After(cfg, Front(es)), Clock(Front(es)), Last(es), i);
    }
  }

  lemma StepAt(cfg: Config, es: seq<Event>, k: nat, i: AlarmIndex)
    requires Run(cfg, es) && k < |es| && Known(cfg, i)
    ensures At(cfg, es, k + 1, i) == AlarmStep(cfg, i, At(cfg, es, k, i), es[k])
    ensures es[k].Sync? ==> i in es[k].readings && Clock(es[..k]) <= es[k].readings[i] <= es[k].now
    ensures es[k].Failed? ==> (es[k].index, es[k].severity) in cfg.defs
    ensures Clock(es[..k]) <= Clock(es[..k + 1])
    ensures !es[k].Terminate? && !es[k].Exit? ==> Clock(es[..k + 1]) == es[k].now
  {
    PrefixOfRun(cfg, es, k);
    AlarmsAreKnown(cfg, es[..k], i);
    StepPointwise(cfg, After(cfg, es[..k]), Clock(es[..k]), es[k], i);
    assert Front(es[..k + 1]) == es[..k];
  }

  // ---- invariant of a single alarm ----

  ghost predicate AlarmInv(cfg: Config, i: AlarmIndex, a: Alarm, clock: nat) {
    // both severities come from definitions, so no pop ever misses its definition
    && (a.sent == UNDEFINED_SEVERITY || (i, a.sent) in cfg.defs)
    && (a.timerSeverity == UNDEFINED_SEVERITY || (i, a.timerSeverity) in cfg.defs)
    && (a.pending ==> a.timerSeverity != UNDEFINED_SEVERITY)
    // a timer out of the heap may be stale, but never at the severity last sent
    && (!a.pending && a.timerSeverity != UNDEFINED_SEVERITY ==> a.timerSeverity != a.sent)
    // nothing is scheduled further than 30 s ahead, and an increase is already due
    && (a.timerSeverity != UNDEFINED_SEVERITY ==> a.popTime <= clock + 30000)
    && (cfg.above(a.timerSeverity, a.sent) ==> a.popTime <= clock)
  }

  lemma InvStep(cfg: Config, i: AlarmIndex, a: Alarm, clock: nat, e: Event, clock': nat)
    requires ValidConfig(cfg) && AlarmInv(cfg, i, a, clock) && clock <= clock'
    requires !e.Terminate? && !e.Exit? ==> e.now == clock'
    requires e.Sync? ==> i in e.readings && e.readings[i] <= clock'
    requires e.Failed? ==> (e.index, e.severity) in cfg.defs
    ensures AlarmInv(cfg, i, AlarmStep(cfg, i, a, e), clock')
  {
  }

  lemma {:induction false} InvAt(cfg: Config, es: seq<Event>, k: nat, i: AlarmIndex)
    requires ValidConfig(cfg) && Run(cfg, es) && k <= |es| && Known(cfg, i)
    ensures AlarmInv(cfg, i, At(cfg, es, k, i), Clock(es[..k]))
  {
    if k == 0 {
      AlarmsAreKnown(cfg, es[..0], i);
    } else {
      InvAt(cfg, es, k - 1, i);
      StepAt(cfg, es, k - 1, i);
      InvStep(cfg, i, At(cfg, es, k - 1, i), Clock(es[..k - 1]), es[k - 1], Clock(es[..k]));
    }
  }

  /** Every timer in the heap has a valid definition and a manager, so the "logic error" branches
      of the heap sender, of issue_alarm and of handle_failed_alarm are never taken. */
  lemma NoLogicError(cfg: Config, es: seq<Event>, i: AlarmIndex)
    requires ValidConfig(cfg) && Run(cfg, es)
    ensures i in After(cfg, es).alarms && After(cfg, es).alarms[i].pending ==>
              Lookup(cfg.defs, i, After(cfg, es).alarms[i].timerSeverity).valid
    ensures forall s :: Lookup(cfg.defs, i, s).valid ==> i in After(cfg, es).alarms
  {
    AlarmsAreKnown(cfg, es, i);
    assert es[..|es|] == es;
    if Known(cfg, i) {
      InvAt(cfg, es, |es|, i);
    }
  }

  /** No heap entry pops later than 30 s after the latest clock reading. */
  lemma BoundedLatency(cfg: Config, es: seq<Event>, i: AlarmIndex)
    requires ValidConfig(cfg) && Run(cfg, es)
    requires i in After(cfg, es).alarms && After(cfg, es).alarms[i].pending
    ensures After(cfg, es).alarms[i].popTime <= Clock(es) + 30000
  {
    AlarmsAreKnown(cfg, es, i);
    assert es[..|es|] == es;
    InvAt(cfg, es, |es|, i);
  }

  // ---- refinement: what was sent and what is wanted ----

  /** The scheduler as its users see an alarm: the severity the NMS was told, and the one it will
      be told when nothing else happens. */
  datatype Goal = Goal(sent: Severity, wanted: Severity)

  function GoalOf(a: Alarm): Goal {
    Goal(a.sent, if a.pending then a.timerSeverity else a.sent)
  }

  // A trigger for alarm i that passes validation, and one that asks for severity s.
  ghost predicate Triggers(cfg: Config, e: Event, i: AlarmIndex) {
    e.Trigger? && e.index == i && (i, e.severity) in cfg.defs
  }

  ghost predicate TriggerFor(cfg: Config, e: Event, i: AlarmIndex, s: Severity) {
    Triggers(cfg, e, i) && e.severity == s
  }

  // The abstract machine, which has no timers: a pop delivers, whenever it comes.
  ghost function GoalStep(cfg: Config, i: AlarmIndex, g: Goal, e: Event, pop: bool): Goal {
    match e
    case Trigger(_, s, _) => if TriggerFor(cfg, e, i, s) then g.(wanted := s) else g
    case Sync(_, _) => if g.sent != UNDEFINED_SEVERITY then g.(wanted := g.sent) else g
    case Pass(_, _) => if pop then g.(sent := g.wanted) else g
    case _ => g
  }

  /** Every step of the concrete machine is the same step of the abstract one: a trigger sets what
      is wanted, a pop sends it, a sync wants what was sent, a failure report changes neither. */
  lemma RefinesGoals(cfg: Config, es: seq<Event>, k: nat, i: AlarmIndex)
    requires ValidConfig(cfg) && Run(cfg, es) && k < |es| && Known(cfg, i)
    ensures GoalOf(At(cfg, es, k + 1, i)) == GoalStep(cfg, i, GoalOf(At(cfg, es, k, i)), es[k], Sends(cfg, es, k, i))
  {
    InvAt(cfg, es, k, i);
    StepAt(cfg, es, k, i);
  }

  // Step m is the last valid trigger for alarm i before k, and asks for s.
  ghost predicate LastTrigger(cfg: Config, es: seq<Event>, m: nat, k: nat, i: AlarmIndex, s: Severity) {
    && m < k <= |es| && TriggerFor(cfg, es[m], i, s)
    && forall q | m < q < k :: !Triggers(cfg, es[q], i)
  }

  // Step q is a sync that comes while alarm i, whose severity is known, waits to change it.
  ghost predicate SyncsDuringChange(cfg: Config, es: seq<Event>, q: nat, i: AlarmIndex)
    requires q < |es|
  {
    var a := At(cfg, es, q, i);
    es[q].Sync? && a.sent != UNDEFINED_SEVERITY && a.pending && a.timerSeverity != a.sent
  }

  ghost predicate SyncedDuringChange(cfg: Config, es: seq<Event>, m: nat, k: nat, i: AlarmIndex)
    requires k <= |es|
  {
    exists q | m < q < k :: SyncsDuringChange(cfg, es, q, i)
  }

  // Without a trigger, only a sync during a change takes back what is wanted.
  lemma WantsNext(cfg: Config, es: seq<Event>, k: nat, i: AlarmIndex, s: Severity)
    requires ValidConfig(cfg) && Run(cfg, es) && k < |es| && Known(cfg, i) && !Triggers(cfg, es[k], i)
    ensures var g, g' := GoalOf(At(cfg, es, k, i)), GoalOf(At(cfg, es, k + 1, i));
            && (g.wanted == g.sent ==> g' == g && !SyncsDuringChange(cfg, es, k, i))
            && (g.wanted == s ==>
                  if SyncsDuringChange(cfg, es, k, i) then g'.wanted == g'.sent != s else g'.wanted == s)
  {
    RefinesGoals(cfg, es, k, i);
    InvAt(cfg, es, k, i);
  }

  lemma {:induction false} WantsLastTrigger(cfg: Config, es: seq<Event>, m: nat, k: nat, i: AlarmIndex, s: Severity)
    requires ValidConfig(cfg) && Run(cfg, es) && LastTrigger(cfg, es, m, k, i, s)
    ensures var g := GoalOf(At(cfg, es, k, i));
            if SyncedDuringChange(cfg, es, m, k, i) then g.wanted == g.sent != s else g.wanted == s
    decreases k
  {
    if k - 1 == m {
      RefinesGoals(cfg, es, m, i);
    } else {
      WantsLastTrigger(cfg, es, m, k - 1, i, s);
      WantsNext(cfg, es, k - 1, i, s);
      assert SyncedDuringChange(cfg, es, m, k, i) <==>
             SyncedDuringChange(cfg, es, m, k - 1, i) || SyncsDuringChange(cfg, es, k - 1, i);
    }
  }

  /** Convergence: once an alarm has nothing pending, the severity sent is the last one triggered,
      exactly when no sync came while that change was still waiting. */
  lemma SettlesOnLastTrigger(cfg: Config, es: seq<Event>, m: nat, k: nat, i: AlarmIndex, s: Severity)
    requires ValidConfig(cfg) && Run(cfg, es) && LastTrigger(cfg, es, m, k, i, s)
    requires !At(cfg, es, k, i).pending
    ensures At(cfg, es, k, i).sent == s <==> !SyncedDuringChange(cfg, es, m, k, i)
  {
    WantsLastTrigger(cfg, es, m, k, i, s);
  }

  // ---- delivery ----

  // The delay of a change from the severity sent to s.
  function DelayFor(cfg: Config, sent: Severity, s: Severity): nat {
    if cfg.above(s, sent) then ALARM_INCREASED_DELAY else ALARM_REDUCED_DELAY
  }

  // Trigger m's own delay is over at this time.
  ghost function DeadlineOf(cfg: Config, es: seq<Event>, m: nat, i: AlarmIndex): nat
    requires m < |es| && es[m].Trigger?
  {
    es[m].now + DelayFor(cfg, At(cfg, es, m, i).sent, es[m].severity)
  }

  // Either s was sent or it is scheduled for `deadline` at the latest.
  ghost predicate OnItsWay(a: Alarm, s: Severity, deadline: nat) {
    a.sent == s || (a.pending && a.timerSeverity == s && a.popTime <= deadline)
  }

  lemma OnItsWayStep(cfg: Config, i: AlarmIndex, a: Alarm, clock: nat, e: Event, s: Severity, deadline: nat)
    requires ValidConfig(cfg) && AlarmInv(cfg, i, a, clock)
    requires GoalOf(a).wanted == s && GoalOf(AlarmStep(cfg, i, a, e)).wanted == s
    requires OnItsWay(a, s, deadline) && !Triggers(cfg, e, i)
    ensures OnItsWay(AlarmStep(cfg, i, a, e), s, deadline)
  {
  }

  lemma TriggerPutsOnItsWay(cfg: Config, i: AlarmIndex, a: Alarm, clock: nat, e: Event)
    requires ValidConfig(cfg) && AlarmInv(cfg, i, a, clock) && Triggers(cfg, e, i) && clock <= e.now
    ensures OnItsWay(AlarmStep(cfg, i, a, e), e.severity, e.now + DelayFor(cfg, a.sent, e.severity))
  {
  }

  lemma StartsOnItsWay(cfg: Config, es: seq<Event>, m: nat, i: AlarmIndex)
    requires ValidConfig(cfg) && Run(cfg, es) && m < |es| && Triggers(cfg, es[m], i)
    ensures OnItsWay(At(cfg, es, m + 1, i), es[m].severity, DeadlineOf(cfg, es, m, i))
  {
    InvAt(cfg, es, m, i);
    StepAt(cfg, es, m, i);
    TriggerPutsOnItsWay(cfg, i, At(cfg, es, m, i), Clock(es[..m]), es[m]);
  }

  lemma OnItsWayNext(cfg: Config, es: seq<Event>, k: nat, i: AlarmIndex, s: Severity, deadline: nat)
    requires ValidConfig(cfg) && Run(cfg, es) && k < |es| && Known(cfg, i)
    requires GoalOf(At(cfg, es, k, i)).wanted == s && GoalOf(At(cfg, es, k + 1, i)).wanted == s
    requires OnItsWay(At(cfg, es, k, i), s, deadline) && !Triggers(cfg, es[k], i)
    ensures OnItsWay(At(cfg, es, k + 1, i), s, deadline)
  {
    InvAt(cfg, es, k, i);
    StepAt(cfg, es, k, i);
    OnItsWayStep(cfg, i, At(cfg, es, k, i), Clock(es[..k]), es[k], s, deadline);
  }

  lemma {:induction false} StaysOnItsWay(cfg: Config, es: seq<Event>, m: nat, k: nat, i: AlarmIndex, s: Severity)
    requires ValidConfig(cfg) && Run(cfg, es) && LastTrigger(cfg, es, m, k, i, s)
    requires !SyncedDuringChange(cfg, es, m, k, i)
    ensures OnItsWay(At(cfg, es, k, i), s, DeadlineOf(cfg, es, m, i))
    decreases k
  {
    if k - 1 == m {
      StartsOnItsWay(cfg, es, m, i);
    } else {
      WantsLastTrigger(cfg, es, m, k, i, s);
      WantsLastTrigger(cfg, es, m, k - 1, i, s);
      StaysOnItsWay(cfg, es, m, k - 1, i, s);
      OnItsWayNext(cfg, es, k - 1, i, s, DeadlineOf(cfg, es, m, i));
    }
  }

  /** Delivery: a sender pass after the delay of an alarm's last trigger (none for an increase, 30 s
      otherwise) leaves that severity sent, whatever failure reports came in between, exactly when
      no sync came while it was waiting. */
  lemma DeliveredOnTime(cfg: Config, es: seq<Event>, m: nat, n: nat, i: AlarmIndex, s: Severity)
    requires ValidConfig(cfg) && Run(cfg, es) && n < |es| && LastTrigger(cfg, es, m, n, i, s)
    requires es[n].Pass? && es[n].now >= DeadlineOf(cfg, es, m, i)
    ensures At(cfg, es, n + 1, i).sent == s <==> !SyncedDuringChange(cfg, es, m, n, i)
  {
    InvAt(cfg, es, n, i);
    RefinesGoals(cfg, es, n, i);
    WantsLastTrigger(cfg, es, m, n, i, s);
    if !SyncedDuringChange(cfg, es, m, n, i) {
      StaysOnItsWay(cfg, es, m, n, i, s);
    }
  }

  /** Raises are never delayed: right after a trigger above the severity sent, the alarm is due at
      that severity, also when its timer was already pending or left over from a cancelled schedule. */
  lemma RaiseIsDueAtOnce(cfg: Config, es: seq<Event>, k: nat, i: AlarmIndex, s: Severity)
    requires ValidConfig(cfg) && Run(cfg, es) && k < |es| && TriggerFor(cfg, es[k], i, s)
    requires cfg.above(s, At(cfg, es, k, i).sent)
    ensures At(cfg, es, k + 1, i).timerSeverity == s && Due(At(cfg, es, k + 1, i), es[k].now)
    ensures k + 1 < |es| && es[k + 1].Pass? ==> Sends(cfg, es, k + 1, i) && At(cfg, es, k + 2, i).sent == s
  {
    InvAt(cfg, es, k, i);
    StepAt(cfg, es, k, i);
    if k + 1 < |es| && es[k + 1].Pass? {
      StepAt(cfg, es, k + 1, i);
    }
  }

  // ---- between sends ----

  // Without a send the severity sent stands.
  lemma {:induction false} SentStands(cfg: Config, es: seq<Event>, m: nat, k: nat, i: AlarmIndex)
    requires ValidConfig(cfg) && Run(cfg, es) && m <= k <= |es| && Known(cfg, i)
    requires forall q | m <= q < k :: !Sends(cfg, es, q, i)
    ensures At(cfg, es, k, i).sent == At(cfg, es, m, i).sent
    decreases k
  {
    if m < k {
      SentStands(cfg, es, m, k - 1, i);
      RefinesGoals(cfg, es, k - 1, i);
    }
  }

  // Once something was sent, the severity sent is known.
  lemma {:induction false} StaysKnown(cfg: Config, es: seq<Event>, q: nat, k: nat, i: AlarmIndex)
    requires ValidConfig(cfg) && Run(cfg, es) && q <= k <= |es| && Known(cfg, i)
    requires At(cfg, es, q, i).sent != UNDEFINED_SEVERITY
    ensures At(cfg, es, k, i).sent != UNDEFINED_SEVERITY
    decreases k
  {
    if q < k {
      StaysKnown(cfg, es, q, k - 1, i);
      InvAt(cfg, es, k - 1, i);
      StepAt(cfg, es, k - 1, i);
    }
  }

  lemma {:induction false} ClockGrows(cfg: Config, es: seq<Event>, m: nat, k: nat, i: AlarmIndex)
    requires Run(cfg, es) && m <= k <= |es| && Known(cfg, i)
    ensures Clock(es[..m]) <= Clock(es[..k])
    decreases k
  {
    if m < k {
      ClockGrows(cfg, es, m, k - 1, i);
      StepAt(cfg, es, k - 1, i);
    }
  }
}
