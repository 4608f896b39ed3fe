/** Runs in which the scheduler does less than its comments suggest. The exact conditions are
    ReductionDelayExact, FlickerExact, SettlesOnLastTrigger, RetryExact, SyncResendsWhatIsKnown and
    RaiseIsDueAtOnce. */
module SchedulerWitnesses {
  import opened Common
  import opened AlarmDefs
  import opened SchedulerSpec
  import opened SchedulerRuns

  // Alarm i is `a`, no other alarm was ever touched, and the sender is in its loop.
  ghost predicate Holds(st: State, i: AlarmIndex, a: Alarm) {
    && i in st.alarms && !st.terminated && !st.sender.Exited?
    && forall j | j in st.alarms :: st.alarms[j] == if j == i then a else NEW_ALARM
  }

  ghost predicate Reaches(cfg: Config, es: seq<Event>, i: AlarmIndex, a: Alarm) {
    Run(cfg, es) && Holds(After(cfg, es), i, a)
  }

  lemma Start(cfg: Config, i: AlarmIndex, s: Severity)
    requires (i, s) in cfg.defs
    ensures Reaches(cfg, [], i, NEW_ALARM)
  {
    AlarmsAreKnown(cfg, [], i);
  }

  // A step about alarm i: a pass pops it if it is due, a sync reads the same time for every alarm.
  ghost predicate StepAbout(cfg: Config, st: State, i: AlarmIndex, a: Alarm, e: Event) {
    match e
    case Trigger(j, _, _) => j == i
    case Failed(j, s, _) => j == i && (i, s) in cfg.defs
    case Pass(now, order) => order == if Due(a, now) then [i] else []
    case Sync(now, readings) => readings == map j | j in st.alarms :: now
    case _ => false
  }

  lemma StepHolds(cfg: Config, st: State, clock: nat, i: AlarmIndex, a: Alarm, e: Event)
    requires Holds(st, i, a) && Enabled(cfg, st, clock, e) && StepAbout(cfg, st, i, a, e)
    ensures Holds(Step(cfg, st, e), i, AlarmStep(cfg, i, a, e))
  {
    StepPointwise(cfg, st, clock, e, i);
    forall j | j in st.alarms && j != i
      ensures Step(cfg, st, e).alarms[j] == NEW_ALARM
    {
      StepPointwise(cfg, st, clock, e, j);
    }
    if e.Pass? {
      PopAllRest(cfg, st, e.order);
    }
  }

  // Appends such a step.
  lemma Extend(cfg: Config, es: seq<Event>, i: AlarmIndex, a: Alarm, e: Event, a': Alarm)
    requires Reaches(cfg, es, i, a) && StepAbout(cfg, After(cfg, es), i, a, e) && Clock(es) <= e.now
    requires a' == AlarmStep(cfg, i, a, e)
    ensures Reaches(cfg, es + [e], i, a') && Clock(es + [e]) == e.now
  {
    assert Front(es + [e]) == es && Last(es + [e]) == e;
    assert Enabled(cfg, After(cfg, es), Clock(es), e);
    StepHolds(cfg, After(cfg, es), Clock(es), i, a, e);
  }

  // What each step of the runs below does to alarm i.
  lemma AlarmStages(cfg: Config, i: AlarmIndex, hi: Severity, lo: Severity)
    requires ValidConfig(cfg) && (i, hi) in cfg.defs && (i, lo) in cfg.defs && cfg.above(hi, lo)
    ensures AlarmStep(cfg, i, NEW_ALARM, Trigger(i, hi, 0)) == Alarm(UNDEFINED_SEVERITY, hi, 0, true)
    ensures AlarmStep(cfg, i, Alarm(UNDEFINED_SEVERITY, hi, 0, true), Pass(0, [i])) == NEW_ALARM.(sent := hi)
    ensures AlarmStep(cfg, i, NEW_ALARM.(sent := hi), Trigger(i, lo, 1000)) == Alarm(hi, lo, 31000, true)
    ensures AlarmStep(cfg, i, Alarm(hi, lo, 31000, true), Trigger(i, hi, 2000)) == Alarm(hi, lo, 31000, false)
    ensures AlarmStep(cfg, i, Alarm(hi, lo, 31000, false), Trigger(i, lo, 50000)) == Alarm(hi, lo, 31000, true)
    ensures AlarmStep(cfg, i, Alarm(hi, lo, 31000, true), Pass(50000, [i])) == NEW_ALARM.(sent := lo)
    ensures AlarmStep(cfg, i, Alarm(hi, hi, 2000, true), Pass(2000, [i])) == NEW_ALARM.(sent := hi)
    ensures AlarmStep(cfg, i, Alarm(hi, lo, 31000, true), Failed(i, hi, 2000)) == Alarm(hi, lo, 31000, true)
    ensures AlarmStep(cfg, i, Alarm(hi, lo, 31000, true), Trigger(i, hi, 3000)) == Alarm(hi, lo, 31000, false)
    ensures AlarmStep(cfg, i, NEW_ALARM.(sent := hi), Failed(i, hi, 1000)) == Alarm(hi, hi, 31000, true)
    ensures AlarmStep(cfg, i, Alarm(hi, hi, 31000, true), Trigger(i, lo, 2000)) == Alarm(hi, lo, 32000, true)
    ensures AlarmStep(cfg, i, Alarm(hi, lo, 32000, true), Trigger(i, hi, 3000)) == Alarm(hi, lo, 32000, false)
  {
  }

  // Alarm i is raised and sent at 0 s.
  lemma RaisedAndSent(cfg: Config, i: AlarmIndex, hi: Severity, lo: Severity) returns (es: seq<Event>)
    requires ValidConfig(cfg) && (i, hi) in cfg.defs && (i, lo) in cfg.defs && cfg.above(hi, lo)
    ensures es == [Trigger(i, hi, 0), Pass(0, [i])]
    ensures Reaches(cfg, es, i, NEW_ALARM.(sent := hi)) && Clock(es) == 0
  {
    AlarmStages(cfg, i, hi, lo);
    Start(cfg, i, hi);
    Extend(cfg, [], i, NEW_ALARM, Trigger(i, hi, 0), Alarm(UNDEFINED_SEVERITY, hi, 0, true));
    var raised := [] + [Trigger(i, hi, 0)];
    Extend(cfg, raised, i, Alarm(UNDEFINED_SEVERITY, hi, 0, true), Pass(0, [i]), NEW_ALARM.(sent := hi));
    es := raised + [Pass(0, [i])];
  }

  // And reduced at 1 s.
  lemma RaisedThenReduced(cfg: Config, i: AlarmIndex, hi: Severity, lo: Severity) returns (es: seq<Event>)
    requires ValidConfig(cfg) && (i, hi) in cfg.defs && (i, lo) in cfg.defs && cfg.above(hi, lo)
    ensures es == [Trigger(i, hi, 0), Pass(0, [i]), Trigger(i, lo, 1000)]
    ensures Reaches(cfg, es, i, Alarm(hi, lo, 31000, true)) && Clock(es) == 1000
  {
    AlarmStages(cfg, i, hi, lo);
    var sent := RaisedAndSent(cfg, i, hi, lo);
    Extend(cfg, sent, i, NEW_ALARM.(sent := hi), Trigger(i, lo, 1000), Alarm(hi, lo, 31000, true));
    es := sent + [Trigger(i, lo, 1000)];
  }

  // And the reduction cancelled at 2 s.
  lemma ReducedThenCancelled(cfg: Config, i: AlarmIndex, hi: Severity, lo: Severity) returns (es: seq<Event>)
    requires ValidConfig(cfg) && (i, hi) in cfg.defs && (i, lo) in cfg.defs && cfg.above(hi, lo)
    ensures es == [Trigger(i, hi, 0), Pass(0, [i]), Trigger(i, lo, 1000), Trigger(i, hi, 2000)]
    ensures Reaches(cfg, es, i, Alarm(hi, lo, 31000, false)) && Clock(es) == 2000
  {
    AlarmStages(cfg, i, hi, lo);
    var reduced := RaisedThenReduced(cfg, i, hi, lo);
    Extend(cfg, reduced, i, Alarm(hi, lo, 31000, true), Trigger(i, hi, 2000), Alarm(hi, lo, 31000, false));
    es := reduced + [Trigger(i, hi, 2000)];
  }

  // Or, instead of being reduced, the INFORM is reported lost at 1 s.
  lemma RaisedThenReported(cfg: Config, i: AlarmIndex, hi: Severity, lo: Severity) returns (es: seq<Event>)
    requires ValidConfig(cfg) && (i, hi) in cfg.defs && (i, lo) in cfg.defs && cfg.above(hi, lo)
    ensures es == [Trigger(i, hi, 0), Pass(0, [i]), Failed(i, hi, 1000)]
    ensures Reaches(cfg, es, i, Alarm(hi, hi, 31000, true)) && Clock(es) == 1000
  {
    AlarmStages(cfg, i, hi, lo);
    var sent := RaisedAndSent(cfg, i, hi, lo);
    Extend(cfg, sent, i, NEW_ALARM.(sent := hi), Failed(i, hi, 1000), Alarm(hi, hi, 31000, true));
    es := sent + [Failed(i, hi, 1000)];
  }

  /** Flicker protection lapses: alarm i is raised, its reduction is triggered at 1 s and cancelled
      at 2 s; when the reduction is triggered again at 50 s, after 48 s of being raised, it is sent
      in the same millisecond. */
  lemma CancelledReductionIsSentAtOnce(cfg: Config, i: AlarmIndex, hi: Severity, lo: Severity) returns (es: seq<Event>)
    requires ValidConfig(cfg) && (i, hi) in cfg.defs && (i, lo) in cfg.defs && cfg.above(hi, lo)
    ensures es == [Trigger(i, hi, 0), Pass(0, [i]), Trigger(i, lo, 1000),
                   Trigger(i, hi, 2000), Trigger(i, lo, 50000), Pass(50000, [i])]
    ensures Run(cfg, es) && Sends(cfg, es, 5, i)
    ensures At(cfg, es, 5, i).sent == hi && At(cfg, es, 6, i).sent == lo
  {
    AlarmStages(cfg, i, hi, lo);
    var cancelled := ReducedThenCancelled(cfg, i, hi, lo);
    Extend(cfg, cancelled, i, Alarm(hi, lo, 31000, false), Trigger(i, lo, 50000), Alarm(hi, lo, 31000, true));
    var again := cancelled + [Trigger(i, lo, 50000)];
    Extend(cfg, again, i, Alarm(hi, lo, 31000, true), Pass(50000, [i]), NEW_ALARM.(sent := lo));
    es := again + [Pass(50000, [i])];
    assert es[..5] == again && es[..6] == es;
  }

  /** A sync can lose a trigger: the reduction triggered at 1 s is still waiting when a sync at 2 s
      replaces it by a resend of the old severity; after that nothing waits any more. */
  lemma SyncLosesPendingReduction(cfg: Config, i: AlarmIndex, hi: Severity, lo: Severity) returns (es: seq<Event>)
    requires ValidConfig(cfg) && (i, hi) in cfg.defs && (i, lo) in cfg.defs && cfg.above(hi, lo)
    ensures |es| == 5 && es[..3] == [Trigger(i, hi, 0), Pass(0, [i]), Trigger(i, lo, 1000)]
    ensures es[3].Sync? && es[4] == Pass(2000, [i])
    ensures Run(cfg, es) && At(cfg, es, 5, i) == NEW_ALARM.(sent := hi)
  {
    AlarmStages(cfg, i, hi, lo);
    var reduced := RaisedThenReduced(cfg, i, hi, lo);
    var sync := Sync(2000, map j | j in After(cfg, reduced).alarms :: 2000);
    assert AlarmStep(cfg, i, Alarm(hi, lo, 31000, true), sync) == Alarm(hi, hi, 2000, true);
    Extend(cfg, reduced, i, Alarm(hi, lo, 31000, true), sync, Alarm(hi, hi, 2000, true));
    Extend(cfg, reduced + [sync], i, Alarm(hi, hi, 2000, true), Pass(2000, [i]), NEW_ALARM.(sent := hi));
    es := reduced + [sync] + [Pass(2000, [i])];
    assert es[..5] == es;
  }

  /** An unacknowledged INFORM is not retried: the report at 2 s is dropped because a reduction is
      waiting, and the reduction is taken back at 3 s. Nothing waits any more, so the NMS is never
      told again. */
  lemma ReportIsDropped(cfg: Config, i: AlarmIndex, hi: Severity, lo: Severity) returns (es: seq<Event>)
    requires ValidConfig(cfg) && (i, hi) in cfg.defs && (i, lo) in cfg.defs && cfg.above(hi, lo)
    ensures es == [Trigger(i, hi, 0), Pass(0, [i]), Trigger(i, lo, 1000),
                   Failed(i, hi, 2000), Trigger(i, hi, 3000), Pass(1000000, [])]
    ensures Run(cfg, es) && At(cfg, es, 6, i) == Alarm(hi, lo, 31000, false)
  {
    AlarmStages(cfg, i, hi, lo);
    var reduced := RaisedThenReduced(cfg, i, hi, lo);
    Extend(cfg, reduced, i, Alarm(hi, lo, 31000, true), Failed(i, hi, 2000), Alarm(hi, lo, 31000, true));
    var reported := reduced + [Failed(i, hi, 2000)];
    Extend(cfg, reported, i, Alarm(hi, lo, 31000, true), Trigger(i, hi, 3000), Alarm(hi, lo, 31000, false));
    var back := reported + [Trigger(i, hi, 3000)];
    Extend(cfg, back, i, Alarm(hi, lo, 31000, false), Pass(1000000, []), Alarm(hi, lo, 31000, false));
    es := back + [Pass(1000000, [])];
    assert es[..6] == es;
  }

  /** A retry that is already waiting is lost the same way. */
  lemma RetryIsLost(cfg: Config, i: AlarmIndex, hi: Severity, lo: Severity) returns (es: seq<Event>)
    requires ValidConfig(cfg) && (i, hi) in cfg.defs && (i, lo) in cfg.defs && cfg.above(hi, lo)
    ensures es == [Trigger(i, hi, 0), Pass(0, [i]), Failed(i, hi, 1000),
                   Trigger(i, lo, 2000), Trigger(i, hi, 3000), Pass(1000000, [])]
    ensures Run(cfg, es) && At(cfg, es, 3, i) == Alarm(hi, hi, 31000, true)
    ensures At(cfg, es, 6, i) == Alarm(hi, lo, 32000, false)
  {
    AlarmStages(cfg, i, hi, lo);
    var reported := RaisedThenReported(cfg, i, hi, lo);
    Extend(cfg, reported, i, Alarm(hi, hi, 31000, true), Trigger(i, lo, 2000), Alarm(hi, lo, 32000, true));
    var reduced := reported + [Trigger(i, lo, 2000)];
    Extend(cfg, reduced, i, Alarm(hi, lo, 32000, true), Trigger(i, hi, 3000), Alarm(hi, lo, 32000, false));
    var back := reduced + [Trigger(i, hi, 3000)];
    Extend(cfg, back, i, Alarm(hi, lo, 32000, false), Pass(1000000, []), Alarm(hi, lo, 32000, false));
    es := back + [Pass(1000000, [])];
    assert es[..3] == reported && es[..6] == es;
  }

  /** A sync does not send at once what already waits to be retried: after the sync at 2 s the pass at
      2 s sends nothing, and the retry stays at 31 s. */
  lemma SyncDoesNotHastenRetry(cfg: Config, i: AlarmIndex, hi: Severity, lo: Severity) returns (es: seq<Event>)
    requires ValidConfig(cfg) && (i, hi) in cfg.defs && (i, lo) in cfg.defs && cfg.above(hi, lo)
    ensures |es| == 5 && es[..3] == [Trigger(i, hi, 0), Pass(0, [i]), Failed(i, hi, 1000)]
    ensures es[3].Sync? && es[3].now == 2000 && es[4] == Pass(2000, [])
    ensures Run(cfg, es) && !Sends(cfg, es, 4, i) && At(cfg, es, 5, i) == Alarm(hi, hi, 31000, true)
  {
    AlarmStages(cfg, i, hi, lo);
    var reported := RaisedThenReported(cfg, i, hi, lo);
    var sync := Sync(2000, map j | j in After(cfg, reported).alarms :: 2000);
    assert AlarmStep(cfg, i, Alarm(hi, hi, 31000, true), sync) == Alarm(hi, hi, 31000, true);
    Extend(cfg, reported, i, Alarm(hi, hi, 31000, true), sync, Alarm(hi, hi, 31000, true));
    Extend(cfg, reported + [sync], i, Alarm(hi, hi, 31000, true), Pass(2000, []), Alarm(hi, hi, 31000, true));
    es := reported + [sync] + [Pass(2000, [])];
    assert es[..4] == reported + [sync] && es[..5] == es;
  }

  /** A clear is sent although the alarm was never active: for an alarm of which nothing was sent, a
      CLEARED trigger is an increase, and the next pass sends it. */
  lemma ClearOfSilentAlarmIsSent(cfg: Config, i: AlarmIndex) returns (es: seq<Event>)
    requires ValidConfig(cfg) && (i, CLEARED) in cfg.defs
    ensures es == [Trigger(i, CLEARED, 0), Pass(0, [i])]
    ensures Run(cfg, es) && Sends(cfg, es, 1, i)
    ensures At(cfg, es, 1, i) == Alarm(UNDEFINED_SEVERITY, CLEARED, 0, true) && At(cfg, es, 2, i).sent == CLEARED
  {
    Start(cfg, i, CLEARED);
    Extend(cfg, [], i, NEW_ALARM, Trigger(i, CLEARED, 0), Alarm(UNDEFINED_SEVERITY, CLEARED, 0, true));
    var triggered := [] + [Trigger(i, CLEARED, 0)];
    Extend(cfg, triggered, i, Alarm(UNDEFINED_SEVERITY, CLEARED, 0, true), Pass(0, [i]), NEW_ALARM.(sent := CLEARED));
    es := triggered + [Pass(0, [i])];
    assert es[..1] == triggered && es[..2] == es;
  }
}
