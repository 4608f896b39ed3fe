/** What holds in every run of the heap sender thread: wake-ups, termination, what it sends, and the
    Active Alarm Table it drives. */
module SenderRuns {
  import opened Common
  import opened AlarmDefs
  import opened ActiveTable
  import opened SchedulerSpec
  import opened SchedulerRuns

  // ---- wake-ups ----

  ghost predicate SenderInv(st: State) {
    && (st.sender.Waiting? && !st.sender.signalled ==> st.sender.until == WaitUntil(st.alarms))
    && (st.terminated && st.sender.Waiting? ==> st.sender.signalled)
    && (st.sender.Exited? ==> st.terminated)
  }

  lemma StepKeepsSender(cfg: Config, st: State, clock: nat, e: Event)
    requires SenderInv(st) && Enabled(cfg, st, clock, e)
    ensures SenderInv(Step(cfg, st, e))
  {
    match e
    case Trigger(i, s, now) =>
      if i in st.alarms && s == st.alarms[i].sent && st.alarms[i].timerSeverity == st.alarms[i].sent {
        assert st.alarms[i := st.alarms[i]] == st.alarms;
      }
    case Pass(_, order) => PopAllRest(cfg, st, order);
    case _ =>
  }

  lemma {:induction false} SenderInvHolds(cfg: Config, es: seq<Event>)
    requires Run(cfg, es)
    ensures SenderInv(After(cfg, es))
  {
    if es != [] {
      SenderInvHolds(cfg, Front(es));
      StepKeepsSender(cfg, After(cfg, Front(es)), Clock(Front(es)), Last(es));
    }
  }

  /** No lost wake-up: while the sender waits with no signal outstanding, an untimed wait means the
      heap is empty, and a timed wait ends exactly at the earliest pop time in the heap. */
  lemma NoLostWakeup(cfg: Config, es: seq<Event>)
    requires Run(cfg, es)
    requires After(cfg, es).sender.Waiting? && !After(cfg, es).sender.signalled
    ensures match After(cfg, es).sender.until
            case None => HeapEmpty(After(cfg, es).alarms)
            case Some(ts) => exists t: nat :: Earliest(After(cfg, es).alarms, t) && ts.nsec < 1_000_000_000
                                         && ts.sec * 1_000_000_000 + ts.nsec == t * 1_000_000
  {
    SenderInvHolds(cfg, es);
    var alarms := After(cfg, es).alarms;
    if !HeapEmpty(alarms) {
      EarliestExists(alarms);
      var t :| Earliest(alarms, t) && WaitUntil(alarms) == Some(ToTimespec(t));
    }
  }

  // The sender is about to run: not started yet, signalled, or past the end of its timed wait.
  ghost predicate Ready(sender: Sender, now: nat) {
    match sender
    case Starting => true
    case Waiting(until, signalled) =>
      signalled || (until.Some? && until.value.sec * 1_000_000_000 + until.value.nsec <= now * 1_000_000)
    case Exited => false
  }

  /** So whenever an alarm is due, the sender is about to run. */
  lemma DueAlarmWakesSender(cfg: Config, es: seq<Event>, i: AlarmIndex, now: nat)
    requires Run(cfg, es) && !After(cfg, es).terminated
    requires i in After(cfg, es).alarms && Due(After(cfg, es).alarms[i], now)
    ensures Ready(After(cfg, es).sender, now)
  {
    SenderInvHolds(cfg, es);
    var sender := After(cfg, es).sender;
    if sender.Waiting? && !sender.signalled {
      NoLostWakeup(cfg, es);
    }
  }

  lemma {:induction false} TerminationLasts(cfg: Config, es: seq<Event>, k: nat)
    requires Run(cfg, es) && k < |es| && es[k].Terminate?
    ensures After(cfg, es).terminated
    decreases |es|
  {
    if k < |es| - 1 {
      TerminationLasts(cfg, Front(es), k);
    }
  }

  /** After the destructor's signal the sender can take no other step than leaving its loop, and it
      is not asleep: it has not started, was signalled, or has left. */
  lemma SenderLeavesLoop(cfg: Config, es: seq<Event>, k: nat, now: nat, order: seq<AlarmIndex>)
    requires Run(cfg, es) && k < |es| && es[k].Terminate?
    ensures !Enabled(cfg, After(cfg, es), Clock(es), Pass(now, order))
    ensures !After(cfg, es).sender.Exited? ==>
              && Enabled(cfg, After(cfg, es), Clock(es), Exit)
              && (After(cfg, es).sender.Starting? || After(cfg, es).sender.signalled)
  {
    TerminationLasts(cfg, es, k);
    SenderInvHolds(cfg, es);
  }

  // ---- what a pass sends ----

  // The definition the sender looks up when it pops alarm i.
  function NextInform(cfg: Config, alarms: map<AlarmIndex, Alarm>, i: AlarmIndex): AlarmTableDef
    requires i in alarms
  {
    Lookup(cfg.defs, i, alarms[i].timerSeverity)
  }

  lemma {:induction false} PopAllSends(cfg: Config, st: State, order: seq<AlarmIndex>)
    requires Distinct(order)
    requires forall i | i in order :: i in st.alarms && NextInform(cfg, st.alarms, i).valid
    ensures |PopAll(cfg, st, order).informs| == |st.informs| + |order|
    ensures st.informs <= PopAll(cfg, st, order).informs
    ensures forall k | 0 <= k < |order| ::
              PopAll(cfg, st, order).informs[|st.informs| + k] == NextInform(cfg, st.alarms, order[k])
  {
    if order != [] {
      var front, last := Front(order), Last(order);
      assert order == front + [last];
      PopAllSends(cfg, st, front);
      PopAllPointwise(cfg, st, front, last);
      assert last !in front;
    }
  }

  // The INFORMs added from st to st' are one for each alarm of `order`, in that order, at the index
  // and severity its timer held.
  ghost predicate InformsAdded(st: State, st': State, order: seq<AlarmIndex>) {
    && st.informs <= st'.informs && |st'.informs| == |st.informs| + |order|
    && forall k | 0 <= k < |order| ::
         && order[k] in st.alarms
         && var sent := st'.informs[|st.informs| + k];
            sent.valid && sent.index == order[k] && sent.severity == st.alarms[order[k]].timerSeverity
  }

  // Alarms due at `now` are sent and their timers reset; the others are as they were, and what is
  // still in the heap is later than `now`.
  ghost predicate DuePopped(st: State, st': State, now: nat) {
    && st'.alarms.Keys == st.alarms.Keys
    && forall i | i in st.alarms ::
         && st'.alarms[i] == (if Due(st.alarms[i], now) then NEW_ALARM.(sent := st.alarms[i].timerSeverity)
                              else st.alarms[i])
         && (st'.alarms[i].pending ==> st'.alarms[i].popTime > now)
  }

  lemma PassAddsInforms(cfg: Config, st: State, now: nat, order: seq<AlarmIndex>)
    requires WellFiled(cfg.defs) && PopOrder(st.alarms, now, order)
    requires forall i | i in st.alarms && st.alarms[i].pending :: NextInform(cfg, st.alarms, i).valid
    ensures InformsAdded(st, SenderPass(cfg, st, order), order)
  {
    PopAllSends(cfg, st, order);
  }

  lemma PassPopsDue(cfg: Config, st: State, now: nat, order: seq<AlarmIndex>)
    requires WellFiled(cfg.defs) && PopOrder(st.alarms, now, order)
    requires forall i | i in st.alarms && st.alarms[i].pending :: NextInform(cfg, st.alarms, i).valid
    ensures DuePopped(st, SenderPass(cfg, st, order), now)
  {
    forall i | i in st.alarms
      ensures SenderPass(cfg, st, order).alarms[i]
              == (if Due(st.alarms[i], now) then NEW_ALARM.(sent := st.alarms[i].timerSeverity) else st.alarms[i])
    {
      PopAllPointwise(cfg, st, order, i);
    }
  }

  /** A pass at `now` sends one INFORM for each alarm then due, earliest pop time first, and no
      other; it resets exactly these alarms and leaves only later entries in the heap. */
  lemma PassSendsExactlyTheDue(cfg: Config, es: seq<Event>, n: nat)
    requires ValidConfig(cfg) && Run(cfg, es) && n < |es| && es[n].Pass?
    ensures PopOrder(After(cfg, es[..n]).alarms, es[n].now, es[n].order)
    ensures InformsAdded(After(cfg, es[..n]), After(cfg, es[..n + 1]), es[n].order)
    ensures DuePopped(After(cfg, es[..n]), After(cfg, es[..n + 1]), es[n].now)
  {
    PrefixOfRun(cfg, es, n);
    var st := After(cfg, es[..n]);
    forall i | i in st.alarms && st.alarms[i].pending
      ensures NextInform(cfg, st.alarms, i).valid
    {
      NoLogicError(cfg, es[..n], i);
    }
    PassAddsInforms(cfg, st, es[n].now, es[n].order);
    PassPopsDue(cfg, st, es[n].now, es[n].order);
  }

  // ---- the Active Alarm Table ----

  /** Alarm i has a row exactly when the severity last sent is neither undefined nor cleared; the row
      then points at the definition of that severity; and the container holds exactly these rows. */
  ghost predicate TableAgrees(cfg: Config, st: State) {
    && st.table.registered && Consistent(st.table)
    && forall i ::
         if i in st.alarms && st.alarms[i].sent != UNDEFINED_SEVERITY && st.alarms[i].sent != CLEARED
         then RowOf(st.table, i).Some? && RowOf(st.table, i).value.def == Lookup(cfg.defs, i, st.alarms[i].sent)
         else RowOf(st.table, i).None?
  }

  ghost predicate SentIsDefined(cfg: Config, st: State) {
    forall i | i in st.alarms :: st.alarms[i].sent == UNDEFINED_SEVERITY || (i, st.alarms[i].sent) in cfg.defs
  }

  lemma PopKeepsTable(cfg: Config, st: State, i: AlarmIndex)
    requires ValidConfig(cfg) && i in st.alarms && TableAgrees(cfg, st) && SentIsDefined(cfg, st)
    ensures TableAgrees(cfg, Pop(cfg, st, i)) && SentIsDefined(cfg, Pop(cfg, st, i))
  {
    var def := Lookup(cfg.defs, i, st.alarms[i].timerSeverity);
    if def.valid {
      assert (i, st.alarms[i].timerSeverity) in cfg.defs;
      HandleKeepsTable(st.table, def);
    }
  }

  lemma {:induction false} PopAllKeepsTable(cfg: Config, st: State, order: seq<AlarmIndex>)
    requires ValidConfig(cfg) && (forall i | i in order :: i in st.alarms)
    requires TableAgrees(cfg, st) && SentIsDefined(cfg, st)
    ensures TableAgrees(cfg, PopAll(cfg, st, order)) && SentIsDefined(cfg, PopAll(cfg, st, order))
  {
    if order != [] {
      PopAllKeepsTable(cfg, st, Front(order));
      PopKeepsTable(cfg, PopAll(cfg, st, Front(order)), Last(order));
    }
  }

  lemma SentOnlyChangesInPass(cfg: Config, st: State, e: Event)
    requires !e.Pass?
    ensures Step(cfg, st, e).table == st.table && Step(cfg, st, e).informs == st.informs
    ensures Step(cfg, st, e).alarms.Keys == st.alarms.Keys
    ensures forall i | i in st.alarms :: Step(cfg, st, e).alarms[i].sent == st.alarms[i].sent
  {
  }

  /** In every reachable state the Active Alarm Table shows exactly what was sent. */
  lemma {:induction false} TableShowsWhatWasSent(cfg: Config, es: seq<Event>)
    requires ValidConfig(cfg) && cfg.registered && Run(cfg, es)
    ensures TableAgrees(cfg, After(cfg, es)) && SentIsDefined(cfg, After(cfg, es))
  {
    if es != [] {
      TableShowsWhatWasSent(cfg, Front(es));
      var st, e := After(cfg, Front(es)), Last(es);
      if e.Pass? {
        PopAllKeepsTable(cfg, st, e.order);
        assert TableAgrees(cfg, PopAll(cfg, st, e.order));
      } else {
        SentOnlyChangesInPass(cfg, st, e);
      }
    }
  }

  lemma {:induction false} HandleAllUnregistered(t: Table, defs: seq<AlarmTableDef>)
    requires !t.registered
    ensures HandleAll(t, defs) == t
  {
    if defs != [] {
      HandleAllUnregistered(t, Front(defs));
    }
  }

  lemma {:induction false} PopAllFeedsTable(cfg: Config, st: State, order: seq<AlarmIndex>, t: Table)
    requires forall i | i in order :: i in st.alarms
    requires st.table == HandleAll(t, st.informs)
    ensures PopAll(cfg, st, order).table == HandleAll(t, PopAll(cfg, st, order).informs)
  {
    if order != [] {
      PopAllFeedsTable(cfg, st, Front(order), t);
      var st' := PopAll(cfg, st, Front(order));
      var def := Lookup(cfg.defs, Last(order), st'.alarms[Last(order)].timerSeverity);
      assert Front(st'.informs + [def]) == st'.informs;
    }
  }

  /** The table is a function of the INFORMs sent, in the order they were sent; so its rows are
      numbered by that order. */
  lemma {:induction false} TableFollowsInforms(cfg: Config, es: seq<Event>)
    requires Run(cfg, es)
    ensures After(cfg, es).table == HandleAll(Init(cfg).table, After(cfg, es).informs)
  {
    if es != [] {
      TableFollowsInforms(cfg, Front(es));
      var st, e := After(cfg, Front(es)), Last(es);
      if e.Pass? {
        PopAllFeedsTable(cfg, st, e.order, Init(cfg).table);
      } else {
        SentOnlyChangesInPass(cfg, st, e);
      }
    }
  }

  /** Until the table is registered with the SNMP agent it stays as it is, whatever is sent. */
  lemma UnregisteredTableStays(cfg: Config, es: seq<Event>)
    requires Run(cfg, es) && !cfg.registered
    ensures After(cfg, es).table == Table(false, map[], {}, 0)
  {
    TableFollowsInforms(cfg, es);
    HandleAllUnregistered(Init(cfg).table, After(cfg, es).informs);
  }

  // The Active Alarm Table shows severity s for alarm i: its row, or none for a clear.
  ghost predicate TableShows(cfg: Config, st: State, i: AlarmIndex, s: Severity) {
    var row := RowOf(st.table, i);
    if s == CLEARED then row.None? else row.Some? && row.value.def == Lookup(cfg.defs, i, s)
  }

  lemma TableTellsSeverities(cfg: Config, st: State, i: AlarmIndex, s: Severity)
    requires ValidConfig(cfg) && TableAgrees(cfg, st) && SentIsDefined(cfg, st) && (i, s) in cfg.defs
    requires i in st.alarms && st.alarms[i].sent != UNDEFINED_SEVERITY
    ensures TableShows(cfg, st, i, s) <==> st.alarms[i].sent == s
  {
  }

  // After that pass some severity was sent.
  lemma SentIsKnownAfter(cfg: Config, es: seq<Event>, m: nat, n: nat, i: AlarmIndex, s: Severity)
    requires ValidConfig(cfg) && Run(cfg, es) && n < |es| && LastTrigger(cfg, es, m, n, i, s)
    requires es[n].Pass? && es[n].now >= DeadlineOf(cfg, es, m, i)
    ensures At(cfg, es, n + 1, i).sent != UNDEFINED_SEVERITY
  {
    DeliveredOnTime(cfg, es, m, n, i, s);
    if SyncedDuringChange(cfg, es, m, n, i) {
      var q :| m < q < n && SyncsDuringChange(cfg, es, q, i);
      StaysKnown(cfg, es, q, n + 1, i);
    }
  }

  /** From trigger to table: once a pass after the delay of an alarm's last trigger is done, the Active
      Alarm Table shows that severity, exactly when no sync came while it was waiting. */
  lemma LastTriggerReachesTable(cfg: Config, es: seq<Event>, m: nat, n: nat, i: AlarmIndex, s: Severity)
    requires ValidConfig(cfg) && cfg.registered && Run(cfg, es) && n < |es| && LastTrigger(cfg, es, m, n, i, s)
    requires es[n].Pass? && es[n].now >= DeadlineOf(cfg, es, m, i)
    ensures TableShows(cfg, After(cfg, es[..n + 1]), i, s) <==> !SyncedDuringChange(cfg, es, m, n, i)
  {
    DeliveredOnTime(cfg, es, m, n, i, s);
    SentIsKnownAfter(cfg, es, m, n, i, s);
    PrefixOfRun(cfg, es, n + 1);
    AlarmsAreKnown(cfg, es[..n + 1], i);
    TableShowsWhatWasSent(cfg, es[..n + 1]);
    TableTellsSeverities(cfg, After(cfg, es[..n + 1]), i, s);
  }

  // ---- delivery by a prompt sender ----

  // One of the steps from j to k is a pass at `time` or before.
  ghost predicate PassedBy(es: seq<Event>, j: nat, k: nat, time: nat)
    requires k <= |es|
  {
    exists q :: j <= q < k && es[q].Pass? && es[q].now <= time
  }

  // Whenever the sender could run at t, it has taken a pass before the clock exceeds t + d.
  ghost predicate Prompt(cfg: Config, es: seq<Event>, d: nat) {
    forall j: nat, k: nat, t: nat
      | 0 < j <= k <= |es| && Clock(es[..j]) <= t && Ready(After(cfg, es[..j]).sender, t)
        && t + d < Clock(es[..k]) && !After(cfg, es[..k]).terminated ::
      PassedBy(es, j, k, t + d)
  }

  // The step at which the clock passes t.
  lemma {:induction false} CrossingOf(es: seq<Event>, j: nat, k: nat, t: nat) returns (c: nat)
    requires j <= k <= |es| && Clock(es[..j]) <= t < Clock(es[..k])
    ensures j <= c < k && Clock(es[..c]) <= t < Clock(es[..c + 1])
    decreases k
  {
    c := k - 1;
    if Clock(es[..c]) > t {
      c := CrossingOf(es, j, c, t);
    }
  }

  // A severity that is sent and wanted stays sent.
  lemma {:induction false} StaysSent(cfg: Config, es: seq<Event>, m: nat, j: nat, k: nat, i: AlarmIndex, s: Severity)
    requires ValidConfig(cfg) && Run(cfg, es) && m < j <= k && LastTrigger(cfg, es, m, k, i, s)
    requires !SyncedDuringChange(cfg, es, m, k, i) && At(cfg, es, j, i).sent == s
    ensures At(cfg, es, k, i).sent == s
    decreases k
  {
    if j < k {
      StaysSent(cfg, es, m, j, k - 1, i, s);
      WantsLastTrigger(cfg, es, m, k - 1, i, s);
      RefinesGoals(cfg, es, k - 1, i);
    }
  }

  // A pass after the deadline of the last trigger leaves it sent for good.
  lemma SentAfterPass(cfg: Config, es: seq<Event>, m: nat, q: nat, k: nat, i: AlarmIndex, s: Severity)
    requires ValidConfig(cfg) && Run(cfg, es) && m < q < k && LastTrigger(cfg, es, m, k, i, s)
    requires !SyncedDuringChange(cfg, es, m, k, i) && es[q].Pass? && es[q].now >= DeadlineOf(cfg, es, m, i)
    ensures At(cfg, es, k, i).sent == s
  {
    DeliveredOnTime(cfg, es, m, q, i, s);
    StaysSent(cfg, es, m, q + 1, k, i, s);
  }

  // At step c, just before the clock passes the deadline, s was sent or the sender is ready to send it.
  lemma ReadyAtDeadline(cfg: Config, es: seq<Event>, m: nat, c: nat, i: AlarmIndex, s: Severity)
    requires ValidConfig(cfg) && Run(cfg, es) && LastTrigger(cfg, es, m, c, i, s)
    requires !SyncedDuringChange(cfg, es, m, c, i) && !After(cfg, es[..c]).terminated
    ensures At(cfg, es, c, i).sent == s || Ready(After(cfg, es[..c]).sender, DeadlineOf(cfg, es, m, i))
  {
    StaysOnItsWay(cfg, es, m, c, i, s);
    PrefixOfRun(cfg, es, c);
    if At(cfg, es, c, i).sent != s {
      AlarmsAreKnown(cfg, es[..c], i);
      DueAlarmWakesSender(cfg, es[..c], i, DeadlineOf(cfg, es, m, i));
    }
  }

  lemma {:induction false} NotYetTerminated(cfg: Config, es: seq<Event>, c: nat, k: nat)
    requires Run(cfg, es) && c <= k <= |es| && !After(cfg, es[..k]).terminated
    ensures !After(cfg, es[..c]).terminated
    decreases k
  {
    if c < k {
      PrefixOfRun(cfg, es, k - 1);
      if es[k - 1].Pass? {
        PopAllRest(cfg, After(cfg, es[..k - 1]), es[k - 1].order);
      }
      NotYetTerminated(cfg, es, c, k - 1);
    }
  }

  lemma TimeAfterCrossing(cfg: Config, es: seq<Event>, c: nat, q: nat, t: nat, i: AlarmIndex)
    requires Run(cfg, es) && Known(cfg, i) && c <= q < |es| && t < Clock(es[..c + 1]) && es[q].Pass?
    ensures es[q].now > t
  {
    ClockGrows(cfg, es, c + 1, q + 1, i);
    StepAt(cfg, es, q, i);
  }

  // A prompt sender that is ready when the clock passes t takes its next pass after t.
  lemma PassAfterCrossing(cfg: Config, es: seq<Event>, d: nat, c: nat, k: nat, t: nat, i: AlarmIndex) returns (q: nat)
    requires Run(cfg, es) && Prompt(cfg, es, d) && Known(cfg, i) && 0 < c < k <= |es|
    requires Clock(es[..c]) <= t < Clock(es[..c + 1]) && Ready(After(cfg, es[..c]).sender, t)
    requires t + d < Clock(es[..k]) && !After(cfg, es[..k]).terminated
    ensures c <= q < k && es[q].Pass? && es[q].now > t
  {
    assert PassedBy(es, c, k, t + d);
    q :| c <= q < k && es[q].Pass? && es[q].now <= t + d;
    TimeAfterCrossing(cfg, es, c, q, t, i);
  }

  lemma SentByPromptSender(cfg: Config, es: seq<Event>, d: nat, m: nat, k: nat, i: AlarmIndex, s: Severity)
    requires ValidConfig(cfg) && Run(cfg, es) && Prompt(cfg, es, d) && LastTrigger(cfg, es, m, k, i, s)
    requires DeadlineOf(cfg, es, m, i) + d < Clock(es[..k]) && !After(cfg, es[..k]).terminated
    requires !SyncedDuringChange(cfg, es, m, k, i)
    ensures At(cfg, es, k, i).sent == s
  {
    StepAt(cfg, es, m, i);
    var c := CrossingOf(es, m + 1, k, DeadlineOf(cfg, es, m, i));
    NotYetTerminated(cfg, es, c, k);
    ReadyAtDeadline(cfg, es, m, c, i, s);
    if At(cfg, es, c, i).sent == s {
      StaysSent(cfg, es, m, c, k, i, s);
    } else {
      var q := PassAfterCrossing(cfg, es, d, c, k, DeadlineOf(cfg, es, m, i), i);
      SentAfterPass(cfg, es, m, q, k, i, s);
    }
  }

  /** The sender's wake-ups and the schedule together: if the sender passes within d ms of being
      signalled or of the end of its wait, then d ms after the delay of an alarm's last trigger that
      severity is sent, exactly when no sync came while it was waiting. */
  lemma DeliveredByPromptSender(cfg: Config, es: seq<Event>, d: nat, m: nat, k: nat, i: AlarmIndex, s: Severity)
    requires ValidConfig(cfg) && Run(cfg, es) && Prompt(cfg, es, d) && LastTrigger(cfg, es, m, k, i, s)
    requires DeadlineOf(cfg, es, m, i) + d < Clock(es[..k]) && !After(cfg, es[..k]).terminated
    ensures At(cfg, es, k, i).sent == s <==> !SyncedDuringChange(cfg, es, m, k, i)
  {
    WantsLastTrigger(cfg, es, m, k, i, s);
    if !SyncedDuringChange(cfg, es, m, k, i) {
      SentByPromptSender(cfg, es, d, m, k, i, s);
    }
  }
}
