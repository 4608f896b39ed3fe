/** Repeated sends over whole runs: syncs, failure reports and what they lead to. */
module RepeatRuns {
  import opened AlarmDefs
  import opened SchedulerSpec
  import opened SchedulerRuns

  // ---- sync ----

  /** A sync leaves every alarm whose severity is known pending at that severity, due when its
      clock was read unless it was already pending at it; other alarms are untouched. */
  lemma SyncResendsWhatIsKnown(cfg: Config, es: seq<Event>, k: nat, i: AlarmIndex)
    requires ValidConfig(cfg) && Run(cfg, es) && k < |es| && es[k].Sync? && Known(cfg, i)
    ensures var a, a' := At(cfg, es, k, i), At(cfg, es, k + 1, i);
            if a.sent == UNDEFINED_SEVERITY then a' == a
            else && a'.sent == a.sent && a'.pending && a'.timerSeverity == a.sent
                 && (if a.pending && a.timerSeverity == a.sent then a'.popTime == a.popTime
                     else i in es[k].readings && a'.popTime == es[k].readings[i])
  {
    InvAt(cfg, es, k, i);
    StepAt(cfg, es, k, i);
  }

  // ---- repeated sends ----

  // Step m is a sync, or a failure report for what alarm i last sent that set its timer, and i was not
  // sent from m to k.
  ghost predicate AskedAgain(cfg: Config, es: seq<Event>, m: nat, k: nat, i: AlarmIndex)
    requires k <= |es|
  {
    var a := At(cfg, es, k, i);
    && m < k
    && (es[m].Sync?
        || (es[m].Failed? && es[m].index == i && es[m].severity == a.sent && a.popTime == es[m].now + 30000))
    && forall q | m <= q < k :: !Sends(cfg, es, q, i)
  }

  lemma RepeatOrigin(cfg: Config, i: AlarmIndex, a: Alarm, clock: nat, e: Event)
    requires ValidConfig(cfg) && AlarmInv(cfg, i, a, clock)
    ensures var a' := AlarmStep(cfg, i, a, e);
            a'.timerSeverity != UNDEFINED_SEVERITY && a'.timerSeverity == a'.sent ==>
              && a'.sent == a.sent && !(e.Pass? && Due(a, e.now))
              && (if a.timerSeverity == a.sent then a'.popTime == a.popTime
                  else e.Sync? || (e.Failed? && e.index == i && e.severity == a'.sent && a'.popTime == e.now + 30000))
  {
  }

  lemma StaysAsked(cfg: Config, es: seq<Event>, m: nat, k: nat, i: AlarmIndex)
    requires k < |es| && AskedAgain(cfg, es, m, k, i)
    requires !Sends(cfg, es, k, i)
    requires At(cfg, es, k + 1, i).sent == At(cfg, es, k, i).sent
    requires At(cfg, es, k + 1, i).popTime == At(cfg, es, k, i).popTime
    ensures AskedAgain(cfg, es, m, k + 1, i)
  {
  }

  // The timer is set for the severity already sent.
  predicate ForRepeat(a: Alarm) {
    a.timerSeverity != UNDEFINED_SEVERITY && a.timerSeverity == a.sent
  }

  // The step that leaves a timer set for a repeat keeps it, or asks for it.
  lemma AskedByStep(cfg: Config, es: seq<Event>, k: nat, i: AlarmIndex)
    requires ValidConfig(cfg) && Run(cfg, es) && k < |es| && Known(cfg, i) && ForRepeat(At(cfg, es, k + 1, i))
    ensures !Sends(cfg, es, k, i)
    ensures || AskedAgain(cfg, es, k, k + 1, i)
            || (ForRepeat(At(cfg, es, k, i)) && At(cfg, es, k + 1, i).sent == At(cfg, es, k, i).sent
                && At(cfg, es, k + 1, i).popTime == At(cfg, es, k, i).popTime)
  {
    InvAt(cfg, es, k, i);
    StepAt(cfg, es, k, i);
    RepeatOrigin(cfg, i, At(cfg, es, k, i), Clock(es[..k]), es[k]);
  }

  lemma {:induction false} RepeatWasAskedFor(cfg: Config, es: seq<Event>, k: nat, i: AlarmIndex)
    requires ValidConfig(cfg) && Run(cfg, es) && k <= |es| && Known(cfg, i)
    ensures ForRepeat(At(cfg, es, k, i)) ==> exists m: nat :: AskedAgain(cfg, es, m, k, i)
    decreases k
  {
    if k == 0 {
      AlarmsAreKnown(cfg, es[..0], i);
    } else if ForRepeat(At(cfg, es, k, i)) {
      AskedByStep(cfg, es, k - 1, i);
      if !AskedAgain(cfg, es, k - 1, k, i) {
        RepeatWasAskedFor(cfg, es, k - 1, i);
        var m: nat :| AskedAgain(cfg, es, m, k - 1, i);
        StaysAsked(cfg, es, m, k - 1, i);
      }
    }
  }

  // Steps p and n send alarm i at the same severity, and nothing of i in between.
  ghost predicate Repeats(cfg: Config, es: seq<Event>, p: nat, n: nat, i: AlarmIndex)
    requires p < n < |es|
  {
    && Sends(cfg, es, p, i) && Sends(cfg, es, n, i)
    && At(cfg, es, p, i).timerSeverity == At(cfg, es, n, i).timerSeverity
    && forall q | p < q < n :: !Sends(cfg, es, q, i)
  }

  // Step m reports at least 30 s before step n that what n sends was not acknowledged.
  ghost predicate ReportedBefore(cfg: Config, es: seq<Event>, m: nat, n: nat, i: AlarmIndex)
    requires m < n < |es| && es[n].Pass?
  {
    && es[m].Failed? && es[m].index == i && es[m].severity == At(cfg, es, n, i).timerSeverity
    && es[m].now + 30000 <= es[n].now
  }

  // From one send to the next, the severity sent is the one that send was for.
  lemma SentUntilNextSend(cfg: Config, es: seq<Event>, p: nat, n: nat, i: AlarmIndex)
    requires ValidConfig(cfg) && Run(cfg, es) && p < n <= |es| && Sends(cfg, es, p, i)
    requires forall q | p < q < n :: !Sends(cfg, es, q, i)
    ensures At(cfg, es, n, i).sent == At(cfg, es, p, i).timerSeverity
  {
    RefinesGoals(cfg, es, p, i);
    SentStands(cfg, es, p + 1, n, i);
  }

  /** An INFORM repeats the severity already sent only because, since the previous INFORM for that
      alarm, a sync was requested or, at least 30 s ago, that severity was reported unacknowledged. */
  lemma NoUnaskedRepeat(cfg: Config, es: seq<Event>, p: nat, n: nat, i: AlarmIndex)
    requires ValidConfig(cfg) && Run(cfg, es) && p < n < |es| && Repeats(cfg, es, p, n, i)
    ensures exists m: nat :: p < m < n && (es[m].Sync? || ReportedBefore(cfg, es, m, n, i))
  {
    InvAt(cfg, es, n, i);
    SentUntilNextSend(cfg, es, p, n, i);
    RepeatWasAskedFor(cfg, es, n, i);
    var m: nat :| AskedAgain(cfg, es, m, n, i);
    assert p < m;
  }

  lemma ReportIsLater(cfg: Config, es: seq<Event>, p: nat, m: nat, i: AlarmIndex)
    requires Run(cfg, es) && Known(cfg, i) && p < m < |es| && es[p].Pass? && es[m].Failed?
    ensures es[p].now <= es[m].now
  {
    StepAt(cfg, es, p, i);
    ClockGrows(cfg, es, p + 1, m + 1, i);
    StepAt(cfg, es, m, i);
  }

  /** So without a sync, repeats of one severity are at least 30 s apart, and each goes back to a report
      that is at least 30 s old. */
  lemma RepeatsAreSpaced(cfg: Config, es: seq<Event>, p: nat, n: nat, i: AlarmIndex)
    requires ValidConfig(cfg) && Run(cfg, es) && p < n < |es| && Repeats(cfg, es, p, n, i)
    requires forall q | p < q < n :: !es[q].Sync?
    ensures exists m: nat :: p < m < n && ReportedBefore(cfg, es, m, n, i)
    ensures es[p].now + 30000 <= es[n].now
  {
    NoUnaskedRepeat(cfg, es, p, n, i);
    var m: nat :| p < m < n && (es[m].Sync? || ReportedBefore(cfg, es, m, n, i));
    ReportIsLater(cfg, es, p, m, i);
  }

  // ---- failure reports ----

  /** A failure report is acted on only if that severity is still the one sent and nothing is
      scheduled; then exactly one retry, 30 s ahead, is pending, and reports for the same send that
      follow it directly, however many, change nothing. */
  lemma FailureReports(cfg: Config, es: seq<Event>, k: nat, later: nat)
    requires ValidConfig(cfg) && Run(cfg, es) && k < |es| && es[k].Failed?
    ensures var a, a' := At(cfg, es, k, es[k].index), At(cfg, es, k + 1, es[k].index);
            if a.sent != es[k].severity || a.pending then After(cfg, es[..k + 1]) == After(cfg, es[..k])
            else a' == Alarm(a.sent, a.sent, es[k].now + 30000, true)
    ensures HandleFailed(After(cfg, es[..k + 1]), es[k].index, es[k].severity, later) == After(cfg, es[..k + 1])
  {
    var i := es[k].index;
    PrefixOfRun(cfg, es, k);
    AlarmsAreKnown(cfg, es[..k], i);
    assert (i, es[k].severity) in cfg.defs;
    InvAt(cfg, es, k, i);
    StepAt(cfg, es, k, i);
  }

  // Step k asks for the severity alarm i last sent to be sent again: a sync, or a failure report for it.
  ghost predicate Requests(cfg: Config, es: seq<Event>, k: nat, i: AlarmIndex)
    requires k < |es|
  {
    var e, a := es[k], At(cfg, es, k, i);
    a.sent != UNDEFINED_SEVERITY && (e.Sync? || (e.Failed? && e.index == i && e.severity == a.sent))
  }

  // In the heap, and due by `deadline` or already.
  ghost predicate Awaits(a: Alarm, deadline: nat, clock: nat) {
    a.pending && (a.popTime <= deadline || a.popTime <= clock)
  }

  lemma RequestSchedules(cfg: Config, es: seq<Event>, k: nat, i: AlarmIndex)
    requires ValidConfig(cfg) && Run(cfg, es) && k < |es| && Known(cfg, i) && Requests(cfg, es, k, i)
    ensures Awaits(At(cfg, es, k + 1, i), es[k].now + 30000, Clock(es[..k + 1]))
  {
    InvAt(cfg, es, k, i);
    StepAt(cfg, es, k, i);
  }

  lemma AwaitsStep(cfg: Config, i: AlarmIndex, a: Alarm, e: Event, deadline: nat, clock: nat, clock': nat)
    requires Awaits(a, deadline, clock) && clock <= clock' && !Triggers(cfg, e, i) && !(e.Pass? && Due(a, e.now))
    requires e.Sync? && i in e.readings ==> e.readings[i] <= clock'
    ensures Awaits(AlarmStep(cfg, i, a, e), deadline, clock')
  {
  }

  lemma {:induction false} AwaitsSend(cfg: Config, es: seq<Event>, k: nat, j: nat, i: AlarmIndex)
    requires ValidConfig(cfg) && Run(cfg, es) && k < j <= |es| && Known(cfg, i) && Requests(cfg, es, k, i)
    requires forall q | k < q < j :: !Triggers(cfg, es[q], i) && !Sends(cfg, es, q, i)
    ensures Awaits(At(cfg, es, j, i), es[k].now + 30000, Clock(es[..j]))
    decreases j
  {
    if j - 1 == k {
      RequestSchedules(cfg, es, k, i);
    } else {
      AwaitsSend(cfg, es, k, j - 1, i);
      StepAt(cfg, es, j - 1, i);
      assert !Sends(cfg, es, j - 1, i);
      AwaitsStep(cfg, i, At(cfg, es, j - 1, i), es[j - 1], es[k].now + 30000, Clock(es[..j - 1]), Clock(es[..j]));
    }
  }

  /** An INFORM that is not acknowledged, or that a sync asks for, is followed by another: if the
      alarm is not triggered meanwhile, a pass 30 s or more later finds it sent again or sends it. */
  lemma RetriedWithin30s(cfg: Config, es: seq<Event>, k: nat, n: nat, i: AlarmIndex)
    requires ValidConfig(cfg) && Run(cfg, es) && k < n < |es| && Known(cfg, i) && Requests(cfg, es, k, i)
    requires forall q | k < q < n :: !Triggers(cfg, es[q], i)
    requires es[n].Pass? && es[n].now >= es[k].now + 30000
    ensures exists q :: k < q <= n && Sends(cfg, es, q, i)
  {
    if forall q | k < q < n :: !Sends(cfg, es, q, i) {
      AwaitsSend(cfg, es, k, n, i);
      StepAt(cfg, es, n, i);
      assert Sends(cfg, es, n, i);
    }
  }

  // Before step j, a change of alarm i's severity was waiting when step k asked for a resend, or was
  // triggered since.
  ghost predicate ChangeAsked(cfg: Config, es: seq<Event>, k: nat, j: nat, i: AlarmIndex)
    requires k < j <= |es|
  {
    var a := At(cfg, es, k, i);
    || (es[k].Failed? && a.pending && a.timerSeverity != a.sent)
    || exists q | k < q < j :: Triggers(cfg, es[q], i) && es[q].severity != a.sent
  }

  // And the last trigger since step k took it back, by asking for the severity already sent.
  ghost predicate TakenBack(cfg: Config, es: seq<Event>, k: nat, j: nat, i: AlarmIndex)
    requires k < j <= |es|
  {
    ChangeAsked(cfg, es, k, j, i) && exists m: nat :: k < m && LastTrigger(cfg, es, m, j, i, At(cfg, es, k, i).sent)
  }

  // No trigger since step k came less than 30 s before `now`.
  ghost predicate Quiet(cfg: Config, es: seq<Event>, k: nat, j: nat, i: AlarmIndex, now: nat)
    requires k < j <= |es|
  {
    forall q | k < q < j && Triggers(cfg, es[q], i) :: es[q].now + 30000 <= now
  }

  // From step k on nothing was sent or asked for again.
  ghost predicate Unanswered(cfg: Config, es: seq<Event>, k: nat, j: nat, i: AlarmIndex)
    requires k < j <= |es|
  {
    Requests(cfg, es, k, i) && forall q | k < q < j :: !Requests(cfg, es, q, i) && !Sends(cfg, es, q, i)
  }

  // What the request at step k and the triggers since have made of the alarm.
  ghost predicate RequestInv(cfg: Config, es: seq<Event>, k: nat, j: nat, i: AlarmIndex, now: nat)
    requires k < j <= |es|
  {
    var a := At(cfg, es, j, i);
    && a.sent == At(cfg, es, k, i).sent && a.timerSeverity != UNDEFINED_SEVERITY && a.popTime <= now
    && (a.timerSeverity == a.sent <==> !ChangeAsked(cfg, es, k, j, i))
    && (a.pending <==> !TakenBack(cfg, es, k, j, i))
  }

  lemma RequestStarts(cfg: Config, es: seq<Event>, k: nat, i: AlarmIndex, now: nat)
    requires ValidConfig(cfg) && Run(cfg, es) && k < |es| && Known(cfg, i)
    requires Requests(cfg, es, k, i) && es[k].now + 30000 <= now
    ensures RequestInv(cfg, es, k, k + 1, i, now)
  {
    InvAt(cfg, es, k, i);
    StepAt(cfg, es, k, i);
  }

  lemma AskedUnchanged(cfg: Config, es: seq<Event>, k: nat, j: nat, i: AlarmIndex)
    requires k < j < |es| && !Triggers(cfg, es[j], i)
    ensures ChangeAsked(cfg, es, k, j + 1, i) == ChangeAsked(cfg, es, k, j, i)
    ensures TakenBack(cfg, es, k, j + 1, i) == TakenBack(cfg, es, k, j, i)
  {
    var c := At(cfg, es, k, i).sent;
    if TakenBack(cfg, es, k, j, i) {
      var m: nat :| k < m && LastTrigger(cfg, es, m, j, i, c);
      assert LastTrigger(cfg, es, m, j + 1, i, c);
    }
    if TakenBack(cfg, es, k, j + 1, i) {
      var m: nat :| k < m && LastTrigger(cfg, es, m, j + 1, i, c);
      assert LastTrigger(cfg, es, m, j, i, c);
    }
  }

  // A step that is no trigger for alarm i, no request and no send leaves it as it is.
  lemma AlarmUnchanged(cfg: Config, es: seq<Event>, j: nat, i: AlarmIndex)
    requires ValidConfig(cfg) && Run(cfg, es) && j < |es| && Known(cfg, i)
    requires !Triggers(cfg, es[j], i) && !Requests(cfg, es, j, i) && !Sends(cfg, es, j, i)
    ensures At(cfg, es, j + 1, i) == At(cfg, es, j, i)
  {
    InvAt(cfg, es, j, i);
    StepAt(cfg, es, j, i);
  }

  lemma RequestIdle(cfg: Config, es: seq<Event>, k: nat, j: nat, i: AlarmIndex, now: nat)
    requires ValidConfig(cfg) && Run(cfg, es) && k < j < |es| && Known(cfg, i)
    requires RequestInv(cfg, es, k, j, i, now) && !Triggers(cfg, es[j], i)
    requires !Requests(cfg, es, j, i) && !Sends(cfg, es, j, i)
    ensures RequestInv(cfg, es, k, j + 1, i, now)
  {
    AlarmUnchanged(cfg, es, j, i);
    AskedUnchanged(cfg, es, k, j, i);
  }

  lemma AskedByTrigger(cfg: Config, es: seq<Event>, k: nat, j: nat, i: AlarmIndex)
    requires k < j < |es| && Triggers(cfg, es[j], i)
    ensures var same := es[j].severity == At(cfg, es, k, i).sent;
            && (ChangeAsked(cfg, es, k, j + 1, i) <==> ChangeAsked(cfg, es, k, j, i) || !same)
            && (TakenBack(cfg, es, k, j + 1, i) <==> ChangeAsked(cfg, es, k, j, i) && same)
  {
    assert LastTrigger(cfg, es, j, j + 1, i, es[j].severity);
  }

  // What a trigger does to an alarm whose timer is set.
  lemma TriggeredTimer(cfg: Config, a: Alarm, s: Severity, clock: nat, now: nat)
    requires s != UNDEFINED_SEVERITY && a.timerSeverity != UNDEFINED_SEVERITY
    requires a.popTime <= now && clock + 30000 <= now
    ensures var a' := Triggered(cfg, a, s, clock);
            && a'.sent == a.sent && a'.popTime <= now
            && a'.timerSeverity == (if s == a.sent then a.timerSeverity else s)
            && a'.pending == (if s != a.sent then true else a.timerSeverity == a.sent && a.pending)
  {
  }

  lemma RequestTriggered(cfg: Config, es: seq<Event>, k: nat, j: nat, i: AlarmIndex, now: nat)
    requires ValidConfig(cfg) && Run(cfg, es) && k < j < |es| && Known(cfg, i)
    requires RequestInv(cfg, es, k, j, i, now) && Triggers(cfg, es[j], i) && es[j].now + 30000 <= now
    ensures RequestInv(cfg, es, k, j + 1, i, now)
  {
    StepAt(cfg, es, j, i);
    TriggeredTimer(cfg, At(cfg, es, j, i), es[j].severity, es[j].now, now);
    AskedByTrigger(cfg, es, k, j, i);
  }

  lemma RequestStep(cfg: Config, es: seq<Event>, k: nat, j: nat, i: AlarmIndex, now: nat)
    requires ValidConfig(cfg) && Run(cfg, es) && k < j - 1 < |es| && Known(cfg, i)
    requires RequestInv(cfg, es, k, j - 1, i, now) && !Requests(cfg, es, j - 1, i) && !Sends(cfg, es, j - 1, i)
    requires Triggers(cfg, es[j - 1], i) ==> es[j - 1].now + 30000 <= now
    ensures RequestInv(cfg, es, k, j, i, now)
  {
    if Triggers(cfg, es[j - 1], i) {
      RequestTriggered(cfg, es, k, j - 1, i, now);
    } else {
      RequestIdle(cfg, es, k, j - 1, i, now);
    }
  }

  lemma {:induction false} RequestInvHolds(cfg: Config, es: seq<Event>, k: nat, j: nat, i: AlarmIndex, now: nat)
    requires ValidConfig(cfg) && Run(cfg, es) && k < j <= |es| && Known(cfg, i)
    requires Unanswered(cfg, es, k, j, i) && Quiet(cfg, es, k, j, i, now) && es[k].now + 30000 <= now
    ensures RequestInv(cfg, es, k, j, i, now)
    decreases j
  {
    if j == k + 1 {
      RequestStarts(cfg, es, k, i, now);
    } else {
      RequestInvHolds(cfg, es, k, j - 1, i, now);
      assert !Requests(cfg, es, j - 1, i) && !Sends(cfg, es, j - 1, i);
      RequestStep(cfg, es, k, j, i, now);
    }
  }

  /** Exactly which triggers lose a retry. Let step k be the last sync or failure report, with nothing
      sent since. A pass 30 s after it and after every trigger since sends the alarm, unless a change
      that was waiting at k, or was triggered since, was taken back by a last trigger for the severity
      already sent. */
  lemma RetryExact(cfg: Config, es: seq<Event>, k: nat, n: nat, i: AlarmIndex)
    requires ValidConfig(cfg) && Run(cfg, es) && k < n < |es| && Known(cfg, i) && es[n].Pass?
    requires Unanswered(cfg, es, k, n, i) && Quiet(cfg, es, k, n, i, es[n].now) && es[k].now + 30000 <= es[n].now
    ensures Sends(cfg, es, n, i) <==> !TakenBack(cfg, es, k, n, i)
    ensures TakenBack(cfg, es, k, n, i) ==> !At(cfg, es, n, i).pending
  {
    RequestInvHolds(cfg, es, k, n, i, es[n].now);
  }

  // ---- how often an alarm is sent ----

  // How many of the first k steps send alarm i.
  ghost function SendsIn(cfg: Config, es: seq<Event>, k: nat, i: AlarmIndex): nat
    requires k <= |es|
  {
    if k == 0 then 0 else SendsIn(cfg, es, k - 1, i) + (if Sends(cfg, es, k - 1, i) then 1 else 0)
  }

  // How many of them are valid triggers for it, or ask for it to be sent again.
  ghost function AsksIn(cfg: Config, es: seq<Event>, k: nat, i: AlarmIndex): nat
    requires k <= |es|
  {
    if k == 0 then 0
    else AsksIn(cfg, es, k - 1, i) + (if Triggers(cfg, es[k - 1], i) || Requests(cfg, es, k - 1, i) then 1 else 0)
  }

  lemma PendingOrigin(cfg: Config, es: seq<Event>, k: nat, i: AlarmIndex)
    requires ValidConfig(cfg) && Run(cfg, es) && k < |es| && Known(cfg, i)
    ensures Sends(cfg, es, k, i) ==> At(cfg, es, k, i).pending && !At(cfg, es, k + 1, i).pending
    ensures At(cfg, es, k + 1, i).pending ==>
              At(cfg, es, k, i).pending || Triggers(cfg, es[k], i) || Requests(cfg, es, k, i)
  {
    InvAt(cfg, es, k, i);
    StepAt(cfg, es, k, i);
  }

  /** Conservation: in every run an alarm is sent at most once for each valid trigger, sync or failure
      report that asks for it, one that is still waiting included. */
  lemma {:induction false} SendsAreAskedFor(cfg: Config, es: seq<Event>, k: nat, i: AlarmIndex)
    requires ValidConfig(cfg) && Run(cfg, es) && k <= |es| && Known(cfg, i)
    ensures SendsIn(cfg, es, k, i) + (if At(cfg, es, k, i).pending then 1 else 0) <= AsksIn(cfg, es, k, i)
  {
    if k == 0 {
      AlarmsAreKnown(cfg, es[..0], i);
    } else {
      SendsAreAskedFor(cfg, es, k - 1, i);
      PendingOrigin(cfg, es, k - 1, i);
    }
  }

  // ---- clears that no active alarm asks for ----

  // Nothing happens to an alarm before its first valid trigger.
  lemma {:induction false} UntouchedBeforeTrigger(cfg: Config, es: seq<Event>, k: nat, i: AlarmIndex)
    requires ValidConfig(cfg) && Run(cfg, es) && k <= |es| && Known(cfg, i)
    requires forall q | 0 <= q < k :: !Triggers(cfg, es[q], i)
    ensures At(cfg, es, k, i) == NEW_ALARM
  {
    if k == 0 {
      AlarmsAreKnown(cfg, es[..0], i);
    } else {
      UntouchedBeforeTrigger(cfg, es, k - 1, i);
      StepAt(cfg, es, k - 1, i);
    }
  }

  lemma {:induction false} LastTriggerExists(cfg: Config, es: seq<Event>, q: nat, k: nat, i: AlarmIndex)
    returns (m: nat)
    requires q < k <= |es| && Triggers(cfg, es[q], i)
    ensures m < k && Triggers(cfg, es[m], i) && LastTrigger(cfg, es, m, k, i, es[m].severity)
    decreases k
  {
    m := k - 1;
    if !Triggers(cfg, es[m], i) {
      m := LastTriggerExists(cfg, es, q, k - 1, i);
    }
  }

  // While nothing was sent of an alarm, its timer holds the severity last triggered, due at once.
  lemma SilentTimer(cfg: Config, es: seq<Event>, m: nat, k: nat, i: AlarmIndex, s: Severity)
    requires ValidConfig(cfg) && Run(cfg, es) && LastTrigger(cfg, es, m, k, i, s)
    requires At(cfg, es, k, i).sent == UNDEFINED_SEVERITY
    ensures At(cfg, es, k, i).timerSeverity == s && Due(At(cfg, es, k, i), Clock(es[..k]))
  {
    WantsLastTrigger(cfg, es, m, k, i, s);
    if SyncedDuringChange(cfg, es, m, k, i) {
      var q :| m < q < k && SyncsDuringChange(cfg, es, q, i);
      StaysKnown(cfg, es, q, k, i);
    }
    InvAt(cfg, es, k, i);
  }

  /** The first INFORM of an alarm: a pass sends severity s exactly when s is the last severity triggered,
      whatever s is. So a clear is sent for an alarm that was never active, exactly then. */
  lemma SilentAlarmSends(cfg: Config, es: seq<Event>, n: nat, i: AlarmIndex, s: Severity)
    requires ValidConfig(cfg) && Run(cfg, es) && n < |es| && es[n].Pass? && Known(cfg, i)
    requires At(cfg, es, n, i).sent == UNDEFINED_SEVERITY
    ensures Sends(cfg, es, n, i) && At(cfg, es, n, i).timerSeverity == s <==>
            exists m: nat :: LastTrigger(cfg, es, m, n, i, s)
  {
    StepAt(cfg, es, n, i);
    if forall q | 0 <= q < n :: !Triggers(cfg, es[q], i) {
      UntouchedBeforeTrigger(cfg, es, n, i);
    } else {
      var q :| 0 <= q < n && Triggers(cfg, es[q], i);
      var m := LastTriggerExists(cfg, es, q, n, i);
      SilentTimer(cfg, es, m, n, i, es[m].severity);
      forall m': nat | LastTrigger(cfg, es, m', n, i, s)
        ensures m' == m
      {
      }
    }
  }

  // Since step m, a sync or a failure report at least 30 s old, alarm i was not sent.
  ghost predicate AskedBefore(cfg: Config, es: seq<Event>, m: nat, n: nat, i: AlarmIndex)
    requires m < n < |es| && es[n].Pass?
  {
    (es[m].Sync? || ReportedBefore(cfg, es, m, n, i)) && forall q | m <= q < n :: !Sends(cfg, es, q, i)
  }

  /** A clear sent while the alarm is not active is either the first INFORM of an alarm last triggered
      CLEARED, or repeats the clear before it because of a sync or an old failure report. */
  lemma ClearOfInactiveAlarm(cfg: Config, es: seq<Event>, n: nat, i: AlarmIndex)
    requires ValidConfig(cfg) && Run(cfg, es) && n < |es| && Sends(cfg, es, n, i)
    requires At(cfg, es, n, i).timerSeverity == CLEARED
    ensures At(cfg, es, n, i).sent == UNDEFINED_SEVERITY ==> exists m: nat :: LastTrigger(cfg, es, m, n, i, CLEARED)
    ensures At(cfg, es, n, i).sent == CLEARED ==> exists m: nat :: m < n && AskedBefore(cfg, es, m, n, i)
  {
    if At(cfg, es, n, i).sent == UNDEFINED_SEVERITY {
      SilentAlarmSends(cfg, es, n, i, CLEARED);
    } else if At(cfg, es, n, i).sent == CLEARED {
      RepeatWasAskedFor(cfg, es, n, i);
      var m: nat :| AskedAgain(cfg, es, m, n, i);
      assert AskedBefore(cfg, es, m, n, i);
    }
  }
}
