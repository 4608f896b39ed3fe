/** Reductions over whole runs: where each comes from, when flicker is held back, and when the 30 s
    delay is whole. */
module FlickerRuns {
  import opened Common
  import opened AlarmDefs
  import opened SchedulerSpec
  import opened SchedulerRuns
  import opened SenderRuns

  // ---- when each schedule was made ----

  // Trigger m gave alarm i's timer the severity and pop time it has after k steps; neither they nor
  // the severity sent changed since.
  ghost predicate Armed(cfg: Config, es: seq<Event>, m: nat, k: nat, i: AlarmIndex)
    requires k <= |es|
  {
    var a := At(cfg, es, k, i);
    && m < k && TriggerFor(cfg, es[m], i, a.timerSeverity)
    && a.popTime == es[m].now + DelayFor(cfg, a.sent, a.timerSeverity)
    && At(cfg, es, m, i).sent == a.sent
    && (forall q | m < q <= k ::
          var b := At(cfg, es, q, i); b.sent == a.sent && b.timerSeverity == a.timerSeverity && b.popTime == a.popTime)
  }

  // The timer is set for a severity other than the one sent.
  predicate ForChange(a: Alarm) {
    a.timerSeverity != UNDEFINED_SEVERITY && a.timerSeverity != a.sent
  }

  lemma ChangeOrigin(cfg: Config, i: AlarmIndex, a: Alarm, clock: nat, e: Event)
    requires ValidConfig(cfg) && AlarmInv(cfg, i, a, clock)
    ensures var a' := AlarmStep(cfg, i, a, e);
            ForChange(a') ==>
              && a'.sent == a.sent
              && (a'.(pending := a.pending) == a
                  || (TriggerFor(cfg, e, i, a'.timerSeverity)
                      && a'.popTime == e.now + DelayFor(cfg, a'.sent, a'.timerSeverity)))
  {
  }

  lemma StaysArmed(cfg: Config, es: seq<Event>, m: nat, k: nat, i: AlarmIndex)
    requires k < |es| && Armed(cfg, es, m, k, i)
    requires At(cfg, es, k + 1, i).(pending := At(cfg, es, k, i).pending) == At(cfg, es, k, i)
    ensures Armed(cfg, es, m, k + 1, i)
  {
  }

  // The step that leaves a timer set for a change leaves it as it was or is its trigger.
  lemma ArmedByStep(cfg: Config, es: seq<Event>, k: nat, i: AlarmIndex)
    requires ValidConfig(cfg) && Run(cfg, es) && k < |es| && Known(cfg, i) && ForChange(At(cfg, es, k + 1, i))
    ensures || At(cfg, es, k + 1, i).(pending := At(cfg, es, k, i).pending) == At(cfg, es, k, i)
            || Armed(cfg, es, k, k + 1, i)
  {
    InvAt(cfg, es, k, i);
    StepAt(cfg, es, k, i);
    ChangeOrigin(cfg, i, At(cfg, es, k, i), Clock(es[..k]), es[k]);
  }

  /** A timer set for a change of severity, pending or stale, was set by one trigger for that very
      severity, at that trigger's time plus the delay for it. */
  lemma {:induction false} ChangeHasTrigger(cfg: Config, es: seq<Event>, k: nat, i: AlarmIndex)
    requires ValidConfig(cfg) && Run(cfg, es) && k <= |es| && Known(cfg, i)
    ensures ForChange(At(cfg, es, k, i)) ==> exists m: nat :: Armed(cfg, es, m, k, i)
    decreases k
  {
    if k == 0 {
      AlarmsAreKnown(cfg, es[..0], i);
    } else if ForChange(At(cfg, es, k, i)) {
      ArmedByStep(cfg, es, k - 1, i);
      if !Armed(cfg, es, k - 1, k, i) {
        ChangeHasTrigger(cfg, es, k - 1, i);
        var m: nat :| Armed(cfg, es, m, k - 1, i);
        StaysArmed(cfg, es, m, k - 1, i);
      }
    }
  }

  /** Anti-flicker: a send that lowers an alarm's severity to s goes back to a trigger for s at
      least 30 s old, and the severity sent did not change from that trigger to the send. */
  lemma ReductionIsThirtySecondsOld(cfg: Config, es: seq<Event>, n: nat, i: AlarmIndex)
    requires ValidConfig(cfg) && Run(cfg, es) && n < |es| && Sends(cfg, es, n, i)
    requires cfg.above(At(cfg, es, n, i).sent, At(cfg, es, n, i).timerSeverity)
    ensures exists m: nat :: && m < n && TriggerFor(cfg, es[m], i, At(cfg, es, n, i).timerSeverity)
                             && es[m].now + 30000 <= es[n].now
                             && forall q | m <= q <= n :: At(cfg, es, q, i).sent == At(cfg, es, n, i).sent
  {
    InvAt(cfg, es, n, i);
    ChangeHasTrigger(cfg, es, n, i);
    var m: nat :| Armed(cfg, es, m, n, i);
    assert forall q | m < q <= n :: At(cfg, es, q, i).sent == At(cfg, es, n, i).sent;
  }

  // ---- flicker ----

  // A step during flicker: alarm i is only ever triggered at c and s, at s not before time u; there
  // is no sync, and no failure report for it before u; and passes come before u + 30 s.
  ghost predicate FlickerStep(cfg: Config, e: Event, i: AlarmIndex, c: Severity, s: Severity, u: nat) {
    && !e.Sync? && !(e.Failed? && e.index == i && e.now < u)
    && (Triggers(cfg, e, i) ==> e.severity == c || (e.severity == s && u <= e.now))
    && (e.Pass? ==> e.now < u + 30000)
  }

  // The steps from b to n are such steps.
  ghost predicate Flickers(cfg: Config, es: seq<Event>, b: nat, n: nat, i: AlarmIndex,
                           c: Severity, s: Severity, u: nat) {
    b <= n <= |es| && forall q | b <= q < n :: FlickerStep(cfg, es[q], i, c, s, u)
  }

  // Severity c was sent; whatever waits to be sent, and a timer left at s by a cancelled reduction,
  // is not due before u + 30 s.
  ghost predicate HeldBack(a: Alarm, c: Severity, s: Severity, u: nat) {
    a.sent == c && (a.pending || a.timerSeverity == s != UNDEFINED_SEVERITY ==> a.popTime >= u + 30000)
  }

  lemma FlickerKeepsHeldBack(cfg: Config, i: AlarmIndex, a: Alarm, clock: nat, e: Event,
                             c: Severity, s: Severity, u: nat)
    requires ValidConfig(cfg) && AlarmInv(cfg, i, a, clock) && cfg.above(c, s) && HeldBack(a, c, s, u)
    requires FlickerStep(cfg, e, i, c, s, u)
    ensures HeldBack(AlarmStep(cfg, i, a, e), c, s, u)
  {
  }

  lemma FlickerHoldsBack(cfg: Config, es: seq<Event>, k: nat, i: AlarmIndex, c: Severity, s: Severity, u: nat)
    requires ValidConfig(cfg) && Run(cfg, es) && k < |es| && Known(cfg, i) && cfg.above(c, s)
    requires FlickerStep(cfg, es[k], i, c, s, u) && HeldBack(At(cfg, es, k, i), c, s, u)
    ensures !Sends(cfg, es, k, i) && HeldBack(At(cfg, es, k + 1, i), c, s, u)
  {
    InvAt(cfg, es, k, i);
    StepAt(cfg, es, k, i);
    FlickerKeepsHeldBack(cfg, i, At(cfg, es, k, i), Clock(es[..k]), es[k], c, s, u);
  }

  /** Any number of alternations between the severity sent and a lower one cause no INFORM within
      30 s of the first reduction, if nothing was due by then to begin with. */
  lemma {:induction false} FlickerSendsNothing(cfg: Config, es: seq<Event>, b: nat, n: nat, i: AlarmIndex,
                                               c: Severity, s: Severity, u: nat)
    requires ValidConfig(cfg) && Run(cfg, es) && Known(cfg, i) && cfg.above(c, s)
    requires Flickers(cfg, es, b, n, i, c, s, u) && HeldBack(At(cfg, es, b, i), c, s, u)
    ensures forall q | b <= q < n :: !Sends(cfg, es, q, i)
    ensures HeldBack(At(cfg, es, n, i), c, s, u)
    decreases n
  {
    if n > b {
      FlickerSendsNothing(cfg, es, b, n - 1, i, c, s, u);
      FlickerHoldsBack(cfg, es, n - 1, i, c, s, u);
    }
  }

  // `more` continues the run es with flicker only.
  ghost predicate FlickerAfter(cfg: Config, es: seq<Event>, more: seq<Event>, i: AlarmIndex,
                               c: Severity, s: Severity, u: nat) {
    Run(cfg, es + more) && Flickers(cfg, es + more, |es|, |es + more|, i, c, s, u)
  }

  ghost predicate SendsAfter(cfg: Config, es: seq<Event>, more: seq<Event>, i: AlarmIndex) {
    exists q :: |es| <= q < |es + more| && Sends(cfg, es + more, q, i)
  }

  lemma {:induction false} AtPrefix(cfg: Config, es: seq<Event>, more: seq<Event>, k: nat, i: AlarmIndex)
    requires k <= |es|
    ensures At(cfg, es + more, k, i) == At(cfg, es, k, i)
  {
    assert (es + more)[..k] == es[..k];
  }

  // The sender can take a pass now.
  lemma PassNow(cfg: Config, es: seq<Event>, now: nat) returns (pass: Event)
    requires Run(cfg, es) && !After(cfg, es).terminated && Clock(es) <= now
    ensures pass.Pass? && pass.now == now && Run(cfg, es + [pass])
  {
    var order := PopOrderExists(After(cfg, es).alarms, now);
    pass := Pass(now, order);
    SenderInvHolds(cfg, es);
    assert Front(es + [pass]) == es;
  }

  // A scheduled alarm is sent by a pass at its pop time.
  lemma PassSendsPending(cfg: Config, es: seq<Event>, i: AlarmIndex, now: nat) returns (pass: Event)
    requires Run(cfg, es) && !After(cfg, es).terminated && Known(cfg, i)
    requires Due(At(cfg, es, |es|, i), now) && Clock(es) <= now
    ensures pass.Pass? && pass.now == now && Run(cfg, es + [pass]) && Sends(cfg, es + [pass], |es|, i)
  {
    pass := PassNow(cfg, es, now);
    AtPrefix(cfg, es, [pass], |es|, i);
  }

  // A reduction that finds its own severity in the timer keeps the pop time.
  lemma TriggerNow(cfg: Config, es: seq<Event>, i: AlarmIndex, s: Severity, now: nat)
    requires ValidConfig(cfg) && Run(cfg, es) && Clock(es) <= now && (i, s) in cfg.defs
    requires At(cfg, es, |es|, i).timerSeverity == s != At(cfg, es, |es|, i).sent
    ensures var es' := es + [Trigger(i, s, now)];
            && Run(cfg, es') && Clock(es') == now && After(cfg, es').terminated == After(cfg, es).terminated
            && At(cfg, es', |es'|, i) == At(cfg, es, |es|, i).(pending := true)
  {
    var es' := es + [Trigger(i, s, now)];
    assert Front(es') == es && es'[..|es|] == es && es[..|es|] == es && es'[..|es'|] == es';
    StepAt(cfg, es', |es|, i);
  }

  // A pass that sends the alarm within the 30 s ends the flicker `more`.
  lemma PassEndsFlicker(cfg: Config, es: seq<Event>, more: seq<Event>, i: AlarmIndex,
                        c: Severity, s: Severity, u: nat, now: nat) returns (more': seq<Event>)
    requires FlickerAfter(cfg, es, more, i, c, s, u) && !After(cfg, es + more).terminated && Known(cfg, i)
    requires Clock(es + more) <= now < u + 30000 && Due(At(cfg, es + more, |es + more|, i), now)
    ensures FlickerAfter(cfg, es, more', i, c, s, u) && SendsAfter(cfg, es, more', i)
  {
    var pass := PassSendsPending(cfg, es + more, i, now);
    more' := more + [pass];
    assert es + more' == es + more + [pass];
    forall q | |es| <= q < |es + more'|
      ensures FlickerStep(cfg, (es + more')[q], i, c, s, u)
    {
      assert q < |es + more| ==> (es + more')[q] == (es + more)[q];
    }
  }

  function Max(a: nat, b: nat): nat { if a < b then b else a }

  // If the alarm waits, a pass at its pop time sends it.
  lemma PendingCanBeSent(cfg: Config, es: seq<Event>, i: AlarmIndex, c: Severity, s: Severity, u: nat)
    returns (more: seq<Event>)
    requires ValidConfig(cfg) && Run(cfg, es) && !After(cfg, es).terminated && Clock(es) < u + 30000 && Known(cfg, i)
    requires At(cfg, es, |es|, i).pending && At(cfg, es, |es|, i).popTime < u + 30000
    ensures FlickerAfter(cfg, es, more, i, c, s, u) && SendsAfter(cfg, es, more, i)
  {
    assert es + [] == es;
    more := PassEndsFlicker(cfg, es, [], i, c, s, u, Max(Clock(es), At(cfg, es, |es|, i).popTime));
  }

  // If it has a pop time left over from a cancelled reduction, a trigger and a pass do.
  lemma LeftOverCanBeSent(cfg: Config, es: seq<Event>, i: AlarmIndex, c: Severity, s: Severity, u: nat)
    returns (more: seq<Event>)
    requires ValidConfig(cfg) && Run(cfg, es) && !After(cfg, es).terminated && Clock(es) < u + 30000
    requires (i, s) in cfg.defs && At(cfg, es, |es|, i).sent != s
    requires At(cfg, es, |es|, i).timerSeverity == s && At(cfg, es, |es|, i).popTime < u + 30000
    ensures FlickerAfter(cfg, es, more, i, c, s, u) && SendsAfter(cfg, es, more, i)
  {
    var t := Max(u, Clock(es));
    TriggerNow(cfg, es, i, s, t);
    assert (es + [Trigger(i, s, t)])[|es|] == Trigger(i, s, t);
    more := PassEndsFlicker(cfg, es, [Trigger(i, s, t)], i, c, s, u, Max(t, At(cfg, es, |es|, i).popTime));
  }

  // If the alarm is not held back, flicker can make the sender send it within the 30 s.
  lemma FlickerCanSend(cfg: Config, es: seq<Event>, i: AlarmIndex, c: Severity, s: Severity, u: nat)
    returns (more: seq<Event>)
    requires ValidConfig(cfg) && Run(cfg, es) && !After(cfg, es).terminated && Clock(es) < u + 30000
    requires (i, s) in cfg.defs && cfg.above(c, s) && At(cfg, es, |es|, i).sent == c
    requires !HeldBack(At(cfg, es, |es|, i), c, s, u)
    ensures FlickerAfter(cfg, es, more, i, c, s, u) && SendsAfter(cfg, es, more, i)
  {
    if At(cfg, es, |es|, i).pending {
      more := PendingCanBeSent(cfg, es, i, c, s, u);
    } else {
      more := LeftOverCanBeSent(cfg, es, i, c, s, u);
    }
  }

  /** Exactly when flicker protection works: from a state in which c was sent, no flicker between c
      and a lower s causes an INFORM within 30 s of its first reduction at u, if and only if nothing
      already waiting, and no pop time left over from a cancelled reduction to s, is due by then. */
  lemma FlickerExact(cfg: Config, es: seq<Event>, i: AlarmIndex, c: Severity, s: Severity, u: nat)
    requires ValidConfig(cfg) && Run(cfg, es) && !After(cfg, es).terminated && Clock(es) < u + 30000
    requires (i, s) in cfg.defs && cfg.above(c, s) && At(cfg, es, |es|, i).sent == c
    ensures HeldBack(At(cfg, es, |es|, i), c, s, u) <==>
            forall more :: FlickerAfter(cfg, es, more, i, c, s, u) ==> !SendsAfter(cfg, es, more, i)
  {
    if HeldBack(At(cfg, es, |es|, i), c, s, u) {
      forall more | FlickerAfter(cfg, es, more, i, c, s, u)
        ensures !SendsAfter(cfg, es, more, i)
      {
        AtPrefix(cfg, es, more, |es|, i);
        FlickerSendsNothing(cfg, es + more, |es|, |es + more|, i, c, s, u);
      }
    } else {
      var more := FlickerCanSend(cfg, es, i, c, s, u);
    }
  }

  // ---- the delay is not restarted ----

  // Step q leaves alarm i's timer set for s: it is no send of i, no sync, no trigger for a severity
  // other than s and the one sent, and no failure report that is acted on.
  ghost predicate LeavesTimer(cfg: Config, es: seq<Event>, q: nat, i: AlarmIndex, s: Severity)
    requires q < |es|
  {
    var e, a := es[q], At(cfg, es, q, i);
    && !Sends(cfg, es, q, i) && !e.Sync?
    && (Triggers(cfg, e, i) ==> e.severity == s || e.severity == a.sent)
    && (e.Failed? && e.index == i && e.severity == a.sent ==> a.pending)
  }

  // Step m triggered s at an earlier time than step k, and every step since leaves the timer set for it.
  ghost predicate EarlierTrigger(cfg: Config, es: seq<Event>, m: nat, k: nat, i: AlarmIndex, s: Severity)
    requires k < |es|
  {
    && m < k && TriggerFor(cfg, es[m], i, s) && es[k].Trigger? && es[m].now < es[k].now
    && forall q | m < q < k :: LeavesTimer(cfg, es, q, i, s)
  }

  ghost predicate TriggeredEarlier(cfg: Config, es: seq<Event>, k: nat, i: AlarmIndex, s: Severity)
    requires k < |es|
  {
    exists m: nat :: EarlierTrigger(cfg, es, m, k, i, s)
  }

  lemma {:induction false} TimerStaysSet(cfg: Config, es: seq<Event>, m: nat, k: nat, i: AlarmIndex, s: Severity)
    requires ValidConfig(cfg) && Run(cfg, es) && m < k <= |es| && TriggerFor(cfg, es[m], i, s)
    requires cfg.above(At(cfg, es, m, i).sent, s)
    requires forall q | m < q < k :: LeavesTimer(cfg, es, q, i, s)
    ensures At(cfg, es, k, i).sent == At(cfg, es, m, i).sent && At(cfg, es, k, i).timerSeverity == s
    ensures At(cfg, es, k, i).popTime <= es[m].now + 30000
    decreases k
  {
    InvAt(cfg, es, k - 1, i);
    StepAt(cfg, es, k - 1, i);
    if k - 1 > m {
      TimerStaysSet(cfg, es, m, k - 1, i, s);
      assert LeavesTimer(cfg, es, k - 1, i, s);
    }
  }

  lemma ArmedLeavesTimer(cfg: Config, es: seq<Event>, m: nat, k: nat, q: nat, i: AlarmIndex)
    requires ValidConfig(cfg) && Run(cfg, es) && Known(cfg, i) && m < q < k <= |es| && Armed(cfg, es, m, k, i)
    requires cfg.above(At(cfg, es, k, i).sent, At(cfg, es, k, i).timerSeverity)
    ensures LeavesTimer(cfg, es, q, i, At(cfg, es, k, i).timerSeverity)
  {
    InvAt(cfg, es, q, i);
    StepAt(cfg, es, q, i);
    var a, a' := At(cfg, es, q, i), At(cfg, es, q + 1, i);
    assert a'.sent == a.sent && a'.timerSeverity == a.timerSeverity;
  }

  lemma EarlierTriggerHoldsTimer(cfg: Config, es: seq<Event>, m: nat, k: nat, i: AlarmIndex, s: Severity)
    requires ValidConfig(cfg) && Run(cfg, es) && k < |es| && EarlierTrigger(cfg, es, m, k, i, s)
    requires cfg.above(At(cfg, es, k, i).sent, s)
    ensures At(cfg, es, k, i).timerSeverity == s && At(cfg, es, k, i).popTime < es[k].now + 30000
  {
    forall q | m <= q < k
      ensures !Sends(cfg, es, q, i)
    {
      assert q == m || LeavesTimer(cfg, es, q, i, s);
    }
    SentStands(cfg, es, m, k, i);
    TimerStaysSet(cfg, es, m, k, i, s);
  }

  lemma TimeOf(cfg: Config, es: seq<Event>, m: nat, k: nat, i: AlarmIndex)
    requires Run(cfg, es) && m < k < |es| && Known(cfg, i) && es[m].Trigger? && es[k].Trigger?
    ensures es[m].now <= es[k].now
  {
    StepAt(cfg, es, m, i);
    ClockGrows(cfg, es, m + 1, k, i);
    StepAt(cfg, es, k, i);
  }

  /** A reduction waits a full 30 s from its trigger exactly when the same reduction was not triggered
      earlier or, since then, the alarm was sent, synced, triggered at a third severity or retried.
      Otherwise the wait counts from the earlier trigger, even if that was cancelled since. */
  lemma ReductionDelayExact(cfg: Config, es: seq<Event>, k: nat, i: AlarmIndex, s: Severity)
    requires ValidConfig(cfg) && Run(cfg, es) && k < |es| && TriggerFor(cfg, es[k], i, s)
    requires cfg.above(At(cfg, es, k, i).sent, s)
    ensures At(cfg, es, k + 1, i).pending && At(cfg, es, k + 1, i).timerSeverity == s
    ensures At(cfg, es, k + 1, i).popTime == es[k].now + 30000 <==> !TriggeredEarlier(cfg, es, k, i, s)
    ensures TriggeredEarlier(cfg, es, k, i, s) ==> At(cfg, es, k + 1, i).popTime < es[k].now + 30000
  {
    InvAt(cfg, es, k, i);
    StepAt(cfg, es, k, i);
    var a := At(cfg, es, k, i);
    assert !cfg.above(s, a.sent);
    if TriggeredEarlier(cfg, es, k, i, s) {
      var m: nat :| EarlierTrigger(cfg, es, m, k, i, s);
      EarlierTriggerHoldsTimer(cfg, es, m, k, i, s);
    }
    if a.timerSeverity == s {
      ChangeHasTrigger(cfg, es, k, i);
      var m: nat :| Armed(cfg, es, m, k, i);
      forall q | m < q < k
        ensures LeavesTimer(cfg, es, q, i, s)
      {
        ArmedLeavesTimer(cfg, es, m, k, q, i);
      }
      TimeOf(cfg, es, m, k, i);
      assert es[m].now < es[k].now ==> EarlierTrigger(cfg, es, m, k, i, s);
    }
  }

}
