/** The scheduler's objects, each method proved to take the step that SchedulerSpec gives it
    (src/alarm_scheduler.cpp, include/alarm_scheduler.hpp). */
module Scheduler {
  import opened Common
  import opened AlarmDefs
  import opened ActiveTable
  import opened SchedulerSpec

  // The alarms of the keys visited so far, all new.
  ghost function InitFor(keys: set<DefKey>): map<AlarmIndex, Alarm> {
    map k | k in keys :: k.0 := NEW_ALARM
  }

  lemma InitForAdds(keys: set<DefKey>, k: DefKey)
    ensures InitFor(keys + {k}) == if k.0 in InitFor(keys) then InitFor(keys) else InitFor(keys)[k.0 := NEW_ALARM]
  {
    var all, some := InitFor(keys + {k}), InitFor(keys);
    assert forall i | i in some :: i in all;
    assert forall i | i in all :: i == k.0 || i in some;
  }

  // How the loop over all alarms leaves them when only `todo` is still to be visited.
  ghost function PartlySynced(alarms: map<AlarmIndex, Alarm>, todo: set<AlarmIndex>, readings: map<AlarmIndex, nat>)
    : map<AlarmIndex, Alarm>
    requires alarms.Keys <= readings.Keys
  {
    map i | i in alarms :: if i in todo then alarms[i] else Synced(alarms[i], readings[i])
  }

  lemma PartlySyncedStep(alarms: map<AlarmIndex, Alarm>, todo: set<AlarmIndex>,
                         readings: map<AlarmIndex, nat>, i: AlarmIndex)
    requires alarms.Keys <= readings.Keys && i in todo && i in alarms
    ensures PartlySynced(alarms, todo, readings)[i := Synced(alarms[i], readings[i])]
            == PartlySynced(alarms, todo - {i}, readings)
  {
  }

  lemma NothingSynced(alarms: map<AlarmIndex, Alarm>, readings: map<AlarmIndex, nat>)
    requires alarms.Keys <= readings.Keys
    ensures PartlySynced(alarms, alarms.Keys, readings) == alarms
  {
  }

  lemma AllSynced(st: State, readings: map<AlarmIndex, nat>)
    requires st.alarms.Keys <= readings.Keys
    ensures SyncAll(st, readings) == SchedulerSpec.Signal(st.(alarms := PartlySynced(st.alarms, {}, readings)))
  {
    assert PartlySynced(st.alarms, {}, readings) == map i | i in st.alarms :: Synced(st.alarms[i], readings[i]);
  }

  // Where the inner loop of heap_sender stands: `order` lists the alarms popped so far, all due and
  // none later than what is left; the other alarms are untouched.
  ghost predicate Popping(before: map<AlarmIndex, Alarm>, now: nat, order: seq<AlarmIndex>,
                          alarms: map<AlarmIndex, Alarm>) {
    && alarms.Keys == before.Keys && Distinct(order)
    && (forall i | i in order :: i in before && Due(before[i], now) && !alarms[i].pending)
    && (forall i | i in before && i !in order :: alarms[i] == before[i])
    && (forall j, k | 0 <= j < k < |order| :: before[order[j]].popTime <= before[order[k]].popTime)
    && (forall k, i | 0 <= k < |order| && i in alarms && alarms[i].pending ::
          before[order[k]].popTime <= alarms[i].popTime)
  }

  lemma PoppingStart(alarms: map<AlarmIndex, Alarm>, now: nat)
    ensures Popping(alarms, now, [], alarms)
  {
  }

  lemma PoppingStep(cfg: Config, before: map<AlarmIndex, Alarm>, now: nat, order: seq<AlarmIndex>,
                    alarms: map<AlarmIndex, Alarm>, i: AlarmIndex)
    requires Popping(before, now, order, alarms)
    requires i in alarms && Due(alarms[i], now) && Earliest(alarms, alarms[i].popTime)
    ensures Popping(before, now, order + [i], alarms[i := Popped(cfg, i, alarms[i])])
  {
    assert i !in order;
  }

  lemma PopOnAlarms(cfg: Config, st: State, i: AlarmIndex)
    requires i in st.alarms
    ensures Pop(cfg, st, i).alarms == st.alarms[i := Popped(cfg, i, st.alarms[i])]
  {
  }

  lemma PoppingDone(before: map<AlarmIndex, Alarm>, now: nat, order: seq<AlarmIndex>, alarms: map<AlarmIndex, Alarm>)
    requires Popping(before, now, order, alarms)
    requires forall i | i in alarms :: !Due(alarms[i], now)
    ensures PopOrder(before, now, order)
  {
  }

  // Each pop of `order` takes an alarm that is due and then earliest in the heap.
  ghost predicate PopsEarliest(cfg: Config, st: State, now: nat, order: seq<AlarmIndex>) {
    order == [] ||
    (&& PopsEarliest(cfg, st, now, Front(order))
     && (forall i | i in order :: i in st.alarms)
     && var alarms := PopAll(cfg, st, Front(order)).alarms;
        Due(alarms[Last(order)], now) && Earliest(alarms, alarms[Last(order)].popTime))
  }

  lemma {:induction false} PopsEarliestIsPopping(cfg: Config, st: State, now: nat, order: seq<AlarmIndex>)
    requires PopsEarliest(cfg, st, now, order)
    ensures forall i | i in order :: i in st.alarms
    ensures Popping(st.alarms, now, order, PopAll(cfg, st, order).alarms)
  {
    if order == [] {
      PoppingStart(st.alarms, now);
    } else {
      var front, last := Front(order), Last(order);
      assert order == front + [last];
      PopsEarliestIsPopping(cfg, st, now, front);
      PoppingStep(cfg, st.alarms, now, front, PopAll(cfg, st, front).alarms, last);
      PopOnAlarms(cfg, PopAll(cfg, st, front), last);
    }
  }

  /** Popping the earliest timer until none is due visits exactly the due alarms, in order. */
  lemma PopsEarliestIsPopOrder(cfg: Config, st: State, now: nat, order: seq<AlarmIndex>)
    requires PopsEarliest(cfg, st, now, order) && (forall i | i in order :: i in st.alarms)
    requires forall i | i in PopAll(cfg, st, order).alarms :: !Due(PopAll(cfg, st, order).alarms[i], now)
    ensures PopOrder(st.alarms, now, order)
  {
    PopsEarliestIsPopping(cfg, st, now, order);
    PoppingDone(st.alarms, now, order, PopAll(cfg, st, order).alarms);
  }

  lemma PopsEarliestSnoc(cfg: Config, st: State, now: nat, order: seq<AlarmIndex>, i: AlarmIndex)
    requires PopsEarliest(cfg, st, now, order) && (forall j | j in order :: j in st.alarms) && i in st.alarms
    requires var alarms := PopAll(cfg, st, order).alarms; Due(alarms[i], now) && Earliest(alarms, alarms[i].popTime)
    ensures (forall j | j in order + [i] :: j in st.alarms) && PopsEarliest(cfg, st, now, order + [i])
    ensures PopAll(cfg, st, order + [i]) == Pop(cfg, PopAll(cfg, st, order), i)
  {
    assert Front(order + [i]) == order;
  }

  lemma EarliestIsUnique(alarms: map<AlarmIndex, Alarm>, t: nat)
    requires Earliest(alarms, t)
    ensures WaitUntil(alarms) == Some(ToTimespec(t))
  {
    assert !HeapEmpty(alarms);
    EarliestExists(alarms);
    var u: nat :| Earliest(alarms, u) && WaitUntil(alarms) == Some(ToTimespec(u));
  }

  class AlarmTimer {
    const index: AlarmIndex
    var popTime: nat
    var severity: Severity

    constructor (index: AlarmIndex)
      ensures this.index == index && popTime == UINT64_MAX && severity == UNDEFINED_SEVERITY
    {
      this.index := index;
      popTime, severity := UINT64_MAX, UNDEFINED_SEVERITY;
    }

    /** update_pop_time; `now` is the clock reading. */
    method UpdatePopTime(now: nat, timeToAdd: nat)
      modifies this`popTime
      ensures popTime == now + timeToAdd
    {
      popTime := now + timeToAdd;
    }

    /** The field updates of remove_from_heap. */
    method Reset()
      modifies this
      ensures popTime == UINT64_MAX && severity == UNDEFINED_SEVERITY
    {
      popTime := UINT64_MAX;
      severity := UNDEFINED_SEVERITY;
    }
  }

  class SingleAlarmManager {
    const timer: AlarmTimer
    var severity: Severity

    constructor (timer: AlarmTimer, severity: Severity)
      ensures this.timer == timer && this.severity == severity
    {
      this.timer, this.severity := timer, severity;
    }

    /** change_schedule: does nothing to a timer that already holds the severity. */
    method ChangeSchedule(newSeverity: Severity, now: nat, delay: nat)
      modifies timer
      ensures timer.severity == newSeverity
      ensures timer.popTime == if old(timer.severity) != newSeverity then now + delay else old(timer.popTime)
    {
      if newSeverity != timer.severity {
        timer.severity := newSeverity;
        timer.UpdatePopTime(now, delay);
      }
    }
  }

  // The constructor's loop: one manager per alarm index, whatever number of severities it has.
  method PopulateManagers(keys: set<DefKey>) returns (managers: map<AlarmIndex, SingleAlarmManager>)
    ensures managers.Keys == InitFor(keys).Keys
    ensures forall i | i in managers ::
              && fresh(managers[i]) && fresh(managers[i].timer) && managers[i].timer.index == i
              && managers[i].severity == UNDEFINED_SEVERITY
              && managers[i].timer.severity == UNDEFINED_SEVERITY && managers[i].timer.popTime == UINT64_MAX
  {
    managers := map[];
    var todo := keys;
    while todo != {}
      invariant todo <= keys
      invariant managers.Keys == InitFor(keys - todo).Keys
      invariant forall i | i in managers ::
                  && fresh(managers[i]) && fresh(managers[i].timer) && managers[i].timer.index == i
                  && managers[i].severity == UNDEFINED_SEVERITY
                  && managers[i].timer.severity == UNDEFINED_SEVERITY && managers[i].timer.popTime == UINT64_MAX
      decreases |todo|
    {
      var k :| k in todo;
      InitForAdds(keys - todo, k);
      assert keys - (todo - {k}) == keys - todo + {k};
      if k.0 !in managers {
        var timer := new AlarmTimer(k.0);
        var manager := new SingleAlarmManager(timer, UNDEFINED_SEVERITY);
        managers := managers[k.0 := manager];
      }
      todo := todo - {k};
    }
    assert keys - todo == keys;
  }

  class AlarmScheduler {
    const cfg: Config
    const activeTable: ActiveAlarmTable
    // Filled by the constructor; afterwards only the managers and timers it points to change.
    const managers: map<AlarmIndex, SingleAlarmManager>
    var heap: set<AlarmTimer>
    var terminated: bool
    var sender: Sender
    var informs: seq<AlarmTableDef>

    ghost function Timers(): set<AlarmTimer> {
      set i | i in managers :: managers[i].timer
    }

    // Each timer is the one of its own index, so no two managers share one; the heap holds only
    // managers' timers.
    ghost predicate Valid()
      reads this`heap
    {
      && (forall i | i in managers :: managers[i].timer.index == i)
      && (forall t | t in heap :: t.index in managers && managers[t.index].timer == t)
    }

    ghost function AlarmOf(m: SingleAlarmManager): Alarm
      reads this`heap, m, m.timer
    {
      Alarm(m.severity, m.timer.severity, m.timer.popTime, m.timer in heap)
    }

    ghost function Alarms(): map<AlarmIndex, Alarm>
      reads this`heap, managers.Values, Timers()
    {
      map i | i in managers :: AlarmOf(managers[i])
    }

    ghost function View(): State
      reads this, managers.Values, Timers(), activeTable
    {
      State(Alarms(), sender, terminated, informs, activeTable.View())
    }

    /** The constructor. */
    constructor (cfg: Config)
      ensures Valid() && View() == Init(cfg) && this.cfg == cfg
      ensures fresh(managers.Values) && fresh(Timers()) && fresh(activeTable)
    {
      this.cfg := cfg;
      activeTable := new ActiveAlarmTable(cfg.registered);
      var populated := PopulateManagers(cfg.defs.Keys);
      managers := populated;
      heap, terminated, sender, informs := {}, false, Starting, [];
      new;
      assert Init(cfg).alarms == InitFor(cfg.defs.Keys);
      assert Alarms() == InitFor(cfg.defs.Keys);
    }

    method Signal()
      modifies this`sender
      ensures sender == if old(sender).Waiting? then old(sender).(signalled := true) else old(sender)
      ensures Alarms() == old(Alarms())
    {
      if sender.Waiting? {
        sender := sender.(signalled := true);
      }
    }

    /** change_schedule_for_alarm. */
    method ChangeScheduleForAlarm(i: AlarmIndex, s: Severity, now: nat, delay: nat)
      requires Valid() && i in managers
      modifies this`heap, managers[i].timer
      ensures Valid()
      ensures Alarms() == old(Alarms())[i := Reschedule(old(Alarms())[i], s, now, delay)]
    {
      var manager := managers[i];
      heap := heap + {manager.timer};
      manager.ChangeSchedule(s, now, delay);
    }

    /** remove_outdated_alarm_from_heap: the timer keeps its severity and pop time. */
    method RemoveOutdatedAlarmFromHeap(i: AlarmIndex)
      requires Valid() && i in managers
      modifies this`heap, this`sender
      ensures Valid()
      ensures var a := old(Alarms())[i];
              && Alarms() == (if a.sent != a.timerSeverity then old(Alarms())[i := a.(pending := false)]
                              else old(Alarms()))
              && sender == (if a.sent != a.timerSeverity && old(sender).Waiting?
                            then old(sender).(signalled := true) else old(sender))
    {
      var manager := managers[i];
      if manager.severity != manager.timer.severity {
        heap := heap - {manager.timer};
        Signal();
      }
    }

    // The three branches of issue_alarm, for an alarm that has a manager.
    method Reissue(i: AlarmIndex, s: Severity, now: nat)
      requires Valid() && i in managers
      modifies this`heap, this`sender, managers[i].timer
      ensures Valid()
      ensures var a := old(Alarms())[i];
              && Alarms() == old(Alarms())[i := Triggered(cfg, a, s, now)]
              && sender == (if !(s == a.sent && a.timerSeverity == a.sent) && old(sender).Waiting?
                            then old(sender).(signalled := true) else old(sender))
    {
      var manager := managers[i];
      if s == manager.severity {
        RemoveOutdatedAlarmFromHeap(i);
        assert old(Alarms())[i := old(Alarms())[i]] == old(Alarms());
      } else if cfg.above(s, manager.severity) {
        ChangeScheduleForAlarm(i, s, now, ALARM_INCREASED_DELAY);
        Signal();
      } else {
        ChangeScheduleForAlarm(i, s, now, ALARM_REDUCED_DELAY);
        Signal();
      }
    }

    /** issue_alarm; `identifier` is None when sscanf cannot read index and severity from it. */
    method IssueAlarm(identifier: Option<(AlarmIndex, Severity)>, now: nat)
      requires Valid()
      modifies this`heap, this`sender, Timers()
      ensures Valid()
      ensures View() == if identifier.None? then old(View())
                        else Issue(cfg, old(View()), identifier.value.0, identifier.value.1, now)
    {
      if identifier.Some? {
        var (i, s) := identifier.value;
        if Lookup(cfg.defs, i, s).valid && i in managers {
          Reissue(i, s, now);
        }
      }
    }

    // The body of the loop of sync_alarms.
    method SyncAlarm(i: AlarmIndex, now: nat)
      requires Valid() && i in managers
      modifies this`heap, managers[i].timer
      ensures Valid()
      ensures Alarms() == old(Alarms())[i := Synced(old(Alarms())[i], now)]
    {
      var current := managers[i].severity;
      if current != UNDEFINED_SEVERITY {
        ChangeScheduleForAlarm(i, current, now, ALARM_RESYNC_DELAY);
      }
    }

    // The loop of sync_alarms.
    method SyncEachAlarm(readings: map<AlarmIndex, nat>)
      requires Valid() && managers.Keys <= readings.Keys
      modifies this`heap, Timers()
      ensures Valid() && Alarms() == PartlySynced(old(Alarms()), {}, readings)
    {
      var todo := managers.Keys;
      ghost var before := Alarms();
      NothingSynced(before, readings);
      while todo != {}
        invariant todo <= managers.Keys && Valid()
        invariant Alarms() == PartlySynced(before, todo, readings)
        decreases |todo|
      {
        var i :| i in todo;
        SyncAlarm(i, readings[i]);
        PartlySyncedStep(before, todo, readings, i);
        todo := todo - {i};
      }
    }

    /** sync_alarms; `readings` gives the clock reading made for each alarm. */
    method SyncAlarms(readings: map<AlarmIndex, nat>)
      requires Valid() && managers.Keys <= readings.Keys
      modifies this`heap, this`sender, Timers()
      ensures Valid() && View() == SyncAll(old(View()), readings)
    {
      AllSynced(View(), readings);
      SyncEachAlarm(readings);
      Signal();
    }

    /** handle_failed_alarm. */
    method HandleFailedAlarm(i: AlarmIndex, s: Severity, now: nat)
      requires Valid()
      modifies this`heap, this`sender, Timers()
      ensures Valid() && View() == HandleFailed(old(View()), i, s, now)
    {
      if i in managers {
        var manager := managers[i];
        if manager.severity == s && manager.timer !in heap {
          ChangeScheduleForAlarm(i, s, now, ALARM_RETRY_DELAY);
          Signal();
        }
      }
    }

    // `next` has the least pop time in the heap, or is null because the heap is empty.
    ghost predicate IsNext(next: AlarmTimer?)
      reads this`heap, heap
    {
      if next == null then heap == {} else next in heap && forall t | t in heap :: next.popTime <= t.popTime
    }

    /** get_next_timer: a timer of the heap with the least pop time, or null. */
    method GetNextTimer() returns (next: AlarmTimer?)
      requires Valid()
      ensures IsNext(next)
    {
      next := null;
      var rest := heap;
      while rest != {}
        invariant rest <= heap
        invariant next == null ==> rest == heap
        invariant next != null ==> next in heap && forall t | t in heap - rest :: next.popTime <= t.popTime
        decreases |rest|
      {
        var t :| t in rest;
        if next == null || t.popTime < next.popTime {
          next := t;
        }
        rest := rest - {t};
      }
    }

    /** update_alarm_state, and the INFORM handed to the trap sender before it. */
    method SendAlarm(i: AlarmIndex, def: AlarmTableDef)
      requires Valid() && i in managers
      modifies this`informs, managers[i], activeTable
      ensures Alarms() == old(Alarms())[i := old(Alarms())[i].(sent := def.severity)]
      ensures informs == old(informs) + [def] && activeTable.View() == Handle(old(activeTable.View()), def)
    {
      informs := informs + [def];
      managers[i].severity := def.severity;
      assert Alarms() == old(Alarms())[i := old(Alarms())[i].(sent := def.severity)];
      activeTable.TrapHandler(def);
    }

    /** remove_from_heap. */
    method RemoveFromHeap(timer: AlarmTimer)
      requires Valid() && timer in heap
      modifies this`heap, timer
      ensures Valid() && heap == old(heap) - {timer}
      ensures var a := old(Alarms())[timer.index]; Alarms() == old(Alarms())[timer.index := NEW_ALARM.(sent := a.sent)]
    {
      timer.Reset();
      heap := heap - {timer};
    }

    // The INFORM of a popped timer, if its definition was found.
    method SendIfDefined(i: AlarmIndex, def: AlarmTableDef)
      requires Valid() && i in managers
      modifies this`informs, managers[i], activeTable
      ensures var a := old(Alarms())[i];
              Alarms() == old(Alarms())[i := a.(sent := if def.valid then def.severity else a.sent)]
      ensures informs == old(informs) + (if def.valid then [def] else [])
      ensures activeTable.View() == if def.valid then Handle(old(activeTable.View()), def) else old(activeTable.View())
    {
      if def.valid {
        SendAlarm(i, def);
      }
    }

    // One turn of the inner loop of heap_sender.
    method PopTimer(timer: AlarmTimer)
      requires Valid() && timer in heap
      modifies this`heap, this`informs, managers[timer.index], timer, activeTable
      ensures Valid() && heap == old(heap) - {timer}
      ensures View() == Pop(cfg, old(View()), timer.index)
    {
      var i := timer.index;
      var def := Lookup(cfg.defs, i, timer.severity);
      assert timer.severity == Alarms()[i].timerSeverity;
      SendIfDefined(i, def);
      RemoveFromHeap(timer);
      assert Alarms() == old(Alarms())[i := Popped(cfg, i, old(Alarms())[i])];
    }

    // Since `before`, the alarms of `order` were popped, each when it was due and earliest.
    ghost predicate HasPopped(before: State, now: nat, order: seq<AlarmIndex>)
      reads this, managers.Values, Timers(), activeTable
    {
      && (forall i | i in order :: i in before.alarms)
      && PopsEarliest(cfg, before, now, order) && View() == PopAll(cfg, before, order)
    }

    // The heap's next timer, seen as an alarm.
    lemma NextIsEarliest(next: AlarmTimer)
      requires Valid() && IsNext(next)
      ensures next.index in Alarms() && Alarms()[next.index].pending && Alarms()[next.index].popTime == next.popTime
      ensures Earliest(Alarms(), next.popTime)
    {
      assert Alarms()[next.index] == AlarmOf(managers[next.index]);
    }

    // The body of the inner loop, extending the order of pops by one.
    method PopInOrder(next: AlarmTimer, now: nat, ghost before: State, order: seq<AlarmIndex>)
      returns (order': seq<AlarmIndex>)
      requires Valid() && IsNext(next) && next.popTime <= now && HasPopped(before, now, order)
      modifies this`heap, this`informs, managers[next.index], next, activeTable
      ensures Valid() && heap == old(heap) - {next} && HasPopped(before, now, order')
    {
      NextIsEarliest(next);
      PopsEarliestSnoc(cfg, before, now, order, next.index);
      order' := order + [next.index];
      PopTimer(next);
    }

    // The inner loop of heap_sender: pops the earliest timer until none is due at `now`.
    method PopWhileDue(now: nat) returns (order: seq<AlarmIndex>, next: AlarmTimer?)
      requires Valid()
      modifies this`heap, this`informs, managers.Values, Timers(), activeTable
      ensures Valid() && IsNext(next) && (next != null ==> now < next.popTime)
      ensures HasPopped(old(View()), now, order)
    {
      order := [];
      ghost var before := View();
      next := GetNextTimer();
      while next != null && next.popTime <= now
        invariant Valid() && IsNext(next) && HasPopped(before, now, order)
        decreases |heap|
      {
        order := PopInOrder(next, now, before, order);
        next := GetNextTimer();
      }
    }

    // Once the next timer is not due, no alarm is.
    lemma NothingDue(next: AlarmTimer?, now: nat)
      requires Valid() && IsNext(next) && (next != null ==> now < next.popTime)
      ensures forall i | i in Alarms() :: !Due(Alarms()[i], now)
    {
    }

    // So it pops exactly what is due, in order, and leaves the next timer.
    method SendDue(now: nat) returns (order: seq<AlarmIndex>, next: AlarmTimer?)
      requires Valid()
      modifies this`heap, this`informs, managers.Values, Timers(), activeTable
      ensures Valid() && PopOrder(old(Alarms()), now, order)
      ensures View() == PopAll(cfg, old(View()), order)
      ensures IsNext(next)
    {
      ghost var before := View();
      order, next := PopWhileDue(now);
      NothingDue(next, now);
      PopsEarliestIsPopOrder(cfg, before, now, order);
    }

    // The waits at the end of the outer loop.
    method Wait(next: AlarmTimer?)
      requires Valid() && IsNext(next)
      modifies this`sender
      ensures View() == old(View()).(sender := Waiting(WaitUntil(old(Alarms())), false))
    {
      if next != null {
        NextIsEarliest(next);
        EarliestIsUnique(Alarms(), next.popTime);
        sender := Waiting(Some(ToTimespec(next.popTime)), false);
      } else {
        assert HeapEmpty(Alarms());
        sender := Waiting(None, false);
      }
    }

    /** One turn of the outer loop of heap_sender, ending in the wait or, once terminated, in leaving
        the loop. */
    method HeapSender(now: nat) returns (order: seq<AlarmIndex>)
      requires Valid() && !sender.Exited?
      modifies this`heap, this`informs, this`sender, managers.Values, Timers(), activeTable
      ensures Valid()
      ensures old(terminated) ==> View() == old(View()).(sender := Exited)
      ensures !old(terminated) ==> PopOrder(old(Alarms()), now, order) && View() == SenderPass(cfg, old(View()), order)
    {
      order := [];
      if terminated {
        sender := Exited;
        return;
      }
      var next: AlarmTimer?;
      order, next := SendDue(now);
      Wait(next);
    }

    /** The destructor, up to the join. */
    method Terminate()
      requires Valid()
      modifies this`terminated, this`sender
      ensures Valid() && View() == SchedulerSpec.Signal(old(View()).(terminated := true))
    {
      terminated := true;
      Signal();
    }
  }
}
