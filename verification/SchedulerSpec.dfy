/** The alarm scheduler as a state machine: one function per lock-protected step
    (src/alarm_scheduler.cpp, include/alarm_scheduler.hpp). */
module SchedulerSpec {
  import opened Common
  import opened AlarmDefs
  import opened ActiveTable

  const ALARM_REDUCED_DELAY: nat := 30000
  const ALARM_RETRY_DELAY: nat := 30000
  const ALARM_RESYNC_DELAY: nat := 0
  const ALARM_INCREASED_DELAY: nat := 0
  const UINT64_MAX: nat := 0xFFFF_FFFF_FFFF_FFFF

  /** What the process is started with: the loaded definitions, the severity order (`above(a, b)`:
      a is more severe than b) and whether the Active Alarm Table was registered. */
  datatype Config = Config(defs: map<DefKey, AlarmTableDef>, above: (Severity, Severity) -> bool, registered: bool)

  // Any strict total order with UNDEFINED_SEVERITY at the bottom will do (that it is transitive is
  // never needed).
  ghost predicate SeverityOrder(above: (Severity, Severity) -> bool) {
    && (forall a :: !above(a, a))
    && (forall a, b :: above(a, b) ==> !above(b, a))
    && (forall a, b :: a == b || above(a, b) || above(b, a))
    && (forall a :: a != UNDEFINED_SEVERITY ==> above(a, UNDEFINED_SEVERITY))
  }

  ghost predicate ValidConfig(cfg: Config) {
    && SeverityOrder(cfg.above)
    && WellFiled(cfg.defs)
    && (forall k | k in cfg.defs :: k.1 != UNDEFINED_SEVERITY)
  }

  /** A SingleAlarmManager and its AlarmTimer. `sent` is the severity last sent; the timer keeps its
      severity and pop time while it is out of the heap. `pending` is heap membership. */
  datatype Alarm = Alarm(sent: Severity, timerSeverity: Severity, popTime: nat, pending: bool)

  const NEW_ALARM := Alarm(UNDEFINED_SEVERITY, UNDEFINED_SEVERITY, UINT64_MAX, false)

  datatype Timespec = Timespec(sec: nat, nsec: nat)

  /** Where the heap sender thread is. A waiting sender that was signalled runs once it gets the
      lock; a signal sent to nobody is lost. */
  datatype Sender = Starting | Waiting(until: Option<Timespec>, signalled: bool) | Exited

  datatype State = State(alarms: map<AlarmIndex, Alarm>, sender: Sender, terminated: bool,
                         informs: seq<AlarmTableDef>, table: Table)

  function Init(cfg: Config): State {
    State(map k | k in cfg.defs :: k.0 := NEW_ALARM, Starting, false, [], Table(cfg.registered, map[], {}, 0))
  }

  /** A successful load of definitions whose severities are all defined gives a valid configuration,
      with an alarm for each loaded alarm that has a severity. */
  lemma LoadedConfigIsValid(cfg: Config, alarms: seq<AlarmDefinition>)
    requires Represents(cfg.defs, alarms) && SeverityOrder(cfg.above)
    requires forall j, q | 0 <= j < |alarms| && 0 <= q < |alarms[j].details| ::
               alarms[j].details[q].severity != UNDEFINED_SEVERITY
    ensures ValidConfig(cfg)
    ensures forall i :: i in Init(cfg).alarms <==>
              exists j :: 0 <= j < |alarms| && alarms[j].index == i && alarms[j].details != []
  {
    LookupMeansDefined(cfg.defs, alarms, 0, 0);
    forall k | k in cfg.defs
      ensures k.1 != UNDEFINED_SEVERITY
      ensures exists j :: 0 <= j < |alarms| && alarms[j].index == k.0 && alarms[j].details != []
    {
      var j: nat, p: nat :| DefinedAt(alarms, k, cfg.defs[k], j, p);
      assert alarms[j].details[p].severity == k.1;
    }
    forall j | 0 <= j < |alarms| && alarms[j].details != []
      ensures alarms[j].index in Init(cfg).alarms
    {
      assert (alarms[j].index, alarms[j].details[0].severity) in cfg.defs;
      assert (alarms[j].index, alarms[j].details[0].severity).0 in Init(cfg).alarms;
    }
  }

  function Signal(st: State): State {
    if st.sender.Waiting? then st.(sender := st.sender.(signalled := true)) else st
  }

  // ---- the steps, on one alarm ----

  /** change_schedule_for_alarm: puts the timer in the heap, and gives it a new severity and pop
      time only if the severity differs from the one it holds. */
  function Reschedule(a: Alarm, s: Severity, now: nat, delay: nat): Alarm {
    if s != a.timerSeverity then a.(pending := true, timerSeverity := s, popTime := now + delay)
    else a.(pending := true)
  }

  /** The three branches of issue_alarm. */
  function Triggered(cfg: Config, a: Alarm, s: Severity, now: nat): Alarm {
    if s == a.sent then (if a.timerSeverity != a.sent then a.(pending := false) else a)
    else if cfg.above(s, a.sent) then Reschedule(a, s, now, ALARM_INCREASED_DELAY)
    else Reschedule(a, s, now, ALARM_REDUCED_DELAY)
  }

  function Synced(a: Alarm, now: nat): Alarm {
    if a.sent != UNDEFINED_SEVERITY then Reschedule(a, a.sent, now, ALARM_RESYNC_DELAY) else a
  }

  function FailedToSend(a: Alarm, s: Severity, now: nat): Alarm {
    if a.sent == s && !a.pending then Reschedule(a, s, now, ALARM_RETRY_DELAY) else a
  }

  /** What the heap sender does to an alarm it pops. */
  function Popped(cfg: Config, i: AlarmIndex, a: Alarm): Alarm {
    var def := Lookup(cfg.defs, i, a.timerSeverity);
    Alarm(if def.valid then def.severity else a.sent, UNDEFINED_SEVERITY, UINT64_MAX, false)
  }

  // ---- the steps, on the whole scheduler ----

  function Issue(cfg: Config, st: State, i: AlarmIndex, s: Severity, now: nat): State {
    if Lookup(cfg.defs, i, s).valid && i in st.alarms then
      var a := st.alarms[i];
      var st' := st.(alarms := st.alarms[i := Triggered(cfg, a, s, now)]);
      if s == a.sent && a.timerSeverity == a.sent then st' else Signal(st')
    else st
  }

  function SyncAll(st: State, readings: map<AlarmIndex, nat>): State
    requires st.alarms.Keys <= readings.Keys
  {
    Signal(st.(alarms := map i | i in st.alarms :: Synced(st.alarms[i], readings[i])))
  }

  function HandleFailed(st: State, i: AlarmIndex, s: Severity, now: nat): State {
    if i in st.alarms && st.alarms[i].sent == s && !st.alarms[i].pending then
      Signal(st.(alarms := st.alarms[i := FailedToSend(st.alarms[i], s, now)]))
    else st
  }

  /** One turn of the inner loop of heap_sender. */
  function Pop(cfg: Config, st: State, i: AlarmIndex): State
    requires i in st.alarms
  {
    var def := Lookup(cfg.defs, i, st.alarms[i].timerSeverity);
    var st' := st.(alarms := st.alarms[i := Popped(cfg, i, st.alarms[i])]);
    if def.valid then st'.(informs := st.informs + [def], table := Handle(st.table, def)) else st'
  }

  function PopAll(cfg: Config, st: State, order: seq<AlarmIndex>): (st': State)
    requires forall i | i in order :: i in st.alarms
    ensures st'.alarms.Keys == st.alarms.Keys
  {
    if order == [] then st else Pop(cfg, PopAll(cfg, st, Front(order)), Last(order))
  }

  predicate Due(a: Alarm, now: nat) {
    a.pending && a.popTime <= now
  }

  // The due alarms, each once, earliest pop time first (ties as the heap breaks them).
  ghost predicate PopOrder(alarms: map<AlarmIndex, Alarm>, now: nat, order: seq<AlarmIndex>) {
    && Distinct(order)
    && (forall i :: i in order <==> i in alarms && Due(alarms[i], now))
    && (forall j, k | 0 <= j < k < |order| :: alarms[order[j]].popTime <= alarms[order[k]].popTime)
  }

  // t is the earliest pop time in the heap.
  ghost predicate Earliest(alarms: map<AlarmIndex, Alarm>, t: nat) {
    && (exists i :: i in alarms && alarms[i].pending && alarms[i].popTime == t)
    && (forall i | i in alarms && alarms[i].pending :: t <= alarms[i].popTime)
  }

  predicate HeapEmpty(alarms: map<AlarmIndex, Alarm>) {
    forall i | i in alarms :: !alarms[i].pending
  }

  /** The split of a pop time in milliseconds into the timespec handed to timedwait. */
  function ToTimespec(popTime: nat): (ts: Timespec)
    ensures ts.sec * 1_000_000_000 + ts.nsec == popTime * 1_000_000
    ensures ts.nsec < 1_000_000_000
  {
    Timespec(popTime / 1000, popTime % 1000 * 1_000_000)
  }

  lemma EarliestExists(alarms: map<AlarmIndex, Alarm>)
    requires !HeapEmpty(alarms)
    ensures exists t :: Earliest(alarms, t)
    decreases |alarms|
  {
    var i :| i in alarms && alarms[i].pending;
    var rest := alarms - {i};
    assert alarms.Keys == rest.Keys + {i};
    if HeapEmpty(rest) {
      assert Earliest(alarms, alarms[i].popTime);
    } else {
      assert i !in rest && |rest.Keys| < |alarms.Keys|;
      EarliestExists(rest);
      var t :| Earliest(rest, t);
      var j :| j in rest && rest[j].pending && rest[j].popTime == t;
      assert j in alarms && alarms[j].popTime == t;
      assert Earliest(alarms, if alarms[i].popTime < t then alarms[i].popTime else t);
    }
  }

  lemma PopOrderExists(alarms: map<AlarmIndex, Alarm>, now: nat) returns (order: seq<AlarmIndex>)
    ensures PopOrder(alarms, now, order)
    decreases |alarms|
  {
    if forall i | i in alarms :: !Due(alarms[i], now) {
      order := [];
    } else {
      EarliestExists(alarms);
      var t :| Earliest(alarms, t);
      var i :| i in alarms && alarms[i].pending && alarms[i].popTime == t;
      var rest := alarms - {i};
      assert alarms.Keys == rest.Keys + {i} && |rest.Keys| < |alarms.Keys|;
      var order' := PopOrderExists(rest, now);
      order := [i] + order';
    }
  }

  /** How long the sender waits: until the earliest pop time, or for a signal if the heap is empty. */
  ghost function WaitUntil(alarms: map<AlarmIndex, Alarm>): Option<Timespec> {
    if HeapEmpty(alarms) then None
    else
      EarliestExists(alarms);
      var t :| Earliest(alarms, t);
      Some(ToTimespec(t))
  }

  /** One turn of the outer loop of heap_sender: pop what is due, then wait. */
  ghost function SenderPass(cfg: Config, st: State, order: seq<AlarmIndex>): State
    requires forall i | i in order :: i in st.alarms
  {
    var st' := PopAll(cfg, st, order);
    st'.(sender := Waiting(WaitUntil(st'.alarms), false))
  }

  // ---- events and runs ----

  /** `now` is the (latest) clock reading of the step; a sync reads the clock once per alarm. */
  datatype Event =
    | Trigger(index: AlarmIndex, severity: Severity, now: nat)
    | Sync(now: nat, readings: map<AlarmIndex, nat>)
    | Failed(index: AlarmIndex, severity: Severity, now: nat)
    | Pass(now: nat, order: seq<AlarmIndex>)
    | Terminate
    | Exit

  // What a step may look like in a state, given the last clock reading.
  ghost predicate Enabled(cfg: Config, st: State, clock: nat, e: Event) {
    match e
    case Trigger(_, _, now) => clock <= now
    case Sync(now, readings) =>
      && clock <= now
      && (forall i | i in st.alarms :: i in readings && clock <= readings[i] <= now)
    case Failed(i, s, now) => clock <= now && (i, s) in cfg.defs
    case Pass(now, order) => clock <= now && !st.terminated && !st.sender.Exited? && PopOrder(st.alarms, now, order)
    case Terminate => true
    case Exit => st.terminated && !st.sender.Exited?
  }

  ghost function Step(cfg: Config, st: State, e: Event): State {
    match e
    case Trigger(i, s, now) => Issue(cfg, st, i, s, now)
    case Sync(_, readings) => if st.alarms.Keys <= readings.Keys then SyncAll(st, readings) else st
    case Failed(i, s, now) => HandleFailed(st, i, s, now)
    case Pass(_, order) => if forall i | i in order :: i in st.alarms then SenderPass(cfg, st, order) else st
    case Terminate => Signal(st.(terminated := true))
    case Exit => st.(sender := Exited)
  }

  function Clock(es: seq<Event>): nat {
    if es == [] then 0
    else match Last(es)
      case Terminate => Clock(Front(es))
      case Exit => Clock(Front(es))
      case e => e.now
  }

  /** The state after the steps `es`. */
  ghost function After(cfg: Config, es: seq<Event>): State {
    if es == [] then Init(cfg) else Step(cfg, After(cfg, Front(es)), Last(es))
  }

  /** `es` is a possible interleaving of the scheduler's steps. */
  ghost predicate Run(cfg: Config, es: seq<Event>) {
    es == [] || (Run(cfg, Front(es)) && Enabled(cfg, After(cfg, Front(es)), Clock(Front(es)), Last(es)))
  }

  // ---- a step acts on each alarm by itself ----

  function AlarmStep(cfg: Config, i: AlarmIndex, a: Alarm, e: Event): Alarm {
    match e
    case Trigger(j, s, now) => if j == i && Lookup(cfg.defs, i, s).valid then Triggered(cfg, a, s, now) else a
    case Sync(_, readings) => if i in readings then Synced(a, readings[i]) else a
    case Failed(j, s, now) => if j == i then FailedToSend(a, s, now) else a
    case Pass(now, _) => if Due(a, now) then Popped(cfg, i, a) else a
    case Terminate => a
    case Exit => a
  }

  lemma {:induction false} PopAllPointwise(cfg: Config, st: State, order: seq<AlarmIndex>, i: AlarmIndex)
    requires Distinct(order) && (forall j | j in order :: j in st.alarms) && i in st.alarms
    ensures PopAll(cfg, st, order).alarms[i] == if i in order then Popped(cfg, i, st.alarms[i]) else st.alarms[i]
  {
    if order != [] {
      var front, last := Front(order), Last(order);
      assert order == front + [last];
      PopAllPointwise(cfg, st, front, i);
      if i == last {
        assert i !in front;
      }
    }
  }

  lemma {:induction false} PopAllRest(cfg: Config, st: State, order: seq<AlarmIndex>)
    requires forall j | j in order :: j in st.alarms
    ensures PopAll(cfg, st, order).sender == st.sender && PopAll(cfg, st, order).terminated == st.terminated
  {
    if order != [] {
      PopAllRest(cfg, st, Front(order));
    }
  }

  lemma StepPointwise(cfg: Config, st: State, clock: nat, e: Event, i: AlarmIndex)
    requires Enabled(cfg, st, clock, e)
    ensures Step(cfg, st, e).alarms.Keys == st.alarms.Keys
    ensures i in st.alarms ==> Step(cfg, st, e).alarms[i] == AlarmStep(cfg, i, st.alarms[i], e)
  {
    if e.Pass? && i in st.alarms {
      PopAllPointwise(cfg, st, e.order, i);
    }
  }
}
