# Clearwater SNMP handlers: a verified model

This project models the two working parts of the Clearwater SNMP handlers and proves what they
guarantee, in Dafny 4.11. `dafny verify dfyconfig.toml` checks all of it.

**The alarm scheduler.** Triggers name an alarm and a severity. The scheduler remembers, per alarm, the
severity it last sent, and has one reusable timer per alarm that may sit in a shared heap. Increases are
sent at once, reductions after 30 s, a sync resends what is known, and an INFORM the NMS does not
acknowledge is retried after 30 s unless a change of severity takes its place. A sender thread pops due
timers and waits on a condition variable; every send also updates the Active Alarm Table.

- `AlarmDefs` loads the definitions, `ActiveTable` is the Active Alarm Table.
- `SchedulerSpec` gives each lock-protected step as a function on states, and a run as any sequence of
  steps that the lock and the clock allow. `Scheduler` holds the objects of the source; each method is
  proved to take exactly its step. `HeapSender` returns the order in which it popped the timers, which
  is the order a `Pass` step carries.
- What holds in every run: `SchedulerRuns` has the invariant, refinement of a machine without timers,
  convergence, delivery after the delay, bounded latency and immediate raises; `SenderRuns` no lost
  wake-ups, termination, what a pass sends, agreement of the table with what was sent, and delivery by a
  prompt sender; `FlickerRuns` where reductions come from and exactly when flicker is held back and the
  30 s are whole; `RepeatRuns` syncs, failure reports, exactly when a retry is lost, and how often and how
  soon an alarm can be sent again.
- `SchedulerWitnesses` holds six runs in which the scheduler falls short of its comments.

**The statistics store.** Message handlers write values into a map ordered by OID; GET and GETNEXT read
it.

- `Oids` has the lexicographic order, the text form and the address index, `OidTree` the store.
- `Astaire` is the nested parser of Astaire connection statistics, `AstaireMessages` what it makes of
  whole and cut messages, `StatHandlers` the other handlers and runs of messages from all of them, up
  to what GET and a walk answer after them, also when the walk's requests and messages interleave. `ServedValues` says, for each handler,
  which value of its message is served at which OID.

## How the source is read

- Severities keep their numbers; `>` between them comes from a header that is not part of this model.
  Everything is proved for any total asymmetric `above` with UNDEFINED_SEVERITY at the bottom.
- A step carries its clock readings; they never decrease along a run and pop times are unbounded
  numbers. A sync reads the clock once per alarm, so it carries one reading for each.
- The timer heap is a set of timers from which the least pop time is taken, ties broken arbitrarily.
  A sender may also wake without a signal, as condition variables allow.
- `send_trap` adds one entry to `informs`, whatever number of notification types is configured; a
  time-out callback is a `Failed` step and may come any number of times, for any definition.
- `inet_pton` and `atoi` are parameters of the message handlers (`Library`). Where OID text is read,
  `Atoi` is optional white space, sign and digits, as `strtol` reads them (saturated to 64 bits), reduced
  to 32 bits.
- OIDs are copied by value in the source and are values here.
- Every write to the store takes its lock by itself; `AllWrites` lists the writes of a run of messages in
  the order they are made, and requests may be answered between any two of them. Runs hold only Astaire
  messages whose bucket lists end within an int (`Acceptable`, `EndsFit`).
- Severities in definition files are taken to be defined ones (JSON validation is not modelled).

## Where the code does less than it says

- The header promises a 30 s delay for reductions. Cancelling a reduction leaves its pop time in the
  timer, and triggering it again reuses that pop time: `CancelledReductionIsSentAtOnce` is a run,
  `ReductionDelayExact` says exactly when the delay is whole, `FlickerExact` exactly from which states
  flicker is held back.
- A sync replaces a change that is still waiting and so forgets the trigger that asked for it:
  `SyncLosesPendingReduction` is a run, `SettlesOnLastTrigger` and `DeliveredOnTime` say exactly when
  the last trigger prevails.
- An INFORM that is not acknowledged is not always retried. A report that comes while a change waits is
  dropped, and a waiting retry is replaced by a change; if that change is then taken back, nothing is
  left to send: `ReportIsDropped` and `RetryIsLost` are runs. `RetriedWithin30s` is the guarantee without
  triggers, `RetryExact` says exactly which triggers lose the retry.
- The header says that a sync sends at once. It does not for an alarm already waiting at the severity
  sent, which keeps its pop time: `SyncDoesNotHastenRetry` is a run, `SyncResendsWhatIsKnown` says
  exactly when.
- The header promises a clear INFORM only if an associated alarm is active. A CLEARED trigger for an alarm
  of which nothing was sent counts as an increase and is sent at once: `ClearOfSilentAlarmIsSent` is a
  run, `SilentAlarmSends` says exactly when it happens. A clear already sent is also sent again after a
  sync or an old failure report, and no other clear is sent for an inactive alarm: `ClearOfInactiveAlarm`.
- `subtree_contains` also holds for ancestors, so replacing a subtree deletes a value stored above it:
  `AncestorIsLost`, `ReplaceIsExact`. The registered handlers never store one
  (`RegisteredHandlersShareTheStore`).
- The three tables of an Astaire message are not replaced together: each replacement takes the lock by
  itself, and a request in between sees new and old tables side by side. `TablesReplacedInTurn` says
  exactly what each table shows at each moment.
- The connection-count loop means to read pairs but advances one field per turn: `CountThatIsAnAddress`
  is a message, `FieldStepsReadPairs` says exactly on which messages the two readings agree.
- A sub-identifier of 2^31 or more, other than 2^64-1, does not survive being printed and read:
  `LargeSubIdIsChanged`, `TextRoundTrip`.

## Model

| member | source | states |
|---|---|---|
| AlarmDefs.AlarmTableDefs.Initialize | src/alarm_table_defs.cpp:45-76 | succeeds exactly when the directory exists, every JSON file validates and no alarm index repeats within or across files; then the table represents exactly the loaded alarms, and it is well filed in any case |
| AlarmDefs.AlarmTableDefs.PopulateMap | src/alarm_table_defs.cpp:78-114 | one file loads exactly when it validates and brings no index already seen; the duplicate check then holds all indices so far |
| AlarmDefs.AlarmTableDefs.InsertAlarm | src/alarm_table_defs.cpp:105-111 | files every severity of a new alarm, the first entry of a repeated severity winning, and keeps what earlier alarms defined |
| AlarmDefs.AlarmTableDefs.GetDefinition | src/alarm_table_defs.cpp:122-130 | a valid result exactly for a key of the table, and it carries exactly that index and severity |
| AlarmDefs.LoadedFromJsonFiles | src/alarm_table_defs.cpp:60-64 | an alarm is loaded iff a regular .json file of the directory holds it, and exactly these files must validate |
| AlarmDefs.LookupMeansDefined | src/alarm_table_defs.cpp:116-130 | (index, severity) resolves to a valid definition iff a loaded alarm lists that severity, and then carries that alarm's name and the description of its first entry for the severity |
| ActiveTable.ActiveAlarmTable.TrapHandler | src/alarm_active_table.cpp:298-332 | the table changes as the five cases say, including the NULL entry that reading an absent index leaves |
| ActiveTable.ActiveAlarmTable.CreateRow | src/alarm_active_table.cpp:338-378 | inserts the row in container and map under the next active index and wraps the counter |
| ActiveTable.ActiveAlarmTable.DeleteRow | src/alarm_active_table.cpp:384-394 | takes the alarm's row out of the container and nulls its map entry |
| ActiveTable.HandleKeepsTable | src/alarm_active_table.cpp:298-332 | each trap keeps map and container in agreement, leaves the alarm's row present iff not cleared and at that severity, keeps a row of equal severity, touches no other alarm, and leaves an entry for the index |
| ActiveTable.CounterIsCreations | src/alarm_active_table.cpp:350-376 | the counter is the number of rows ever created modulo 2^32-1 |
| ActiveTable.ActiveIndexOfNthRow | src/alarm_active_table.cpp:350-376 | the n-th row created gets active index ((n-1) mod (2^32-1)) + 1, within 1..2^32-1 |
| ActiveTable.NearbyRowsDiffer | src/alarm_active_table.cpp:350-376 | two rows share an active index exactly when their creations are a multiple of 2^32-1 apart, so nearer ones never do |
| SchedulerSpec.LoadedConfigIsValid | src/alarm_scheduler.cpp:61-77 | a successful load gives a valid configuration and exactly one manager for each alarm that has a severity |
| SchedulerSpec.ToTimespec | src/alarm_scheduler.cpp:166-168 | the seconds and nanoseconds are exactly the pop time, with nanoseconds below 10^9 |
| SchedulerSpec.StepPointwise | src/alarm_scheduler.cpp:118-327 | every step acts on each alarm by itself, a pass by popping exactly the due ones whatever the order |
| Scheduler.SingleAlarmManager.ChangeSchedule | src/alarm_scheduler.cpp:31-41 | the timer gets the severity; its pop time changes only if the severity does |
| Scheduler.PopulateManagers | src/alarm_scheduler.cpp:61-77 | one fresh manager and timer per alarm index of the definitions, never sent and unscheduled |
| Scheduler.AlarmScheduler.constructor | src/alarm_scheduler.cpp:43-90 | the scheduler starts in the initial state of the machine |
| Scheduler.AlarmScheduler.ChangeScheduleForAlarm | src/alarm_scheduler.cpp:192-199 | reschedules one alarm and leaves all others |
| Scheduler.AlarmScheduler.RemoveOutdatedAlarmFromHeap | src/alarm_scheduler.cpp:181-190 | takes a timer of another severity out of the heap, keeping its severity and pop time, and signals |
| Scheduler.AlarmScheduler.Reissue | src/alarm_scheduler.cpp:227-256 | the same / increased / reduced branches, and when they signal |
| Scheduler.AlarmScheduler.IssueAlarm | src/alarm_scheduler.cpp:201-271 | takes exactly the Trigger step; malformed and undefined identifiers change nothing |
| Scheduler.AlarmScheduler.SyncAlarms | src/alarm_scheduler.cpp:273-295 | takes exactly the Sync step over all managers |
| Scheduler.AlarmScheduler.HandleFailedAlarm | src/alarm_scheduler.cpp:297-327 | takes exactly the Failed step |
| Scheduler.AlarmScheduler.GetNextTimer | src/alarm_scheduler.cpp:125 | null exactly for an empty heap, else a timer of least pop time |
| Scheduler.AlarmScheduler.SendAlarm | src/alarm_scheduler.cpp:22-29 | the severity sent, the INFORMs and the Active Alarm Table are updated together |
| Scheduler.AlarmScheduler.PopTimer | src/alarm_scheduler.cpp:137-160 | one turn of the inner loop is one Pop of the machine |
| Scheduler.AlarmScheduler.PopWhileDue | src/alarm_scheduler.cpp:124-161 | the inner loop ends; each timer it pops was due and earliest, and the next timer it leaves is not due |
| Scheduler.AlarmScheduler.SendDue | src/alarm_scheduler.cpp:124-161 | so it pops exactly the due timers, once each in non-decreasing pop time, and leaves the next timer |
| Scheduler.AlarmScheduler.HeapSender | src/alarm_scheduler.cpp:118-179 | one turn of the outer loop takes exactly the Pass step and waits, or leaves the loop once terminated |
| Scheduler.PopsEarliestIsPopOrder | src/alarm_scheduler.cpp:124-161 | popping the earliest timer until none is due visits exactly the due alarms, each once, in order |
| SchedulerRuns.InvAt | src/alarm_scheduler.cpp:118-327 | in every run each alarm's severities come from definitions, a stale timer never holds the severity sent, nothing is scheduled beyond 30 s and an increase is already due |
| SchedulerRuns.NoLogicError | src/alarm_scheduler.cpp:141-157 | every timer in the heap has a valid definition and every validated trigger a manager, so no logic-error branch is taken |
| SchedulerRuns.BoundedLatency | src/alarm_scheduler.cpp:192-199 | no heap entry pops later than 30 s after the latest clock reading |
| SchedulerRuns.RefinesGoals | src/alarm_scheduler.cpp:118-327 | every step refines a machine of (sent, wanted) pairs without timers |
| SchedulerRuns.SettlesOnLastTrigger | src/alarm_scheduler.cpp:217-327 | with nothing pending, the severity sent is the last one triggered iff no sync came while that change was waiting |
| SchedulerRuns.DeliveredOnTime | src/alarm_scheduler.cpp:118-256 | a pass after the delay of the last trigger (none for an increase, else 30 s) leaves its severity sent iff no sync came while it was waiting |
| FlickerRuns.ChangeHasTrigger | src/alarm_scheduler.cpp:31-41 | a timer set for a change, pending or stale, was set by one trigger for that severity at its time plus the delay, and severity sent and timer stood since |
| FlickerRuns.ReductionIsThirtySecondsOld | src/alarm_scheduler.cpp:181-256 | a send that lowers the severity goes back to a trigger for it at least 30 s earlier, with the severity sent unchanged in between |
| FlickerRuns.FlickerSendsNothing | src/alarm_scheduler.cpp:181-256 | alternating triggers between the severity sent and a lower one, with failure reports from the first reduction on, cause no INFORM within 30 s of it, from every state in which nothing waiting and no left-over pop time of that reduction is due by then |
| FlickerRuns.FlickerExact | src/alarm_scheduler.cpp:31-41 | from a state, every flickering continuation is free of INFORMs within the 30 s iff that condition on the state holds |
| SchedulerRuns.RaiseIsDueAtOnce | src/alarm_scheduler.cpp:241-248 | after a trigger above the severity sent the alarm is due at once at that severity, also on a pending or stale timer, and the next pass sends it |
| FlickerRuns.ReductionDelayExact | include/alarm_scheduler.hpp:117-120 | a reduction waits the full 30 s iff there is no earlier trigger for it since which the alarm was not sent, synced, triggered at a third severity or scheduled for a retry; otherwise less |
| RepeatRuns.SyncResendsWhatIsKnown | src/alarm_scheduler.cpp:279-291 | after a sync every known alarm is pending at the severity sent, due at the sync unless already pending at it; others are untouched |
| RepeatRuns.NoUnaskedRepeat | src/alarm_scheduler.cpp:273-327 | a second INFORM of the same severity in a row comes only after a sync in between, or a failure report in between that is at least 30 s old |
| RepeatRuns.RepeatsAreSpaced | include/alarm_scheduler.hpp:117-123 | without a sync in between, two INFORMs of the same severity in a row are at least 30 s apart |
| RepeatRuns.SendsAreAskedFor | src/alarm_scheduler.cpp:118-327 | in every run an alarm is sent at most once for each valid trigger, sync or failure report that asks for it, a waiting one included |
| RepeatRuns.FailureReports | include/alarm_scheduler.hpp:95-102 | a report for a superseded severity or a scheduled alarm changes nothing; otherwise exactly one retry 30 s ahead is pending, and reports that follow directly change nothing |
| RepeatRuns.RetriedWithin30s | src/alarm_scheduler.cpp:273-327 | after a failure report or sync for the severity sent, if the alarm is not triggered, it is sent again by the first pass 30 s later |
| RepeatRuns.RetryExact | src/alarm_scheduler.cpp:181-327 | with nothing sent or asked since the last request, a pass 30 s after it and after every trigger sends the alarm iff no change that was waiting or triggered was taken back by a last trigger for the severity already sent |
| RepeatRuns.SilentAlarmSends | include/alarm_scheduler.hpp:132-136 | while nothing was sent of an alarm, a pass sends severity s iff s is the last severity triggered; so a clear of a never active alarm is sent exactly then |
| RepeatRuns.ClearOfInactiveAlarm | include/alarm_scheduler.hpp:132-136 | a clear sent while the alarm is not active is the first INFORM of an alarm last triggered CLEARED, or repeats a clear after a sync or a failure report at least 30 s old |
| SenderRuns.NoLostWakeup | src/alarm_scheduler.cpp:163-189 | while the sender waits unsignalled, an untimed wait means an empty heap and a timed one ends exactly at the earliest pop time |
| SenderRuns.DueAlarmWakesSender | src/alarm_scheduler.cpp:163-189 | whenever an alarm is due the sender is not started, signalled, or past its deadline |
| SenderRuns.SenderLeavesLoop | src/alarm_scheduler.cpp:92-99 | after the destructor's signal the sender can only leave its loop and is not left asleep |
| SenderRuns.PassSendsExactlyTheDue | src/alarm_scheduler.cpp:124-161 | a pass sends one INFORM per due alarm, earliest first, at its timer's index and severity, resets exactly those and leaves only later entries |
| SenderRuns.TableShowsWhatWasSent | src/alarm_scheduler.cpp:22-29 | in every reachable state an alarm has a row iff the severity sent is neither undefined nor cleared, the row is that severity's, and the container holds exactly these rows |
| SenderRuns.TableFollowsInforms | src/alarm_active_table.cpp:298-332 | the table is a function of the INFORMs in the order sent, so its rows are numbered in that order |
| SenderRuns.UnregisteredTableStays | src/alarm_active_table.cpp:300-301 | a table that was not registered stays empty, whatever is sent |
| SenderRuns.LastTriggerReachesTable | src/alarm_scheduler.cpp:118-256 | after a pass past the delay of an alarm's last trigger the Active Alarm Table shows that severity's row, or none for a clear, iff no sync came while it was waiting |
| SenderRuns.DeliveredByPromptSender | src/alarm_scheduler.cpp:118-256 | if the sender passes within d ms of a signal or of the end of its wait, the last trigger's severity is sent d ms after its delay iff no sync came while it was waiting |
| SchedulerWitnesses.CancelledReductionIsSentAtOnce | src/alarm_scheduler.cpp:181-190 | a run in which a reduction, cancelled for 48 s, is sent in the millisecond it is triggered again |
| SchedulerWitnesses.SyncLosesPendingReduction | src/alarm_scheduler.cpp:281-291 | a run in which a sync makes a waiting reduction disappear |
| SchedulerWitnesses.ReportIsDropped | include/alarm_scheduler.hpp:95-102 | a run in which the report of a lost INFORM is dropped and nothing is ever left to send |
| SchedulerWitnesses.RetryIsLost | src/alarm_scheduler.cpp:181-199 | a run in which a waiting retry is replaced by a reduction that is then cancelled |
| SchedulerWitnesses.SyncDoesNotHastenRetry | src/alarm_scheduler.cpp:281-291 | a run in which a sync leaves a waiting retry at its later pop time and the next pass sends nothing |
| SchedulerWitnesses.ClearOfSilentAlarmIsSent | include/alarm_scheduler.hpp:132-136 | a run in which a clear is sent for an alarm that was never active |
| Oids.LessIsLexicographic | include/oidtree.hpp:18-26 | an OID is before another iff it is a proper prefix or has the smaller sub-identifier at the first difference |
| Oids.LessIsTotal | include/oidtree.hpp:18-26 | any two different OIDs are ordered |
| Oids.LessIsAsymmetric | include/oidtree.hpp:18-26 | never both ways |
| Oids.LessIsTransitive | include/oidtree.hpp:18-26 | transitive |
| Oids.DescendantsAreContiguous | include/oidtree.hpp:18-26 | whatever lies between an OID and one of its descendants is a descendant |
| Oids.AtoiReads | src/oid.cpp:111 | atoi skips white space, takes a sign and stops at the first character that is no digit |
| Oids.AppendString | src/oid.cpp:103-114 | appends the sub-identifiers the text denotes |
| Oids.ToString | src/oid.cpp:122-130 | prints every sub-identifier after a dot |
| Oids.TextIsDotted | src/oid.cpp:122-130 | the text of a concatenation is the concatenation of the texts, and a sub-identifier's text is a dot and its digits |
| Oids.ShowHasNoLeadingZero | src/oid.cpp:127 | printed numbers have no leading zero |
| Oids.AppendInParts | src/oid.cpp:103-114 | appending a dotted pair is appending its halves, for all strings |
| Oids.TextRoundTrip | src/oid.cpp:103-130 | printed and read again, an OID is unchanged iff every sub-identifier is below 2^31 or equals 2^64-1 |
| Oids.LargeSubIdIsChanged | src/oid.cpp:111 | what a sub-identifier from 2^31 to 2^32-1, or from 2^63 on, becomes |
| Oids.AddressReadsBack | src/oid_inet_addr.cpp:24-37 | a reader of address indices (type 1 with 4 octets, type 2 with 16, length first) gives the address and what follows it back |
| Oids.AddressIsDecodable | src/oid_inet_addr.cpp:24-37 | an address index can be read off the front of any OID, for mixed IPv4 and IPv6 (section 4.1 of RFC 4001) |
| Oids.ToOidBytes | src/oid_inet_addr.cpp:24-37 | the bytes of a valid address read back to it; nothing for an unknown one |
| OidTree.OIDTree.GetValue | src/oidtree.cpp:15-31 | found exactly for stored keys, with their value |
| OidTree.OIDTree.GetNext | src/oidtree.cpp:33-51 | the first stored key after the one requested, or none if there is none |
| OidTree.OIDTree.RemoveSubtree | src/oidtree.cpp:60-78 | removes every key above or below root, keeps all others |
| OidTree.OIDTree.ReplaceSubtree | src/oidtree.cpp:80-87 | removal, then insertion that overwrites nothing |
| OidTree.NextKey | src/oidtree.cpp:33-51 | GETNEXT has an answer iff a later key is stored, and it is the least such key |
| OidTree.WalkIsComplete | src/oidtree.cpp:33-51 | feeding GETNEXT its own answers ends and yields every stored key strictly below the start once, in increasing order |
| OidTree.MovingWalkIsComplete | src/oidtree.cpp:33-51 | with the store changing between requests, answers increase, each is stored below the start when given, and a walk that ends has every key below it that is stored throughout |
| OidTree.WalkOfSteadySlice | src/oidtree.cpp:33-51 | if the store changes only elsewhere, the walk ends within one request more than there are keys below the start and lists exactly these |
| OidTree.ReplaceIsExact | src/oidtree.cpp:80-87 | below root exactly the update; elsewhere every value kept iff no stored key is a proper ancestor of root |
| OidTree.AncestorIsLost | src/oid.cpp:81-85 | a stored ancestor of root is deleted |
| OidTree.ReplacementsCommute | src/oidtree.cpp:80-87 | replacements under incomparable roots commute |
| OidTree.SlotsAreIndependent | src/oidtree.cpp:53-95 | in any interleaving of writes to incomparable slots, each slot shows what its own writes alone leave, nothing lies outside, and no key is an ancestor of a slot |
| Astaire.ReadBuckets | src/astairedata.cpp:86-116 | reads exactly the announced buckets, within the message, and advances past them |
| Astaire.ReadConnection | src/astairedata.cpp:65-123 | one turn of the outer loop, when the end of the bucket list fits an int (EndFits): a whole connection, or the header counts of a cut one |
| Astaire.ParseMessage | src/astairedata.cpp:50-136 | for every message whose bucket lists end within an int (EndsFit), all accesses are in bounds, the loop ends and the three tables are those of the message's report |
| AstaireMessages.MessageReadsBack | src/astairedata.cpp:60-136 | a message built from any list of connections with buckets is read back to exactly that list, and its bucket lists end within an int if its length does |
| AstaireMessages.CutMessageReadsBack | src/astairedata.cpp:60-136 | a message cut anywhere gives every whole connection, and of the next only the header counts, only if its five header fields are there; its bucket lists end within an int if the whole message does |
| AstaireMessages.StopsAtNoAddress | src/astairedata.cpp:68-136 | reading stops at the first field that should be an address and is none, or at fewer than five fields, and publishes exactly the connections before it |
| AstaireMessages.ConnectionRowsReadBack | src/astairedata.cpp:71-76 | a connection's rows are columns 6.1.4 and 6.1.5, indexed by address and then port |
| AstaireMessages.BucketRowsReadBack | src/astairedata.cpp:93-108 | a bucket's rows are columns 7.1.5, 7.1.6 and 8.1.6, indexed by address, port, bucket id and, for the bandwidth, 1 |
| AstaireMessages.RowsDoNotCollide | src/astairedata.cpp:71-108 | column, address, port and the rest of the index can be read off a row's OID |
| AstaireMessages.LastConnectionPrevails | src/astairedata.cpp:78-80 | for any list, of the connections with one address and port the last is in the table with its values |
| AstaireMessages.LastBucketPrevails | src/astairedata.cpp:110-113 | and of the buckets with one id under them the last |
| AstaireMessages.NoRowIsLost | src/astairedata.cpp:78-113 | so for distinct connections and bucket ids every row of every connection and bucket is in the tables with its value |
| AstaireMessages.RowsOfTables | src/astairedata.cpp:71-113 | the keys of the tables are exactly the rows of the connections and buckets, for any list |
| StatHandlers.HandleIpCount | src/zmq_message_handler.cpp:15-44 | publishes the fields read one at a time, replacing the handler's subtree |
| StatHandlers.FieldStepsReadPairs | src/zmq_message_handler.cpp:15-44 | equals strict pairs iff every address that occurs last in a count field has the same count in its last pair; so whenever no count field is an address |
| StatHandlers.CountThatIsAnAddress | src/zmq_message_handler.cpp:21-23 | a message that publishes a count as an address, with the next field as its count, where strict pairs would not |
| StatHandlers.HandleBare | src/zmq_message_handler.cpp:46-54 | sets the value at the root; a message too short changes nothing |
| StatHandlers.HandleSingleNumber | src/zmq_message_handler.cpp:56-75 | replaces the subtree by the scalar, or clears it for a message too short |
| StatHandlers.HandleSingleNumberWithScope | src/zmq_message_handler.cpp:80-98 | the same, under the column of the current scope |
| StatHandlers.HandleAccumulatedWithCount | src/zmq_message_handler.cpp:102-137 | replaces the five columns, high and low water marks exchanged, or clears them for a message too short |
| StatHandlers.HandleAstaireGlobal | src/astairedata.cpp:18-43 | sets the five global values, or removes them for a message of fewer than seven fields |
| StatHandlers.HandleAstaireConnections | src/astairedata.cpp:50-141 | replaces the three tables by those of the message, for bucket lists that end within an int |
| ServedValues.PeerCountsAreServed | src/zmq_message_handler.cpp:15-44 | after a message of [address, count] pairs, in any run, GET answers each peer's last count in column 1.3 indexed by its address, and nothing else is below the root |
| ServedValues.BareIsServed | src/zmq_message_handler.cpp:46-54 | the value sent last is served at the root |
| ServedValues.ShortBareIsIgnored | src/zmq_message_handler.cpp:46-54 | a message without a value leaves what was served |
| ServedValues.SingleNumberIsServed | src/zmq_message_handler.cpp:56-75 | exactly instance 0 of the root is served, with the value sent last |
| ServedValues.ScopedNumberIsServed | src/zmq_message_handler.cpp:80-98 | exactly column 1.2 is served, with the value sent last |
| ServedValues.AccumulatedIsServed | src/zmq_message_handler.cpp:102-131 | of average, variance, low, high and count as sent, high is served in column 1.4 and low in 1.5, the others in 1.2, 1.3 and 1.6, and nothing else |
| ServedValues.ShortMessageClears | src/zmq_message_handler.cpp:71-137 | a message too short takes the statistic away |
| ServedValues.GlobalIsServed | src/astairedata.cpp:18-33 | buckets needing resync and resynchronized, entries, data and bandwidth as sent are served at 1.0, 2.0, 3.0, 4.0 and 5.1.2.1 |
| ServedValues.ShortGlobalClears | src/astairedata.cpp:34-42 | a message of fewer than seven fields takes all five away |
| StatHandlers.HandlerStaysInSlots | src/zmq_message_handler.cpp:15-137 | every handler writes only under its own roots |
| StatHandlers.StoreShowsEachHandlersData | src/zmq_message_handler.cpp:15-137 | in any run of messages the store shows, under each root, what that root's messages alone leave, and no key above a root |
| StatHandlers.TablesReplacedInTurn | src/astairedata.cpp:138-140 | after any number of writes of a run, each of the three tables is that of the last Astaire message iff its own replacement was made, and until then what it was before the message |
| StatHandlers.LastAstaireMessagePrevails | src/astairedata.cpp:138-140 | in any run the store's Astaire tables are exactly those of the last Astaire connection message |
| StatHandlers.WhatAstaireSendsIsServed | src/astairedata.cpp:50-141 | end to end: after the message printed for any list of connections, among any other messages, GET answers every row with the last value sent for it and a walk of each of the three tables lists exactly their rows in order |
| StatHandlers.WalkAmongOtherMessages | src/oidtree.cpp:33-95 | once the message is stored, the same walks end and list exactly these rows while other handlers' messages arrive, with requests answered between any two writes |
| StatHandlers.BareTailsAre | src/cdivdata.cpp:15-20 | the roots of the registered single values, for call diversion, Memento AS and Memento |
| StatHandlers.AccumulatedTailsAre | src/mementodata.cpp:17-20 | the roots of the registered averages, for Memento AS and Memento |
| StatHandlers.RegisteredHandlersAreCompatible | src/cdivdata.cpp:15-27 | no root of the registered handlers is a prefix of another |
| StatHandlers.RegisteredHandlersShareTheStore | src/mementodata.cpp:15-55 | so the registered handlers never disturb each other, in any run |
| StatHandlers.RegisteredAstaireIsServed | src/astairedata.cpp:143-160 | the end-to-end result for decimal numbers, the modelled atoi and any set of the registered handlers |

## Left out

- The ZMQ sockets, listener threads and start-up: a trigger, sync or message arriving is a step.
- Varbind construction and net-snmp registration; the Alarm Model and ITU Alarm tables.
- The model pointer column of the Active Alarm Table: it uses the severity where model rows are keyed by state.
- Date and time fields of rows, and time zones.
- The mapping of severities to alarm model states: one table lookup.
- Freshness of served statistics (the 15 s threshold): one comparison.
- The internals of the timer heap, of std::map and of the net-snmp container; allocation failure.
- Overflow of 64-bit pop times.
- Astaire.ReadConnection: nothing is claimed for a bucket list whose end overflows the source's int (a count of 2^29 or more, or below -2^29): signed overflow is undefined.
- Astaire.ParseMessage: the same, for messages that hold such a list.
- StatHandlers.HandleAstaireConnections: the same.
- StatHandlers.StoreShowsEachHandlersData: the same, for runs that hold such a message, and so for the results built on it.
- Destruction of managers and timers after the sender thread was joined.
