/** The Active Alarm Table: an index-to-row map and the container SNMP serves, kept in step
    (src/alarm_active_table.cpp). */
module ActiveTable {
  import opened Common
  import opened AlarmDefs

  const UINT_MAX: nat := 0xFFFF_FFFF

  // A row points at the definition it was created for; activeIndex is its alarmActiveIndex.
  datatype Row = Row(def: AlarmTableDef, activeIndex: nat)

  /** The table as a value. `rows` holds None where the source holds a NULL pointer: reading an
      absent index with operator[] leaves one behind. */
  datatype Table = Table(registered: bool, rows: map<AlarmIndex, Option<Row>>, container: set<Row>, counter: nat)

  function RowOf(t: Table, i: AlarmIndex): Option<Row> {
    if i in t.rows then t.rows[i] else None
  }

  // ---- the trap handler as a function of the table ----

  function Create(t: Table, def: AlarmTableDef): Table {
    var row := Row(def, t.counter + 1);
    t.(rows := t.rows[def.index := Some(row)],
       container := t.container + {row},
       counter := if t.counter + 1 == UINT_MAX then 0 else t.counter + 1)
  }

  function Delete(t: Table, def: AlarmTableDef): Table
    requires RowOf(t, def.index).Some?
  {
    t.(rows := t.rows[def.index := None], container := t.container - {t.rows[def.index].value})
  }

  function Handle(t: Table, def: AlarmTableDef): Table {
    if !t.registered then t
    else
      var existing := RowOf(t, def.index);
      var t := t.(rows := t.rows[def.index := existing]);
      if existing.None? then (if def.severity != CLEARED then Create(t, def) else t)
      else if def.severity == CLEARED then Delete(t, def)
      else if def.severity != existing.value.def.severity then Create(Delete(t, def), def)
      else t
  }

  function HandleAll(t: Table, defs: seq<AlarmTableDef>): Table {
    if defs == [] then t else Handle(HandleAll(t, Front(defs)), Last(defs))
  }

  // ---- agreement of the map with the container ----

  // Each row is filed under its own alarm, is not a cleared one, and the container holds exactly
  // the rows the map points to.
  ghost predicate Consistent(t: Table) {
    && (forall i | i in t.rows && t.rows[i].Some? ::
          && t.rows[i].value.def.index == i && t.rows[i].value.def.severity != CLEARED
          && t.rows[i].value in t.container)
    && (forall r | r in t.container :: RowOf(t, r.def.index) == Some(r))
    && t.counter < UINT_MAX
  }

  /** What one trap leaves behind: the alarm's row is present exactly when the severity is not
      cleared and carries that severity; a row of the same severity is the very same row; every
      other alarm keeps its row; map and container still agree. */
  lemma HandleKeepsTable(t: Table, def: AlarmTableDef)
    requires Consistent(t) && t.registered
    ensures Consistent(Handle(t, def)) && Handle(t, def).registered
    ensures RowOf(Handle(t, def), def.index).Some? <==> def.severity != CLEARED
    ensures def.severity != CLEARED ==> RowOf(Handle(t, def), def.index).value.def.severity == def.severity
    ensures RowOf(t, def.index).Some? && RowOf(t, def.index).value.def.severity == def.severity ==>
              RowOf(Handle(t, def), def.index) == RowOf(t, def.index)
    ensures forall i | i != def.index :: RowOf(Handle(t, def), i) == RowOf(t, i)
    ensures Handle(t, def).rows.Keys == t.rows.Keys + {def.index}
    ensures forall r | r in Handle(t, def).container :: r in t.container || r.def == def
  {
  }

  // ---- numbering of rows ----

  predicate Creates(t: Table, def: AlarmTableDef) {
    && t.registered && def.severity != CLEARED
    && (RowOf(t, def.index).None? || RowOf(t, def.index).value.def.severity != def.severity)
  }

  // How many rows the traps `defs` create, starting from `t`.
  function Created(t: Table, defs: seq<AlarmTableDef>): nat {
    if defs == [] then 0
    else Created(t, Front(defs)) + (if Creates(HandleAll(t, Front(defs)), Last(defs)) then 1 else 0)
  }

  lemma {:induction false} CounterIsCreations(t: Table, defs: seq<AlarmTableDef>)
    requires t.counter == 0
    ensures HandleAll(t, defs).counter == Created(t, defs) % UINT_MAX
  {
    if defs != [] {
      CounterIsCreations(t, Front(defs));
    }
  }

  // Trap number k of the run creates a row and gives it active index x.
  ghost predicate CreatesAt(t: Table, defs: seq<AlarmTableDef>, k: nat, x: nat) {
    && k < |defs|
    && Creates(HandleAll(t, defs[..k]), defs[k])
    && RowOf(HandleAll(t, defs[..k + 1]), defs[k].index) == Some(Row(defs[k], x))
  }

  lemma CreatedRow(t: Table, def: AlarmTableDef)
    requires Creates(t, def)
    ensures RowOf(Handle(t, def), def.index) == Some(Row(def, t.counter + 1))
  {
  }

  lemma HandleOneMore(t: Table, defs: seq<AlarmTableDef>, k: nat)
    requires k < |defs|
    ensures HandleAll(t, defs[..k + 1]) == Handle(HandleAll(t, defs[..k]), defs[k])
  {
    assert Front(defs[..k + 1]) == defs[..k];
  }

  // The active index of the row created after n others.
  function IndexAfter(n: nat): nat { n % 0xFFFF_FFFF + 1 }

  /** The n-th row ever created gets index ((n-1) mod (2^32-1)) + 1, so indices stay within
      1..2^32-1 and repeat exactly every 2^32-1 creations. */
  lemma ActiveIndexOfNthRow(t: Table, defs: seq<AlarmTableDef>, k: nat)
    requires t.counter == 0 && k < |defs| && Creates(HandleAll(t, defs[..k]), defs[k])
    ensures CreatesAt(t, defs, k, IndexAfter(Created(t, defs[..k])))
    ensures 1 <= IndexAfter(Created(t, defs[..k])) <= 0xFFFF_FFFF
  {
    CounterIsCreations(t, defs[..k]);
    HandleOneMore(t, defs, k);
    CreatedRow(HandleAll(t, defs[..k]), defs[k]);
  }

  lemma {:induction false} CreatedGrows(t: Table, defs: seq<AlarmTableDef>, j: nat, k: nat)
    requires j < k <= |defs| && Creates(HandleAll(t, defs[..j]), defs[j])
    ensures Created(t, defs[..j]) < Created(t, defs[..k])
  {
    assert Front(defs[..k]) == defs[..k - 1];
    if j < k - 1 {
      CreatedGrows(t, defs, j, k - 1);
    }
  }

  lemma IndexIsDetermined(t: Table, defs: seq<AlarmTableDef>, k: nat, x: nat)
    requires t.counter == 0 && CreatesAt(t, defs, k, x)
    ensures x == IndexAfter(Created(t, defs[..k]))
  {
    ActiveIndexOfNthRow(t, defs, k);
  }

  // From a to b creations the counter went round a whole number of times.
  predicate WholeCycles(a: nat, b: nat) { (b - a) % 0xFFFF_FFFF == 0 }

  lemma SameIndex(a: nat, b: nat)
    requires a < b
    ensures IndexAfter(a) == IndexAfter(b) <==> WholeCycles(a, b)
    ensures b - a < UINT_MAX ==> IndexAfter(a) != IndexAfter(b)
  {
  }

  /** Two rows created fewer than 2^32-1 creations apart have different active indices. */
  lemma NearbyRowsDiffer(t: Table, defs: seq<AlarmTableDef>, j: nat, k: nat, x: nat, y: nat)
    requires t.counter == 0 && j < k
    requires CreatesAt(t, defs, j, x) && CreatesAt(t, defs, k, y)
    ensures x == y <==> WholeCycles(Created(t, defs[..j]), Created(t, defs[..k]))
    ensures Created(t, defs[..k]) - Created(t, defs[..j]) < UINT_MAX ==> x != y
  {
    IndexIsDetermined(t, defs, j, x);
    IndexIsDetermined(t, defs, k, y);
    CreatedGrows(t, defs, j, k);
    SameIndex(Created(t, defs[..j]), Created(t, defs[..k]));
  }

  /** The globals of the source file. */
  class ActiveAlarmTable {
    const registered: bool
    var rows: map<AlarmIndex, Option<Row>>
    var container: set<Row>
    var counter: nat

    ghost function View(): Table
      reads this
    {
      Table(registered, rows, container, counter)
    }

    constructor (registered: bool)
      ensures View() == Table(registered, map[], {}, 0)
    {
      this.registered := registered;
      rows, container, counter := map[], {}, 0;
    }

    /** alarmActiveTable_create_row, with allocation succeeding. */
    method CreateRow(def: AlarmTableDef)
      modifies this
      ensures View() == Create(old(View()), def)
    {
      counter := counter + 1;
      var row := Row(def, counter);
      container := container + {row};
      rows := rows[def.index := Some(row)];
      if counter == UINT_MAX {
        counter := 0;
      }
    }

    /** alarmActiveTable_delete_row. */
    method DeleteRow(def: AlarmTableDef)
      requires RowOf(View(), def.index).Some?
      modifies this
      ensures View() == Delete(old(View()), def)
    {
      var existing := rows[def.index].value;
      container := container - {existing};
      rows := rows[def.index := None];
    }

    /** alarmActiveTable_trap_handler. */
    method TrapHandler(def: AlarmTableDef)
      modifies this
      ensures View() == Handle(old(View()), def)
    {
      if registered {
        if def.index !in rows {
          rows := rows[def.index := None];
        }
        var existing := rows[def.index];
        assert rows == rows[def.index := existing];
        assert View() == old(View()).(rows := rows);
        if existing.None? && def.severity != CLEARED {
          CreateRow(def);
        } else if existing.Some? && def.severity != CLEARED && def.severity != existing.value.def.severity {
          DeleteRow(def);
          CreateRow(def);
        } else if existing.Some? && def.severity == CLEARED {
          DeleteRow(def);
        }
      }
    }
  }
}
