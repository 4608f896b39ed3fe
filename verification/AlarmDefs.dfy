/** Alarm definitions: loading them from a directory and looking them up by index and severity
    (src/alarm_table_defs.cpp). */
module AlarmDefs {
  import opened Common

  type AlarmIndex = nat

  // Severities keep the numbers they have on the wire; 0 is "never sent".
  type Severity = nat
  const UNDEFINED_SEVERITY: Severity := 0
  const CLEARED: Severity := 1

  type DefKey = (AlarmIndex, Severity)

  datatype SeverityDetails = SeverityDetails(severity: Severity, description: string)

  // One alarm of a JSON file, with one SeverityDetails for each severity it can take.
  datatype AlarmDefinition = AlarmDefinition(index: AlarmIndex, name: string, details: seq<SeverityDetails>)

  datatype AlarmTableDef = AlarmTableDef(valid: bool, index: AlarmIndex, severity: Severity,
                                         name: string, description: string)

  const INVALID_DEF := AlarmTableDef(false, 0, UNDEFINED_SEVERITY, "", "")

  // A directory entry; `contents` is None when the file does not validate as alarm JSON.
  datatype DirEntry = DirEntry(regular: bool, extension: string, contents: Option<seq<AlarmDefinition>>) {
    predicate Loadable() { regular && extension == ".json" }
  }

  function MakeDef(a: AlarmDefinition, d: SeverityDetails): AlarmTableDef {
    AlarmTableDef(true, a.index, d.severity, a.name, d.description)
  }

  // Every definition is filed under the index and severity it carries, and is valid.
  ghost predicate WellFiled(defs: map<DefKey, AlarmTableDef>) {
    forall k | k in defs :: defs[k].valid && k == (defs[k].index, defs[k].severity)
  }

  /** get_definition: the definition filed under the key, or the invalid one. */
  function Lookup(defs: map<DefKey, AlarmTableDef>, index: AlarmIndex, severity: Severity): AlarmTableDef {
    if (index, severity) in defs then defs[(index, severity)] else INVALID_DEF
  }

  // ---- what a successful load means ----

  // All alarms of the loadable files, in the order the directory lists them.
  ghost function Loaded(entries: seq<DirEntry>): seq<AlarmDefinition> {
    if entries == [] then []
    else
      var e := Last(entries);
      Loaded(Front(entries)) + (if e.Loadable() && e.contents.Some? then e.contents.value else [])
  }

  ghost predicate AllParse(entries: seq<DirEntry>) {
    forall k | 0 <= k < |entries| :: entries[k].Loadable() ==> entries[k].contents.Some?
  }

  /** What is loaded comes from the regular files with extension .json, and all of it; and these are the
      files that must validate. */
  lemma {:induction false} LoadedFromJsonFiles(entries: seq<DirEntry>, a: AlarmDefinition)
    ensures a in Loaded(entries) <==>
            exists k :: 0 <= k < |entries| && entries[k].regular && entries[k].extension == ".json"
                        && entries[k].contents.Some? && a in entries[k].contents.value
    ensures AllParse(entries) <==>
            forall k | 0 <= k < |entries| && entries[k].regular && entries[k].extension == ".json" ::
              entries[k].contents.Some?
  {
    if entries != [] {
      LoadedFromJsonFiles(Front(entries), a);
      assert forall k | 0 <= k < |entries| - 1 :: Front(entries)[k] == entries[k];
    }
  }

  ghost predicate DistinctIndices(alarms: seq<AlarmDefinition>) {
    forall i, j | 0 <= i < j < |alarms| :: alarms[i].index != alarms[j].index
  }

  ghost function Indices(alarms: seq<AlarmDefinition>): set<AlarmIndex> {
    set a | a in alarms :: a.index
  }

  // Position p of `details` is the first that has severity s.
  ghost predicate FirstWith(details: seq<SeverityDetails>, s: Severity, p: nat) {
    && p < |details| && details[p].severity == s
    && forall q | 0 <= q < p :: details[q].severity != s
  }

  ghost predicate DefinedAt(alarms: seq<AlarmDefinition>, k: DefKey, def: AlarmTableDef, j: nat, p: nat) {
    && j < |alarms| && alarms[j].index == k.0
    && FirstWith(alarms[j].details, k.1, p)
    && def.valid && def.index == k.0 && def.severity == k.1
    && def.name == alarms[j].name && def.description == alarms[j].details[p].description
  }

  // `def` is what the loaded alarms say about (k.0, k.1).
  ghost predicate DefinedAs(alarms: seq<AlarmDefinition>, k: DefKey, def: AlarmTableDef) {
    exists j: nat, p: nat :: DefinedAt(alarms, k, def, j, p)
  }

  // The table `defs` holds exactly what the alarms define.
  ghost predicate Represents(defs: map<DefKey, AlarmTableDef>, alarms: seq<AlarmDefinition>) {
    && (forall k | k in defs :: DefinedAs(alarms, k, defs[k]))
    && (forall j, q | 0 <= j < |alarms| && 0 <= q < |alarms[j].details| ::
          (alarms[j].index, alarms[j].details[q].severity) in defs)
  }

  /** (index, severity) resolves to a valid definition exactly when a loaded alarm lists that
      severity, and what it resolves to is that alarm's first entry for it. */
  lemma LookupMeansDefined(defs: map<DefKey, AlarmTableDef>, alarms: seq<AlarmDefinition>,
                           index: AlarmIndex, severity: Severity)
    requires Represents(defs, alarms)
    ensures WellFiled(defs)
    ensures Lookup(defs, index, severity).valid <==>
            exists j, q :: 0 <= j < |alarms| && 0 <= q < |alarms[j].details|
                           && alarms[j].index == index && alarms[j].details[q].severity == severity
    ensures Lookup(defs, index, severity).valid ==>
              DefinedAs(alarms, (index, severity), Lookup(defs, index, severity))
  {
    forall k | k in defs
      ensures defs[k].valid && k == (defs[k].index, defs[k].severity)
    {
      var j: nat, p: nat :| DefinedAt(alarms, k, defs[k], j, p);
    }
    if (index, severity) in defs {
      var j: nat, p: nat :| DefinedAt(alarms, (index, severity), defs[(index, severity)], j, p);
      assert alarms[j].details[p].severity == severity;
    }
  }

  lemma IndicesSnoc(alarms: seq<AlarmDefinition>, a: AlarmDefinition)
    ensures Indices(alarms + [a]) == Indices(alarms) + {a.index}
  {
    assert forall b :: b in alarms + [a] <==> b in alarms || b == a;
  }

  lemma LoadedGrows(entries: seq<DirEntry>, k: nat)
    requires k <= |entries|
    ensures Loaded(entries[..k]) <= Loaded(entries)
  {
    if k == |entries| {
      assert entries[..k] == entries;
    } else {
      assert Front(entries)[..k] == entries[..k];
      LoadedGrows(Front(entries), k);
    }
  }

  lemma ClashPersists(some: seq<AlarmDefinition>, all: seq<AlarmDefinition>)
    requires some <= all
    ensures DistinctIndices(all) ==> DistinctIndices(some)
  {
    assert forall i | 0 <= i < |some| :: some[i] == all[i];
  }

  class AlarmTableDefs {
    var keyToDef: map<DefKey, AlarmTableDef>

    constructor ()
      ensures keyToDef == map[]
    {
      keyToDef := map[];
    }

    /** insert_def: std::map::emplace keeps an entry that is already there. */
    method InsertDef(def: AlarmTableDef)
      modifies this
      ensures keyToDef == (if (def.index, def.severity) in old(keyToDef) then old(keyToDef)
                           else old(keyToDef)[(def.index, def.severity) := def])
    {
      if (def.index, def.severity) !in keyToDef {
        keyToDef := keyToDef[(def.index, def.severity) := def];
      }
    }

    // The inner loop of populate_map: files every severity of an alarm whose index is new.
    method InsertAlarm(a: AlarmDefinition, ghost before: seq<AlarmDefinition>)
      requires Represents(keyToDef, before)
      requires forall j | 0 <= j < |before| :: before[j].index != a.index
      modifies this
      ensures Represents(keyToDef, before + [a])
    {
      ghost var base := keyToDef;
      var n := 0;
      while n < |a.details|
        invariant 0 <= n <= |a.details|
        invariant base.Keys <= keyToDef.Keys
        invariant forall k | k in base :: keyToDef[k] == base[k]
        invariant forall q | 0 <= q < n :: (a.index, a.details[q].severity) in keyToDef
        invariant forall k | k in keyToDef && k !in base ::
                    exists p: nat :: p < n && k.0 == a.index && FirstWith(a.details, k.1, p)
                                     && keyToDef[k] == MakeDef(a, a.details[p])
      {
        ghost var prior := keyToDef;
        var def := MakeDef(a, a.details[n]);
        InsertDef(def);
        n := n + 1;
        forall k | k in keyToDef && k !in base
          ensures exists p: nat :: p < n && k.0 == a.index && FirstWith(a.details, k.1, p)
                                   && keyToDef[k] == MakeDef(a, a.details[p])
        {
          if k in prior {
            var p: nat :| p < n - 1 && k.0 == a.index && FirstWith(a.details, k.1, p)
                          && prior[k] == MakeDef(a, a.details[p]);
          } else {
            assert FirstWith(a.details, k.1, n - 1);
          }
        }
      }
      var after := before + [a];
      forall k | k in keyToDef
        ensures DefinedAs(after, k, keyToDef[k])
      {
        if k in base {
          var j: nat, p: nat :| DefinedAt(before, k, base[k], j, p);
          assert DefinedAt(after, k, keyToDef[k], j, p);
        } else {
          var p: nat :| p < n && k.0 == a.index && FirstWith(a.details, k.1, p)
                        && keyToDef[k] == MakeDef(a, a.details[p]);
          assert DefinedAt(after, k, keyToDef[k], |before|, p);
        }
      }
    }

    /** populate_map: loads one file, or stops at the first index already seen. */
    method PopulateMap(contents: Option<seq<AlarmDefinition>>, dupCheck: set<AlarmIndex>,
                       ghost before: seq<AlarmDefinition>)
      returns (rc: bool, dupCheck': set<AlarmIndex>)
      requires Represents(keyToDef, before) && DistinctIndices(before)
      requires dupCheck == Indices(before)
      modifies this
      ensures rc <==> contents.Some? && DistinctIndices(before + contents.value)
      ensures rc ==> Represents(keyToDef, before + contents.value)
      ensures rc ==> dupCheck' == Indices(before + contents.value)
      ensures WellFiled(keyToDef)
    {
      LookupMeansDefined(keyToDef, before, 0, 0);
      rc, dupCheck' := contents.Some?, dupCheck;
      if !rc {
        return;
      }
      var alarms := contents.value;
      var n := 0;
      ghost var seen := before;
      assert before + alarms[..0] == before;
      while n < |alarms|
        invariant 0 <= n <= |alarms|
        invariant seen == before + alarms[..n]
        invariant Represents(keyToDef, seen) && DistinctIndices(seen)
        invariant dupCheck' == Indices(seen)
      {
        LookupMeansDefined(keyToDef, seen, 0, 0);
        if alarms[n].index in dupCheck' {
          ghost var j :| 0 <= j < |seen| && seen[j].index == alarms[n].index;
          assert (before + alarms)[j] == seen[j] && (before + alarms)[|seen|] == alarms[n];
          return false, dupCheck';
        }
        dupCheck' := dupCheck' + {alarms[n].index};
        InsertAlarm(alarms[n], seen);
        IndicesSnoc(seen, alarms[n]);
        seen := seen + [alarms[n]];
        n := n + 1;
      }
      assert alarms[..n] == alarms;
      LookupMeansDefined(keyToDef, seen, 0, 0);
    }

    /** initialize: succeeds exactly when the directory is there, every JSON file validates and no
        alarm index repeats within or across files; then the table is what the files define. */
    method Initialize(directory: Option<seq<DirEntry>>) returns (rc: bool)
      modifies this
      ensures rc <==> && directory.Some? && AllParse(directory.value)
                      && DistinctIndices(Loaded(directory.value))
      ensures rc ==> Represents(keyToDef, Loaded(directory.value))
      ensures WellFiled(keyToDef)
    {
      var dupCheck := {};
      keyToDef := map[];
      if directory.None? {
        return false;
      }
      rc := true;
      var entries := directory.value;
      var n := 0;
      while n < |entries| && rc
        invariant 0 <= n <= |entries|
        invariant rc <==> AllParse(entries[..n]) && DistinctIndices(Loaded(entries[..n]))
        invariant rc ==> Represents(keyToDef, Loaded(entries[..n]))
        invariant rc ==> dupCheck == Indices(Loaded(entries[..n]))
        invariant WellFiled(keyToDef)
      {
        ghost var before := Loaded(entries[..n]);
        assert Front(entries[..n + 1]) == entries[..n];
        if entries[n].Loadable() {
          rc, dupCheck := PopulateMap(entries[n].contents, dupCheck, before);
        } else {
          assert Loaded(entries[..n + 1]) == before;
        }
        n := n + 1;
      }
      LoadedGrows(entries, n);
      ClashPersists(Loaded(entries[..n]), Loaded(entries));
      assert rc ==> entries[..n] == entries;
    }

    /** get_definition. */
    method GetDefinition(index: AlarmIndex, severity: Severity) returns (def: AlarmTableDef)
      requires WellFiled(keyToDef)
      ensures def == Lookup(keyToDef, index, severity)
      ensures def.valid <==> (index, severity) in keyToDef
      ensures def.valid ==> def.index == index && def.severity == severity
    {
      if (index, severity) in keyToDef {
        return keyToDef[(index, severity)];
      }
      return INVALID_DEF;
    }
  }
}
