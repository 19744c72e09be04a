/** The redo journal that replaces a table's files when a schema is exported into it. */
module SchemaExport {
  import opened Base

  const TARGET_COUNT: nat := 8
  const DBF: nat := 0
  const SCHEMA: nat := 1
  const STATE: nat := 6
  const INDEX: nat := 7

  /** The staged files and the base copies, by target number. */
  datatype Staging = Staging(stage: map<nat, Bytes>, bases: map<nat, Bytes>)

  type Targets = t: seq<Option<Bytes>> | |t| == TARGET_COUNT witness seq(TARGET_COUNT, _ => None)

  /** A journal is a log whose torn last record is dropped when it is opened; its one record is the
      set of targets that had a base. */
  datatype Disk = Disk(targets: Targets, staging: Option<Staging>, journal: Option<seq<set<nat>>>)

  /** Whether a table and a schema belong together, and an index to a table. */
  const ValidPair: (Bytes, Bytes) -> bool
  const ValidIndex: (Bytes, Bytes) -> bool

  function At(m: map<nat, Bytes>, i: nat): Option<Bytes>
  {
    if i in m then Some(m[i]) else None
  }

  function BaseOf(s: Staging, flags: set<nat>, i: nat): Option<Bytes>
  {
    if i in flags then At(s.bases, i) else None
  }

  function DesiredOf(s: Staging, flags: set<nat>, i: nat): Option<Bytes>
  {
    if i in {DBF, SCHEMA, STATE} || (i == INDEX && INDEX in flags) then At(s.stage, i) else None
  }

  /** A journal from before the state file was staged leaves it alone. */
  predicate Skipped(s: Staging, i: nat) { i == STATE && STATE !in s.stage }

  predicate Readable(s: Staging, flags: set<nat>)
  {
    DBF in s.stage && SCHEMA in s.stage && (INDEX in flags ==> INDEX in s.stage) &&
    ValidPair(s.stage[DBF], s.stage[SCHEMA]) && (INDEX in flags ==> ValidIndex(s.stage[DBF], s.stage[INDEX])) &&
    (forall i :: i in flags ==> i < TARGET_COUNT) &&
    forall i :: i in flags && !Skipped(s, i) ==> i in s.bases
  }

  /** The target holds what it held at the start or what it is to hold. */
  predicate Settled(t: Targets, s: Staging, flags: set<nat>, i: nat)
    requires i < TARGET_COUNT
  {
    Skipped(s, i) || t[i] == DesiredOf(s, flags, i) || t[i] == BaseOf(s, flags, i)
  }

  predicate Applicable(t: Targets, s: Staging, flags: set<nat>)
  {
    Readable(s, flags) && forall i :: 0 <= i < TARGET_COUNT ==> Settled(t, s, flags, i)
  }

  function Applied(t: Targets, s: Staging, flags: set<nat>): Targets
  {
    seq(TARGET_COUNT, i requires 0 <= i < TARGET_COUNT => if Skipped(s, i) then t[i] else DesiredOf(s, flags, i))
  }

  predicate Pending(d: Disk)
  {
    d.journal.Some? && |d.journal.value| == 1 && d.staging.Some?
  }

  /** The targets as a completed recovery leaves them. */
  function Goal(d: Disk): Targets
  {
    if Pending(d) && Applicable(d.targets, d.staging.value, d.journal.value[0])
    then Applied(d.targets, d.staging.value, d.journal.value[0]) else d.targets
  }

  /** Some targets already replaced: still applicable, and to the same end. */
  lemma PartlyApplied(t: Targets, u: Targets, s: Staging, flags: set<nat>)
    requires Applicable(t, s, flags)
    requires forall i :: 0 <= i < TARGET_COUNT ==> u[i] == t[i] || u[i] == Applied(t, s, flags)[i]
    ensures Applicable(u, s, flags) && Applied(u, s, flags) == Applied(t, s, flags)
  {
    forall i | 0 <= i < TARGET_COUNT
      ensures Settled(u, s, flags, i) && Applied(u, s, flags)[i] == Applied(t, s, flags)[i]
    {
      assert Settled(t, s, flags, i);
    }
  }

  datatype Outcome = Done(applied: bool) | Crashed | Refused

  class ExportFiles {
    var disk: Disk
    /** Every journal record that was appended whole, in order. */
    ghost var appended: seq<set<nat>>

    constructor (targets: Targets)
      ensures disk == Disk(targets, None, None) && appended == []
    {
      disk, appended := Disk(targets, None, None), [];
    }

    /** Whether a target is yet to be replaced, or holds something else. */
    method NeedsReplacement(s: Staging, flags: set<nat>, i: nat) returns (r: Result<bool, ()>)
      requires i < TARGET_COUNT && !Skipped(s, i)
      ensures r.Ok? <==> Settled(disk.targets, s, flags, i)
      ensures r.Ok? ==> (r.value <==> disk.targets[i] != DesiredOf(s, flags, i))
    {
      if disk.targets[i] == DesiredOf(s, flags, i) {
        return Ok(false);
      }
      if disk.targets[i] != BaseOf(s, flags, i) {
        return Err(());
      }
      return Ok(true);
    }

    /** Checks every target before it replaces any. */
    method ApplyExport(s: Staging, flags: set<nat>) returns (outcome: Outcome)
      modifies this`disk
      ensures disk.staging == old(disk).staging && disk.journal == old(disk).journal
      ensures outcome.Refused? <==> !Applicable(old(disk).targets, s, flags)
      ensures outcome.Refused? ==> disk == old(disk)
      ensures outcome.Done? ==> disk.targets == Applied(old(disk).targets, s, flags)
      ensures outcome.Crashed? ==> forall i :: 0 <= i < TARGET_COUNT ==>
        disk.targets[i] == old(disk).targets[i] || disk.targets[i] == Applied(old(disk).targets, s, flags)[i]
    {
      if !Readable(s, flags) {
        return Refused;
      }
      var replace: set<nat> := {};
      for i := 0 to TARGET_COUNT
        invariant disk == old(disk)
        invariant forall k :: 0 <= k < i ==> Settled(disk.targets, s, flags, k)
        invariant forall k :: k in replace <==>
          0 <= k < i && !Skipped(s, k) && disk.targets[k] != DesiredOf(s, flags, k)
      {
        if !Skipped(s, i) {
          var needed := NeedsReplacement(s, flags, i);
          if needed.Err? {
            return Refused;
          }
          if needed.value {
            replace := replace + {i};
          }
        }
      }
      ghost var goal := Applied(disk.targets, s, flags);
      for i := 0 to TARGET_COUNT
        invariant disk.staging == old(disk).staging && disk.journal == old(disk).journal
        invariant forall k :: 0 <= k < TARGET_COUNT ==>
          disk.targets[k] == if k < i then goal[k] else old(disk).targets[k]
      {
        if i in replace {
          assert Settled(old(disk).targets, s, flags, i);
          var needed := NeedsReplacement(s, flags, i);
          if needed.value {
            disk := disk.(targets := disk.targets[i := DesiredOf(s, flags, i)]);
            if * { return Crashed; }
          }
        }
      }
      return Done(true);
    }

    /** Drops the journal record, then the journal, then the staging directory. */
    method CleanUp() returns (outcome: Outcome)
      requires disk.journal.Some?
      modifies this`disk
      ensures disk.targets == old(disk).targets && !outcome.Refused?
      ensures disk == old(disk) || disk.journal in {None, Some([])}
      ensures outcome.Done? ==> disk.staging.None? && disk.journal.None? && outcome.applied
    {
      if * { return Crashed; }
      disk := disk.(journal := Some([]));
      if * { return Crashed; }
      disk := disk.(journal := None);
      if * {
        var some: Option<Staging> := *;
        disk := disk.(staging := some);
        return Crashed;
      }
      disk := disk.(staging := None);
      return Done(true);
    }

    /** Finishes an export whose journal record is there, and clears away any other. */
    method Recover() returns (outcome: Outcome)
      modifies this`disk
      ensures Goal(disk) == old(Goal(disk))
      ensures outcome.Refused? <==> old(disk.journal.Some? && (|disk.journal.value| > 1 ||
        (|disk.journal.value| == 1 &&
         !(Pending(disk) && Applicable(disk.targets, disk.staging.value, disk.journal.value[0])))))
      ensures outcome.Refused? ==> disk == old(disk)
      ensures outcome.Done? ==> disk.targets == old(Goal(disk)) && disk.journal.None?
      ensures outcome.Done? && old(disk).journal.Some? ==> disk.staging.None?
      ensures outcome.Done? ==> (outcome.applied <==> old(disk).journal.Some? && old(disk).journal.value != [])
    {
      if disk.journal.None? {
        return Done(false);
      }
      if disk.journal.value == [] {
        outcome := CleanUp();
        return if outcome.Done? then Done(false) else outcome;
      }
      if |disk.journal.value| != 1 || disk.staging.None? {
        return Refused;
      }
      var s, flags := disk.staging.value, disk.journal.value[0];
      outcome := ApplyExport(s, flags);
      if !outcome.Refused? {
        PartlyApplied(old(disk).targets, disk.targets, s, flags);
      }
      if outcome.Done? {
        AppliedTwice(old(disk).targets, s, flags);
        outcome := CleanUp();
      }
    }

    /** Stages one file; a crash can leave any bytes. */
    method WriteStaged(base: bool, i: nat, bytes: Bytes) returns (outcome: Outcome)
      requires disk.staging.Some?
      modifies this`disk
      ensures disk.targets == old(disk).targets && disk.journal == old(disk).journal && disk.staging.Some?
      ensures !outcome.Refused?
      ensures outcome.Done? ==>
        var was := old(disk).staging.value;
        disk.staging.value ==
        if base then was.(bases := was.bases[i := bytes]) else was.(stage := was.stage[i := bytes])
    {
      var b := bytes;
      outcome := Done(false);
      if * {
        b := *;
        outcome := Crashed;
      }
      var was := disk.staging.value;
      disk := disk.(staging := Some(
        if base then was.(bases := was.bases[i := b]) else was.(stage := was.stage[i := b])));
    }

    /** Copies every target that exists, and says which those are. */
    method CaptureBases() returns (outcome: Outcome, flags: set<nat>)
      requires disk.staging.Some? && disk.staging.value.bases == map[]
      modifies this`disk
      ensures disk.targets == old(disk).targets && disk.journal == old(disk).journal && disk.staging.Some?
      ensures !outcome.Refused?
      ensures outcome.Done? ==> disk.staging.value.stage == old(disk).staging.value.stage
      ensures outcome.Done? ==> forall i :: i in flags <==> 0 <= i < TARGET_COUNT && disk.targets[i].Some?
      ensures outcome.Done? ==> forall i :: 0 <= i < TARGET_COUNT ==>
        At(disk.staging.value.bases, i) == disk.targets[i]
    {
      flags, outcome := {}, Done(false);
      for i := 0 to TARGET_COUNT
        invariant disk.targets == old(disk).targets && disk.journal == old(disk).journal && disk.staging.Some?
        invariant disk.staging.value.stage == old(disk).staging.value.stage
        invariant forall k :: k in flags <==> 0 <= k < i && disk.targets[k].Some?
        invariant forall k: nat :: At(disk.staging.value.bases, k) == if k < i then disk.targets[k] else None
      {
        ghost var was := disk.staging.value.bases;
        assert At(was, i) == None;
        if disk.targets[i].Some? {
          outcome := WriteStaged(true, i, disk.targets[i].value);
          if outcome.Crashed? { return; }
          flags := flags + {i};
          assert disk.staging.value.bases == was[i := disk.targets[i].value];
        }
        assert forall k: nat :: At(disk.staging.value.bases, k) == if k == i then disk.targets[i] else At(was, k);
      }
      outcome := Done(false);
    }

    /** Appends the journal record; a torn one is dropped when the journal is opened. */
    method AppendRecord(flags: set<nat>) returns (outcome: Outcome)
      requires disk.journal.None?
      modifies this
      ensures !outcome.Refused?
      ensures outcome.Done? ==> appended != old(appended)
      ensures appended == old(appended) || appended == old(appended) + [flags]
      ensures disk.(journal := None) == old(disk)
      ensures if appended == old(appended) then disk.journal in {None, Some([])} else disk.journal == Some([flags])
    {
      if * { return Crashed; }
      disk := disk.(journal := Some([]));
      if * { return Crashed; }
      disk := disk.(journal := Some([flags]));
      appended := appended + [flags];
      if * { return Crashed; }
      return Done(false);
    }

    /** Exports a table and a schema under a new state, with `index` as the new index if there is
        one. `decided` says whether the journal record became durable. */
    method Commit(dbf: Bytes, schema: Bytes, state: Bytes, index: Option<Bytes>)
      returns (outcome: Outcome, ghost decided: bool)
      requires disk.journal.None?
      modifies this
      ensures decided ==> |appended| == |old(appended)| + 1 && old(appended) < appended
      ensures !decided ==> appended == old(appended)
      ensures !decided ==> Goal(disk) == old(disk).targets
      ensures outcome.Done? ==> decided && disk.targets == Exported(old(disk).targets, dbf, schema, state, index)
      ensures decided && IndexFits(old(disk).targets, dbf, index) ==>
        !outcome.Refused? && Goal(disk) == Exported(old(disk).targets, dbf, schema, state, index)
      ensures !ValidPair(dbf, schema) ==> outcome.Refused? && disk == old(disk)
      ensures outcome.Refused? ==> disk.targets == old(disk).targets
      ensures outcome.Refused? ==> !ValidPair(dbf, schema) || !IndexFits(old(disk).targets, dbf, index)
    {
      decided := false;
      if !ValidPair(dbf, schema) {
        return Refused, decided;
      }
      var staged := if index.Some? then index else disk.targets[INDEX];
      disk := disk.(staging := None);
      if * { return Crashed, decided; }
      disk := disk.(staging := Some(Staging(map[], map[])));
      outcome := WriteStaged(false, DBF, dbf);
      if outcome.Crashed? { return; }
      outcome := WriteStaged(false, SCHEMA, schema);
      if outcome.Crashed? { return; }
      outcome := WriteStaged(false, STATE, state);
      if outcome.Crashed? { return; }
      if staged.Some? {
        outcome := WriteStaged(false, INDEX, staged.value);
        if outcome.Crashed? { return; }
      }
      var flags;
      outcome, flags := CaptureBases();
      if outcome.Crashed? { return; }
      outcome := AppendRecord(flags);
      decided := appended != old(appended);
      if decided {
        StagedGoal(disk, dbf, schema, state, index);
      }
      if outcome.Crashed? { return; }
      outcome := Recover();
    }
  }

  /** An export that crashes anywhere, and recoveries after it that crash anywhere: as soon as one
      completes, all targets are as they were or all are exported, by whether the journal record
      became durable. */
  method ExportAndRestart(f: ExportFiles, dbf: Bytes, schema: Bytes, state: Bytes, index: Option<Bytes>, restarts: nat)
    returns (done: bool, ghost decided: bool)
    requires f.disk.journal.None? && ValidPair(dbf, schema) && IndexFits(f.disk.targets, dbf, index)
    modifies f
    ensures decided <==> f.appended != old(f.appended)
    ensures Goal(f.disk) ==
      if decided then Exported(old(f.disk).targets, dbf, schema, state, index) else old(f.disk).targets
    ensures done ==> f.disk.targets == Goal(f.disk) && f.disk.journal.None?
  {
    ghost var exported := Exported(f.disk.targets, dbf, schema, state, index);
    var outcome;
    outcome, decided := f.Commit(dbf, schema, state, index);
    done := outcome.Done? && f.disk.journal.None?;
    var i := 0;
    while i < restarts && !done
      invariant decided <==> f.appended != old(f.appended)
      invariant Goal(f.disk) == if decided then exported else old(f.disk).targets
      invariant done ==> f.disk.targets == Goal(f.disk) && f.disk.journal.None?
    {
      outcome := f.Recover();
      done := outcome.Done?;
      i := i + 1;
    }
  }

  lemma AppliedTwice(t: Targets, s: Staging, flags: set<nat>)
    ensures Applied(Applied(t, s, flags), s, flags) == Applied(t, s, flags)
  {
  }

  /** The targets after an export: an index only where there was one, and no memo file. */
  function Exported(t: Targets, dbf: Bytes, schema: Bytes, state: Bytes, index: Option<Bytes>): Targets
  {
    [Some(dbf), Some(schema), None, None, None, None, Some(state),
     if t[INDEX].None? then None else if index.Some? then index else t[INDEX]]
  }

  predicate IndexFits(t: Targets, dbf: Bytes, index: Option<Bytes>)
  {
    t[INDEX].Some? ==> ValidIndex(dbf, if index.Some? then index.value else t[INDEX].value)
  }

  /** Everything staged and captured: recovery leads to the export. */
  lemma StagedGoal(d: Disk, dbf: Bytes, schema: Bytes, state: Bytes, index: Option<Bytes>)
    requires Pending(d) && ValidPair(dbf, schema)
    requires var s, flags, t := d.staging.value, d.journal.value[0], d.targets;
             var staged := if index.Some? then index else t[INDEX];
             At(s.stage, DBF) == Some(dbf) && At(s.stage, SCHEMA) == Some(schema) &&
             At(s.stage, STATE) == Some(state) && At(s.stage, INDEX) == staged &&
             (forall i :: i in flags <==> 0 <= i < TARGET_COUNT && t[i].Some?) &&
             forall i :: 0 <= i < TARGET_COUNT ==> At(s.bases, i) == t[i]
    ensures Applicable(d.targets, d.staging.value, d.journal.value[0]) <==> IndexFits(d.targets, dbf, index)
    ensures IndexFits(d.targets, dbf, index) ==> Goal(d) == Exported(d.targets, dbf, schema, state, index)
  {
    var s, flags, t := d.staging.value, d.journal.value[0], d.targets;
    forall i | 0 <= i < TARGET_COUNT
      ensures Settled(t, s, flags, i) && !Skipped(s, i) &&
              DesiredOf(s, flags, i) == Exported(t, dbf, schema, state, index)[i]
    {
      assert At(s.bases, i) == t[i];
    }
  }
}
