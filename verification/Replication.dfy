/** The single-authority replication log and its followers. */
module Replication {
  import opened Base
  import opened Journal
  import opened CatalogState

  const LOG_VERSION: nat := 1
  const ENTRY_VERSION: nat := 1
  const ENTRY_STEPS_VERSION: nat := 2
  const MAX_OPERATION_BATCH: nat := 1000
  const SIDECAR: string := ".txbase.replication"

  datatype Verb = GET | QUERY | POST | PUT | PATCH | DELETE
  datatype Operation = Operation(verb: Verb, path: string, body: string)
  datatype Step =
    | Mutation(operation: Operation)
    | SetConstraints(table: Option<string>, all: bool, names: set<string>, deferred: bool)

  datatype Entry = Entry(version: nat, term: u64, index: u64, id: u64, schemaTag: string,
                         operations: seq<Operation>, steps: seq<Step>)
  datatype Log = Log(formatVersion: nat, term: u64, baseIndex: u64, baseId: u64, entries: seq<Entry>)

  type CatalogImage = Image<Content<Log>>
  type CatalogFiles = Files<Content<Log>>

  // The checks and the execution of single steps are not part of this module.
  const StepOk: Step -> bool
  const Blank: string -> bool
  /** The schema representation tag of the tables in a catalog. */
  const SchemaTag: CatalogFiles -> string
  /** The file images that running steps on a catalog under a transaction ID writes. */
  const Execute: (CatalogFiles, u64, seq<Step>) -> Result<seq<CatalogImage>, string>

  function Steps(e: Entry): seq<Step>
  {
    if e.version == ENTRY_VERSION
    then seq(|e.operations|, i requires 0 <= i < |e.operations| => Mutation(e.operations[i]))
    else e.steps
  }

  predicate HasMutation(steps: seq<Step>)
  {
    exists i :: 0 <= i < |steps| && steps[i].Mutation?
  }

  predicate ValidStep(s: Step)
  {
    StepOk(s) &&
    (s.Mutation? ==> s.operation.verb !in {GET, QUERY}) &&
    (s.SetConstraints? && !s.all ==> s.table.Some?)
  }

  predicate ValidEntry(e: Entry)
  {
    e.version in {ENTRY_VERSION, ENTRY_STEPS_VERSION} &&
    e.term != 0 && e.index != 0 && e.id != 0 && !Blank(e.schemaTag) &&
    (e.version == ENTRY_VERSION ==> e.operations != [] && e.steps == []) &&
    (e.version == ENTRY_STEPS_VERSION ==>
      e.operations == [] && e.steps != [] && exists i :: 0 <= i < |e.steps| && e.steps[i].SetConstraints?) &&
    |Steps(e)| <= MAX_OPERATION_BATCH &&
    (forall i :: 0 <= i < |Steps(e)| ==> ValidStep(Steps(e)[i])) &&
    HasMutation(Steps(e))
  }

  function LastIndex(log: Log): nat { log.baseIndex + |log.entries| }
  function LastId(log: Log): nat { log.baseId + |log.entries| }
  function Extend(log: Log, more: seq<Entry>): Log { log.(entries := log.entries + more) }

  /** Entry `i` of a log is valid, of its term and at its position. */
  predicate Placed(log: Log, e: Entry, i: nat)
  {
    ValidEntry(e) && e.term == log.term && e.index == log.baseIndex + i + 1 && e.id == log.baseId + i + 1
  }

  predicate ValidLog(log: Log)
  {
    log.formatVersion == LOG_VERSION && log.term != 0 &&
    forall i :: 0 <= i < |log.entries| ==> Placed(log, log.entries[i], i)
  }

  /** The scan that `validate` makes, position counters and all. */
  method Validate(log: Log) returns (ok: bool)
    ensures ok == ValidLog(log)
  {
    if log.formatVersion != LOG_VERSION || log.term == 0 {
      return false;
    }
    var index, id := log.baseIndex, log.baseId;
    for i := 0 to |log.entries|
      invariant index == log.baseIndex + i && id == log.baseId + i
      invariant forall k :: 0 <= k < i ==> Placed(log, log.entries[k], k)
    {
      var e := log.entries[i];
      if !ValidEntry(e) || index == U64_MAX || id == U64_MAX {
        assert !Placed(log, log.entries[i], i);
        return false;
      }
      index, id := index + 1, id + 1;
      if e.term != log.term || e.index != index || e.id != id {
        assert !Placed(log, log.entries[i], i);
        return false;
      }
    }
    return true;
  }

  // ---- One entry on a catalog ----

  function SidecarImage(log: Log): CatalogImage { (SIDECAR, Some(Encoded(log))) }

  /** The files after the steps of `e`, with the log that holds `e`. Without a mutation the
      sidecar is written alone and the transaction ID stays. */
  function Next(files: CatalogFiles, log: Log, e: Entry): CatalogFiles
  {
    var sidecar := SidecarImage(Extend(log, [e]));
    if !HasMutation(Steps(e)) then Overlay(files, [sidecar])
    else
      var images := Execute(files, e.id, Steps(e));
      if images.Err? then files else CommittedFiles(files, e.id, [sidecar] + images.value)
  }

  /** The stored log, if there is one, is `log`, and the catalog is where it ends. */
  ghost predicate InStep(files: CatalogFiles, log: Log)
  {
    ValidLog(log) && CurrentId(files) == Ok(LastId(log)) && Get(files, SIDECAR) in {None, Some(Encoded(log))}
  }

  /** The steps succeed, and write each file once and neither the log nor the transaction ID. */
  ghost predicate Runs(files: CatalogFiles, log: Log, e: Entry)
  {
    var images := Execute(files, e.id, Steps(e));
    images.Ok? && Distinct([SidecarImage(Extend(log, [e]))] + images.value + [StateImage(e.id)])
  }

  /** `e` is the entry that comes next, and its steps run on these files. */
  ghost predicate Accepts(files: CatalogFiles, log: Log, e: Entry)
  {
    Placed(log, e, |log.entries|) && e.schemaTag == SchemaTag(files) && Runs(files, log, e)
  }

  function Fresh(term: u64, id: u64): Log { Log(LOG_VERSION, term, id, id, []) }

  /** `log` is what opening the catalog yields: the stored log, or a fresh one at its position. */
  ghost predicate Opens(files: CatalogFiles, log: Log)
  {
    InStep(files, log) && (SIDECAR !in files ==> log == Fresh(log.term, log.baseId))
  }

  lemma NextOpens(files: CatalogFiles, log: Log, e: Entry)
    requires InStep(files, log) && Accepts(files, log, e)
    ensures Opens(Next(files, log, e), Extend(log, [e]))
  {
    var images := [SidecarImage(Extend(log, [e]))] + Execute(files, e.id, Steps(e)).value;
    CommittedId(files, e.id, images);
    assert (images + [StateImage(e.id)])[0].0 == SIDECAR;
    OverlayAt(files, images + [StateImage(e.id)], SIDECAR);
    var next := Extend(log, [e]);
    forall i | 0 <= i < |next.entries| ensures Placed(next, next.entries[i], i) {
      assert i < |log.entries| ==> Placed(log, log.entries[i], i);
    }
  }

  /** Why an entry must hold a mutation: the log and the catalog stay in step exactly then. */
  lemma InStepNeedsMutation(files: CatalogFiles, log: Log, e: Entry)
    requires InStep(files, log) && e.id == LastId(log) + 1 && Runs(files, log, e)
    ensures CurrentId(Next(files, log, e)) == Ok(LastId(Extend(log, [e]))) <==> HasMutation(Steps(e))
  {
    var sidecar := SidecarImage(Extend(log, [e]));
    if HasMutation(Steps(e)) {
      CommittedId(files, e.id, [sidecar] + Execute(files, e.id, Steps(e)).value);
    } else {
      OverlayAt(files, [sidecar], STATE_FILE);
      assert CurrentId(Next(files, log, e)) == CurrentId(files);
    }
  }

  // ---- The authority's history ----

  function ImageOf(files: CatalogFiles, log: Log, entries: seq<Entry>): CatalogFiles
    decreases |entries|
  {
    if entries == [] then files
    else
      var n := |entries| - 1;
      Next(ImageOf(files, log, entries[..n]), Extend(log, entries[..n]), entries[n])
  }

  /** Entries that the authority could commit one after another, starting from `files` and `log`. */
  ghost predicate History(files: CatalogFiles, log: Log, entries: seq<Entry>)
    decreases |entries|
  {
    if entries == [] then Opens(files, log)
    else
      var n := |entries| - 1;
      History(files, log, entries[..n]) &&
      Accepts(ImageOf(files, log, entries[..n]), Extend(log, entries[..n]), entries[n])
  }

  lemma {:induction false} HistoryPrefix(files: CatalogFiles, log: Log, entries: seq<Entry>, k: nat)
    requires History(files, log, entries) && k <= |entries|
    ensures History(files, log, entries[..k])
    ensures Opens(ImageOf(files, log, entries[..k]), Extend(log, entries[..k]))
    decreases |entries|
  {
    hide Next, InStep, Accepts;
    var n := |entries| - 1;
    if k <= n {
      HistoryPrefix(files, log, entries[..n], k);
      assert entries[..n][..k] == entries[..k];
    } else {
      assert entries[..k] == entries;
      if entries == [] {
        assert Extend(log, []) == log;
      } else {
        HistoryPrefix(files, log, entries[..n], n);
        assert entries[..n][..n] == entries[..n];
        NextOpens(ImageOf(files, log, entries[..n]), Extend(log, entries[..n]), entries[n]);
        assert Extend(Extend(log, entries[..n]), [entries[n]]) == Extend(log, entries);
      }
    }
  }

  /** Entry `k` is what a log with the first `k` accepts, and what it leaves is the image of `k + 1`. */
  lemma HistoryNext(files: CatalogFiles, log: Log, entries: seq<Entry>, k: nat)
    requires History(files, log, entries) && k < |entries|
    ensures Accepts(ImageOf(files, log, entries[..k]), Extend(log, entries[..k]), entries[k])
    ensures ImageOf(files, log, entries[..k + 1]) ==
            Next(ImageOf(files, log, entries[..k]), Extend(log, entries[..k]), entries[k])
  {
    hide Next, InStep, Accepts;
    HistoryPrefix(files, log, entries, k + 1);
    assert entries[..k + 1][..k] == entries[..k];
  }

  // ---- Replicas ----

  /** The log holds `e` at the position that `e` names. */
  predicate Holds(log: Log, e: Entry)
  {
    log.baseIndex < e.index <= LastIndex(log) && log.entries[e.index - log.baseIndex - 1] == e
  }

  datatype ReplicationError =
    | InvalidEntry
    | TermMismatch
    | HistoryUnavailable
    | ConflictingDuplicate
    | IndexGap
    | TransactionGap
    | Exhausted
    | CatalogStateMismatch
    | SchemaMismatch
    | SidecarStateMismatch
    | CommitFailed
    | InvalidLog

  datatype ApplyOutcome =
    | Applied(index: nat, id: nat)
    | Duplicate(index: nat, id: nat)
    | Failed(error: ReplicationError)
    | Interrupted

  /** A log in memory over a catalog on disk. An interruption is a crash, or an error from the file
      system after which the process goes on with the log it has. */
  class Replica {
    const catalog: Catalog<Content<Log>>
    var log: Log

    constructor (c: Catalog<Content<Log>>, l: Log)
      ensures catalog == c && log == l
    {
      catalog, log := c, l;
    }

    /** Commits the steps of an entry with the log that holds it. */
    method CommitSteps(e: Entry) returns (outcome: Outcome, ghost decided: bool)
      requires Sound(catalog.disk) && catalog.disk.journal.None?
      requires InStep(catalog.disk.files, log) && ValidEntry(e) && e.id == LastId(log) + 1
      modifies catalog
      ensures Sound(catalog.disk) && log == old(log)
      ensures outcome.Done? ==> decided
      ensures decided ==> Recovered(catalog.disk) == Next(old(catalog.disk).files, log, e)
      ensures !decided ==> Recovered(catalog.disk) == old(catalog.disk).files
      ensures outcome.Refused? <==> !Runs(old(catalog.disk).files, log, e)
      ensures outcome.Refused? ==> !decided
    {
      var files := catalog.disk.files;
      var images := Execute(files, e.id, Steps(e));
      if images.Err? {
        return Refused, false;
      }
      var changes := ChangesFor(files, [SidecarImage(Extend(log, [e]))] + images.value);
      outcome, decided := CommitAt(catalog, e.id, changes);
    }

    method ApplyNew(e: Entry) returns (outcome: ApplyOutcome, ghost decided: bool)
      requires Sound(catalog.disk) && ValidLog(log) && ValidEntry(e) && e.term == log.term
      modifies this, catalog
      ensures Sound(catalog.disk) && !outcome.Duplicate?
      ensures outcome.Applied? ==> decided && outcome == Applied(e.index, e.id)
      ensures log == if outcome.Applied? then Extend(old(log), [e]) else old(log)
      ensures !decided ==> Recovered(catalog.disk) == old(Recovered(catalog.disk))
      ensures decided ==>
        InStep(old(Recovered(catalog.disk)), old(log)) && Accepts(old(Recovered(catalog.disk)), old(log), e) &&
        Recovered(catalog.disk) == Next(old(Recovered(catalog.disk)), old(log), e)
      ensures InStep(old(Recovered(catalog.disk)), old(log)) && Accepts(old(Recovered(catalog.disk)), old(log), e) ==>
        outcome.Applied? || outcome.Interrupted?
    {
      hide Runs, Next, Recovered, Sound, ValidEntry, CurrentId;
      decided := false;
      if LastIndex(log) >= U64_MAX {
        return Failed(Exhausted), decided;
      }
      if e.index != LastIndex(log) + 1 {
        return Failed(IndexGap), decided;
      }
      if LastId(log) >= U64_MAX {
        return Failed(Exhausted), decided;
      }
      if e.id != LastId(log) + 1 {
        return Failed(TransactionGap), decided;
      }
      var recovery := catalog.RecoverLocked();
      if recovery.Crashed? {
        return Interrupted, decided;
      }
      var files := catalog.disk.files;
      if CurrentId(files) != Ok(LastId(log)) {
        return Failed(CatalogStateMismatch), decided;
      }
      if e.schemaTag != SchemaTag(files) {
        return Failed(SchemaMismatch), decided;
      }
      if SIDECAR in files && files[SIDECAR] != Encoded(log) {
        return Failed(SidecarStateMismatch), decided;
      }
      var committed;
      committed, decided := CommitSteps(e);
      if committed.Refused? {
        return Failed(CommitFailed), decided;
      }
      if committed.Crashed? {
        return Interrupted, decided;
      }
      log := Extend(log, [e]);
      return Applied(e.index, e.id), decided;
    }

    /** Delivers one entry. */
    method Receive(e: Entry) returns (outcome: ApplyOutcome, ghost decided: bool)
      requires Sound(catalog.disk) && ValidLog(log)
      modifies this, catalog
      ensures Sound(catalog.disk)
      ensures log == if outcome.Applied? then Extend(old(log), [e]) else old(log)
      ensures outcome.Applied? ==> decided && outcome == Applied(e.index, e.id)
      ensures outcome.Duplicate? ==>
        Holds(old(log), e) && outcome == Duplicate(e.index, e.id) &&
        CurrentId(old(Recovered(catalog.disk))) == Ok(LastId(log))
      ensures !decided ==> Recovered(catalog.disk) == old(Recovered(catalog.disk))
      ensures decided ==>
        InStep(old(Recovered(catalog.disk)), old(log)) && Accepts(old(Recovered(catalog.disk)), old(log), e) &&
        Recovered(catalog.disk) == Next(old(Recovered(catalog.disk)), old(log), e)
      ensures InStep(old(Recovered(catalog.disk)), old(log)) && Accepts(old(Recovered(catalog.disk)), old(log), e) ==>
        outcome.Applied? || outcome.Interrupted?
      ensures InStep(old(Recovered(catalog.disk)), old(log)) && Holds(old(log), e) ==>
        outcome.Duplicate? || outcome.Interrupted?
    {
      hide Runs, Next, Recovered, Sound, ValidEntry, CurrentId;
      decided := false;
      if Holds(log, e) {
        assert Placed(log, log.entries[e.index - log.baseIndex - 1], e.index - log.baseIndex - 1);
      }
      if !ValidEntry(e) {
        return Failed(InvalidEntry), decided;
      }
      if e.term != log.term {
        return Failed(TermMismatch), decided;
      }
      if e.index <= log.baseIndex {
        return Failed(HistoryUnavailable), decided;
      }
      var offset := e.index - log.baseIndex - 1;
      if offset < |log.entries| {
        if log.entries[offset] != e {
          return Failed(ConflictingDuplicate), decided;
        }
        var recovery := catalog.RecoverLocked();
        if recovery.Crashed? {
          return Interrupted, decided;
        }
        if CurrentId(catalog.disk.files) != Ok(LastId(log)) {
          return Failed(CatalogStateMismatch), decided;
        }
        return Duplicate(e.index, e.id), decided;
      }
      outcome, decided := ApplyNew(e);
    }

    /** Opens the log of a catalog after a start. */
    method Open(term: u64) returns (outcome: Result<Log, ReplicationError>, interrupted: bool)
      requires Sound(catalog.disk)
      modifies this, catalog
      ensures Sound(catalog.disk) && Recovered(catalog.disk) == old(Recovered(catalog.disk))
      ensures outcome.Ok? && !interrupted ==>
        log == outcome.value && log.term == term && Opens(Recovered(catalog.disk), log)
      ensures outcome.Err? || interrupted ==> log == old(log)
      ensures forall l :: Opens(Recovered(catalog.disk), l) && l.term == term && !interrupted ==> outcome == Ok(l)
    {
      hide Recovered, Sound, ValidEntry, CurrentId;
      var recovery := catalog.RecoverLocked();
      if recovery.Crashed? {
        return Err(InvalidLog), true;
      }
      var files := catalog.disk.files;
      var id := CurrentId(files);
      if id.Err? {
        return Err(InvalidLog), false;
      }
      var stored := Fresh(term, id.value);
      if SIDECAR in files {
        if !files[SIDECAR].Encoded? {
          return Err(InvalidLog), false;
        }
        stored := files[SIDECAR].value;
      }
      var valid := Validate(stored);
      if !valid {
        return Err(InvalidLog), false;
      }
      if stored.term != term {
        return Err(TermMismatch), false;
      }
      if id.value != LastId(stored) {
        return Err(CatalogStateMismatch), false;
      }
      log := stored;
      return Ok(stored), false;
    }
  }
}
