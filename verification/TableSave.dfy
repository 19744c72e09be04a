/** Saving a table through its write-ahead log, and recovering it. */
module TableSave {
  import opened Base
  import opened RowMvcc
  import opened Cdc

  datatype Operation = Operation(text: string)
  /** What is stored of a file: all of it, or the delta from what it held before. */
  datatype Piece = Whole(bytes: Bytes) | Delta(base: Bytes, target: Bytes)
  datatype WalRecord =
    | LayoutChange
    | Operated(operation: Operation)
    | Transaction(id: nat)
    | Captured(event: Event)
    | Payload(dbf: Piece, memo: Option<Piece>)

  /** The table that a file and its memo file hold. */
  datatype Image = Image(layout: Layout, rows: seq<Row>)

  const Load: (Bytes, Option<Bytes>) -> Image
  const HasMemoFields: Bytes -> bool
  /** What an operation makes of a table: its new file, and its memo file if that is written. */
  const RunOperation: (Bytes, Option<Bytes>, Operation) -> (Bytes, Option<Bytes>)

  /** Whether the delta from an old table to a new one takes less room than the new one. */
  const DeltaIsSmaller: (Bytes, Option<Bytes>, Bytes, Option<Bytes>) -> bool

  /** The MVCC history: the last prepared snapshot of each transaction, and those committed. */
  datatype History = History(prepared: map<nat, Snapshot>, committed: seq<nat>)

  datatype Disk = Disk(dbf: Bytes, memo: Option<Bytes>, state: Option<nat>, wal: Option<seq<WalRecord>>,
                       history: History, cdc: seq<Event>)

  datatype SaveError = WrongBase | MissingMemo | BadPrepare | BadLog | Exhausted | BadEvent

  // ---- Reading the log ----

  function LastTransaction(wal: seq<WalRecord>): Option<nat>
  {
    if wal == [] then None
    else
      var last := wal[|wal| - 1];
      if last.Transaction? then Some(last.id) else LastTransaction(wal[..|wal| - 1])
  }

  function LastPayload(wal: seq<WalRecord>): Option<WalRecord>
  {
    if wal == [] then None
    else
      var last := wal[|wal| - 1];
      if last.Payload? then Some(last) else LastPayload(wal[..|wal| - 1])
  }

  function LastOperation(wal: seq<WalRecord>): Option<Operation>
  {
    if wal == [] then None
    else
      var last := wal[|wal| - 1];
      if last.Operated? then Some(last.operation) else LastOperation(wal[..|wal| - 1])
  }

  /** The one event in the log; two different ones are an error. */
  function LoggedEvent(wal: seq<WalRecord>): Result<Option<Event>, SaveError>
  {
    if wal == [] then Ok(None)
    else
      var first := LoggedEvent(wal[..|wal| - 1]);
      var last := wal[|wal| - 1];
      if first.Err? || !last.Captured? then first
      else if first.value.Some? && first.value.value != last.event then Err(BadLog)
      else Ok(Some(last.event))
  }

  function DecodePiece(current: Bytes, p: Piece): Result<Bytes, SaveError>
  {
    match p
    case Whole(bytes) => Ok(bytes)
    case Delta(base, target) =>
      if current == target || current == base then Ok(target) else Err(WrongBase)
  }

  // ---- One save ----

  /** A save: what the table was, what it becomes, and how it is logged. `memo` is the memo file if
      the save writes it; `force` says whether its snapshot is made to start an epoch, and `reset` whether
      its event is a reset. */
  datatype Save = Save(before: Disk, dbf: Bytes, memo: Option<Bytes>, operation: Option<Operation>,
                       force: bool, reset: bool)

  function NextId(s: Save): nat { (if s.before.state.Some? then s.before.state.value else 0) + 1 }

  function MemoAfter(s: Save): Option<Bytes> { if s.memo.Some? then s.memo else s.before.memo }

  /** The memo file that a loaded table has: none without memo fields. */
  function MemoOf(dbf: Bytes, memo: Option<Bytes>): Option<Bytes> { if HasMemoFields(dbf) then memo else None }

  function ImageAfter(s: Save): Image
  {
    Load(s.dbf, if s.memo.Some? then s.memo else MemoOf(s.dbf, s.before.memo))
  }

  function ImageBefore(s: Save): Image { Load(s.before.dbf, MemoOf(s.before.dbf, s.before.memo)) }

  function EventOfSave(s: Save): Event
  {
    EventOf(NextId(s), ImageBefore(s).rows, ImageAfter(s).rows, s.reset)
  }

  /** The record of a new table over an old one. */
  function PayloadFor(dbf0: Bytes, memo0: Option<Bytes>, dbf: Bytes, memo: Option<Bytes>): WalRecord
  {
    if (memo.Some? ==> memo0.Some?) && DeltaIsSmaller(dbf0, memo0, dbf, memo) then
      Payload(Delta(dbf0, dbf), if memo.Some? then Some(Delta(memo0.value, memo.value)) else None)
    else Payload(Whole(dbf), if memo.Some? then Some(Whole(memo.value)) else None)
  }

  function PayloadOf(s: Save): WalRecord { PayloadFor(s.before.dbf, s.before.memo, s.dbf, s.memo) }

  function Previous(h: History): Option<Snapshot>
    requires forall id :: id in h.committed ==> id in h.prepared
  {
    if h.committed == [] then None else Some(h.prepared[h.committed[|h.committed| - 1]])
  }

  function AsSnapshot(i: Image): Snapshot { Snapshot(i.layout, i.rows, 1, None) }

  /** A log that says no more than that some layout was about to change. */
  ghost predicate MarkersOnly(wal: Option<seq<WalRecord>>)
  {
    wal.Some? && wal.value != [] && forall r :: r in wal.value ==> r.LayoutChange?
  }

  /** Nothing pending: no log, or only markers that a recovery left there, every prepared snapshot is
      committed, and all IDs are those up to the state. */
  ghost predicate Clean(d: Disk)
  {
    (d.wal.None? || MarkersOnly(d.wal)) && (forall id :: id in d.history.prepared <==> id in d.history.committed) &&
    (forall id :: id in d.history.committed ==> d.state.Some? && id <= d.state.value) &&
    Increasing(d.cdc) && (forall e :: e in d.cdc ==> d.state.Some? && e.id <= d.state.value)
  }

  /** Whether the log of the save has a layout marker: its own, or one left there. */
  predicate Marked(s: Save) { s.force || s.before.wal.Some? }

  /** The log that the save begins with. */
  function LogBefore(s: Save): seq<WalRecord> { if s.before.wal.Some? then s.before.wal.value else [] }

  /** What the code relies on: a memo file is there only for a table with memo fields, an operation
      leads where the save leads, and neither IDs nor epochs run out. */
  ghost predicate Sensible(s: Save)
  {
    Clean(s.before) && NextId(s) <= U64_MAX &&
    (s.before.memo.Some? && s.memo.None? ==> HasMemoFields(s.dbf)) &&
    (s.operation.Some? ==> RunOperation(s.before.dbf, s.before.memo, s.operation.value) == (s.dbf, s.memo)) &&
    Stored(Previous(s.before.history), AsSnapshot(ImageAfter(s)), s.force).Ok? &&
    Stored(Previous(s.before.history), AsSnapshot(ImageAfter(s)), Marked(s)).Ok?
  }

  ghost function SnapshotOf(s: Save): Snapshot
    requires Sensible(s)
  {
    Stored(Previous(s.before.history), AsSnapshot(ImageAfter(s)), s.force).value
  }

  /** The disk when the save is complete. */
  ghost function Saved(s: Save): Disk
    requires Sensible(s)
  {
    var t, h := NextId(s), s.before.history;
    Disk(s.dbf, MemoAfter(s), Some(t), None,
         History(h.prepared[t := SnapshotOf(s)], h.committed + [t]), s.before.cdc + [EventOfSave(s)])
  }

  /** A completed save leaves a clean disk. */
  lemma SavedIsClean(s: Save)
    requires Sensible(s)
    ensures Clean(Saved(s))
  {
  }

  // ---- Where a crash can leave the disk ----

  /** The log holds nothing but records of this save. */
  ghost predicate OwnLog(wal: seq<WalRecord>, s: Save)
  {
    forall r :: r in wal ==>
      match r
      case LayoutChange => Marked(s)
      case Operated(o) => s.operation == Some(o)
      case Transaction(id) => id == NextId(s)
      case Captured(e) => e == EventOfSave(s)
      case Payload(_, _) => r == PayloadOf(s)
  }

  lemma {:induction false} OwnLogReads(wal: seq<WalRecord>, s: Save)
    requires OwnLog(wal, s)
    ensures LastTransaction(wal) == if Transaction(NextId(s)) in wal then Some(NextId(s)) else None
    ensures LastPayload(wal) == if PayloadOf(s) in wal then Some(PayloadOf(s)) else None
    ensures LastOperation(wal) == if s.operation.Some? && Operated(s.operation.value) in wal then s.operation else None
    ensures LoggedEvent(wal) == Ok(if Captured(EventOfSave(s)) in wal then Some(EventOfSave(s)) else None)
    decreases |wal|
  {
    if wal != [] {
      var n := |wal| - 1;
      assert wal[n] in wal && forall r :: r in wal <==> r in wal[..n] || r == wal[n];
      OwnLogReads(wal[..n], s);
    }
  }

  lemma SaveFacts(s: Save)
    ensures PayloadOf(s).Payload?
    ensures Sensible(s) && s.before.wal.Some? ==> MarkersOnly(s.before.wal) && LayoutChange in s.before.wal.value
  {
    assert Sensible(s) && s.before.wal.Some? ==> s.before.wal.value[0] in s.before.wal.value;
  }

  /** The event is logged after its transaction ID. */
  ghost predicate IdFirst(wal: seq<WalRecord>, s: Save)
  {
    Captured(EventOfSave(s)) in wal ==> Transaction(NextId(s)) in wal
  }

  /** Neither the operation nor the new table is in the log, and nothing else has changed. */
  ghost predicate Undecided(d: Disk, s: Save)
  {
    d.(wal := s.before.wal) == s.before && (d.wal.Some? ==> OwnLog(d.wal.value, s) && IdFirst(d.wal.value, s)) &&
    (d.wal.Some? ==> PayloadOf(s) !in d.wal.value) &&
    (d.wal.Some? && s.operation.Some? ==> Operated(s.operation.value) !in d.wal.value)
  }

  /** The markers of the save are in the log, the new table is not, and nothing else has changed. */
  ghost predicate Started(d: Disk, s: Save)
  {
    d.(wal := s.before.wal) == s.before && d.wal.Some? && OwnLog(d.wal.value, s) && IdFirst(d.wal.value, s) &&
    PayloadOf(s) !in d.wal.value && (Marked(s) ==> LayoutChange in d.wal.value) &&
    (s.operation.Some? ==> Operated(s.operation.value) in d.wal.value)
  }

  /** An operation among them can be run again. */
  ghost predicate Replayable(d: Disk, s: Save) { Started(d, s) && s.operation.Some? }

  /** The new table is in the log; each file is old or new, and the snapshot at most prepared. */
  ghost predicate Redoable(d: Disk, s: Save)
    requires Sensible(s)
  {
    FullLog(d.wal, s) && d.dbf in {s.before.dbf, s.dbf} && d.memo in {s.before.memo, MemoAfter(s)} &&
    d.state in {s.before.state, Some(NextId(s))} && d.cdc == s.before.cdc &&
    d.history.committed == s.before.history.committed &&
    d.history.prepared in {s.before.history.prepared, s.before.history.prepared[NextId(s) := SnapshotOf(s)]}
  }

  /** The save will be completed. */
  ghost predicate Decided(d: Disk, s: Save)
    requires Sensible(s)
  {
    Replayable(d, s) || Redoable(d, s)
  }

  /** Only the empty log remains to be removed. */
  ghost predicate Completed(d: Disk, s: Save)
    requires Sensible(s)
  {
    d.(wal := None) == Saved(s) && d.wal in {None, Some([])}
  }

  /** All files are new and the snapshot is committed, but the log has not been cleared. */
  ghost predicate Late(d: Disk, s: Save)
    requires Sensible(s)
  {
    FullLog(d.wal, s) && d.(wal := None, cdc := s.before.cdc) == Saved(s).(cdc := s.before.cdc) &&
    d.cdc in {s.before.cdc, s.before.cdc + [EventOfSave(s)]}
  }

  /** The snapshot of the save, taken against itself as a recovery does, is the same again. */
  ghost predicate Repeatable(s: Save)
    requires Sensible(s)
  {
    Stored(Some(SnapshotOf(s)), AsSnapshot(ImageAfter(s)), Marked(s)) == Ok(SnapshotOf(s))
  }

  lemma {:induction false} NoDifferences(rows: seq<Row>, epoch: nat, n: nat)
    requires n <= |rows|
    ensures Differences(rows, rows, epoch, n) == []
  {
    if n > 0 {
      NoDifferences(rows, epoch, n - 1);
    }
  }

  /** That is so exactly for saves that store no row change and have no layout marker in their log. */
  lemma RepeatableIff(s: Save)
    requires Sensible(s)
    ensures Repeatable(s) <==> !Marked(s) && SnapshotOf(s).changes == Some([])
  {
    hide Clean, CurrentRows, PreviousRows, Differences;
    NoDifferences(ImageAfter(s).rows, SnapshotOf(s).epoch, |ImageAfter(s).rows|);
  }

  lemma TransactionIsNew(s: Save)
    requires Sensible(s)
    ensures NextId(s) !in s.before.history.prepared && NextId(s) !in s.before.history.committed
    ensures forall id :: id in s.before.history.committed ==> id in s.before.history.prepared
    ensures Previous(Saved(s).history) == Some(SnapshotOf(s))
  {
  }

  /** The event of a save is new to the log, and found there afterwards. */
  lemma EventIsNew(s: Save)
    requires Sensible(s)
    ensures var e, was := EventOfSave(s), s.before.cdc;
            Increasing(was) && Appended(was, e) == Ok(was + [e]) &&
            Increasing(was + [e]) && Appended(was + [e], e) == Ok(was + [e])
  {
    hide EventOf, ValidEvent;
    var e, was := EventOfSave(s), s.before.cdc;
    EventIsValid(NextId(s), ImageBefore(s).rows, ImageAfter(s).rows, s.reset);
    EventHasId(s);
    forall i | 0 <= i < |was| ensures was[i].id < e.id {
      assert was[i] in was;
    }
    AppendedTwice(was, e);
  }

  lemma EventHasId(s: Save)
    ensures EventOfSave(s).id == NextId(s)
  {
  }

  /** The log holds the whole save. */
  ghost predicate FullLog(wal: Option<seq<WalRecord>>, s: Save)
  {
    wal.Some? && OwnLog(wal.value, s) && PayloadOf(s) in wal.value && Transaction(NextId(s)) in wal.value &&
    Captured(EventOfSave(s)) in wal.value && (Marked(s) ==> LayoutChange in wal.value)
  }

  // ---- What a layout marker in the log does to a recovery ----

  /** The save as a recovery takes it: every marker in the log is its own, and so is the event unless
      one is there. */
  function Seen(s: Save, regenerated: bool): Save
  {
    s.(force := Marked(s), reset := if regenerated then Marked(s) else s.reset)
  }

  /** Whether forcing an epoch changes what is stored: there is a snapshot before, of the same layout
      and with no more rows. */
  ghost predicate ForceMatters(s: Save)
    requires Sensible(s)
  {
    var previous := Previous(s.before.history);
    previous.Some? && !NewLayout(previous.value, AsSnapshot(ImageAfter(s)), false)
  }

  lemma SeenIsSensible(s: Save, regenerated: bool)
    requires Sensible(s)
    ensures var v := Seen(s, regenerated);
      Sensible(v) && Marked(v) == v.force == Marked(s) && (ForceMatters(v) <==> ForceMatters(s)) &&
      (SnapshotOf(v) == SnapshotOf(s) <==> s.force == Marked(s) || !ForceMatters(s))
  {
    hide Differences, CurrentRows, PreviousRows, Clean;
  }

  lemma EventsDiffer(s: Save, regenerated: bool)
    ensures EventOfSave(Seen(s, regenerated)) == EventOfSave(s) <==> !regenerated || s.reset == Marked(s)
  {
  }

  /** No recovery accepts the disk. Its marker makes another event of the operation than the one in the
      log, or another snapshot than the one prepared, or the snapshot is committed already. */
  ghost predicate Stuck(d: Disk, s: Save)
    requires Sensible(s)
  {
    (Replayable(d, s) && Captured(EventOfSave(s)) in d.wal.value && s.reset != Marked(s)) ||
    (Redoable(d, s) && Clashes(d, s)) ||
    (Late(d, s) && !Repeatable(s))
  }

  ghost predicate Clashes(d: Disk, s: Save)
    requires Sensible(s)
  {
    NextId(s) in d.history.prepared && s.force != Marked(s) && ForceMatters(s)
  }

  /** A save taken so ends as the writer had it exactly when its marker is its own, or matters neither
      for the snapshot nor for the event. */
  lemma MarkerMattersIff(s: Save, regenerated: bool)
    requires Sensible(s) && Sensible(Seen(s, regenerated))
    ensures Saved(Seen(s, regenerated)) == Saved(s) <==>
      (s.force == Marked(s) || !ForceMatters(s)) && (!regenerated || s.reset == Marked(s))
  {
    hide Stored, EventOf, Clean, ForceMatters;
    var v := Seen(s, regenerated);
    SeenIsSensible(s, regenerated);
    EventsDiffer(s, regenerated);
    assert Saved(v).cdc[|s.before.cdc|] == EventOfSave(v) && Saved(s).cdc[|s.before.cdc|] == EventOfSave(s);
    assert Saved(v).history.prepared[NextId(s)] == SnapshotOf(v);
    assert Saved(s).history.prepared[NextId(s)] == SnapshotOf(s);
  }

  /** An unforced save over a marker left there. */
  ghost predicate LeftOver(s: Save) { Sensible(s) && s.before.wal.Some? && !s.force && !s.reset }

  function LoggedOperation(s: Save): seq<WalRecord>
    requires s.operation.Some?
  {
    LogBefore(s) + [Operated(s.operation.value), Transaction(NextId(s)), Captured(EventOfSave(s))]
  }

  /** The new table is logged and its snapshot prepared, and its files are the old ones. */
  ghost function PreparedDisk(s: Save): Disk
    requires Sensible(s)
  {
    var log := (if s.operation.Some? then LoggedOperation(s)
                else LogBefore(s) + [Transaction(NextId(s)), Captured(EventOfSave(s))]) + [PayloadOf(s)];
    var h := s.before.history;
    s.before.(wal := Some(log), history := h.(prepared := h.prepared[NextId(s) := SnapshotOf(s)]))
  }

  /** Over a marker that a forced save left when it stopped there, an unforced save is stuck if it stops
      once its operation and event are logged, and if it stops once its snapshot is prepared exactly when
      forcing an epoch matters. */
  lemma LeftOverSticks(s: Save)
    requires LeftOver(s)
    ensures var forced := s.(before := s.before.(wal := None), force := true, reset := true);
      Sensible(forced) && Undecided(s.before, forced) && MarkersOnly(s.before.wal)
    ensures s.operation.Some? ==> Stuck(s.before.(wal := Some(LoggedOperation(s))), s)
    ensures Redoable(PreparedDisk(s), s) && (Stuck(PreparedDisk(s), s) <==> ForceMatters(s))
  {
    hide Stored, EventOf, PayloadFor, ForceMatters, Repeatable;
    SaveFacts(s);
    TransactionIsNew(s);
  }

  /** The second save of an empty file is such a one. */
  lemma StuckSaveExists()
    ensures exists s :: LeftOver(s) && s.before.wal == Some([LayoutChange]) && Stuck(PreparedDisk(s), s)
  {
    hide PreparedDisk, Redoable, Replayable, Late;
    var layout := Load([], None).layout;
    var history := History(map[1 := Snapshot(layout, [], 1, Some([]))], [1]);
    var before := Disk([], None, Some(1), Some([LayoutChange]), history, []);
    var s := Save(before, [], None, None, false, false);
    assert Clean(before);
    assert LeftOver(s) && ForceMatters(s);
    LeftOverSticks(s);
  }

  /** The new table can be put in place with this `force`, which the writer and a recovery may see
      differently. */
  ghost predicate Installable(d: Disk, s: Save, force: bool)
    requires Sensible(s)
  {
    (Redoable(d, s) && (force == s.force || (Clashes(d, s) && force == Marked(s)))) ||
    (Late(d, s) && force == Marked(s))
  }

  /** A disk that is not stuck is one of the save as the recovery takes it. */
  lemma DecidedAsSeen(d: Disk, s: Save)
    requires Sensible(s) && Decided(d, s) && !Stuck(d, s)
    ensures var v := Seen(s, Replayable(d, s));
      Sensible(v) && (Replayable(d, s) ==> Replayable(d, v)) && (Redoable(d, s) ==> Redoable(d, v))
  {
    hide Stored, Clean, EventOfSave, PayloadFor, ForceMatters;
    SeenIsSensible(s, Replayable(d, s));
    EventsDiffer(s, Replayable(d, s));
    TransactionIsNew(s);
  }

  /** The first save of any table with rows: a crash before the log is cleared leaves a disk that no
      recovery accepts. */
  lemma FirstSaveIsNotRepeatable(s: Save)
    requires Sensible(s) && s.before.history.committed == [] && ImageAfter(s).rows != [] && !s.force
    ensures !Repeatable(s)
    ensures
      var log := LogBefore(s) + [Transaction(NextId(s)), Captured(EventOfSave(s)), PayloadOf(s)];
      Late(Saved(s).(wal := Some(log)), s) && Stuck(Saved(s).(wal := Some(log)), s)
  {
    hide Clean, PayloadOf, EventOfSave;
    SaveFacts(s);
    RepeatableIff(s);
    assert SnapshotOf(s).changes == Some(CurrentRows(ImageAfter(s).rows, 1));
  }

  datatype Outcome = Done(recovered: bool) | Crashed | Refused(error: SaveError)

  class TableFiles {
    var disk: Disk

    constructor (d: Disk)
      ensures disk == d
    {
      disk := d;
    }

    /** Adds the snapshot of a transaction to the history, or finds that it is there. */
    method Prepare(t: nat, image: Image, force: bool) returns (outcome: Outcome)
      requires forall id :: id in disk.history.committed ==> id in disk.history.prepared
      modifies this
      ensures
        var stored := Stored(Previous(old(disk).history), AsSnapshot(image), force);
        var prepared := old(disk).history.prepared;
        if stored.Err? then outcome == Refused(Exhausted) && disk == old(disk)
        else if t in prepared then
          outcome == (if prepared[t] == stored.value then Done(false) else Refused(BadPrepare)) && disk == old(disk)
        else
          outcome == Done(false) &&
          disk == old(disk).(history := old(disk).history.(prepared := prepared[t := stored.value]))
    {
      var stored := ChangesForCommit(Previous(disk.history), AsSnapshot(image), force);
      if stored.Err? {
        return Refused(Exhausted);
      }
      var h := disk.history;
      if t in h.prepared {
        return if h.prepared[t] == stored.value then Done(false) else Refused(BadPrepare);
      }
      disk := disk.(history := h.(prepared := h.prepared[t := stored.value]));
      return Done(false);
    }

    /** Commits the snapshot of a transaction whose files are in place. */
    method CommitHistory(t: nat, image: Image, force: bool, ghost s: Save) returns (outcome: Outcome)
      requires Sensible(s) && Installable(disk, s, force)
      requires disk.dbf == s.dbf && disk.memo == MemoAfter(s) && disk.state == Some(t)
      requires t == NextId(s) && image == ImageAfter(s)
      modifies this
      ensures disk.(history := old(disk).history) == old(disk)
      ensures old(Redoable(disk, s)) && force == s.force ==> !outcome.Refused? && (Redoable(disk, s) || Late(disk, s))
      ensures old(Redoable(disk, s)) && force != s.force ==> outcome.Refused? && disk == old(disk)
      ensures old(Late(disk, s)) ==> disk == old(disk) && (Repeatable(s) ==> !outcome.Refused?)
      ensures old(Late(disk, s)) ==> !Repeatable(s) ==> outcome.Refused?
      ensures outcome.Done? ==> Late(disk, s)
    {
      hide Stored, FullLog, OwnLog, ForceMatters, Clean;
      TransactionIsNew(s);
      SeenIsSensible(s, false);
      outcome := Prepare(t, image, force);
      if outcome.Refused? { return; }
      if * { return Crashed; }
      if t in disk.history.committed {
        return Done(false);
      }
      disk := disk.(history := disk.history.(committed := disk.history.committed + [t]));
      if * { return Crashed; }
      return Done(false);
    }

    /** Appends the event, then clears and removes the log. */
    method Finish(event: Event, ghost s: Save) returns (outcome: Outcome)
      requires Sensible(s) && Late(disk, s) && event == EventOfSave(s)
      modifies this
      ensures !outcome.Refused?
      ensures outcome.Done? ==> disk == Saved(s) && outcome.recovered
      ensures outcome.Crashed? ==> Late(disk, s) || Completed(disk, s)
    {
      hide Stored, FullLog, OwnLog, Clean;
      EventIsNew(s);
      var log := new EventLog();
      log.events := disk.cdc;
      var appended := log.Append(event);
      disk := disk.(cdc := log.events);
      if * { return Crashed; }
      disk := disk.(wal := Some([]));
      if * { return Crashed; }
      disk := disk.(wal := None);
      return Done(true);
    }

    /** Writes the new files, then the state, then commits the snapshot and the event, then clears
        the log. */
    method Install(dbf: Bytes, memo: Option<Bytes>, t: nat, force: bool, event: Event, ghost s: Save)
      returns (outcome: Outcome)
      requires Sensible(s) && Installable(disk, s, force)
      requires dbf == s.dbf && memo == s.memo && t == NextId(s) && event == EventOfSave(s)
      modifies this
      ensures outcome.Refused? ==> old(Stuck(disk, s)) && force == Marked(s)
      ensures old(Redoable(disk, s)) && force != s.force ==> !outcome.Done? && Redoable(disk, s) && Clashes(disk, s)
      ensures old(Late(disk, s)) && !Repeatable(s) ==> !outcome.Done? && Late(disk, s)
      ensures outcome.Done? ==> disk == Saved(s) && outcome.recovered
      ensures outcome.Crashed? ==> Redoable(disk, s) || Late(disk, s) || Completed(disk, s)
      ensures old(Late(disk, s)) && outcome.Crashed? ==> Late(disk, s) || Completed(disk, s)
    {
      if memo.Some? {
        disk := disk.(memo := memo);
        if * { return Crashed; }
      }
      disk := disk.(dbf := dbf);
      if * { return Crashed; }
      disk := disk.(state := Some(t));
      if * { return Crashed; }
      outcome := CommitHistory(t, Load(dbf, if memo.Some? then memo else disk.memo), force, s);
      if !outcome.Done? { return; }
      if * { return Crashed; }
      outcome := Finish(event, s);
    }

    method Append(r: WalRecord) returns (crashed: bool)
      requires disk.wal.Some?
      modifies this
      ensures (crashed && disk == old(disk)) || disk == old(disk).(wal := Some(old(disk).wal.value + [r]))
    {
      // A torn record is dropped when the log is opened.
      if * { return true; }
      disk := disk.(wal := Some(disk.wal.value + [r]));
      crashed := *;
    }

    /** Logs the markers of a save. */
    method LogMarkers(operation: Option<Operation>, force: bool, ghost s: Save) returns (crashed: bool)
      requires Sensible(s) && disk == s.before && operation == s.operation && force == s.force
      modifies this
      ensures !crashed ==> Started(disk, s) && Captured(EventOfSave(s)) !in disk.wal.value
      ensures crashed ==> Undecided(disk, s) || Started(disk, s)
    {
      hide Sensible, PayloadOf, EventOfSave;
      SaveFacts(s);
      crashed := false;
      if disk.wal.None? {
        disk := disk.(wal := Some([]));
      }
      if * { return true; }
      if force {
        crashed := Append(LayoutChange);
        if crashed { return; }
      }
      if operation.Some? {
        crashed := Append(Operated(operation.value));
      }
    }

    /** Logs the transaction ID, the event unless it is there, and the new table, each durable
        before the next. */
    method LogTable(t: nat, event: Option<Event>, payload: WalRecord, ghost s: Save) returns (crashed: bool)
      requires Sensible(s) && Started(disk, s) && t == NextId(s) && payload == PayloadOf(s)
      requires event == if Captured(EventOfSave(s)) in disk.wal.value then None else Some(EventOfSave(s))
      modifies this
      ensures !crashed ==> Redoable(disk, s) && disk.(wal := s.before.wal) == s.before
      ensures crashed ==> Started(disk, s) || Redoable(disk, s)
    {
      hide Stored, Clean, PayloadOf, EventOfSave;
      SaveFacts(s);
      crashed := Append(Transaction(t));
      if crashed { return; }
      if event.Some? {
        crashed := Append(Captured(event.value));
        if crashed { return; }
      }
      crashed := Append(payload);
    }

    method Store(s: Save) returns (outcome: Outcome)
      requires Sensible(s) && disk == s.before && s.reset == s.force
      modifies this
      ensures !outcome.Refused?
      ensures outcome.Done? ==> disk == Saved(s)
      ensures outcome.Crashed? ==>
        Undecided(disk, s) || Decided(disk, s) || Late(disk, s) || Completed(disk, s)
    {
      hide Stored, Clean, FullLog, OwnLog, PayloadOf, EventOfSave;
      SaveFacts(s);
      var crashed := LogMarkers(s.operation, s.force, s);
      if crashed { return Crashed; }
      crashed := LogTable(NextId(s), Some(EventOfSave(s)), PayloadOf(s), s);
      if crashed { return Crashed; }
      TransactionIsNew(s);
      outcome := Prepare(NextId(s), ImageAfter(s), s.force);
      if * { return Crashed; }
      outcome := Install(s.dbf, s.memo, NextId(s), s.force, EventOfSave(s), s);
    }

    /** Completes a save whose new table is in the log. */
    method Redo(payload: WalRecord, t: nat, force: bool, event: Event, ghost s: Save) returns (outcome: Outcome)
      requires Sensible(s) && Installable(disk, s, force)
      requires payload == PayloadOf(s) && payload.Payload? && t == NextId(s) && event == EventOfSave(s)
      modifies this
      ensures outcome.Refused? ==> old(Stuck(disk, s)) && force == Marked(s)
      ensures old(Redoable(disk, s)) && force != s.force ==> !outcome.Done? && Redoable(disk, s) && Clashes(disk, s)
      ensures old(Late(disk, s)) && !Repeatable(s) ==> !outcome.Done? && Late(disk, s)
      ensures outcome.Done? ==> disk == Saved(s) && outcome.recovered
      ensures outcome.Crashed? ==> Redoable(disk, s) || Late(disk, s) || Completed(disk, s)
      ensures old(Late(disk, s)) && outcome.Crashed? ==> Late(disk, s) || Completed(disk, s)
    {
      hide Stored, Clean, FullLog, OwnLog, Repeatable;
      var dbf := DecodePiece(disk.dbf, payload.dbf);
      if dbf.Err? {
        return Refused(WrongBase);
      }
      var memo: Option<Bytes> := None;
      if payload.memo.Some? {
        if payload.memo.value.Delta? && disk.memo.None? {
          return Refused(MissingMemo);
        }
        var m := DecodePiece(if disk.memo.Some? then disk.memo.value else [], payload.memo.value);
        if m.Err? {
          return Refused(WrongBase);
        }
        memo := Some(m.value);
      }
      outcome := Install(dbf.value, memo, t, force, event, s);
    }

    /** Runs a logged operation again and completes its save. */
    method ReplayOperation(operation: Operation, id: Option<nat>, logged: Option<Event>, force: bool, ghost s: Save)
      returns (outcome: Outcome)
      requires Sensible(s) && Replayable(disk, s) && s.operation == Some(operation) && force == Marked(s)
      requires (s.force == force && s.reset == force) || Stuck(disk, s)
      requires id in {None, Some(NextId(s))} && LoggedEvent(disk.wal.value) == Ok(logged)
      modifies this
      ensures outcome.Refused? <==> old(Stuck(disk, s))
      ensures outcome.Refused? ==> disk == old(disk)
      ensures outcome.Done? ==> disk == Saved(s) && outcome.recovered
      ensures outcome.Crashed? ==> Decided(disk, s) || Late(disk, s) || Completed(disk, s)
    {
      hide Stored, Clean, PayloadFor, EventOf;
      SaveFacts(s);
      EventsDiffer(s, true);
      OwnLogReads(disk.wal.value, s);
      var state := if disk.state.Some? then disk.state.value else 0;
      if id.None? && state == U64_MAX {
        return Refused(Exhausted);
      }
      var t := if id.Some? then id.value else state + 1;
      t := if state > t then state else t;
      var (dbf, memo) := RunOperation(disk.dbf, disk.memo, operation);
      var was := Load(disk.dbf, MemoOf(disk.dbf, disk.memo));
      var event := EventOf(t, was.rows, Load(dbf, if memo.Some? then memo else MemoOf(dbf, disk.memo)).rows, force);
      if logged.Some? && logged.value != event {
        return Refused(BadEvent);
      }
      var payload := PayloadFor(disk.dbf, disk.memo, dbf, memo);
      var crashed := LogTable(t, if logged.Some? then None else Some(event), payload, s);
      if crashed { return Crashed; }
      outcome := Install(dbf, memo, t, force, event, s);
    }

    /** What opening a table does first. It is refused exactly on a stuck disk, which stays stuck. */
    method Recover(ghost s: Save) returns (outcome: Outcome)
      requires Sensible(s)
      requires Undecided(disk, s) || Decided(disk, s) || Late(disk, s) || Completed(disk, s)
      modifies this
      ensures outcome.Refused? ==> old(Stuck(disk, s))
      ensures old(Stuck(disk, s)) ==> !outcome.Done? && Stuck(disk, s)
      ensures old(MarkersOnly(disk.wal)) ==> outcome == Done(false) && disk == old(disk)
      ensures old(Undecided(disk, s)) ==> Undecided(disk, s)
      ensures old(Undecided(disk, s)) && outcome.Done? ==>
        disk == s.before.(wal := None) || (MarkersOnly(disk.wal) && disk == old(disk))
      ensures
        old(Decided(disk, s) && !Stuck(disk, s)) ==>
          var v := Seen(s, old(Replayable(disk, s)));
          Sensible(v) && (outcome.Done? ==> disk == Saved(v)) &&
          (outcome.Crashed? ==> Decided(disk, v) || Late(disk, v) || Completed(disk, v))
      ensures old(Completed(disk, s)) ==> Completed(disk, s) && (outcome.Done? ==> disk == Saved(s))
      ensures old(Late(disk, s)) && outcome.Done? ==> disk == Saved(s)
      ensures old(Late(disk, s)) && outcome.Crashed? ==> Late(disk, s) || Completed(disk, s)
    {
      hide Stored, Clean, PayloadOf, EventOfSave, Repeatable;
      SaveFacts(s);
      EventHasId(s);
      if disk.wal.None? {
        return Done(false);
      }
      var wal := disk.wal.value;
      if wal == [] {
        if * { return Crashed; }
        disk := disk.(wal := None);
        return Done(false);
      }
      OwnLogReads(wal, s);
      ghost var v := s;
      if Decided(disk, s) && !Stuck(disk, s) {
        DecidedAsSeen(disk, s);
        SeenIsSensible(s, Replayable(disk, s));
        v := Seen(s, Replayable(disk, s));
      }
      var id, event := LastTransaction(wal), LoggedEvent(wal);
      if event.Err? {
        return Refused(BadLog);
      }
      if event.value.Some? && (id.None? || event.value.value.id != id.value) {
        return Refused(BadLog);
      }
      var force, payload, operation := LayoutChange in wal, LastPayload(wal), LastOperation(wal);
      if payload.Some? {
        outcome := Redo(payload.value, id.value, force, event.value.value, v);
        return;
      }
      if operation.Some? {
        outcome := ReplayOperation(operation.value, id, event.value, force, v);
        return;
      }
      if id.Some? {
        disk := disk.(wal := Some([]));
        if * { return Crashed; }
        disk := disk.(wal := None);
      }
      return Done(false);
    }
  }

  ghost predicate Pending(d: Disk, s: Save)
    requires Sensible(s)
  {
    Undecided(d, s) || Decided(d, s) || Late(d, s) || Completed(d, s)
  }

  /** The ways in which a save can be completed. */
  ghost predicate WayOf(v: Save, s: Save)
  {
    v in {s, Seen(s, false), Seen(s, true)} && Sensible(v)
  }

  /** The old table or the new one, and nothing of the save to be recovered. */
  ghost predicate Ended(d: Disk, s: Save, v: Save)
    requires Sensible(s) && Sensible(v)
  {
    Clean(d) &&
    (d == Saved(v) || d == s.before.(wal := None) ||
     (MarkersOnly(d.wal) && d.(wal := s.before.wal) == s.before && Marked(s)))
  }

  lemma OldIsClean(s: Save, v: Save, d: Disk)
    requires Sensible(s) && WayOf(v, s) && Undecided(d, v)
    requires d == v.before.(wal := None) || MarkersOnly(d.wal)
    ensures Ended(d, s, v)
  {
    if d.wal.Some? {
      assert d.wal.value[0] in d.wal.value;
    }
  }

  /** One recovery of a save completed in the way of `v`. */
  method Restart(f: TableFiles, ghost s: Save, ghost v: Save) returns (outcome: Outcome, ghost v': Save)
    requires Sensible(s) && WayOf(v, s) && Pending(f.disk, v)
    modifies f
    ensures WayOf(v', s)
    ensures outcome.Done? ==> Ended(f.disk, s, v')
    ensures !outcome.Done? ==> Pending(f.disk, v')
    ensures outcome.Refused? ==> old(Stuck(f.disk, v))
    ensures old(Stuck(f.disk, v)) ==> !outcome.Done? && v' == v && Stuck(f.disk, v)
  {
    hide Undecided, Late, Completed, Sensible, Clean, SnapshotOf, EventOfSave, Redoable, Replayable, Repeatable;
    ghost var was := f.disk;
    outcome := f.Recover(v);
    v' := if Decided(was, v) && !Stuck(was, v) then Seen(v, Replayable(was, v)) else v;
    if outcome.Done? {
      if f.disk == Saved(v') {
        SavedIsClean(v');
      } else {
        OldIsClean(s, v, f.disk);
      }
    }
  }

  /** A save that crashes anywhere, and recoveries after it that crash anywhere: the first that
      completes leaves the old table, memo and transaction ID, or the new ones with the
      transaction committed once in the history and once in the event log, as the writer had it or
      as a recovery took it (`v`), and the next save can begin. None completes once the disk is
      stuck, and only then is one refused. */
  method StoreAndRestart(f: TableFiles, s: Save, restarts: nat)
    returns (outcome: Outcome, ghost v: Save, ghost stuck: bool)
    requires Sensible(s) && f.disk == s.before && s.reset == s.force
    modifies f
    ensures WayOf(v, s)
    ensures outcome.Done? ==> Ended(f.disk, s, v)
    ensures !outcome.Done? ==> Pending(f.disk, v)
    ensures outcome.Refused? ==> stuck
    ensures stuck ==> !outcome.Done? && Stuck(f.disk, v)
  {
    hide Stuck, Sensible, Clean, Saved, Undecided, Decided, Late, Completed;
    outcome := f.Store(s);
    v := s;
    if outcome.Done? { SavedIsClean(s); }
    stuck := !outcome.Done? && Stuck(f.disk, v);
    for i := 0 to restarts
      invariant WayOf(v, s)
      invariant outcome.Done? ==> Ended(f.disk, s, v)
      invariant !outcome.Done? ==> Pending(f.disk, v)
      invariant outcome.Refused? ==> stuck
      invariant stuck <==> !outcome.Done? && Stuck(f.disk, v)
    {
      if outcome.Done? { break; }
      outcome, v := Restart(f, s, v);
      stuck := stuck || (!outcome.Done? && Stuck(f.disk, v));
    }
  }
}
