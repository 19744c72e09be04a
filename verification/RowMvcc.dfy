/** Row history: the changes each commit stores, read back as rows. */
module RowMvcc {
  import opened Base

  datatype Row = Row(deleted: bool, values: map<string, string>)
  /** What must stay the same for row numbers to keep their meaning. */
  datatype Layout = Layout(schema: Option<Bytes>, fields: seq<string>, recordLength: nat)
  datatype RowId = RowId(epoch: nat, number: nat)
  datatype Change = Change(id: RowId, row: Row)
  datatype Snapshot = Snapshot(layout: Layout, rows: seq<Row>, epoch: u64, changes: Option<seq<Change>>)

  datatype MvccError = EpochExhausted | BadArgument | NotRetained

  // ---- What a commit stores ----

  function EffectiveEpoch(s: Snapshot): u64 { if s.epoch == 0 then 1 else s.epoch }

  function CurrentRows(rows: seq<Row>, epoch: nat): (r: seq<Change>)
    ensures |r| == |rows|
  {
    seq(|rows|, i requires 0 <= i < |rows| => Change(RowId(epoch, i + 1), rows[i]))
  }

  function PreviousRows(rows: seq<Row>, epoch: nat): (r: seq<Change>)
    ensures |r| == |rows|
  {
    seq(|rows|, i requires 0 <= i < |rows| => Change(RowId(epoch, i + 1), rows[i].(deleted := true)))
  }

  predicate RowDiffers(before: seq<Row>, after: seq<Row>, i: nat)
    requires i < |after|
  {
    i >= |before| || before[i] != after[i]
  }

  /** The changes of the first `n` rows that differ, in row order. */
  function Differences(before: seq<Row>, after: seq<Row>, epoch: nat, n: nat): seq<Change>
    requires n <= |after|
  {
    if n == 0 then []
    else
      Differences(before, after, epoch, n - 1) +
      if RowDiffers(before, after, n - 1) then [Change(RowId(epoch, n), after[n - 1])] else []
  }

  predicate NewLayout(previous: Snapshot, current: Snapshot, force: bool)
  {
    force || previous.layout != current.layout || |current.rows| < |previous.rows|
  }

  /** The snapshot that a commit stores after `previous`. */
  function Stored(previous: Option<Snapshot>, current: Snapshot, force: bool): Result<Snapshot, MvccError>
  {
    if previous.None? then Ok(current.(epoch := 1, changes := Some(CurrentRows(current.rows, 1))))
    else
      var was := previous.value;
      var epoch := EffectiveEpoch(was);
      if !NewLayout(was, current, force) then
        Ok(current.(epoch := epoch, changes := Some(Differences(was.rows, current.rows, epoch, |current.rows|))))
      else if epoch == U64_MAX then Err(EpochExhausted)
      else
        Ok(current.(epoch := epoch + 1,
                    changes := Some(PreviousRows(was.rows, epoch) + CurrentRows(current.rows, epoch + 1))))
  }

  method ChangesForCommit(previous: Option<Snapshot>, current: Snapshot, force: bool)
    returns (r: Result<Snapshot, MvccError>)
    ensures r == Stored(previous, current, force)
  {
    if previous.None? {
      return Ok(current.(epoch := 1, changes := Some(CurrentRows(current.rows, 1))));
    }
    var was := previous.value;
    var epoch := EffectiveEpoch(was);
    var newLayout := NewLayout(was, current, force);
    if newLayout {
      if epoch == U64_MAX {
        return Err(EpochExhausted);
      }
      epoch := epoch + 1;
    }
    var changes := [];
    if newLayout {
      changes := PreviousRows(was.rows, epoch - 1) + CurrentRows(current.rows, epoch);
    } else {
      for i := 0 to |current.rows|
        invariant changes == Differences(was.rows, current.rows, epoch, i)
      {
        if i >= |was.rows| || was.rows[i] != current.rows[i] {
          changes := changes + [Change(RowId(epoch, i + 1), current.rows[i])];
        }
      }
    }
    return Ok(current.(epoch := epoch, changes := Some(changes)));
  }

  // ---- Reading a row ----

  /** The last change of a row in a list of changes. */
  function LastIn(changes: seq<Change>, id: RowId): Option<Row>
  {
    if changes == [] then None
    else
      var last := changes[|changes| - 1];
      if last.id == id then Some(last.row) else LastIn(changes[..|changes| - 1], id)
  }

  lemma {:induction false} LastInConcat(a: seq<Change>, b: seq<Change>, id: RowId)
    ensures LastIn(a + b, id) == if LastIn(b, id).Some? then LastIn(b, id) else LastIn(a, id)
    decreases |b|
  {
    if b == [] {
      assert a + b == a;
    } else {
      LastInConcat(a, b[..|b| - 1], id);
      assert (a + b)[..|a + b| - 1] == a + b[..|b| - 1];
    }
  }

  /** A list with each ID at most once holds exactly the changes it lists. */
  ghost predicate Unique(changes: seq<Change>)
  {
    forall i, j :: 0 <= i < j < |changes| ==> changes[i].id != changes[j].id
  }

  lemma {:induction false} LastInUnique(changes: seq<Change>, id: RowId)
    requires Unique(changes)
    ensures forall i :: 0 <= i < |changes| && changes[i].id == id ==> LastIn(changes, id) == Some(changes[i].row)
    ensures (forall i :: 0 <= i < |changes| ==> changes[i].id != id) ==> LastIn(changes, id) == None
    decreases |changes|
  {
    if changes != [] {
      LastInUnique(changes[..|changes| - 1], id);
    }
  }

  lemma RowsLast(rows: seq<Row>, epoch: nat, id: RowId)
    ensures LastIn(CurrentRows(rows, epoch), id) ==
            if id.epoch == epoch && 1 <= id.number <= |rows| then Some(rows[id.number - 1]) else None
    ensures LastIn(PreviousRows(rows, epoch), id) ==
            if id.epoch == epoch && 1 <= id.number <= |rows| then Some(rows[id.number - 1].(deleted := true)) else None
    ensures Unique(CurrentRows(rows, epoch)) && Unique(PreviousRows(rows, epoch))
  {
    LastInUnique(CurrentRows(rows, epoch), id);
    LastInUnique(PreviousRows(rows, epoch), id);
    if id.epoch == epoch && 1 <= id.number <= |rows| {
      assert CurrentRows(rows, epoch)[id.number - 1].id == id && PreviousRows(rows, epoch)[id.number - 1].id == id;
    }
  }

  lemma {:induction false} DifferencesLast(before: seq<Row>, after: seq<Row>, epoch: nat, n: nat, id: RowId)
    requires n <= |after|
    ensures LastIn(Differences(before, after, epoch, n), id) ==
            if id.epoch == epoch && 1 <= id.number <= n && RowDiffers(before, after, id.number - 1)
            then Some(after[id.number - 1]) else None
  {
    if n > 0 {
      DifferencesLast(before, after, epoch, n - 1, id);
      LastInConcat(Differences(before, after, epoch, n - 1),
                   if RowDiffers(before, after, n - 1) then [Change(RowId(epoch, n), after[n - 1])] else [], id);
    }
  }

  lemma {:induction false} DifferencesUnique(before: seq<Row>, after: seq<Row>, epoch: nat, n: nat)
    requires n <= |after|
    ensures Unique(Differences(before, after, epoch, n))
    ensures forall c :: c in Differences(before, after, epoch, n) ==> c.id.epoch == epoch && 1 <= c.id.number <= n
  {
    if n > 0 {
      DifferencesUnique(before, after, epoch, n - 1);
    }
  }

  // ---- Delta history against full snapshots ----

  /** What the changes so far say is the snapshot: each of its rows, no other row of its epoch or of
      a later one, and every row of an older epoch gone. */
  ghost predicate Mirrors(changes: seq<Change>, s: Snapshot)
  {
    forall id :: MirrorsAt(changes, s, id)
  }

  ghost predicate MirrorsAt(changes: seq<Change>, s: Snapshot, id: RowId)
  {
    if id.epoch == s.epoch then
      LastIn(changes, id) == if 1 <= id.number <= |s.rows| then Some(s.rows[id.number - 1]) else None
    else if id.epoch > s.epoch then LastIn(changes, id) == None
    else LastIn(changes, id).Some? ==> LastIn(changes, id).value.deleted
  }

  lemma FirstMirrors(s: Snapshot)
    ensures Mirrors(Stored(None, s, false).value.changes.value, Stored(None, s, false).value)
  {
    var r := Stored(None, s, false).value;
    forall id ensures MirrorsAt(r.changes.value, r, id) {
      RowsLast(s.rows, 1, id);
    }
  }

  /** What a commit after `was` says of one row. */
  lemma StoredLast(was: Snapshot, current: Snapshot, force: bool, id: RowId)
    requires was.epoch >= 1 && Stored(Some(was), current, force).Ok?
    ensures var s := Stored(Some(was), current, force).value;
            LastIn(s.changes.value, id) ==
            if id.epoch == s.epoch && 1 <= id.number <= |s.rows| &&
               (s.epoch > was.epoch || RowDiffers(was.rows, s.rows, id.number - 1))
            then Some(s.rows[id.number - 1])
            else if id.epoch == was.epoch < s.epoch && 1 <= id.number <= |was.rows|
            then Some(was.rows[id.number - 1].(deleted := true))
            else None
  {
    hide LastIn, CurrentRows, PreviousRows, Differences;
    if NewLayout(was, current, force) {
      RowsLast(was.rows, was.epoch, id);
      RowsLast(current.rows, was.epoch + 1, id);
      LastInConcat(PreviousRows(was.rows, was.epoch), CurrentRows(current.rows, was.epoch + 1), id);
    } else {
      DifferencesLast(was.rows, current.rows, was.epoch, |current.rows|, id);
    }
  }

  lemma StoredMirrors(changes: seq<Change>, was: Snapshot, current: Snapshot, force: bool)
    requires Mirrors(changes, was) && was.epoch >= 1 && Stored(Some(was), current, force).Ok?
    ensures var s := Stored(Some(was), current, force).value;
            Mirrors(changes + s.changes.value, s)
  {
    var s := Stored(Some(was), current, force).value;
    forall id ensures MirrorsAt(changes + s.changes.value, s, id) {
      assert MirrorsAt(changes, was, id);
      LastInConcat(changes, s.changes.value, id);
      StoredLast(was, current, force, id);
    }
  }

  lemma StoredUnique(previous: Option<Snapshot>, current: Snapshot, force: bool)
    requires Stored(previous, current, force).Ok?
    ensures Unique(Stored(previous, current, force).value.changes.value)
  {
    if previous.None? {
      RowsLast(current.rows, 1, RowId(0, 0));
    } else {
      var epoch := EffectiveEpoch(previous.value);
      RowsLast(previous.value.rows, epoch, RowId(0, 0));
      RowsLast(current.rows, epoch as nat + 1, RowId(0, 0));
      DifferencesUnique(previous.value.rows, current.rows, epoch, |current.rows|);
    }
  }
}
