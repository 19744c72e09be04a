/** The committed history of a table: reading rows from it, extending it and collecting its garbage. */
module RowHistory {
  import opened Base
  import opened RowMvcc

  /** A committed snapshot. */
  datatype Version = Version(id: nat, snapshot: Snapshot)
  /** The row changes of one transaction. */
  datatype Commit = Commit(id: nat, changes: seq<Change>)
  datatype RowVersion = RowVersion(id: RowId, transaction: nat, row: Row)

  function ChangesOf(s: Snapshot): seq<Change>
  {
    if s.changes.Some? then s.changes.value else CurrentRows(s.rows, EffectiveEpoch(s))
  }

  function Commits(vs: seq<Version>): (r: seq<Commit>)
    ensures |r| == |vs|
  {
    seq(|vs|, i requires 0 <= i < |vs| => Commit(vs[i].id, ChangesOf(vs[i].snapshot)))
  }

  ghost predicate Sorted(h: seq<Commit>)
  {
    forall i, j :: 0 <= i < j < |h| ==> h[i].id < h[j].id
  }

  // ---- Reading a row ----

  /** The last version of a row at or before a transaction. */
  function Latest(h: seq<Commit>, t: nat, id: RowId): Option<RowVersion>
  {
    if h == [] || h[0].id > t then None
    else
      var later := Latest(h[1..], t, id);
      if later.Some? then later else InCommit(h[0], id)
  }

  function InCommit(c: Commit, id: RowId): Option<RowVersion>
  {
    var row := LastIn(c.changes, id);
    if row.Some? then Some(RowVersion(id, c.id, row.value)) else None
  }

  predicate Retained(h: seq<Commit>, t: nat)
  {
    exists i :: 0 <= i < |h| && h[i].id == t
  }

  function RowAt(h: seq<Commit>, t: nat, id: RowId): Result<Option<RowVersion>, MvccError>
  {
    if t == 0 || id.epoch == 0 || id.number == 0 then Err(BadArgument)
    else if !Retained(h, t) then Err(NotRetained)
    else Ok(Latest(h, t, id))
  }

  method ReadRow(h: seq<Commit>, t: nat, id: RowId) returns (r: Result<Option<RowVersion>, MvccError>)
    requires Sorted(h)
    ensures r == RowAt(h, t, id)
  {
    if t == 0 || id.epoch == 0 || id.number == 0 {
      return Err(BadArgument);
    }
    if !Retained(h, t) {
      return Err(NotRetained);
    }
    var current: Option<RowVersion> := None;
    var i := 0;
    while i < |h| && h[i].id <= t
      invariant 0 <= i <= |h|
      invariant Latest(h, t, id) == var later := Latest(h[i..], t, id); if later.Some? then later else current
    {
      ghost var was := current;
      for j := 0 to |h[i].changes|
        invariant current == var row := LastIn(h[i].changes[..j], id);
          if row.Some? then Some(RowVersion(id, h[i].id, row.value)) else was
      {
        assert h[i].changes[..j + 1][..j] == h[i].changes[..j];
        var change := h[i].changes[j];
        if change.id == id {
          current := Some(RowVersion(change.id, h[i].id, change.row));
        }
      }
      assert h[i].changes[..|h[i].changes|] == h[i].changes;
      assert h[i..][1..] == h[i + 1..];
      i := i + 1;
    }
    return Ok(current);
  }

  /** All changes, oldest first. */
  ghost function Flat(h: seq<Commit>): seq<Change>
  {
    if h == [] then [] else h[0].changes + Flat(h[1..])
  }

  lemma {:induction false} FlatConcat(a: seq<Commit>, b: seq<Commit>)
    ensures Flat(a + b) == Flat(a) + Flat(b)
    decreases |a|
  {
    if a == [] {
      assert a + b == b;
    } else {
      FlatConcat(a[1..], b);
      assert (a + b)[1..] == a[1..] + b;
    }
  }

  lemma FlatNext(h: seq<Commit>, i: nat)
    requires i < |h|
    ensures Flat(h[..i + 1]) == Flat(h[..i]) + h[i].changes && Flat(h[..0]) == []
  {
    assert h[..i + 1] == h[..i] + [h[i]];
    FlatConcat(h[..i], [h[i]]);
    assert Flat([h[i]]) == h[i].changes + Flat([]);
  }

  /** A read at the `k`-th transaction sees the changes of the first `k`. */
  lemma {:induction false} LatestIsLastIn(h: seq<Commit>, k: nat, t: nat, id: RowId)
    requires Sorted(h) && k <= |h|
    requires (forall i :: 0 <= i < k ==> h[i].id <= t) && (forall i :: k <= i < |h| ==> h[i].id > t)
    ensures var row := LastIn(Flat(h[..k]), id);
            Latest(h, t, id).Some? == row.Some? &&
            (row.Some? ==> Latest(h, t, id).value.row == row.value)
    decreases |h|
  {
    if k > 0 {
      LatestIsLastIn(h[1..], k - 1, t, id);
      assert h[..k][1..] == h[1..][..k - 1];
      LastInConcat(h[0].changes, Flat(h[1..][..k - 1]), id);
    }
  }

  // ---- Histories that commits build ----

  /** `s` is what a commit stores after `previous`, with or without a forced epoch. */
  ghost predicate BuiltOn(previous: Option<Snapshot>, s: Snapshot)
  {
    Stored(previous, s, false) == Ok(s) || Stored(previous, s, true) == Ok(s)
  }

  function Before(vs: seq<Version>, i: nat): Option<Snapshot>
    requires i <= |vs|
  {
    if i == 0 then None else Some(vs[i - 1].snapshot)
  }

  /** Each snapshot is stored after the one before it. */
  ghost predicate Built(vs: seq<Version>)
  {
    forall i :: 0 <= i < |vs| ==> BuiltOn(Before(vs, i), vs[i].snapshot)
  }

  lemma {:induction false} BuiltMirrors(vs: seq<Version>, i: nat)
    requires Built(vs) && i < |vs|
    ensures vs[i].snapshot.epoch >= 1 && vs[i].snapshot.changes.Some?
    ensures Mirrors(Flat(Commits(vs)[..i + 1]), vs[i].snapshot)
    ensures Unique(vs[i].snapshot.changes.value)
  {
    hide Flat, Mirrors, Unique, Differences, CurrentRows, PreviousRows;
    var s := vs[i].snapshot;
    assert BuiltOn(Before(vs, i), s);
    var h := Commits(vs);
    FlatNext(h, i);
    if i == 0 {
      assert Flat(h[..1]) == h[0].changes;
      FirstMirrors(s);
      StoredUnique(None, s, false);
    } else {
      BuiltMirrors(vs, i - 1);
      var was, force := vs[i - 1].snapshot, Stored(Some(vs[i - 1].snapshot), s, true) == Ok(s);
      StoredMirrors(Flat(h[..i]), was, s, force);
      StoredUnique(Some(was), s, force);
    }
  }

  /** The delta history answers as the full snapshots do. */
  lemma DeltasRefineSnapshots(vs: seq<Version>, i: nat, id: RowId)
    requires Built(vs) && Sorted(Commits(vs)) && i < |vs| && vs[i].id > 0 && id.epoch > 0 && id.number > 0
    ensures var s, r := vs[i].snapshot, RowAt(Commits(vs), vs[i].id, id);
            r.Ok? &&
            (id.epoch == s.epoch && id.number <= |s.rows| ==>
             r.value.Some? && r.value.value.row == s.rows[id.number - 1]) &&
            (id.epoch == s.epoch && id.number > |s.rows| ==> r.value == None) &&
            (id.epoch > s.epoch ==> r.value == None) &&
            (id.epoch < s.epoch && r.value.Some? ==> r.value.value.row.deleted)
  {
    hide Built, Flat, LastIn, Latest;
    var h := Commits(vs);
    assert h[i].id == vs[i].id;
    BuiltMirrors(vs, i);
    assert MirrorsAt(Flat(h[..i + 1]), vs[i].snapshot, id);
    LatestIsLastIn(h, i + 1, vs[i].id, id);
  }

  /** With older detached changes before it, a history still answers every row of a full snapshot. */
  lemma RetainedRowsExact(detached: seq<Commit>, vs: seq<Version>, i: nat, n: nat)
    requires Built(vs) && Sorted(detached + Commits(vs)) && i < |vs| && vs[i].id > 0
    requires 1 <= n <= |vs[i].snapshot.rows|
    ensures var r := RowAt(detached + Commits(vs), vs[i].id, RowId(vs[i].snapshot.epoch, n));
            r.Ok? && r.value.Some? && r.value.value.row == vs[i].snapshot.rows[n - 1]
  {
    hide Built, Flat, LastIn, Latest;
    var h, k, id := detached + Commits(vs), |detached| + i, RowId(vs[i].snapshot.epoch, n);
    assert h[k].id == vs[i].id;
    BuiltMirrors(vs, i);
    assert MirrorsAt(Flat(Commits(vs)[..i + 1]), vs[i].snapshot, id);
    assert h[..k + 1] == detached + Commits(vs)[..i + 1];
    FlatConcat(detached, Commits(vs)[..i + 1]);
    LastInConcat(Flat(detached), Flat(Commits(vs)[..i + 1]), id);
    LatestIsLastIn(h, k + 1, vs[i].id, id);
  }
}
