/** Reads at the transactions of kept snapshots, before and after a garbage collection. */
module RowGcReads {
  import opened Base
  import opened RowMvcc
  import opened RowHistory
  import opened RowGc

  // ---- How compaction numbers epochs ----

  /** The epoch that compaction gives to the `i`-th snapshot it keeps. */
  function NewEpoch(vs: seq<Version>, i: nat): nat
    requires i < |vs|
  {
    if i == 0 then 1
    else
      var before := NewEpoch(vs, i - 1);
      if vs[i].snapshot.epoch != before || NewLayout(vs[i - 1].snapshot, vs[i].snapshot, false) then before + 1
      else before
  }

  /** Each snapshot is stored after the one before it, whatever the first was stored after. */
  ghost predicate Consecutive(vs: seq<Version>)
  {
    (forall i :: 0 <= i < |vs| ==> vs[i].snapshot.epoch >= 1 && vs[i].snapshot.changes.Some?) &&
    forall i :: 0 < i < |vs| ==> BuiltOn(Some(vs[i - 1].snapshot), vs[i].snapshot)
  }

  lemma RetainedConsecutive(vs: seq<Version>, keepLast: nat)
    requires Built(vs)
    ensures Consecutive(LastOf(vs, keepLast))
  {
    hide BuiltOn;
    var m, kept := |vs| - |LastOf(vs, keepLast)|, LastOf(vs, keepLast);
    forall i | 0 <= i < |kept| ensures kept[i].snapshot.epoch >= 1 && kept[i].snapshot.changes.Some? {
      BuiltMirrors(vs, m + i);
    }
    forall i | 0 < i < |kept| ensures BuiltOn(Some(kept[i - 1].snapshot), kept[i].snapshot) {
      assert Before(vs, m + i) == Some(kept[i - 1].snapshot);
    }
  }

  /** One step of compaction. */
  lemma {:induction false} CompactStep(previous: Option<Snapshot>, vs: seq<Version>, r: seq<Version>, i: nat)
    requires CompactFrom(previous, vs) == Ok(r) && i < |vs|
    ensures |r| == |vs| && r[i].id == vs[i].id
    ensures Stored(After(previous, r, i), vs[i].snapshot, Forced(After(previous, r, i), vs[i].snapshot)) ==
            Ok(r[i].snapshot)
    decreases |vs|
  {
    hide Stored, Forced;
    var first := Stored(previous, vs[0].snapshot, Forced(previous, vs[0].snapshot)).value;
    var rest := CompactFrom(Some(first), vs[1..]).value;
    assert r == [Version(vs[0].id, first)] + rest;
    CompactLength(Some(first), vs[1..], rest);
    if i > 0 {
      CompactStep(Some(first), vs[1..], rest, i - 1);
      assert After(Some(first), rest, i - 1) == After(previous, r, i);
    }
  }

  lemma {:induction false} CompactLength(previous: Option<Snapshot>, vs: seq<Version>, r: seq<Version>)
    requires CompactFrom(previous, vs) == Ok(r)
    ensures |r| == |vs|
    decreases |vs|
  {
    hide Stored, Forced;
    if vs != [] {
      var first := Stored(previous, vs[0].snapshot, Forced(previous, vs[0].snapshot)).value;
      CompactLength(Some(first), vs[1..], CompactFrom(Some(first), vs[1..]).value);
    }
  }

  lemma {:induction false} CompactEpochs(vs: seq<Version>, r: seq<Version>, i: nat)
    requires CompactFrom(None, vs) == Ok(r) && Consecutive(vs) && i < |vs|
    ensures |r| == |vs| && r[i].snapshot.epoch == NewEpoch(vs, i)
    ensures r[i].snapshot.rows == vs[i].snapshot.rows && r[i].snapshot.layout == vs[i].snapshot.layout
  {
    hide CompactFrom, Differences, CurrentRows, PreviousRows, BuiltOn;
    CompactStep(None, vs, r, i);
    if i > 0 {
      CompactEpochs(vs, r, i - 1);
    }
  }

  /** New epochs lag behind the old ones until they meet, and then stay the same. */
  lemma {:induction false} EpochsMeet(vs: seq<Version>, i: nat, j: nat)
    requires Consecutive(vs) && i <= j < |vs|
    ensures NewEpoch(vs, j) <= vs[j].snapshot.epoch
    ensures NewEpoch(vs, i) == vs[i].snapshot.epoch ==> NewEpoch(vs, j) == vs[j].snapshot.epoch
    decreases j
  {
    hide Differences, CurrentRows, PreviousRows;
    if j > 0 {
      EpochsMeet(vs, if i < j then i else j - 1, j - 1);
      assert BuiltOn(Some(vs[j - 1].snapshot), vs[j].snapshot);
    }
  }

  // ---- Whether reads stay true ----

  /** The answer is none, or the row that was read before. */
  ghost predicate Truthful(before: Result<Option<RowVersion>, MvccError>, after: Result<Option<RowVersion>, MvccError>)
  {
    after.Ok? &&
    (after.value.Some? ==> before.Ok? && before.value.Some? && before.value.value.row == after.value.value.row)
  }

  /** A collection: the history before it, and the rows and snapshots it keeps. */
  ghost predicate Collects(detached: seq<Commit>, vs: seq<Version>, keepLast: nat, keepRows: Option<nat>,
                           rows: seq<Commit>, kept: seq<Version>)
  {
    ValidHistory(detached, vs) && keepRows != Some(0) && CompactFrom(None, LastOf(vs, keepLast)) == Ok(kept) &&
    rows == if keepRows.None? then [] else KeepFrom(Older(detached, vs, keepLast), keepRows.value)
  }

  /** The snapshots that are kept, in the history before and as they are afterwards. */
  lemma KeptFacts(detached: seq<Commit>, vs: seq<Version>, keepLast: nat, keepRows: Option<nat>, rows: seq<Commit>,
                  kept: seq<Version>)
    requires Collects(detached, vs, keepLast, keepRows, rows, kept)
    ensures var retained := LastOf(vs, keepLast);
      Consecutive(retained) && SameImages(kept, retained) && Built(kept) &&
      Sorted(Commits(kept)) && IdsAbove(Commits(kept), 0)
  {
    hide Built, KeepFrom, CompactFrom, AllUnique, Consecutive;
    RetainedConsecutive(vs, keepLast);
    CompactedIsBuilt(LastOf(vs, keepLast));
    OlderSplits(detached, vs, keepLast);
    SameImagesSameIds(kept, LastOf(vs, keepLast), 0);
  }

  /** A snapshot's own rows. Before, a read under their IDs gives them. Afterwards it gives them or none
      exactly when the new epoch is the old one, or the row is no older than the kept snapshots, or its
      last version before them is what it is now. */
  lemma OwnRowsIff(detached: seq<Commit>, vs: seq<Version>, keepLast: nat, keep: nat, rows: seq<Commit>,
                   kept: seq<Version>, i: nat, n: nat)
    requires Collects(detached, vs, keepLast, Some(keep), rows, kept) && i < |LastOf(vs, keepLast)| == |kept|
    requires 1 <= n <= |LastOf(vs, keepLast)[i].snapshot.rows|
    ensures
      var retained := LastOf(vs, keepLast);
      var s, t, id := retained[i].snapshot, retained[i].id, RowId(retained[i].snapshot.epoch, n);
      var before, after := RowAt(detached + Commits(vs), t, id), RowAt(rows + Commits(kept), t, id);
      var last := Latest(Older(detached, vs, keepLast), t, id);
      before.Ok? && before.value.Some? && before.value.value.row == s.rows[n - 1] &&
      (Truthful(before, after) <==>
        NewEpoch(retained, i) == s.epoch || last.None? || last.value.row == s.rows[n - 1])
  {
    hide Built, KeepFrom, CompactFrom, AllUnique, Consecutive, Latest, NewEpoch, Older;
    var retained, m := LastOf(vs, keepLast), |vs| - |kept|;
    var s, t, id := retained[i].snapshot, retained[i].id, RowId(retained[i].snapshot.epoch, n);
    KeptFacts(detached, vs, keepLast, Some(keep), rows, kept);
    SnapshotReads(detached, vs, rows, kept, keepLast, Some(keep), i, id);
    CompactEpochs(retained, kept, i);
    EpochsMeet(retained, i, i);
    assert retained[i] == vs[m + i] && Commits(kept)[i].id == t > 0;
    BuiltMirrors(vs, m + i);
    Snapshots(detached, vs, m + i);
    RetainedRowsExact(detached, vs, m + i, n);
    DeltasRefineSnapshots(kept, i, id);
  }

  lemma Snapshots(detached: seq<Commit>, vs: seq<Version>, i: nat)
    requires ValidHistory(detached, vs) && i < |vs|
    ensures vs[i].id > 0
  {
    assert (detached + Commits(vs))[|detached| + i].id == vs[i].id;
  }

  // ---- When the first kept snapshot is of the first epoch ----

  lemma {:induction false} SameSnapshots(vs: seq<Version>, r: seq<Version>, i: nat)
    requires CompactFrom(None, vs) == Ok(r) && Consecutive(vs) && i < |vs| && vs[0].snapshot.epoch == 1
    ensures |r| == |vs| && r[i].id == vs[i].id
    ensures if i == 0 then r[0].snapshot == vs[0].snapshot.(changes := Some(CurrentRows(vs[0].snapshot.rows, 1)))
            else r[i].snapshot == vs[i].snapshot
  {
    hide CompactFrom, Differences, CurrentRows, PreviousRows;
    CompactStep(None, vs, r, i);
    if i > 0 {
      SameSnapshots(vs, r, i - 1);
      assert BuiltOn(Some(vs[i - 1].snapshot), vs[i].snapshot);
    }
  }

  lemma {:induction false} LatestLater(h: seq<Commit>, t: nat, t': nat, id: RowId)
    requires IdsBelow(h, t + 1) && t <= t'
    ensures Latest(h, t, id) == Latest(h, t', id)
    decreases |h|
  {
    hide InCommit;
    if h != [] {
      LatestLater(h[1..], t, t', id);
    }
  }

  /** The first kept snapshot says of a row what it said before, if it is of the first epoch. */
  lemma FirstSays(detached: seq<Commit>, vs: seq<Version>, m: nat, t: nat, id: RowId)
    requires ValidHistory(detached, vs) && m < |vs| && vs[m].snapshot.epoch == 1 && vs[m].id <= t
    requires id.epoch > 0 && id.number > 0
    ensures
      var older, said := detached + Commits(vs[..m]), LastIn(CurrentRows(vs[m].snapshot.rows, 1), id);
      var before := Latest(older + [Commits(vs)[m]], t, id);
      if said.Some? then before.Some? && before.value.row == said.value else before == Latest(older, t, id)
  {
    hide Built, Latest, LastIn, Flat, CurrentRows, AllUnique, Mirrors, ChangesOf;
    var older, c, h := detached + Commits(vs[..m]), Commits(vs)[m], detached + Commits(vs);
    var rest := h[|older| + 1..];
    assert h == (older + [c]) + rest && h[|older|] == c;
    RowsLast(vs[m].snapshot.rows, 1, id);
    assert IdsAbove(rest, c.id) && IdsBelow(older + [c], c.id + 1);
    LatestLater(older + [c], c.id, t, id);
    if LastIn(CurrentRows(vs[m].snapshot.rows, 1), id).Some? {
      Snapshots(detached, vs, m);
      RetainedRowsExact(detached, vs, m, id.number);
      LatestAppend(older + [c], rest, c.id, id);
    } else {
      Unsaid(vs, m, id);
      assert IdsBelow(older, t + 1) by { assert forall j :: 0 <= j < |older| ==> older[j] == (older + [c])[j]; }
      LatestConcat(older, [c], t, id);
      OneSays(c, t, id);
    }
  }

  lemma OneSays(c: Commit, t: nat, id: RowId)
    requires c.id <= t
    ensures Latest([c], t, id) == InCommit(c, id)
  {
    assert [c][1..] == [];
  }

  /** A snapshot changes no row beyond its own. */
  lemma Unsaid(vs: seq<Version>, m: nat, id: RowId)
    requires Built(vs) && m < |vs| && Beyond(id, vs[m].snapshot)
    ensures InCommit(Commits(vs)[m], id).None?
  {
    hide Built, LastIn, Flat, ChangesOf;
    BuiltMirrors(vs, m);
    assert MirrorsAt(Flat(Commits(vs)[..m + 1]), vs[m].snapshot, id);
    FlatNext(Commits(vs), m);
    LastInConcat(Flat(Commits(vs)[..m]), Commits(vs)[m].changes, id);
  }

  lemma FirstKept(vs: seq<Version>, r: seq<Version>)
    requires CompactFrom(None, vs) == Ok(r) && Consecutive(vs) && vs != [] && vs[0].snapshot.epoch == 1
    ensures Commits(r) == [Commit(vs[0].id, CurrentRows(vs[0].snapshot.rows, 1))] + Commits(vs)[1..]
  {
    hide CompactFrom, Consecutive, CurrentRows;
    SameSnapshots(vs, r, 0);
    forall j | 0 < j < |vs| ensures Commits(r)[j] == Commits(vs)[j] { SameSnapshots(vs, r, j); }
  }

  /** Then compaction changes no more than the changes of the first kept snapshot. */
  lemma KeptSplit(detached: seq<Commit>, vs: seq<Version>, keepLast: nat, keepRows: Option<nat>, rows: seq<Commit>,
                  kept: seq<Version>)
    requires Collects(detached, vs, keepLast, keepRows, rows, kept) && 0 < |kept| == |LastOf(vs, keepLast)|
    requires LastOf(vs, keepLast)[0].snapshot.epoch == 1
    ensures
      var m, older := |vs| - |kept|, Older(detached, vs, keepLast);
      var c, tail := Commits(vs)[m], Commits(vs)[m + 1..];
      detached + Commits(vs) == (older + [c]) + tail && older == detached + Commits(vs[..m]) &&
      Commits(kept) == [Commit(c.id, CurrentRows(vs[m].snapshot.rows, 1))] + tail
  {
    hide ValidHistory, Built, KeepFrom, CompactFrom, Consecutive, CurrentRows, Sorted, IdsAbove, ChangesOf;
    var retained, m := LastOf(vs, keepLast), |vs| - |kept|;
    KeptFacts(detached, vs, keepLast, keepRows, rows, kept);
    FirstKept(retained, kept);
    assert retained == vs[m..] && Commits(retained)[1..] == Commits(vs)[m + 1..];
    assert Commits(vs) == Commits(vs[..m]) + [Commits(vs)[m]] + Commits(vs)[m + 1..];
    var older, all := Older(detached, vs, keepLast), detached + Commits(vs);
    assert older == all[..|detached| + m] == detached + Commits(vs[..m]);
  }

  lemma LastOfAt(vs: seq<Version>, keepLast: nat, i: nat)
    requires i < |LastOf(vs, keepLast)|
    ensures |LastOf(vs, keepLast)| <= |vs| && LastOf(vs, keepLast)[i] == vs[|vs| - |LastOf(vs, keepLast)| + i]
  {
  }

  lemma KeptOrder(detached: seq<Commit>, vs: seq<Version>, m: nat, i: nat)
    requires ValidHistory(detached, vs) && m <= i < |vs|
    ensures Commits(vs)[m].id == vs[m].id <= vs[i].id
    ensures IdsBelow(detached + Commits(vs[..m]) + [Commits(vs)[m]], vs[i].id + 1)
    ensures Retained(detached + Commits(vs), vs[i].id)
  {
    hide AllUnique, Built, ChangesOf;
    var h := detached + Commits(vs);
    assert h[|detached| + i].id == vs[i].id && h[|detached| + m].id == vs[m].id;
    assert h[..|detached| + m + 1] == detached + Commits(vs[..m]) + [Commits(vs)[m]];
  }

  /** If the first kept snapshot is of the first epoch, every read at the transaction of a kept snapshot
      gives the row it gave before, or none. */
  lemma FirstEpochTruthful(detached: seq<Commit>, vs: seq<Version>, keepLast: nat, keepRows: Option<nat>,
                           rows: seq<Commit>, kept: seq<Version>, i: nat, id: RowId)
    requires Collects(detached, vs, keepLast, keepRows, rows, kept) && i < |kept| == |LastOf(vs, keepLast)|
    requires LastOf(vs, keepLast)[0].snapshot.epoch == 1 && id.epoch > 0 && id.number > 0
    ensures Truthful(RowAt(detached + Commits(vs), kept[i].id, id), RowAt(rows + Commits(kept), kept[i].id, id))
  {
    hide ValidHistory, KeepFrom, CompactFrom, Consecutive, Latest, LastIn, CurrentRows, Older, Commits, Retained,
         Sorted, Built, IdsAbove, IdsBelow, LastOf;
    var m, t := |vs| - |kept|, kept[i].id;
    KeptFacts(detached, vs, keepLast, keepRows, rows, kept);
    SnapshotReads(detached, vs, rows, kept, keepLast, keepRows, i, id);
    KeptSplit(detached, vs, keepLast, keepRows, rows, kept);
    var older, c, tail := Older(detached, vs, keepLast), Commits(vs)[m], Commits(vs)[m + 1..];
    var c' := Commit(c.id, CurrentRows(vs[m].snapshot.rows, 1));
    LastOfAt(vs, keepLast, 0);
    LastOfAt(vs, keepLast, i);
    KeptOrder(detached, vs, m, m + i);
    Snapshots(detached, vs, m + i);
    FirstSays(detached, vs, m, t, id);
    SaysAfter(older, c, c', tail, t, id);
  }

  /** Two commits that say the same of a row, or one more than what was said before. */
  lemma SaysAfter(older: seq<Commit>, c: Commit, c': Commit, tail: seq<Commit>, t: nat, id: RowId)
    requires IdsBelow(older + [c], t + 1) && c'.id == c.id <= t
    requires var said, before := LastIn(c'.changes, id), Latest(older + [c], t, id);
      if said.Some? then before.Some? && before.value.row == said.value else before == Latest(older, t, id)
    ensures var before, after := Latest((older + [c]) + tail, t, id), Latest([c'] + tail, t, id);
      if after.Some? then before.Some? && before.value.row == after.value.row else before == Latest(older, t, id)
  {
    hide Latest, LastIn;
    LatestConcat(older + [c], tail, t, id);
    LatestConcat([c'], tail, t, id);
    OneSays(c', t, id);
  }

  // ---- The exact condition for a table that is collected for the first time ----

  ghost predicate AllTruthful(before: seq<Commit>, after: seq<Commit>, kept: seq<Version>)
  {
    forall i, id: RowId :: 0 <= i < |kept| && id.epoch > 0 && id.number > 0 ==>
      Truthful(RowAt(before, kept[i].id, id), RowAt(after, kept[i].id, id))
  }

  /** When the first kept snapshot has a live row, all reads at kept snapshots stay truthful exactly if it
      is of the first epoch. */
  lemma AllTruthfulIff(vs: seq<Version>, keepLast: nat, keepRows: Option<nat>, rows: seq<Commit>, kept: seq<Version>,
                       n: nat)
    requires Collects([], vs, keepLast, keepRows, rows, kept) && 0 < |kept| == |LastOf(vs, keepLast)|
    requires 1 <= n <= |kept[0].snapshot.rows| && !kept[0].snapshot.rows[n - 1].deleted
    ensures AllTruthful(Commits(vs), rows + Commits(kept), kept) <==> LastOf(vs, keepLast)[0].snapshot.epoch == 1
  {
    hide Built, KeepFrom, CompactFrom, AllUnique, Consecutive, Latest, RowAt, Truthful;
    assert [] + Commits(vs) == Commits(vs);
    var retained, m := LastOf(vs, keepLast), |vs| - |kept|;
    if retained[0].snapshot.epoch == 1 {
      forall i, id: RowId | 0 <= i < |kept| && id.epoch > 0 && id.number > 0
        ensures Truthful(RowAt(Commits(vs), kept[i].id, id), RowAt(rows + Commits(kept), kept[i].id, id))
      {
        FirstEpochTruthful([], vs, keepLast, keepRows, rows, kept, i, id);
      }
    } else {
      Renumbered(vs, keepLast, keepRows, rows, kept, n);
    }
  }

  /** Otherwise the IDs of the first epoch, whose rows were gone, name the rows of the snapshot. */
  lemma Renumbered(vs: seq<Version>, keepLast: nat, keepRows: Option<nat>, rows: seq<Commit>, kept: seq<Version>,
                   n: nat)
    requires Collects([], vs, keepLast, keepRows, rows, kept) && 0 < |kept| == |LastOf(vs, keepLast)|
    requires 1 <= n <= |kept[0].snapshot.rows| && !kept[0].snapshot.rows[n - 1].deleted
    requires LastOf(vs, keepLast)[0].snapshot.epoch != 1
    ensures !Truthful(RowAt(Commits(vs), kept[0].id, RowId(1, n)),
                      RowAt(rows + Commits(kept), kept[0].id, RowId(1, n)))
  {
    hide Built, KeepFrom, CompactFrom, AllUnique, Latest;
    assert [] + Commits(vs) == Commits(vs);
    var retained, m, id := LastOf(vs, keepLast), |vs| - |kept|, RowId(1, n);
    KeptFacts([], vs, keepLast, keepRows, rows, kept);
    SnapshotReads([], vs, rows, kept, keepLast, keepRows, 0, id);
    CompactEpochs(retained, kept, 0);
    Snapshots([], vs, m);
    DeltasRefineSnapshots(kept, 0, id);
    DeltasRefineSnapshots(vs, m, id);
  }

  // ---- A row that goes back ----

  /** Three commits of a table of one row, the second with a forced epoch. */
  function ThreeCommits(layout: Layout, a: Row, b: Row, c: Row): seq<Version>
  {
    [Version(1, Snapshot(layout, [a], 1, Some([Change(RowId(1, 1), a)]))),
     Version(2, Snapshot(layout, [b], 2, Some([Change(RowId(1, 1), a.(deleted := true)), Change(RowId(2, 1), b)]))),
     Version(3, Snapshot(layout, [c], 2, Some([Change(RowId(2, 1), c)])))]
  }

  lemma ThreeAreStored(layout: Layout, a: Row, b: Row, c: Row)
    requires b != c
    ensures var vs := ThreeCommits(layout, a, b, c);
      Stored(None, Snapshot(layout, [a], 1, None), false) == Ok(vs[0].snapshot) &&
      Stored(Some(vs[0].snapshot), Snapshot(layout, [b], 1, None), true) == Ok(vs[1].snapshot) &&
      Stored(Some(vs[1].snapshot), Snapshot(layout, [c], 1, None), false) == Ok(vs[2].snapshot)
  {
    var vs := ThreeCommits(layout, a, b, c);
    assert CurrentRows([a], 1) == vs[0].snapshot.changes.value;
    assert PreviousRows([a], 1) + CurrentRows([b], 2) == vs[1].snapshot.changes.value;
    assert Differences([b], [c], 2, 0) == [] && Differences([b], [c], 2, 1) == vs[2].snapshot.changes.value;
  }

  lemma ThreeAreValid(layout: Layout, a: Row, b: Row, c: Row)
    requires b != c
    ensures ValidHistory([], ThreeCommits(layout, a, b, c))
  {
    hide Stored, Unique, BuiltOn;
    var vs := ThreeCommits(layout, a, b, c);
    ThreeAreStored(layout, a, b, c);
    hide ValidHistory;
    assert ValidHistory([], []) by { EmptyIsValid(); }
    CommittedNext([], Snapshot(layout, [a], 1, None), false, vs[0]);
    assert [] + [vs[0]] == [vs[0]] && [vs[0]] + [vs[1]] == [vs[0], vs[1]] && [vs[0], vs[1]] + [vs[2]] == vs;
    CommittedNext([vs[0]], Snapshot(layout, [b], 1, None), true, vs[1]);
    CommittedNext([vs[0], vs[1]], Snapshot(layout, [c], 1, None), false, vs[2]);
  }

  lemma EmptyIsValid()
    ensures ValidHistory([], [])
  {
    assert [] + Commits([]) == [];
  }

  lemma CommittedNext(vs: seq<Version>, s: Snapshot, force: bool, v: Version)
    requires ValidHistory([], vs) && |vs| < 3 && (forall i :: 0 <= i < |vs| ==> vs[i].id < v.id) && v.id > 0
    requires Stored(Before(vs, |vs|), s, force) == Ok(v.snapshot) && v.snapshot.changes.Some?
    requires EpochBefore(Before(vs, |vs|)) < U64_MAX
    ensures ValidHistory([], vs + [v])
  {
    hide Stored, Unique, BuiltOn;
    StoredUnique(Before(vs, |vs|), s, force);
    StoredBuilds(Before(vs, |vs|), s, force);
    Extended([], vs, v);
  }

  /** Collecting them to the last snapshot and one version of each row, the row's ID reads at the last
      transaction as `c` before and as the older `b` afterwards. */
  lemma CollectedRowGoesBack(layout: Layout, a: Row, b: Row, c: Row, rows: seq<Commit>, kept: seq<Version>)
    requires b != c && Collects([], ThreeCommits(layout, a, b, c), 1, Some(1), rows, kept)
    ensures |kept| == 1
    ensures var vs, id := ThreeCommits(layout, a, b, c), RowId(2, 1);
      RowAt(Commits(vs), 3, id) == Ok(Some(RowVersion(id, 3, c))) &&
      RowAt(rows + Commits(kept), 3, id) == Ok(Some(RowVersion(id, 2, b)))
  {
    hide KeepFrom, Collects;
    var vs, id := ThreeCommits(layout, a, b, c), RowId(2, 1);
    ThreeAreValid(layout, a, b, c);
    CollectsOne(vs, rows, kept);
    SnapshotReads([], vs, rows, kept, 1, Some(1), 0, id);
    hide Latest, Stored;
    var h := Commits(vs);
    assert h == ([h[0]] + [h[1]]) + [h[2]] && Older([], vs, 1) == [h[0]] + [h[1]] && h[2].id == 3;
    LatestConcat([h[0]] + [h[1]], [h[2]], 3, id);
    LatestConcat([h[0]], [h[1]], 3, id);
    OneSays(h[1], 3, id);
    OneSays(h[2], 3, id);
    KeptOneSays(vs[2], kept, id);
  }

  lemma KeptOneSays(v: Version, kept: seq<Version>, id: RowId)
    requires kept == [Version(v.id, Stored(None, v.snapshot, false).value)] && id.epoch > 1
    ensures Latest(Commits(kept), v.id, id).None?
  {
    var c := Commit(v.id, CurrentRows(v.snapshot.rows, 1));
    assert Commits(kept) == [c];
    OneSays(c, v.id, id);
    RowsLast(v.snapshot.rows, 1, id);
  }

  lemma CollectsOne(vs: seq<Version>, rows: seq<Commit>, kept: seq<Version>)
    requires |vs| == 3 && Collects([], vs, 1, Some(1), rows, kept)
    ensures kept == [Version(vs[2].id, Stored(None, vs[2].snapshot, false).value)]
    ensures SameImages(kept, LastOf(vs, 1)) && rows == KeepFrom(Older([], vs, 1), 1)
  {
    hide KeepFrom, CompactFrom;
    assert LastOf(vs, 1) == [vs[2]];
    CompactOne(vs[2]);
  }
}
