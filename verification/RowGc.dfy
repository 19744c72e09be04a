/** Garbage collection of a table's history. */
module RowGc {
  import opened Base
  import opened RowMvcc
  import opened RowHistory

  // ---- Rows kept without their snapshots ----

  ghost predicate Touches(c: Commit, id: RowId)
  {
    exists i :: 0 <= i < |c.changes| && c.changes[i].id == id
  }

  /** In how many of the transactions a row changes. */
  ghost function Newer(h: seq<Commit>, id: RowId): nat
  {
    if h == [] then 0 else (if Touches(h[0], id) then 1 else 0) + Newer(h[1..], id)
  }

  /** The changes with fewer than `keep` newer versions of their row. */
  ghost function Kept(changes: seq<Change>, newer: seq<Commit>, keep: nat): (r: seq<Change>)
    ensures forall c :: c in r ==> c in changes
  {
    if changes == [] then []
    else
      var last := changes[|changes| - 1];
      Kept(changes[..|changes| - 1], newer, keep) + if Newer(newer, last.id) < keep then [last] else []
  }

  /** The newest `keep` versions of every row. */
  ghost function KeepFrom(h: seq<Commit>, keep: nat): seq<Commit>
  {
    if h == [] then []
    else Prepend(Commit(h[0].id, Kept(h[0].changes, h[1..], keep)), KeepFrom(h[1..], keep))
  }

  function Prepend(c: Commit, rest: seq<Commit>): seq<Commit>
  {
    if c.changes == [] then rest else [c] + rest
  }

  lemma LatestPrepend(c: Commit, rest: seq<Commit>, t: nat, id: RowId)
    requires c.id <= t
    ensures Latest(Prepend(c, rest), t, id) ==
      if Latest(rest, t, id).Some? then Latest(rest, t, id) else InCommit(c, id)
  {
    assert ([c] + rest)[1..] == rest;
  }

  ghost predicate IdsAbove(h: seq<Commit>, t: nat)
  {
    forall i :: 0 <= i < |h| ==> h[i].id > t
  }

  ghost predicate IdsBelow(h: seq<Commit>, t: nat)
  {
    forall i :: 0 <= i < |h| ==> h[i].id < t
  }

  ghost predicate AllUnique(h: seq<Commit>)
  {
    forall i :: 0 <= i < |h| ==> Unique(h[i].changes)
  }

  lemma {:induction false} KeptLast(changes: seq<Change>, newer: seq<Commit>, keep: nat, id: RowId)
    ensures LastIn(Kept(changes, newer, keep), id) == if Newer(newer, id) < keep then LastIn(changes, id) else None
    decreases |changes|
  {
    if changes != [] {
      var last := changes[|changes| - 1];
      KeptLast(changes[..|changes| - 1], newer, keep, id);
      LastInConcat(Kept(changes[..|changes| - 1], newer, keep),
                   if Newer(newer, last.id) < keep then [last] else [], id);
    }
  }

  lemma {:induction false} LastInTouches(c: Commit, id: RowId)
    requires Unique(c.changes)
    ensures LastIn(c.changes, id).Some? <==> Touches(c, id)
  {
    LastInUnique(c.changes, id);
  }

  lemma {:induction false} KeptUnique(changes: seq<Change>, newer: seq<Commit>, keep: nat)
    requires Unique(changes)
    ensures Unique(Kept(changes, newer, keep))
    decreases |changes|
  {
    if changes != [] {
      var shorter := changes[..|changes| - 1];
      KeptUnique(shorter, newer, keep);
      assert forall c :: c in shorter ==> c.id != changes[|changes| - 1].id;
    }
  }

  lemma {:induction false} KeepFromOrdered(h: seq<Commit>, keep: nat)
    requires Sorted(h) && AllUnique(h)
    ensures Sorted(KeepFrom(h, keep)) && AllUnique(KeepFrom(h, keep))
    ensures forall t: nat :: IdsAbove(h, t) ==> IdsAbove(KeepFrom(h, keep), t)
    ensures forall t: nat :: IdsBelow(h, t) ==> IdsBelow(KeepFrom(h, keep), t)
    decreases |h|
  {
    hide Unique, Kept;
    if h != [] {
      KeepFromOrdered(h[1..], keep);
      KeptUnique(h[0].changes, h[1..], keep);
      assert IdsAbove(h[1..], h[0].id);
      forall t: nat | IdsAbove(h, t) ensures IdsAbove(KeepFrom(h, keep), t) {
        assert IdsAbove(h[1..], t);
      }
      forall t: nat | IdsBelow(h, t) ensures IdsBelow(KeepFrom(h, keep), t) {
        assert IdsBelow(h[1..], t);
      }
    }
  }

  /** A read at any transaction finds the version it found before or none, and none only for a row
      with more than `keep` versions. */
  lemma {:induction false} KeptIsTruthful(h: seq<Commit>, keep: nat, t: nat, id: RowId)
    requires Sorted(h) && AllUnique(h)
    ensures Latest(KeepFrom(h, keep), t, id) in {None, Latest(h, t, id)}
    ensures Latest(KeepFrom(h, keep), t, id) != Latest(h, t, id) ==> Newer(h, id) > keep
    decreases |h|
  {
    hide Unique, Kept, LastIn;
    if h != [] {
      if h[0].id > t {
        KeepFromOrdered(h, keep);
        assert IdsAbove(h, t);
      } else {
        KeptIsTruthful(h[1..], keep, t, id);
        var first := Commit(h[0].id, Kept(h[0].changes, h[1..], keep));
        LatestPrepend(first, KeepFrom(h[1..], keep), t, id);
        KeptLast(h[0].changes, h[1..], keep, id);
        LastInTouches(h[0], id);
      }
    }
  }

  /** Transactions beyond the one read do not matter. */
  lemma {:induction false} LatestAppend(a: seq<Commit>, b: seq<Commit>, t: nat, id: RowId)
    requires IdsAbove(b, t)
    ensures Latest(a + b, t, id) == Latest(a, t, id)
    decreases |a|
  {
    if a == [] {
      assert a + b == b;
    } else {
      LatestAppend(a[1..], b, t, id);
      assert (a + b)[1..] == a[1..] + b;
    }
  }

  function CountOf(counts: map<RowId, nat>, id: RowId): nat
  {
    if id in counts then counts[id] else 0
  }

  /** Keeps the newest `keep` versions of every row in the first `n` transactions. */
  method DetachedHistory(h: seq<Commit>, n: nat, keep: nat) returns (d: seq<Commit>)
    requires n <= |h| && AllUnique(h)
    ensures d == KeepFrom(h[..n], keep)
  {
    var counts: map<RowId, nat> := map[];
    var older := h[..n];
    d := [];
    var i := n;
    while i > 0
      invariant 0 <= i <= n
      invariant forall id :: Newer(older[i..], id) == CountOf(counts, id)
      invariant d == KeepFrom(older[i..], keep)
    {
      i := i - 1;
      assert older[i..][1..] == older[i + 1..] && older[i] == h[i];
      var kept := KeepChanges(h[i].changes, older[i + 1..], counts, keep);
      counts := CountChanges(h[i], older[i + 1..], counts);
      d := Prepend(Commit(h[i].id, kept), d);
    }
    assert older[0..] == older;
  }

  method KeepChanges(changes: seq<Change>, ghost newer: seq<Commit>, counts: map<RowId, nat>, keep: nat)
    returns (kept: seq<Change>)
    requires forall id :: Newer(newer, id) == CountOf(counts, id)
    ensures kept == Kept(changes, newer, keep)
  {
    kept := [];
    for j := 0 to |changes|
      invariant kept == Kept(changes[..j], newer, keep)
    {
      assert changes[..j + 1][..j] == changes[..j];
      var id := changes[j].id;
      if CountOf(counts, id) < keep {
        kept := kept + [changes[j]];
      }
    }
    assert changes[..|changes|] == changes;
  }

  method CountChanges(c: Commit, ghost newer: seq<Commit>, counts: map<RowId, nat>) returns (r: map<RowId, nat>)
    requires Unique(c.changes)
    requires forall id :: Newer(newer, id) == CountOf(counts, id)
    ensures forall id :: CountOf(r, id) == Newer(newer, id) + if Touches(c, id) then 1 else 0
  {
    r := counts;
    for j := 0 to |c.changes|
      invariant forall id ::
        CountOf(r, id) == Newer(newer, id) + if Touches(Commit(c.id, c.changes[..j]), id) then 1 else 0
    {
      var id := c.changes[j].id;
      assert c.changes[..j + 1] == c.changes[..j] + [c.changes[j]] && !Touches(Commit(c.id, c.changes[..j]), id);
      assert c.changes[..j + 1][j].id == id;
      assert forall k :: 0 <= k < j ==> c.changes[..j][k] == c.changes[..j + 1][k];
      r := r[id := CountOf(r, id) + 1];
    }
    assert c.changes[..|c.changes|] == c.changes;
  }

  // ---- Snapshots kept whole ----

  /** A new epoch is forced where the stored one differs from that of the snapshot before. */
  predicate Forced(previous: Option<Snapshot>, s: Snapshot)
  {
    previous.Some? && s.epoch != 0 && s.epoch != EffectiveEpoch(previous.value)
  }

  function CompactFrom(previous: Option<Snapshot>, vs: seq<Version>): Result<seq<Version>, MvccError>
    decreases |vs|
  {
    if vs == [] then Ok([])
    else
      var s := Stored(previous, vs[0].snapshot, Forced(previous, vs[0].snapshot));
      if s.Err? then Err(s.error)
      else
        var rest := CompactFrom(Some(s.value), vs[1..]);
        if rest.Err? then rest else Ok([Version(vs[0].id, s.value)] + rest.value)
  }

  ghost predicate SameImages(a: seq<Version>, b: seq<Version>)
  {
    |a| == |b| &&
    forall i :: 0 <= i < |a| ==>
      a[i].id == b[i].id && a[i].snapshot.layout == b[i].snapshot.layout && a[i].snapshot.rows == b[i].snapshot.rows
  }

  function After(previous: Option<Snapshot>, vs: seq<Version>, i: nat): Option<Snapshot>
    requires i <= |vs|
  {
    if i == 0 then previous else Some(vs[i - 1].snapshot)
  }

  function EpochBefore(previous: Option<Snapshot>): nat
  {
    if previous.Some? then EffectiveEpoch(previous.value) else 0
  }

  lemma StoredBuilds(previous: Option<Snapshot>, current: Snapshot, force: bool)
    requires EpochBefore(previous) < U64_MAX
    ensures var r := Stored(previous, current, force);
            r.Ok? && BuiltOn(previous, r.value) && EpochBefore(Some(r.value)) <= EpochBefore(previous) + 1 &&
            r.value.layout == current.layout && r.value.rows == current.rows
  {
    hide Differences, CurrentRows, PreviousRows;
  }

  /** Compaction keeps every image and rebuilds the changes between them; it does not fail. */
  lemma {:induction false} CompactBuilds(previous: Option<Snapshot>, vs: seq<Version>)
    requires |vs| + EpochBefore(previous) <= U64_MAX
    ensures var r := CompactFrom(previous, vs);
            r.Ok? && SameImages(r.value, vs) &&
            forall i :: 0 <= i < |vs| ==> BuiltOn(After(previous, r.value, i), r.value[i].snapshot)
    decreases |vs|
  {
    hide Stored, BuiltOn, EpochBefore, Forced;
    if vs != [] {
      StoredBuilds(previous, vs[0].snapshot, Forced(previous, vs[0].snapshot));
      var s := Stored(previous, vs[0].snapshot, Forced(previous, vs[0].snapshot)).value;
      CompactBuilds(Some(s), vs[1..]);
      var rest := CompactFrom(Some(s), vs[1..]).value;
      var all := [Version(vs[0].id, s)] + rest;
      assert CompactFrom(previous, vs).value == all;
      forall i | 0 <= i < |all| ensures BuiltOn(After(previous, all, i), all[i].snapshot) {
        assert i > 0 ==> BuiltOn(After(Some(s), rest, i - 1), rest[i - 1].snapshot);
      }
    }
  }

  method CompactSnapshots(a: array<Version>) returns (r: Result<(), MvccError>)
    modifies a
    ensures r.Ok? == CompactFrom(None, old(a[..])).Ok?
    ensures r.Ok? ==> a[..] == CompactFrom(None, old(a[..])).value
  {
    hide Stored, Forced;
    ghost var was := a[..];
    var previous: Option<Snapshot> := None;
    for i := 0 to a.Length
      invariant a[i..] == was[i..]
      invariant CompactFrom(None, was).Ok? == CompactFrom(previous, was[i..]).Ok?
      invariant CompactFrom(None, was).Ok? ==>
        CompactFrom(None, was).value == a[..i] + CompactFrom(previous, was[i..]).value
    {
      var current := a[i].snapshot;
      assert a[i] == was[i..][0] && was[i..][1..] == was[i + 1..];
      var rebuilt := ChangesForCommit(previous, current, Forced(previous, current));
      if rebuilt.Err? {
        return Err(rebuilt.error);
      }
      ghost var rest := CompactFrom(Some(rebuilt.value), was[i + 1..]);
      a[i] := Version(a[i].id, rebuilt.value);
      assert rest.Ok? ==> a[..i + 1] + rest.value == a[..i] + ([a[i]] + rest.value);
      previous := Some(rebuilt.value);
    }
    return Ok(());
  }

  // ---- A table's history file ----

  function LastOf(vs: seq<Version>, n: nat): seq<Version>
  {
    if |vs| <= n then vs else vs[|vs| - n..]
  }

  /** Rows kept on their own come first, and the snapshots after them are built one on another. */
  ghost predicate ValidHistory(detached: seq<Commit>, vs: seq<Version>)
  {
    var all := detached + Commits(vs);
    Sorted(all) && AllUnique(all) && IdsAbove(all, 0) && Built(vs) && |vs| <= U64_MAX
  }

  lemma Extended(detached: seq<Commit>, vs: seq<Version>, v: Version)
    requires ValidHistory(detached, vs) && BuiltOn(Before(vs, |vs|), v.snapshot) && Unique(ChangesOf(v.snapshot))
    requires v.id > 0 && IdsBelow(detached + Commits(vs), v.id) && |vs| < U64_MAX
    ensures ValidHistory(detached, vs + [v])
  {
    hide Unique, BuiltOn, ChangesOf;
    var all := detached + Commits(vs);
    assert detached + Commits(vs + [v]) == all + [Commit(v.id, ChangesOf(v.snapshot))];
    forall i | 0 <= i < |vs + [v]| ensures BuiltOn(Before(vs + [v], i), (vs + [v])[i].snapshot) {
      assert Before(vs + [v], i) == Before(vs, i);
    }
  }

  /** The transactions before the snapshots that are kept. */
  function Older(detached: seq<Commit>, vs: seq<Version>, keepLast: nat): seq<Commit>
  {
    var all := detached + Commits(vs);
    all[..|all| - |LastOf(vs, keepLast)|]
  }

  /** The history falls into the older transactions and the snapshots that are kept. */
  lemma OlderSplits(detached: seq<Commit>, vs: seq<Version>, keepLast: nat)
    requires ValidHistory(detached, vs)
    ensures var older, retained := Older(detached, vs, keepLast), Commits(LastOf(vs, keepLast));
            detached + Commits(vs) == older + retained &&
            Sorted(older) && AllUnique(older) && IdsAbove(older, 0) && Sorted(retained) && IdsAbove(retained, 0) &&
            (retained != [] ==> IdsBelow(older, retained[0].id))
  {
    hide Sorted, AllUnique, IdsAbove, Built, ChangesOf;
    var all, older, retained := detached + Commits(vs), Older(detached, vs, keepLast), Commits(LastOf(vs, keepLast));
    assert all == older + retained;
    Parted(older, retained);
  }

  lemma Parted(a: seq<Commit>, b: seq<Commit>)
    requires Sorted(a + b) && AllUnique(a + b) && IdsAbove(a + b, 0)
    ensures Sorted(a) && AllUnique(a) && IdsAbove(a, 0) && Sorted(b) && IdsAbove(b, 0)
    ensures b != [] ==> IdsBelow(a, b[0].id)
  {
    hide Unique;
    assert forall i :: 0 <= i < |a| ==> a[i] == (a + b)[i];
    assert forall i :: 0 <= i < |b| ==> b[i] == (a + b)[|a| + i];
  }

  lemma SameImagesSameIds(a: seq<Version>, b: seq<Version>, t: nat)
    requires SameImages(a, b)
    ensures Sorted(Commits(b)) ==> Sorted(Commits(a))
    ensures IdsAbove(Commits(b), t) ==> IdsAbove(Commits(a), t)
  {
    assert forall i :: 0 <= i < |a| ==> Commits(a)[i].id == Commits(b)[i].id;
  }

  lemma CompactedIsBuilt(vs: seq<Version>)
    requires |vs| <= U64_MAX
    ensures var r := CompactFrom(None, vs);
            r.Ok? && Built(r.value) && SameImages(r.value, vs) && AllUnique(Commits(r.value))
  {
    hide BuiltOn, CompactFrom, Unique;
    assert EpochBefore(None) == 0;
    CompactBuilds(None, vs);
    var r := CompactFrom(None, vs).value;
    forall i | 0 <= i < |r| ensures BuiltOn(Before(r, i), r[i].snapshot) {
      assert BuiltOn(After(None, r, i), r[i].snapshot);
    }
    forall i | 0 <= i < |r| ensures Unique(Commits(r)[i].changes) {
      BuiltMirrors(r, i);
    }
  }

  lemma Collected(detached: seq<Commit>, vs: seq<Version>, kept: seq<Version>, rows: seq<Commit>, keepLast: nat,
                  keep: nat)
    requires ValidHistory(detached, vs) && CompactFrom(None, LastOf(vs, keepLast)) == Ok(kept)
    requires rows == [] || rows == KeepFrom(Older(detached, vs, keepLast), keep)
    ensures ValidHistory(rows, kept) && SameImages(kept, LastOf(vs, keepLast))
  {
    hide Unique, Built, CompactFrom, KeepFrom;
    var older, retained := Older(detached, vs, keepLast), LastOf(vs, keepLast);
    OlderSplits(detached, vs, keepLast);
    CompactedIsBuilt(retained);
    SameImagesSameIds(kept, retained, 0);
    KeepFromOrdered(older, keep);
    assert kept != [] ==> IdsBelow(rows, Commits(kept)[0].id);
    Joined(rows, Commits(kept));
  }

  lemma Joined(a: seq<Commit>, b: seq<Commit>)
    requires Sorted(a) && Sorted(b) && AllUnique(a) && AllUnique(b) && IdsAbove(a, 0) && IdsAbove(b, 0)
    requires b != [] ==> IdsBelow(a, b[0].id)
    ensures Sorted(a + b) && AllUnique(a + b) && IdsAbove(a + b, 0)
  {
    hide Unique;
  }

  /** After collection a read at a transaction of kept rows finds what it found before, or nothing. */
  lemma DetachedReadsTruthful(detached: seq<Commit>, vs: seq<Version>, kept: seq<Version>, keepLast: nat, keep: nat,
                              t: nat, id: RowId)
    requires ValidHistory(detached, vs) && SameImages(kept, LastOf(vs, keepLast)) && kept != []
    requires Retained(KeepFrom(Older(detached, vs, keepLast), keep), t)
    ensures var rows := KeepFrom(Older(detached, vs, keepLast), keep);
            RowAt(rows + Commits(kept), t, id) in {RowAt(detached + Commits(vs), t, id), Ok(None)}
  {
    hide ValidHistory, KeepFrom, Latest, LastOf, AllUnique;
    var older, retained := Older(detached, vs, keepLast), LastOf(vs, keepLast);
    var rows := KeepFrom(older, keep);
    OlderSplits(detached, vs, keepLast);
    KeptIsTruthful(older, keep, t, id);
    KeepFromOrdered(older, keep);
    assert IdsBelow(rows, Commits(retained)[0].id);
    assert IdsAbove(Commits(retained), t);
    SameImagesSameIds(kept, retained, t);
    LatestAppend(rows, Commits(kept), t, id);
    LatestAppend(older, Commits(retained), t, id);
    KeptIds(older, keep, t);
    StaysRetained(rows, Commits(kept), t);
    StaysRetained(older, Commits(retained), t);
  }

  lemma {:induction false} LatestConcat(a: seq<Commit>, b: seq<Commit>, t: nat, id: RowId)
    requires IdsBelow(a, t + 1)
    ensures Latest(a + b, t, id) == if Latest(b, t, id).Some? then Latest(b, t, id) else Latest(a, t, id)
    decreases |a|
  {
    hide InCommit;
    if a == [] {
      assert a + b == b;
    } else {
      LatestConcat(a[1..], b, t, id);
      assert (a + b)[1..] == a[1..] + b;
    }
  }

  /** The newest version of a row is always kept. */
  lemma {:induction false} NewestKept(h: seq<Commit>, keep: nat, t: nat, id: RowId)
    requires AllUnique(h) && IdsBelow(h, t + 1) && keep > 0
    ensures Latest(KeepFrom(h, keep), t, id) == Latest(h, t, id)
    ensures Latest(h, t, id).None? <==> Newer(h, id) == 0
    decreases |h|
  {
    hide Unique, Kept, LastIn, Touches;
    if h != [] {
      NewestKept(h[1..], keep, t, id);
      var first := Commit(h[0].id, Kept(h[0].changes, h[1..], keep));
      LatestPrepend(first, KeepFrom(h[1..], keep), t, id);
      KeptLast(h[0].changes, h[1..], keep, id);
      LastInTouches(h[0], id);
    }
  }

  /** A read at the transaction of a kept snapshot: what the compacted snapshots say of the ID, and else
      what was last said before them, when rows are kept. */
  function SnapshotRead(older: seq<Commit>, keepRows: Option<nat>, kept: seq<Version>, i: nat, id: RowId)
    : Result<Option<RowVersion>, MvccError>
    requires i < |kept|
  {
    if id.epoch == 0 || id.number == 0 then Err(BadArgument)
    else
      var said := Latest(Commits(kept), kept[i].id, id);
      Ok(if said.Some? || keepRows.None? then said else Latest(older, kept[i].id, id))
  }

  lemma SnapshotReads(detached: seq<Commit>, vs: seq<Version>, rows: seq<Commit>, kept: seq<Version>, keepLast: nat,
                      keepRows: Option<nat>, i: nat, id: RowId)
    requires ValidHistory(detached, vs) && SameImages(kept, LastOf(vs, keepLast)) && i < |kept|
    requires keepRows != Some(0)
    requires rows == if keepRows.None? then [] else KeepFrom(Older(detached, vs, keepLast), keepRows.value)
    ensures RowAt(rows + Commits(kept), kept[i].id, id) ==
      SnapshotRead(Older(detached, vs, keepLast), keepRows, kept, i, id)
  {
    hide ValidHistory, KeepFrom, Latest, LastOf, AllUnique;
    var older, retained, t := Older(detached, vs, keepLast), LastOf(vs, keepLast), kept[i].id;
    OlderSplits(detached, vs, keepLast);
    assert Commits(retained)[i].id == t && Commits(retained)[0].id <= t && IdsBelow(older, t + 1);
    if keepRows.Some? {
      NewestKept(older, keepRows.value, t, id);
      KeepFromOrdered(older, keepRows.value);
    }
    LatestConcat(rows, Commits(kept), t, id);
    assert Latest([], t, id).None? by { EmptySays(t, id); }
    assert Commits(kept)[i].id == t && (rows + Commits(kept))[|rows| + i].id == t;
  }

  lemma EmptySays(t: nat, id: RowId)
    ensures Latest([], t, id).None?
  {
  }

  lemma StaysRetained(a: seq<Commit>, b: seq<Commit>, t: nat)
    requires Retained(a, t)
    ensures Retained(a + b, t)
  {
    var i :| 0 <= i < |a| && a[i].id == t;
    assert (a + b)[i].id == t;
  }

  lemma KeptCount(detached: seq<Commit>, vs: seq<Version>, keepLast: nat)
    requires ValidHistory(detached, vs)
    ensures |LastOf(vs, keepLast)| <= U64_MAX && AllUnique(detached + Commits(vs))
  {
  }

  lemma {:induction false} KeptIds(h: seq<Commit>, keep: nat, t: nat)
    requires Retained(KeepFrom(h, keep), t)
    ensures Retained(h, t)
    decreases |h|
  {
    if h != [] {
      if h[0].id != t {
        KeptIds(h[1..], keep, t);
        var i :| 0 <= i < |h[1..]| && h[1..][i].id == t;
        assert h[i + 1].id == t;
      }
    }
  }

  lemma {:induction false} FlatTouched(h: seq<Commit>, id: RowId)
    requires AllUnique(h)
    ensures LastIn(Flat(h), id) == None <==> forall c :: c in h ==> !Touches(c, id)
    decreases |h|
  {
    if h != [] {
      FlatTouched(h[1..], id);
      LastInConcat(h[0].changes, Flat(h[1..]), id);
      LastInTouches(h[0], id);
      assert forall c :: c in h <==> c == h[0] || c in h[1..];
    }
  }

  /** The ID is of a later epoch than the snapshot, or of its epoch and beyond its rows. */
  predicate Beyond(id: RowId, s: Snapshot)
  {
    id.epoch > s.epoch || (id.epoch == s.epoch && id.number > |s.rows|)
  }

  /** Beyond the rows of a snapshot a read finds nothing exactly when no kept row has the ID it asks
      for: compaction numbers epochs anew, and the kept rows have theirs from before. */
  lemma BeyondRangeIff(detached: seq<Commit>, vs: seq<Version>, i: nat, id: RowId)
    requires ValidHistory(detached, vs) && i < |vs| && id.epoch > 0 && id.number > 0 && Beyond(id, vs[i].snapshot)
    ensures
      RowAt(detached + Commits(vs), vs[i].id, id) == Ok(None) <==> forall c :: c in detached ==> !Touches(c, id)
  {
    hide Unique, Built, Flat, LastIn, Latest, Touches;
    var h, k := detached + Commits(vs), |detached| + i;
    assert h[k].id == vs[i].id;
    BuiltMirrors(vs, i);
    assert MirrorsAt(Flat(Commits(vs)[..i + 1]), vs[i].snapshot, id);
    assert h[..k + 1] == detached + Commits(vs)[..i + 1];
    FlatConcat(detached, Commits(vs)[..i + 1]);
    LastInConcat(Flat(detached), Flat(Commits(vs)[..i + 1]), id);
    LatestIsLastIn(h, k + 1, vs[i].id, id);
    assert forall j :: 0 <= j < |detached| ==> detached[j] == h[j];
    FlatTouched(detached, id);
  }

  lemma AtSnapshot(detached: seq<Commit>, vs: seq<Version>, i: nat)
    requires ValidHistory(detached, vs) && i < |vs|
    ensures Sorted(Commits(vs)) && IdsBelow(detached, vs[i].id + 1) && vs[i].id > 0
    ensures Commits(vs[..i + 1]) == Commits(vs)[..i + 1] && AllUnique(Commits(vs[..i + 1]))
    ensures Retained(detached + Commits(vs), vs[i].id)
  {
    hide Unique, Built, ChangesOf;
    var h := detached + Commits(vs);
    Parted(detached, Commits(vs));
    assert forall j :: 0 <= j < |vs| ==> h[|detached| + j] == Commits(vs)[j];
    assert h[|detached| + i].id == vs[i].id && Commits(vs)[0].id <= Commits(vs)[i].id;
  }

  /** For an ID of an older epoch a read finds a live row exactly when no snapshot up to then changes
      that ID and its last kept version is live. */
  lemma OlderEpochIff(detached: seq<Commit>, vs: seq<Version>, i: nat, id: RowId)
    requires ValidHistory(detached, vs) && i < |vs| && 0 < id.epoch < vs[i].snapshot.epoch && id.number > 0
    ensures var r, last := RowAt(detached + Commits(vs), vs[i].id, id), Latest(detached, vs[i].id, id);
      r.Ok? &&
      (r.value.Some? && !r.value.value.row.deleted <==>
        (forall c :: c in Commits(vs[..i + 1]) ==> !Touches(c, id)) && last.Some? && !last.value.row.deleted)
  {
    hide Built, Flat, LastIn, Latest, Touches, AllUnique, Retained, IdsAbove;
    var mine := Commits(vs[..i + 1]);
    AtSnapshot(detached, vs, i);
    assert Commits(vs)[i].id == vs[i].id;
    BuiltMirrors(vs, i);
    assert MirrorsAt(Flat(mine), vs[i].snapshot, id);
    LatestConcat(detached, Commits(vs), vs[i].id, id);
    LatestIsLastIn(Commits(vs), i + 1, vs[i].id, id);
    FlatTouched(mine, id);
  }

  lemma {:induction false} KeptAll(changes: seq<Change>)
    ensures Kept(changes, [], 1) == changes
    decreases |changes|
  {
    if changes != [] {
      KeptAll(changes[..|changes| - 1]);
    }
  }

  lemma CompactOne(v: Version)
    ensures CompactFrom(None, [v]) == Ok([Version(v.id, Stored(None, v.snapshot, false).value)])
  {
    var kept := Version(v.id, Stored(None, v.snapshot, false).value);
    assert CompactFrom(Some(kept.snapshot), [v][1..]) == Ok([]) && [kept] + [] == [kept];
  }

  /** Such a kept row: a table of two rows shrinks to one and its history is collected. Row 2 at the
      second transaction then reads as the live row of the first. */
  lemma ShrunkenRowReappears(layout: Layout, row: Row)
    ensures var first := Stored(None, Snapshot(layout, [row, row], 1, None), false).value;
            var second := Stored(Some(first), Snapshot(layout, [row], 1, None), false).value;
            var vs := [Version(1, first), Version(2, second)];
            var rows, kept := KeepFrom(Older([], vs, 1), 1), [Version(2, Stored(None, second, false).value)];
            CompactFrom(None, LastOf(vs, 1)) == Ok(kept) &&
            kept[0].snapshot.rows == [row] && kept[0].snapshot.epoch == 1 &&
            RowAt(rows + Commits(kept), 2, RowId(1, 2)) == Ok(Some(RowVersion(RowId(1, 2), 1, row)))
  {
    hide LastIn;
    var first := Stored(None, Snapshot(layout, [row, row], 1, None), false).value;
    var second := Stored(Some(first), Snapshot(layout, [row], 1, None), false).value;
    var vs, id := [Version(1, first), Version(2, second)], RowId(1, 2);
    var c1, c2 := Commit(1, CurrentRows([row, row], 1)), Commit(2, CurrentRows([row], 1));
    assert Older([], vs, 1) == [c1];
    KeptAll(c1.changes);
    assert KeepFrom([c1], 1) == Prepend(Commit(1, Kept(c1.changes, [c1][1..], 1)), KeepFrom([c1][1..], 1)) == [c1];
    assert LastOf(vs, 1) == [Version(2, second)];
    CompactOne(Version(2, second));
    var kept := [Version(2, Stored(None, second, false).value)];
    assert Commits(kept) == [c2];
    RowsLast([row, row], 1, id);
    RowsLast([row], 1, id);
    assert [c1] + [c2] == [c1, c2] && [c1, c2][1..] == [c2] && [c2][1..] == [];
    assert Latest([c2], 2, id) == None;
    assert [c1, c2][1].id == 2;
  }

  /** The commit would need an epoch past the last one. */
  predicate Exhausts(vs: seq<Version>, s: Snapshot, force: bool)
  {
    vs != [] && vs[|vs| - 1].snapshot.epoch == U64_MAX && NewLayout(vs[|vs| - 1].snapshot, s, force)
  }

  /** What the history file of a table holds: rows kept on their own, and after them the committed
      snapshots. */
  class HistoryFile {
    var detached: seq<Commit>
    var versions: seq<Version>

    constructor ()
      ensures Valid() && detached == [] && versions == []
    {
      detached, versions := [], [];
    }

    function All(): seq<Commit>
      reads this
    {
      detached + Commits(versions)
    }

    ghost predicate Valid()
      reads this
    {
      ValidHistory(detached, versions)
    }

    /** Stores the image of a new transaction. */
    method CommitSnapshot(id: nat, layout: Layout, rows: seq<Row>, force: bool) returns (r: Result<(), MvccError>)
      requires Valid() && id > 0 && |versions| < U64_MAX
      requires IdsBelow(All(), id)
      modifies this
      ensures Valid()
      ensures r.Err? == Exhausts(old(versions), Snapshot(layout, rows, 1, None), force)
      ensures r.Err? ==> unchanged(this)
      ensures r.Ok? ==> detached == old(detached)
      ensures r.Ok? ==>
        var stored := Stored(Before(old(versions), |old(versions)|), Snapshot(layout, rows, 1, None), force);
        stored.Ok? && versions == old(versions) + [Version(id, stored.value)]
    {
      var n := |versions|;
      var previous := Before(versions, n);
      var stored := ChangesForCommit(previous, Snapshot(layout, rows, 1, None), force);
      if n > 0 {
        BuiltMirrors(versions, n - 1);
      }
      if stored.Err? {
        return Err(stored.error);
      }
      ghost var was := versions;
      StoredUnique(previous, Snapshot(layout, rows, 1, None), force);
      versions := versions + [Version(id, stored.value)];
      Extended(detached, was, versions[n]);
      return Ok(());
    }

    /** Keeps the newest `keepLast` snapshots, and of the transactions before them the newest
        `keepRows` versions of every row. */
    method Gc(keepLast: nat, keepRows: Option<nat>) returns (r: Result<seq<nat>, MvccError>)
      requires Valid()
      modifies this
      ensures Valid()
      ensures r.Err? <==> keepLast == 0 || keepRows == Some(0)
      ensures r.Err? ==> unchanged(this)
      ensures r.Ok? ==> |r.value| == |versions| && forall i :: 0 <= i < |versions| ==> r.value[i] == versions[i].id
      ensures r.Ok? ==> CompactFrom(None, old(LastOf(versions, keepLast))) == Ok(versions)
      ensures r.Ok? ==> SameImages(versions, old(LastOf(versions, keepLast)))
      ensures r.Ok? ==> keepRows.None? || versions == [] ==> detached == []
      ensures r.Ok? && keepRows.Some? && versions != [] ==>
        detached == KeepFrom(old(Older(detached, versions, keepLast)), keepRows.value)
      ensures r.Ok? ==> forall t, id :: Retained(detached, t) ==>
        RowAt(All(), t, id) in {old(RowAt(All(), t, id)), Ok(None)}
      ensures r.Ok? ==> forall i, id :: 0 <= i < |versions| ==>
        RowAt(All(), versions[i].id, id) ==
        SnapshotRead(old(Older(detached, versions, keepLast)), keepRows, versions, i, id)
    {
      hide ValidHistory, KeepFrom, CompactFrom, RowAt, SameImages, SnapshotRead;
      if keepLast == 0 || keepRows == Some(0) {
        return Err(BadArgument);
      }
      var all, retained := All(), LastOf(versions, keepLast);
      var kept := new Version[|retained|](i requires 0 <= i < |retained| => retained[i]);
      assert kept[..] == retained;
      KeptCount(detached, versions, keepLast);
      CompactedIsBuilt(retained);
      var compacted := CompactSnapshots(kept);
      var rows: seq<Commit> := [];
      if keepRows.Some? && retained != [] {
        rows := DetachedHistory(all, |all| - |retained|, keepRows.value);
      }
      ghost var keep := if keepRows.Some? then keepRows.value else 0;
      Collected(detached, versions, kept[..], rows, keepLast, keep);
      forall t, id | Retained(rows, t)
        ensures RowAt(rows + Commits(kept[..]), t, id) in {RowAt(all, t, id), Ok(None)}
      {
        DetachedReadsTruthful(detached, versions, kept[..], keepLast, keep, t, id);
      }
      ghost var older := Older(detached, versions, keepLast);
      forall i, id | 0 <= i < |retained|
        ensures RowAt(rows + Commits(kept[..]), kept[..][i].id, id) == SnapshotRead(older, keepRows, kept[..], i, id)
      {
        SnapshotReads(detached, versions, rows, kept[..], keepLast, keepRows, i, id);
      }
      detached, versions := rows, kept[..];
      var ids := seq(|versions|, i requires 0 <= i < |versions| reads this => versions[i].id);
      return Ok(ids);
    }
  }
}
