/** `recover`, `cleanup_orphans` and `retain_generations` run by the only client. */
module EdgeMaintenance {
  import opened Base
  import opened EdgePages
  import opened EdgeProtocol

  // ---- Recovery ----

  predicate IsComplete(s: Store, p: PendingCommit)
  {
    ReadPending(s, p) == Ok(true)
  }

  /** The complete intents of `s`, in the order recovery replays them. */
  ghost predicate ReplayOrder(s: Store, left: seq<PendingCommit>)
  {
    SortedByTarget(left) && (forall p :: p in left ==> p.targetGeneration in s.wal && s.wal[p.targetGeneration] == p) &&
    (forall p :: p in left ==> IsComplete(s, p)) &&
    (forall g :: g in s.wal && IsComplete(s, s.wal[g]) ==> s.wal[g] in left)
  }

  /** The manifest after replaying `left`, and how many of them took effect. */
  function ReplayAll(m: Option<Manifest>, left: seq<PendingCommit>): Result<(Option<Manifest>, nat), StoreError>
    decreases |left|
  {
    if left == [] then Ok((m, 0))
    else if m.Some? && !ValidManifest(m.value) then Err(Invalid)
    else match Decide(m, left[0])
      case NoLongerFollows => Err(Conflict)
      case Superseded => ReplayAll(m, left[1..])
      case AlreadyCurrent => Count(ReplayAll(m, left[1..]))
      case Advance =>
        match NextManifest(m, left[0].targetGeneration, left[0].root, left[0].walHead)
        case Err(e) => Err(e)
        case Ok(successor) => Count(ReplayAll(Some(successor), left[1..]))
  }

  function Count(r: Result<(Option<Manifest>, nat), StoreError>): Result<(Option<Manifest>, nat), StoreError>
  {
    match r
    case Ok((m, n)) => Ok((m, n + 1))
    case Err(e) => Err(e)
  }

  function Incomplete(s: Store): map<nat, PendingCommit>
  {
    map g | g in s.wal && !IsComplete(s, s.wal[g]) :: s.wal[g]
  }

  /** Recovery took `s` to `s'` and reported `n`. */
  ghost predicate RecoversTo(s: Store, s': Store, n: nat)
  {
    (forall g :: g in s.wal ==> ValidPending(g, s.wal[g]) && ReadPending(s, s.wal[g]).Ok?) &&
    (exists left :: ReplayOrder(s, left) && ReplayAll(s.manifest, left) == Ok((s'.manifest, n))) &&
    s' == Store(s'.manifest, Incomplete(s), s.roots, s.pages)
  }

  function Targets(left: seq<PendingCommit>): set<nat>
  {
    set p | p in left :: p.targetGeneration
  }

  /** Every intent is well formed and none is complete. */
  ghost predicate NothingPending(s: Store)
  {
    forall g :: g in s.wal ==> ValidPending(g, s.wal[g]) && ReadPending(s, s.wal[g]) == Ok(false)
  }

  lemma CompleteAreGone(s: Store, s': Store, left: seq<PendingCommit>)
    requires ReplayOrder(s, left) && s' == s.(manifest := s'.manifest, wal := s.wal - Targets(left))
    requires forall g :: g in s.wal ==> ValidPending(g, s.wal[g]) && ReadPending(s, s.wal[g]).Ok?
    ensures s'.wal == Incomplete(s) && NothingPending(s')
  {
    forall g | g in s.wal ensures g in Targets(left) <==> IsComplete(s, s.wal[g]) {
      if g in Targets(left) {
        var p :| p in left && p.targetGeneration == g;
      }
      if IsComplete(s, s.wal[g]) { assert s.wal[g] in left && s.wal[g].targetGeneration == g; }
    }
    forall g | g in s'.wal ensures ReadPending(s', s'.wal[g]) == Ok(false) {
      assert ReadPending(s', s.wal[g]) == ReadPending(s, s.wal[g]);
    }
  }

  /** What every run keeps of a store: the manifest is valid and the root of each generation in its
      history is there and valid, and every intent is valid and not ahead of the manifest. */
  ghost predicate Sound(s: Store)
  {
    SoundManifest(s, s.manifest) &&
    forall g :: g in s.wal ==> ValidPending(g, s.wal[g]) && NotAhead(s.manifest, s.wal[g])
  }

  ghost predicate SoundManifest(s: Store, m: Option<Manifest>)
  {
    m.Some? ==> ValidManifest(m.value) && forall g :: g in ManifestHistory(m.value) ==> SoundRoot(s, g)
  }

  predicate SoundRoot(s: Store, g: nat)
  {
    g in s.roots && ValidPageManifest(s.roots[g], g, MAX_FILE_SIZE)
  }

  predicate NotAhead(m: Option<Manifest>, p: PendingCommit)
  {
    p.baseGeneration.Some? ==> m.Some? && p.baseGeneration.value <= m.value.generation
  }

  ghost predicate AllReadable(s: Store)
  {
    forall g :: g in s.wal ==> ReadPending(s, s.wal[g]).Ok?
  }

  lemma CompleteHasRoot(s: Store, p: PendingCommit)
    requires IsComplete(s, p)
    ensures SoundRoot(s, p.root)
  {
  }

  lemma ReplayNone(m: Option<Manifest>)
    ensures ReplayAll(m, []) == Ok((m, 0))
  {
  }

  lemma ReplayFirst(s: Store, m: Option<Manifest>, p: PendingCommit)
    requires SoundManifest(s, m) && ValidPending(p.targetGeneration, p) && NotAhead(m, p) && IsComplete(s, p)
    ensures Decide(m, p) != NoLongerFollows
    ensures Decide(m, p) == Advance ==>
      var next := NextManifest(m, p.targetGeneration, p.root, p.walHead);
      next.Ok? && SoundManifest(s, Some(next.value)) && (m.Some? ==> m.value.generation <= next.value.generation)
  {
    hide IsComplete, ValidPageManifest;
    CompleteHasRoot(s, p);
  }

  lemma ReplayUnfolds(m: Option<Manifest>, left: seq<PendingCommit>)
    requires left != [] && (m.Some? ==> ValidManifest(m.value)) && Decide(m, left[0]) != NoLongerFollows
    ensures var next := NextManifest(m, left[0].targetGeneration, left[0].root, left[0].walHead);
      ReplayAll(m, left) ==
      if Decide(m, left[0]) == Superseded then ReplayAll(m, left[1..])
      else if Decide(m, left[0]) == AlreadyCurrent then Count(ReplayAll(m, left[1..]))
      else if next.Err? then Err(next.error) else Count(ReplayAll(Some(next.value), left[1..]))
  {
    hide NextManifest, Decide;
  }

  /** Replaying intents that are complete and not ahead always succeeds, and keeps the store sound. */
  lemma {:induction false} ReplaySucceeds(s: Store, m: Option<Manifest>, left: seq<PendingCommit>)
    requires SoundManifest(s, m)
    requires forall p :: p in left ==> ValidPending(p.targetGeneration, p) && NotAhead(m, p) && IsComplete(s, p)
    ensures var r := ReplayAll(m, left);
      r.Ok? && SoundManifest(s, r.value.0) &&
      (m.Some? ==> r.value.0.Some? && m.value.generation <= r.value.0.value.generation)
    decreases |left|
  {
    hide IsComplete, ValidPageManifest, SoundRoot, ReplayAll;
    if left == [] {
      ReplayNone(m);
    } else {
      var p, rest := left[0], left[1..];
      assert p in left && forall q :: q in rest ==> q in left;
      ReplayFirst(s, m, p);
      ReplayUnfolds(m, left);
      if Decide(m, p) == Advance {
        ReplaySucceeds(s, Some(NextManifest(m, p.targetGeneration, p.root, p.walHead).value), rest);
      } else {
        ReplaySucceeds(s, m, rest);
      }
    }
  }

  lemma SameRoots(s: Store, s': Store, g: nat)
    requires s.roots == s'.roots
    ensures SoundRoot(s, g) == SoundRoot(s', g)
  {
  }

  lemma RecoveredIsSound(s: Store, s': Store, left: seq<PendingCommit>)
    requires Sound(s) && ReplayOrder(s, left)
    requires ReplayAll(s.manifest, left).Ok?
    requires s' == Store(ReplayAll(s.manifest, left).value.0, s'.wal, s.roots, s.pages)
    requires Sub(s'.wal, s.wal)
    ensures Sound(s')
  {
    hide IsComplete, ReplayAll, ValidPageManifest, SoundRoot;
    ReplaySucceeds(s, s.manifest, left);
    assert forall g :: SoundRoot(s, g) == SoundRoot(s', g) by {
      forall g ensures SoundRoot(s, g) == SoundRoot(s', g) { SameRoots(s, s', g); }
    }
  }

  // ---- Cleanup ----

  function PageKeys(pm: PageManifest): set<(nat, nat)>
  {
    set i | 0 <= i < |pm.pages| :: (pm.pages[i].generation, i)
  }

  function History(m: Option<Manifest>): set<nat>
  {
    if m.Some? then set g | g in ManifestHistory(m.value) else {}
  }

  /** Intents whose base is the current generation. */
  predicate LiveIntent(s: Store, g: nat)
  {
    g in s.wal && s.wal[g].baseGeneration == GenerationOf(s.manifest)
  }

  predicate LiveRoot(s: Store, g: nat)
  {
    g in s.roots && (g in History(s.manifest) || LiveIntent(s, g))
  }

  /** Reachable from the history or from a live intent. */
  ghost predicate LivePage(s: Store, key: (nat, nat))
  {
    key in s.pages &&
    ((exists g :: g in History(s.manifest) && g in s.roots && key in PageKeys(s.roots[g])) ||
     (exists g :: LiveIntent(s, g) && key in PageKeys(s.wal[g].pageManifest)))
  }

  /** `k` holds exactly the live objects of `s`. */
  ghost predicate KeepsExactlyLive(s: Store, k: Store)
  {
    k.manifest == s.manifest &&
    Sub(k.wal, s.wal) && (forall g :: g in k.wal <==> LiveIntent(s, g)) &&
    Sub(k.roots, s.roots) && (forall g :: g in k.roots <==> LiveRoot(s, g)) &&
    Sub(k.pages, s.pages) && (forall key :: key in k.pages <==> LivePage(s, key))
  }

  lemma {:induction false} SamePagesReadTheSame(a: Pages, b: Pages, pm: PageManifest, index: nat)
    requires index <= |pm.pages|
    requires forall key :: key in PageKeys(pm) ==> (key in a <==> key in b) && (key in a ==> a[key] == b[key])
    ensures ReadPagesFrom(a, pm, index) == ReadPagesFrom(b, pm, index)
    decreases |pm.pages| - index
  {
    if index < |pm.pages| {
      assert (pm.pages[index].generation, index) in PageKeys(pm);
      SamePagesReadTheSame(a, b, pm, index + 1);
    }
  }

  /** Cleanup is invisible to readers: every generation of the history reads as before, and every
      live intent is exactly as recoverable as before. */
  lemma CleanupIsInvisible(s: Store, k: Store, g: nat)
    requires KeepsExactlyLive(s, k)
    ensures ReadAt(k, g) == ReadAt(s, g)
    ensures LiveIntent(s, g) && ValidPending(g, s.wal[g]) ==> ReadPending(k, s.wal[g]) == ReadPending(s, s.wal[g])
  {
    if g in s.roots {
      if g in History(s.manifest) {
        SamePagesReadTheSame(s.pages, k.pages, s.roots[g], 0);
      }
      if LiveIntent(s, g) && s.roots[g] == s.wal[g].pageManifest {
        assert LiveRoot(s, g);
        SamePagesReadTheSame(s.pages, k.pages, s.roots[g], 0);
      }
    }
  }

  lemma CleanedIsSound(s: Store, k: Store)
    requires Sound(s) && KeepsExactlyLive(s, k)
    ensures Sound(k)
  {
    hide ValidPageManifest, LivePage, ValidManifest, ManifestHistory;
    if s.manifest.Some? {
      forall g | g in ManifestHistory(s.manifest.value) ensures SoundRoot(k, g) {
        assert SoundRoot(s, g) && LiveRoot(s, g);
      }
    }
  }

  datatype Removed = Removed(wal: set<nat>, roots: set<nat>, pages: set<(nat, nat)>)

  /** The objects `k` lacks of `s`. */
  function Difference(s: Store, k: Store): Removed
  {
    Removed(s.wal.Keys - k.wal.Keys, s.roots.Keys - k.roots.Keys, s.pages.Keys - k.pages.Keys)
  }

  /** The manifest keeping only the last `n` generations of its history. */
  function Truncated(m: Manifest, n: nat): Manifest
  {
    var h := ManifestHistory(m);
    m.(history := if |h| <= n then h else h[|h| - n..])
  }

  /** Cutting the history and cleaning up after it: kept generations read as before, the others as
      absent, and every live intent is exactly as recoverable as before. */
  lemma RetainedReadTheSame(recovered: Store, k: Store, keepLast: nat, g: nat)
    requires keepLast > 0 && recovered.manifest.Some? && ValidManifest(recovered.manifest.value)
    requires KeepsExactlyLive(recovered.(manifest := Some(Truncated(recovered.manifest.value, keepLast))), k)
    ensures ReadAt(k, g) ==
      if g in ManifestHistory(Truncated(recovered.manifest.value, keepLast)) then ReadAt(recovered, g) else Ok(None)
    ensures LiveIntent(recovered, g) && ValidPending(g, recovered.wal[g]) ==>
      g in k.wal && ReadPending(k, k.wal[g]) == ReadPending(recovered, recovered.wal[g])
  {
    hide ReadSnapshot, ReadPagesFrom;
    CleanupIsInvisible(recovered.(manifest := Some(Truncated(recovered.manifest.value, keepLast))), k, g);
  }

  lemma TruncatedIsSound(s: Store, keepLast: nat)
    requires Sound(s) && s.manifest.Some? && keepLast > 0
    ensures Sound(s.(manifest := Some(Truncated(s.manifest.value, keepLast))))
  {
    hide ValidPageManifest;
    var m := s.manifest.value;
    assert forall g :: g in ManifestHistory(Truncated(m, keepLast)) ==> g in ManifestHistory(m);
    forall g | g in ManifestHistory(m) ensures SoundRoot(s.(manifest := Some(Truncated(m, keepLast))), g) {
      assert SoundRoot(s, g);
    }
  }

  class ObjectTable {
    var store: Store

    constructor (initial: Store)
      ensures store == initial
    {
      store := initial;
    }

    /** The first loop of `recover`: collects the complete intents. */
    method FindComplete() returns (r: Result<seq<PendingCommit>, StoreError>)
      ensures r.Ok? ==> ReplayOrder(store, r.value)
      ensures r.Ok? ==>
        forall g :: g in store.wal ==> ValidPending(g, store.wal[g]) && ReadPending(store, store.wal[g]).Ok?
      ensures r.Err? ==>
        exists g :: g in store.wal && (!ValidPending(g, store.wal[g]) || ReadPending(store, store.wal[g]).Err?)
    {
      var found: seq<PendingCommit> := [];
      var todo := store.wal.Keys;
      while todo != {}
        invariant todo <= store.wal.Keys
        invariant forall p :: p in found ==>
          p.targetGeneration in store.wal && store.wal[p.targetGeneration] == p && IsComplete(store, p)
        invariant forall g :: g in store.wal && g !in todo ==>
          ValidPending(g, store.wal[g]) && ReadPending(store, store.wal[g]).Ok? &&
          (IsComplete(store, store.wal[g]) ==> store.wal[g] in found)
        decreases todo
      {
        var key :| key in todo;
        todo := todo - {key};
        var pending := store.wal[key];
        if !ValidPending(key, pending) { return Err(Invalid); }
        var published := ReadPending(store, pending);
        if published.Err? { return Err(published.error); }
        if published.value { found := found + [pending]; }
      }
      r := Ok(SortByTarget(found));
    }

    /** The second loop of `recover`: advances the manifest over the intents in
        `left` and deletes them. */
    method Replay(left: seq<PendingCommit>) returns (r: Result<nat, StoreError>)
      modifies this
      ensures store.roots == old(store).roots && store.pages == old(store).pages && Sub(store.wal, old(store).wal)
      ensures r.Ok? <==> ReplayAll(old(store).manifest, left).Ok?
      ensures r.Ok? ==> ReplayAll(old(store).manifest, left) == Ok((store.manifest, r.value))
      ensures r.Ok? ==> store.wal == old(store).wal - Targets(left)
      ensures left == [] ==> r == Ok(0) && store == old(store)
    {
      hide NextManifest, Decide, ValidManifest;
      ghost var s := store;
      var i, recovered := 0, 0;
      while i < |left|
        invariant 0 <= i <= |left|
        invariant store == Store(store.manifest, s.wal - Targets(left[..i]), s.roots, s.pages)
        invariant i == 0 ==> store.manifest == s.manifest && recovered == 0
        invariant ReplayAll(s.manifest, left) == Plus(ReplayAll(store.manifest, left[i..]), recovered)
      {
        var pending := left[i];
        assert left[i..][0] == pending && left[i..][1..] == left[i + 1..];
        if store.manifest.Some? && !ValidManifest(store.manifest.value) { return Err(Invalid); }
        var decision := Decide(store.manifest, pending);
        if decision == NoLongerFollows { return Err(Conflict); }
        if decision == Advance {
          var next := NextManifest(store.manifest, pending.targetGeneration, pending.root, pending.walHead);
          if next.Err? { return Err(next.error); }
          store := store.(manifest := Some(next.value));
        }
        assert Targets(left[..i + 1]) == Targets(left[..i]) + {pending.targetGeneration} by {
          assert left[..i + 1] == left[..i] + [pending];
        }
        store := store.(wal := store.wal - {pending.targetGeneration});
        if decision != Superseded { recovered := recovered + 1; }
        i := i + 1;
      }
      assert left[..i] == left && left[i..] == [];
      assert s.wal - Targets([]) == s.wal;
      r := Ok(recovered);
    }

    /** On success no complete intent is left and the manifest is the replay of those there were. */
    method Recover() returns (r: Result<nat, StoreError>)
      modifies this
      ensures store.roots == old(store).roots && store.pages == old(store).pages && Sub(store.wal, old(store).wal)
      ensures r.Ok? ==> RecoversTo(old(store), store, r.value)
      ensures r.Ok? ==> NothingPending(store)
      ensures NothingPending(old(store)) ==> r == Ok(0) && store == old(store)
      ensures Sound(old(store)) ==> (r.Ok? <==> AllReadable(old(store)))
      ensures Sound(old(store)) && r.Ok? ==> Sound(store)
    {
      hide ReadPending, ReplayAll, Incomplete, SoundManifest, ValidPageManifest;
      var found := FindComplete();
      if found.Err? { return Err(found.error); }
      ghost var s := store;
      assert found.value != [] ==> found.value[0] in found.value;
      if Sound(s) { ReplaySucceeds(s, s.manifest, found.value); }
      r := Replay(found.value);
      if r.Ok? {
        CompleteAreGone(s, store, found.value);
        if Sound(s) { RecoveredIsSound(s, store, found.value); }
      }
    }

    /** Recovering again finds nothing to do. */
    method RecoverTwice()
      returns (first: Result<nat, StoreError>, second: Result<nat, StoreError>, ghost between: Store)
      modifies this
      ensures first.Ok? ==> RecoversTo(old(store), between, first.value) && second == Ok(0) && store == between
    {
      first := Recover();
      between := store;
      second := Recover();
    }

    /** The roots and pages that the manifest history refers to. */
    method RetainHistory() returns (r: Result<(set<nat>, set<(nat, nat)>), StoreError>)
      ensures SoundManifest(store, store.manifest) ==> r.Ok?
      ensures r.Ok? ==> r.value.0 == set g | g in History(store.manifest) && g in store.roots
      ensures r.Ok? ==> forall key :: key in r.value.1 <==>
        exists g :: g in History(store.manifest) && g in store.roots && key in PageKeys(store.roots[g])
    {
      var current := store.manifest;
      if current.Some? && !ValidManifest(current.value) { return Err(Invalid); }
      var roots, pages: set<(nat, nat)> := {}, {};
      var history := if current.Some? then ManifestHistory(current.value) else [];
      for i := 0 to |history|
        invariant roots == set g | g in history[..i] && g in store.roots
        invariant forall key :: key in pages <==> exists g :: g in roots && key in PageKeys(store.roots[g])
      {
        var g := history[i];
        assert g in history;
        if g in store.roots {
          if !ValidPageManifest(store.roots[g], g, MAX_FILE_SIZE) { return Err(Invalid); }
          roots := roots + {g};
          pages := pages + PageKeys(store.roots[g]);
        } else if g == current.value.generation {
          return Err(Missing);
        }
      }
      r := Ok((roots, pages));
    }

    /** Deletes intents with another base; adds what the others refer to. */
    method RetainIntents(historyRoots: set<nat>, historyPages: set<(nat, nat)>)
      returns (r: Result<(set<nat>, set<(nat, nat)>), StoreError>, removed: set<nat>)
      modifies this
      ensures store == old(store).(wal := store.wal) && Sub(store.wal, old(store).wal)
      ensures (forall g :: g in old(store).wal ==> ValidPending(g, old(store).wal[g])) ==> r.Ok?
      ensures r.Ok? ==> forall g :: g in store.wal <==> LiveIntent(old(store), g)
      ensures r.Ok? ==> removed == old(store).wal.Keys - store.wal.Keys
      ensures r.Ok? ==> forall g :: g in r.value.0 <==> g in historyRoots || LiveIntent(old(store), g)
      ensures r.Ok? ==> forall key :: key in r.value.1 <==>
        (key in historyPages ||
         exists g :: LiveIntent(old(store), g) && key in PageKeys(old(store).wal[g].pageManifest))
    {
      ghost var s := store;
      var roots, pages := historyRoots, historyPages;
      var todo := store.wal.Keys;
      removed := {};
      while todo != {}
        invariant todo <= s.wal.Keys && store == s.(wal := store.wal) && removed == s.wal.Keys - store.wal.Keys
        invariant Sub(store.wal, s.wal)
        invariant forall g :: g in s.wal ==> (g in store.wal <==> g in todo || LiveIntent(s, g))
        invariant forall g :: g in roots <==> g in historyRoots || (g !in todo && LiveIntent(s, g))
        invariant forall key :: key in pages <==>
          key in historyPages || exists g :: g !in todo && LiveIntent(s, g) && key in PageKeys(s.wal[g].pageManifest)
        decreases todo
      {
        var key :| key in todo;
        var pending := store.wal[key];
        if !ValidPending(key, pending) { return Err(Invalid), removed; }
        todo := todo - {key};
        if pending.baseGeneration == GenerationOf(store.manifest) {
          roots := roots + {pending.root};
          pages := pages + PageKeys(pending.pageManifest);
        } else {
          store := store.(wal := store.wal - {key});
          removed := removed + {key};
        }
      }
      r := Ok((roots, pages));
    }

    /** Deletes the listed objects that are not retained. */
    method Sweep<K(==), V>(objects: map<K, V>, retained: set<K>) returns (kept: map<K, V>, removed: set<K>)
      ensures Sub(kept, objects) && (forall k :: k in kept <==> k in objects && k in retained)
      ensures removed == objects.Keys - kept.Keys
    {
      kept, removed := objects, {};
      var listed := objects.Keys;
      while listed != {}
        invariant listed <= objects.Keys && Sub(kept, objects) && removed == objects.Keys - kept.Keys
        invariant forall k :: k in kept ==> k in listed || k in retained
        invariant forall k :: k in objects && (k in listed || k in retained) ==> k in kept
        decreases listed
      {
        var key :| key in listed;
        listed := listed - {key};
        if key !in retained {
          kept := kept - {key};
          removed := removed + {key};
        }
      }
    }

    /** On success exactly the live objects are left, and the removed ones are reported. */
    method CleanupOrphans() returns (r: Result<Removed, StoreError>)
      modifies this
      ensures store.manifest == old(store).manifest
      ensures Sound(old(store)) ==> r.Ok? && Sound(store)
      ensures r.Ok? ==> KeepsExactlyLive(old(store), store) && r.value == Difference(old(store), store)
      ensures r.Err? ==>
        store.roots == old(store).roots && store.pages == old(store).pages && Sub(store.wal, old(store).wal)
    {
      hide SoundManifest, ValidPageManifest, ValidPending, NotAhead, ManifestHistory;
      var history := RetainHistory();
      if history.Err? { return Err(history.error); }
      var retained, wal := RetainIntents(history.value.0, history.value.1);
      if retained.Err? { return Err(retained.error); }
      var roots, removedRoots := Sweep(store.roots, retained.value.0);
      var pages, removedPages := Sweep(store.pages, retained.value.1);
      store := store.(roots := roots, pages := pages);
      r := Ok(Removed(wal, removedRoots, removedPages));
      if old(Sound(store)) { CleanedIsSound(old(store), store); }
    }

    /** Recovers, keeps the last generations of the history, and cleans up after it. */
    method RetainGenerations(keepLast: nat) returns (r: Result<Removed, StoreError>, ghost recovered: Store)
      modifies this
      ensures keepLast == 0 ==> r.Err? && store == old(store)
      ensures Sound(old(store)) ==> (r.Ok? <==> keepLast > 0 && AllReadable(old(store)))
      ensures r.Ok? ==> exists n :: RecoversTo(old(store), recovered, n)
      ensures r.Ok? && recovered.manifest.None? ==> store == recovered && r.value == Removed({}, {}, {})
      ensures r.Ok? && recovered.manifest.Some? ==>
        var compacted := recovered.(manifest := Some(Truncated(recovered.manifest.value, keepLast)));
        KeepsExactlyLive(compacted, store) && r.value == Difference(compacted, store)
      ensures r.Ok? && recovered.manifest.Some? ==> forall g ::
        ReadAt(store, g) ==
          if g in ManifestHistory(Truncated(recovered.manifest.value, keepLast)) then ReadAt(recovered, g) else Ok(None)
      ensures r.Ok? ==> forall g :: LiveIntent(recovered, g) && ValidPending(g, recovered.wal[g]) ==>
        g in store.wal && ReadPending(store, store.wal[g]) == ReadPending(recovered, recovered.wal[g])
    {
      hide ReadAt, ReadPending, KeepsExactlyLive, Difference;
      recovered := store;
      if keepLast == 0 { return Err(Invalid), recovered; }
      var n := Recover();
      recovered := store;
      if n.Err? { return Err(n.error), recovered; }
      if store.manifest.None? { return Ok(Removed({}, {}, {})), recovered; }
      if !ValidManifest(store.manifest.value) { return Err(Invalid), recovered; }
      store := store.(manifest := Some(Truncated(store.manifest.value, keepLast)));
      if Sound(recovered) { TruncatedIsSound(recovered, keepLast); }
      r := CleanupOrphans();
      if r.Ok? {
        forall g
          ensures ReadAt(store, g) ==
            if g in ManifestHistory(Truncated(recovered.manifest.value, keepLast))
            then ReadAt(recovered, g) else Ok(None)
          ensures LiveIntent(recovered, g) && ValidPending(g, recovered.wal[g]) ==>
            g in store.wal && ReadPending(store, store.wal[g]) == ReadPending(recovered, recovered.wal[g])
        {
          RetainedReadTheSame(recovered, store, keepLast, g);
        }
      }
    }
  }

  function Plus(r: Result<(Option<Manifest>, nat), StoreError>, n: nat): Result<(Option<Manifest>, nat), StoreError>
  {
    match r
    case Ok((m, k)) => Ok((m, k + n))
    case Err(e) => Err(e)
  }
}
