/** An intent that no recovery accepts: when recovery fails, that such a state is reached, and that no
    client ever leaves it. */
module EdgeStuck {
  import opened Base
  import opened EdgePages
  import opened EdgeProtocol
  import opened EdgeClients
  import opened EdgeSafety
  import opened EdgeMaintenance

  /** The intent of `g` promises other pages than the root that is there. */
  predicate Mismatched(s: Store, g: nat)
  {
    g in s.wal && g in s.roots && s.roots[g] != s.wal[g].pageManifest
  }

  /** In every reachable state an intent cannot be read exactly when it is mismatched. */
  lemma PendingFailsIff(states: seq<System>, actions: seq<Action>, i: nat, g: nat)
    requires IsRun(states, actions) && i < |states| && g in states[i].world.store.wal
    ensures var s := states[i].world.store;
      ValidPending(g, s.wal[g]) && (ReadPending(s, s.wal[g]).Err? <==> Mismatched(s, g))
  {
    hide Readable, ReadSnapshot, ValidPageManifest;
    RunSafe(states, actions, i);
    var w := states[i].world;
    assert IntentsOk(w) && RootsOk(w);
    if g in w.store.roots && !Mismatched(w.store, g) {
      assert GenerationOk(w, g);
      ReadableReads(w.store.roots, w.store.pages, g, w.encoded[g]);
    }
  }

  lemma HistoryHasRoot(s: Store, g: nat)
    requires ReadAt(s, g).Ok? && ReadAt(s, g).value.Some?
    ensures SoundRoot(s, g)
  {
  }

  /** Whatever happened before, maintenance finds a sound store. */
  lemma ReachedIsSound(states: seq<System>, actions: seq<Action>, i: nat)
    requires IsRun(states, actions) && i < |states|
    ensures Sound(states[i].world.store)
    ensures var s := states[i].world.store; AllReadable(s) <==> forall g :: g in s.wal ==> !Mismatched(s, g)
  {
    hide ReadPending, ValidPageManifest, Mismatched, ReadAt, Readable, ClientOk, Describes;
    var s := states[i].world.store;
    forall g | g in s.wal ensures ReadPending(s, s.wal[g]).Ok? <==> !Mismatched(s, g) {
      PendingFailsIff(states, actions, i, g);
    }
    forall g | g in s.wal ensures ValidPending(g, s.wal[g]) && NotAhead(s.manifest, s.wal[g]) {
      IntentsFollow(states, actions, i, g);
    }
    if s.manifest.Some? {
      RunSafe(states, actions, i);
      assert SwapOk(states[i].world, |states[i].world.swaps| - 1);
      forall g | g in ManifestHistory(s.manifest.value) ensures SoundRoot(s, g) {
        HistoryIsReadable(states, actions, i, g);
        HistoryHasRoot(s, g);
      }
    }
  }

  /** Recovery by the only client left after a run succeeds exactly when no intent is mismatched. */
  method RecoverReached(t: ObjectTable, ghost states: seq<System>, ghost actions: seq<Action>, ghost i: nat)
    returns (r: Result<nat, StoreError>)
    requires IsRun(states, actions) && i < |states| && t.store == states[i].world.store
    modifies t
    ensures var s := states[i].world.store; r.Ok? <==> forall g :: g in s.wal ==> !Mismatched(s, g)
    ensures r.Ok? ==> Sound(t.store)
  {
    hide Sound, AllReadable, IsRun;
    ReachedIsSound(states, actions, i);
    r := t.Recover();
  }

  /** Cleanup by that client always succeeds, and every generation reads as before. */
  method CleanupReached(t: ObjectTable, ghost states: seq<System>, ghost actions: seq<Action>, ghost i: nat)
    returns (r: Result<Removed, StoreError>)
    requires IsRun(states, actions) && i < |states| && t.store == states[i].world.store
    modifies t
    ensures r.Ok? && Sound(t.store)
    ensures forall g :: ReadAt(t.store, g) == ReadAt(states[i].world.store, g)
  {
    hide Sound, AllReadable, IsRun, ReadAt, KeepsExactlyLive, ReadPending;
    ReachedIsSound(states, actions, i);
    r := t.CleanupOrphans();
    forall g ensures ReadAt(t.store, g) == ReadAt(states[i].world.store, g) {
      CleanupIsInvisible(states[i].world.store, t.store, g);
    }
  }

  /** A client that has yet to meet the intent of `g` in its first scan, or has stopped. */
  predicate Blocked(s: Store, c: Client, g: nat)
    requires g in s.wal
  {
    c.Idle? || c.ListIntents? || (c.MatchRoot? && c.intent == s.wal[g]) ||
    ((c.ScanIntents? || c.MatchRoot? || c.LoadRoot? || c.LoadPages?) && g in c.todo)
  }

  ghost predicate Stuck(sys: System, g: nat)
  {
    Mismatched(sys.world.store, g) && ValidPending(g, sys.world.store.wal[g]) &&
    forall id :: id in sys.clients ==> Blocked(sys.world.store, sys.clients[id], g)
  }

  lemma BlockedStep(s: Store, c: Client, order: seq<nat>, g: nat)
    requires Mismatched(s, g) && ValidPending(g, s.wal[g]) && Blocked(s, c, g) && g in order
    ensures var e := Step(s, c, order); e == Move(s, e.client) && Blocked(s, e.client, g)
  {
    hide ReadPage, ValidPageManifest;
  }

  lemma StuckHolds(sys: System, g: nat)
    requires Stuck(sys, g)
    ensures g in sys.world.store.wal
  {
  }

  lemma StartBlocked(s: Store, why: Purpose, g: nat)
    requires Mismatched(s, g)
    ensures Blocked(s, ListIntents(why), g)
  {
  }

  lemma StuckStep(sys: System, a: Action, g: nat)
    requires Stuck(sys, g) && Enabled(sys, a)
    ensures Stuck(Act(sys, a), g) && Act(sys, a).world == sys.world
  {
    hide Step, Mismatched, ValidPending, Blocked;
    if a.Run? {
      assert g in sys.world.store.wal by { StuckHolds(sys, g); }
      BlockedStep(sys.world.store, sys.clients[a.id], a.order, g);
    } else if a.Start? {
      StartBlocked(sys.world.store, a.why, g);
    }
  }

  /** From there on, whatever clients start, step and crash, the store never changes and nobody is
      answered. */
  lemma {:induction false} StuckForever(states: seq<System>, actions: seq<Action>, i: nat, j: nat, g: nat)
    requires IsRun(states, actions) && i <= j < |states| && Stuck(states[i], g)
    ensures Stuck(states[j], g) && states[j].world == states[i].world
    decreases j
  {
    hide Stuck, Act, Enabled;
    if i < j {
      StuckForever(states, actions, i, j - 1, g);
      StuckStep(states[j - 1], actions[j - 1], g);
    }
  }

  /** Nor does cleaning up help, when the intent is based on the current generation. */
  lemma CleanupKeepsMismatch(s: Store, k: Store, g: nat)
    requires KeepsExactlyLive(s, k) && Mismatched(s, g) && LiveIntent(s, g)
    ensures Mismatched(k, g) && LiveIntent(k, g)
  {
    assert LiveRoot(s, g);
  }

  // ---- Such a state is reached ----

  ghost predicate Reachable(sys: System)
  {
    exists states: seq<System>, actions: seq<Action> :: IsRun(states, actions) && states[|states| - 1] == sys
  }

  lemma StartReachable()
    ensures Reachable(EMPTY)
  {
    assert IsRun([EMPTY], []) && [EMPTY][0] == EMPTY;
  }

  lemma ActReachable(sys: System, a: Action)
    requires Reachable(sys) && Enabled(sys, a)
    ensures Reachable(Act(sys, a))
  {
    hide Enabled, Act;
    var states: seq<System>, actions: seq<Action> :| IsRun(states, actions) && states[|states| - 1] == sys;
    var states', actions' := states + [Act(sys, a)], actions + [a];
    forall i | 0 <= i < |actions'|
      ensures Enabled(states'[i], actions'[i]) && states'[i + 1] == Act(states'[i], actions'[i]) {
      assert i < |actions| ==> Enabled(states[i], actions[i]);
    }
    assert IsRun(states', actions') && states'[|states'| - 1] == Act(sys, a);
  }

  function With(sys: System, id: nat, c: Client): System { sys.(clients := sys.clients[id := c]) }

  lemma StartsReachable(sys: System, id: nat, table: Table)
    requires Reachable(sys) && id !in sys.clients && EncodedTable(table)
    ensures Reachable(With(sys, id, ListIntents(ToCommit(table))))
  {
    ActReachable(sys, Start(id, ToCommit(table)));
  }

  /** One step of client `id`. */
  lemma RunReachable(sys: System, id: nat, c: Client, order: seq<nat>)
    requires Reachable(With(sys, id, c)) && Lists(order, sys.world.store.wal.Keys)
    ensures var e := Step(sys.world.store, c, order);
      Reachable(With(sys.(world := Record(sys.world, e)), id, e.client))
  {
    hide Step, Reachable;
    var e := Step(sys.world.store, c, order);
    ActReachable(With(sys, id, c), Run(id, order));
    assert With(sys.(world := Record(sys.world, e)), id, e.client) == Act(With(sys, id, c), Run(id, order));
  }

  /** One that leaves the store alone. */
  lemma QuietReachable(sys: System, id: nat, c: Client, order: seq<nat>, c': Client)
    requires Reachable(With(sys, id, c)) && Lists(order, sys.world.store.wal.Keys)
    requires Step(sys.world.store, c, order) == Move(sys.world.store, c')
    ensures Reachable(With(sys, id, c'))
  {
    hide Step, Reachable;
    RunReachable(sys, id, c, order);
    assert sys.(world := Record(sys.world, Move(sys.world.store, c'))) == sys;
  }

  /** The page manifest of a table of one page. */
  function OnePage(table: Table, generation: nat): PageManifest
  {
    PageManifest(PAGE_MANIFEST_VERSION, table.generation, |table.snapshot|, PAGE_SIZE,
                 [PageReference(generation, |table.snapshot|, Crc32c(table.snapshot))])
  }

  ghost predicate Small(table: Table)
  {
    EncodedTable(table) && |table.snapshot| <= PAGE_SIZE
  }

  lemma OnePageFacts(table: Table)
    requires Small(table)
    ensures PageCount(|table.snapshot|) == 1 && Chunk(table.snapshot, 0) == table.snapshot
    ensures forall g: nat :: g <= table.generation ==>
      ValidPageManifest(OnePage(table, g), table.generation, |table.snapshot|)
  {
    assert table.snapshot[0..|table.snapshot|] == table.snapshot;
  }

  ghost predicate NoIntents(sys: System)
  {
    sys.world.store.wal == map[] && Lists<nat>([], sys.world.store.wal.Keys)
  }

  lemma ReachesCommit(sys: System, id: nat, table: Table)
    requires Reachable(sys) && id !in sys.clients && EncodedTable(table) && NoIntents(sys)
    ensures Reachable(With(sys, id, CommitRead(table)))
  {
    hide Reachable;
    var why := ToCommit(table);
    StartsReachable(sys, id, table);
    QuietReachable(sys, id, ListIntents(why), [], ScanIntents(why, [], []));
    QuietReachable(sys, id, ScanIntents(why, [], []), [], ReplayIntent(why, [], 0));
    QuietReachable(sys, id, ReplayIntent(why, [], 0), [], CommitRead(table));
  }

  /** What a commit over `current` reads of the generation before. */
  function Before(s: Store, current: Option<Manifest>): Option<PageManifest>
  {
    if current.None? || current.value.root !in s.roots then None else Some(s.roots[current.value.root])
  }

  lemma ReachesBuild(sys: System, id: nat, table: Table)
    requires Reachable(With(sys, id, CommitRead(table))) && NoIntents(sys)
    requires var m := sys.world.store.manifest;
             m.Some? ==> ValidManifest(m.value) && m.value.generation < table.generation &&
                         m.value.root in sys.world.store.roots &&
                         ValidPageManifest(sys.world.store.roots[m.value.root], m.value.root, U64_MAX)
    ensures var m := sys.world.store.manifest;
            Reachable(With(sys, id, BuildPages(table, m, Before(sys.world.store, m), [])))
  {
    hide Reachable, ValidManifest, ValidPageManifest;
    var m := sys.world.store.manifest;
    QuietReachable(sys, id, CommitRead(table), [], ListRivals(table, m));
    QuietReachable(sys, id, ListRivals(table, m), [], ScanRivals(table, m, []));
    QuietReachable(sys, id, ScanRivals(table, m, []), [], LoadPrevious(table, m));
    QuietReachable(sys, id, LoadPrevious(table, m), [], BuildPages(table, m, Before(sys.world.store, m), []));
  }

  lemma WiderLimit(pm: PageManifest, table: Table)
    requires Small(table) && ValidPageManifest(pm, table.generation, |table.snapshot|)
    ensures ValidPageManifest(pm, table.generation, U64_MAX)
  {
  }

  /** A one-page table is planned with its own page, or with the same page of the generation before. */
  lemma ReachesIntent(sys: System, id: nat, table: Table, m: Option<Manifest>, previous: Option<PageManifest>)
    returns (kept: nat)
    requires Reachable(With(sys, id, BuildPages(table, m, previous, []))) && NoIntents(sys) && Small(table)
    requires m.Some? ==> m.value.generation < table.generation
    requires previous.Some? ==>
      |previous.value.pages| == 1 && previous.value.pages[0].generation < table.generation &&
      (previous.value.pages[0].generation, 0) in sys.world.store.pages
    ensures kept <= table.generation && (previous.None? ==> kept == table.generation)
    ensures Reachable(With(sys, id, PutIntent(table, m, OnePage(table, kept))))
  {
    hide Reachable, EncodedTable, ValidPageManifest, PageCount, Chunk;
    OnePageFacts(table);
    var s := sys.world.store;
    kept := if previous.Some? && previous.value.pages[0].length == |table.snapshot| &&
               s.pages[(previous.value.pages[0].generation, 0)] == table.snapshot
            then previous.value.pages[0].generation else table.generation;
    var ref := PageReference(kept, |table.snapshot|, Crc32c(table.snapshot));
    assert [] + [ref] == [ref];
    QuietReachable(sys, id, BuildPages(table, m, previous, []), [], BuildPages(table, m, previous, [ref]));
    WiderLimit(OnePage(table, kept), table);
    assert ValidPending(table.generation, IntentFor(table, m, OnePage(table, kept)));
    QuietReachable(sys, id, BuildPages(table, m, previous, [ref]), [], PutIntent(table, m, OnePage(table, kept)));
  }

  // ---- From the intent to the swap ----

  function WithIntent(w: World, table: Table, m: Option<Manifest>, plan: PageManifest): World
  {
    w.(store := w.store.(wal := w.store.wal[table.generation := IntentFor(table, m, plan)]))
  }

  function WithPage(w: World, table: Table): World
  {
    w.(store := w.store.(pages := w.store.pages[(table.generation, 0) := table.snapshot]))
  }

  function WithRoot(w: World, table: Table): World
  {
    w.(store := w.store.(roots := w.store.roots[table.generation := OnePage(table, table.generation)]),
       encoded := w.encoded[table.generation := table.snapshot])
  }

  lemma PutsIntent(sys: System, id: nat, table: Table, m: Option<Manifest>, plan: PageManifest, order: seq<nat>)
    requires Reachable(With(sys, id, PutIntent(table, m, plan)))
    requires table.generation !in sys.world.store.wal && Lists(order, sys.world.store.wal.Keys)
    ensures Reachable(With(sys.(world := WithIntent(sys.world, table, m, plan)), id, PutPage(table, m, plan, 0)))
  {
    hide Reachable, Lists;
    RunReachable(sys, id, PutIntent(table, m, plan), order);
  }

  lemma PutsPage(sys: System, id: nat, table: Table, m: Option<Manifest>, order: seq<nat>)
    requires Reachable(With(sys, id, PutPage(table, m, OnePage(table, table.generation), 0))) && Small(table)
    requires (table.generation, 0) !in sys.world.store.pages && Lists(order, sys.world.store.wal.Keys)
    ensures Reachable(With(sys.(world := WithPage(sys.world, table)), id,
                           PutRoot(table, m, OnePage(table, table.generation))))
  {
    hide Reachable, Lists, EncodedTable, PageCount, Chunk;
    OnePageFacts(table);
    var plan := OnePage(table, table.generation);
    RunReachable(sys, id, PutPage(table, m, plan, 0), order);
    var sys' := sys.(world := WithPage(sys.world, table));
    assert Record(sys.world, Step(sys.world.store, PutPage(table, m, plan, 0), order)) == sys'.world;
    QuietReachable(sys', id, PutPage(table, m, plan, 1), order, PutRoot(table, m, plan));
  }

  lemma PutsRoot(sys: System, id: nat, table: Table, m: Option<Manifest>, order: seq<nat>)
    requires Reachable(With(sys, id, PutRoot(table, m, OnePage(table, table.generation))))
    requires table.generation !in sys.world.store.roots && Lists(order, sys.world.store.wal.Keys)
    ensures Reachable(With(sys.(world := WithRoot(sys.world, table)), id, SwapManifest(table, m)))
  {
    hide Reachable, Lists;
    RunReachable(sys, id, PutRoot(table, m, OnePage(table, table.generation)), order);
  }

  /** Intent, page and root of a one-page table. */
  function WithAll(w: World, table: Table, m: Option<Manifest>): World
  {
    WithRoot(WithPage(WithIntent(w, table, m, OnePage(table, table.generation)), table), table)
  }

  lemma ReachesSwap(sys: System, id: nat, table: Table, m: Option<Manifest>, order: seq<nat>, order': seq<nat>)
    requires Reachable(With(sys, id, PutIntent(table, m, OnePage(table, table.generation)))) && Small(table)
    requires var s, g := sys.world.store, table.generation;
             g !in s.wal && g !in s.roots && (g, 0) !in s.pages &&
             Lists(order, s.wal.Keys) && Lists(order', s.wal.Keys + {g})
    ensures Reachable(With(sys.(world := WithAll(sys.world, table, m)), id, SwapManifest(table, m)))
  {
    hide Reachable, Lists, Small;
    var plan := OnePage(table, table.generation);
    PutsIntent(sys, id, table, m, plan, order);
    var sys1 := sys.(world := WithIntent(sys.world, table, m, plan));
    assert sys1.world.store.wal.Keys == sys.world.store.wal.Keys + {table.generation};
    PutsPage(sys1, id, table, m, order');
    var sys2 := sys1.(world := WithPage(sys1.world, table));
    PutsRoot(sys2, id, table, m, order');
    assert sys2.(world := WithRoot(sys2.world, table)) == sys.(world := WithAll(sys.world, table, m));
  }

  lemma ReachesFirstIntent(sys: System, id: nat, table: Table)
    requires Reachable(sys) && id !in sys.clients && Small(table) && NoIntents(sys) && sys.world.store.manifest.None?
    ensures Reachable(With(sys, id, PutIntent(table, None, OnePage(table, table.generation))))
  {
    hide Reachable;
    ReachesCommit(sys, id, table);
    ReachesBuild(sys, id, table);
    var kept := ReachesIntent(sys, id, table, None, None);
  }

  function FirstManifest(b: Table): Manifest { Manifest(b.generation, b.generation, b.generation, [b.generation]) }

  /** Both tables are written, the second is swapped in, and the first gives up its intent. */
  function Orphaned(a: Table, b: Table): System
  {
    var w := WithAll(WithAll(EMPTY.world, a, None), b, None);
    System(w.(store := w.store.(wal := map[], manifest := Some(FirstManifest(b))),
              swaps := [FirstManifest(b)], answers := [Committed(b)]),
           map[0 := Idle, 1 := Idle])
  }

  lemma AllKeys(w: World, t: Table, m: Option<Manifest>)
    ensures var s, s' := w.store, WithAll(w, t, m).store;
      s'.wal.Keys == s.wal.Keys + {t.generation} && s'.roots.Keys == s.roots.Keys + {t.generation} &&
      s'.pages.Keys == s.pages.Keys + {(t.generation, 0)} && s'.manifest == s.manifest
  {
  }

  lemma BothWritten(a: Table, b: Table)
    requires Small(a) && Small(b) && b.generation < a.generation
    ensures Reachable(System(WithAll(WithAll(EMPTY.world, a, None), b, None),
                             map[0 := SwapManifest(a, None), 1 := SwapManifest(b, None)]))
  {
    hide Reachable, Small, WithAll, Step;
    StartReachable();
    ReachesFirstIntent(EMPTY, 0, a);
    var sysA := With(EMPTY, 0, PutIntent(a, None, OnePage(a, a.generation)));
    ReachesFirstIntent(sysA, 1, b);
    var sysAB := With(sysA, 1, PutIntent(b, None, OnePage(b, b.generation)));
    assert With(sysAB, 0, PutIntent(a, None, OnePage(a, a.generation))) == sysAB;
    ReachesSwap(sysAB, 0, a, None, [], [a.generation]);
    var w1 := WithAll(EMPTY.world, a, None);
    AllKeys(EMPTY.world, a, None);
    var sys1 := With(sysAB.(world := w1), 0, SwapManifest(a, None));
    assert With(sys1, 1, PutIntent(b, None, OnePage(b, b.generation))) == sys1;
    ReachesSwap(sys1, 1, b, None, [a.generation], [a.generation, b.generation]);
    assert With(sys1.(world := WithAll(w1, b, None)), 1, SwapManifest(b, None)) ==
           System(WithAll(w1, b, None), map[0 := SwapManifest(a, None), 1 := SwapManifest(b, None)]);
  }

  function WithSwap(w: World, b: Table): World
  {
    w.(store := w.store.(manifest := Some(FirstManifest(b))), swaps := [FirstManifest(b)])
  }

  /** A swap over the absent manifest that succeeds, and what follows it. */
  lemma WinsSwap(sys: System, id: nat, b: Table, order: seq<nat>)
    requires Reachable(With(sys, id, SwapManifest(b, None))) && Lists(order, sys.world.store.wal.Keys)
    requires sys.world.store.manifest.None? && sys.world.swaps == [] && EncodedTable(b)
    ensures Reachable(With(sys.(world := WithSwap(sys.world, b)), id, FinishCommit(b)))
  {
    hide Reachable, Lists;
    assert NextManifest(None, b.generation, b.generation, b.generation) == Ok(FirstManifest(b)) by {
      assert [] + [b.generation] == [b.generation];
    }
    assert [] + [FirstManifest(b)] == [FirstManifest(b)];
    RunReachable(sys, id, SwapManifest(b, None), order);
  }

  function WithAnswer(w: World, b: Table): World
  {
    w.(store := DropWal(w.store, b.generation), answers := [Committed(b)])
  }

  lemma Finishes(sys: System, id: nat, b: Table, order: seq<nat>)
    requires Reachable(With(sys, id, FinishCommit(b))) && Lists(order, sys.world.store.wal.Keys)
    requires sys.world.answers == []
    ensures Reachable(With(sys.(world := WithAnswer(sys.world, b)), id, Idle))
  {
    hide Reachable, Lists;
    assert [] + [Committed(b)] == [Committed(b)];
    RunReachable(sys, id, FinishCommit(b), order);
  }

  /** A swap that comes too late. */
  lemma LosesSwap(sys: System, id: nat, a: Table, order: seq<nat>)
    requires Reachable(With(sys, id, SwapManifest(a, None))) && Lists(order, sys.world.store.wal.Keys)
    requires sys.world.store.manifest.Some? && EncodedTable(a)
    ensures Reachable(With(sys.(world := sys.world.(store := DropWal(sys.world.store, a.generation))), id, Idle))
  {
    hide Reachable, Lists;
    QuietReachable(sys, id, SwapManifest(a, None), order, AbandonCommit(a));
    RunReachable(sys, id, AbandonCommit(a), order);
  }

  lemma WrittenFacts(a: Table, b: Table)
    ensures var w := WithAll(WithAll(EMPTY.world, a, None), b, None);
      w.store.wal.Keys == {a.generation, b.generation} && w.store.manifest.None? && w.swaps == [] && w.answers == []
  {
  }

  lemma OrphanReached(a: Table, b: Table)
    requires Small(a) && Small(b) && b.generation < a.generation
    ensures Reachable(Orphaned(a, b))
  {
    hide Reachable, WithAll, EncodedTable;
    BothWritten(a, b);
    var w := WithAll(WithAll(EMPTY.world, a, None), b, None);
    WrittenFacts(a, b);
    var both, left := [a.generation, b.generation], [a.generation];
    var sys := System(w, map[0 := SwapManifest(a, None), 1 := SwapManifest(b, None)]);
    assert With(sys, 1, SwapManifest(b, None)) == sys;
    WinsSwap(sys, 1, b, both);
    var sys1 := sys.(world := WithSwap(w, b));
    Finishes(sys1, 1, b, both);
    var sys2 := With(sys.(world := WithAnswer(WithSwap(w, b), b)), 1, Idle);
    assert sys2.world.store.wal.Keys == {a.generation};
    assert With(sys2, 0, SwapManifest(a, None)) == sys2;
    LosesSwap(sys2, 0, a, left);
    assert DropWal(sys2.world.store, a.generation).wal == map[];
    var w3 := sys2.world.(store := DropWal(sys2.world.store, a.generation));
    assert With(sys2.(world := w3), 0, Idle) == Orphaned(a, b);
  }

  lemma SmallFacts(t: Table)
    requires Small(t)
    ensures EncodedTable(t) && ValidPageManifest(OnePage(t, t.generation), t.generation, U64_MAX)
  {
    OnePageFacts(t);
    WiderLimit(OnePage(t, t.generation), t);
  }

  /** Two clients commit different generations over the same base; the one that loses the swap leaves its
      root behind. A third commits another table of that generation and crashes once its intent is
      there: nobody recovers, commits or reads any more. */
  lemma StuckIsReachable(a: Table, b: Table, c: Table)
    requires Small(a) && Small(b) && Small(c) && b.generation < a.generation == c.generation
    requires |c.snapshot| != |a.snapshot|
    ensures exists sys :: Reachable(sys) && Stuck(sys, c.generation) && LiveIntent(sys.world.store, c.generation)
  {
    hide Reachable, Small, ValidPageManifest;
    OrphanReached(a, b);
    var sys0 := Orphaned(a, b);
    var m, s := Some(FirstManifest(b)), sys0.world.store;
    ReachesCommit(sys0, 2, c) by { assert EncodedTable(c) by { SmallFacts(c); } }
    SmallFacts(b);
    ReachesBuild(sys0, 2, c);
    var kept := ReachesIntent(sys0, 2, c, m, Some(OnePage(b, b.generation)));
    PutsIntent(sys0, 2, c, m, OnePage(c, kept), []);
    var w := WithIntent(sys0.world, c, m, OnePage(c, kept));
    ActReachable(With(sys0.(world := w), 2, PutPage(c, m, OnePage(c, kept), 0)), Crash(2));
    var sys := sys0.(world := w);
    assert Act(With(sys, 2, PutPage(c, m, OnePage(c, kept), 0)), Crash(2)) == sys;
    OnePageFacts(c);
    WiderLimit(OnePage(c, kept), c);
    assert Reachable(sys) && Stuck(sys, c.generation) && LiveIntent(sys.world.store, c.generation);
  }
}
