/** Safety of every run of the object-store protocol. */
module EdgeSafety {
  import opened Base
  import opened EdgePages
  import opened EdgeProtocol
  import opened EdgeClients

  // ---- What holds of the store in every reachable state ----

  ghost predicate GenerationOk(w: World, g: nat)
    requires g in w.encoded && g in w.store.roots
  {
    Readable(w.store.pages, w.store.roots[g], g, w.encoded[g]) && EncodedTable(Table(g, w.encoded[g]))
  }

  /** Every published root is readable as the snapshot its writer encoded. */
  ghost predicate RootsOk(w: World)
  {
    w.encoded.Keys == w.store.roots.Keys && forall g :: g in w.encoded ==> GenerationOk(w, g)
  }

  ghost predicate SwapOk(w: World, i: nat)
    requires i < |w.swaps|
  {
    var m := w.swaps[i];
    ValidManifest(m) && |m.history| == i + 1 && (forall k :: 0 <= k <= i ==> m.history[k] == w.swaps[k].generation) &&
    m.generation in w.encoded
  }

  function LastSwap(w: World): Option<Manifest>
  {
    if w.swaps == [] then None else Some(w.swaps[|w.swaps| - 1])
  }

  ghost predicate ManifestOk(w: World)
  {
    w.store.manifest == LastSwap(w) && (forall i :: 0 <= i < |w.swaps| ==> SwapOk(w, i)) &&
    (forall i, j :: 0 <= i < j < |w.swaps| ==> w.swaps[i].generation < w.swaps[j].generation)
  }

  /** `base` is not newer than the current manifest. */
  ghost predicate Reached(w: World, base: Option<nat>)
  {
    base.Some? ==> LastSwap(w).Some? && base.value <= LastSwap(w).value.generation
  }

  ghost predicate IntentOk(w: World, p: PendingCommit)
  {
    ValidPending(p.targetGeneration, p) && Reached(w, p.baseGeneration)
  }

  ghost predicate IntentsOk(w: World)
  {
    forall g :: g in w.store.wal ==> w.store.wal[g].targetGeneration == g && IntentOk(w, w.store.wal[g])
  }

  /** Generation `g` was swapped in, and was published as `snapshot`. */
  ghost predicate Durable(w: World, g: nat, snapshot: Bytes)
  {
    g in w.encoded && w.encoded[g] == snapshot && exists i :: 0 <= i < |w.swaps| && w.swaps[i].generation == g
  }

  ghost predicate AnswerOk(w: World, a: Answer)
  {
    match a
    case Committed(t) => Durable(w, t.generation, t.snapshot)
    case AlreadyCommitted(t) => Durable(w, t.generation, t.snapshot)
    case Read(g, bytes) => Durable(w, g, bytes)
    case ReadFailed(_) => false
    case NoLongerFollowed(_) => false
    case _ => true
  }

  ghost predicate WorldOk(w: World)
  {
    RootsOk(w) && ManifestOk(w) && IntentsOk(w) && forall i :: 0 <= i < |w.answers| ==> AnswerOk(w, w.answers[i])
  }

  // ---- What a client knows between two of its calls ----

  ghost predicate Swapped'(w: World, g: nat)
  {
    g in w.encoded && exists i :: 0 <= i < |w.swaps| && w.swaps[i].generation == g
  }

  ghost predicate Seen(w: World, current: Option<Manifest>)
  {
    current.Some? ==> current.value in w.swaps
  }

  ghost predicate Newer(g: nat, current: Option<Manifest>)
  {
    current.Some? ==> current.value.generation < g
  }

  /** A client part-way through reading generation `g`. */
  ghost predicate HalfRead(w: World, g: nat, loaded: PageManifest, got: Bytes, next: nat)
  {
    g in w.encoded && g in w.store.roots && loaded == w.store.roots[g] && next <= |loaded.pages| &&
    got == Prefix(w.encoded[g], next)
  }

  ghost predicate Complete(w: World, p: PendingCommit)
  {
    IntentOk(w, p) && p.targetGeneration in w.encoded
  }

  ghost predicate RefOk(w: World, table: Table, page: PageReference, index: nat)
  {
    EntryFor(page, table.snapshot, index, table.generation) &&
    (page.generation != table.generation ==>
      (page.generation, index) in w.store.pages &&
      w.store.pages[(page.generation, index)] == Chunk(table.snapshot, index))
  }

  ghost predicate PlanOk(w: World, table: Table, plan: PageManifest)
  {
    Describes(plan, table.generation, table.snapshot) &&
    forall i :: 0 <= i < |plan.pages| ==> RefOk(w, table, plan.pages[i], i)
  }

  /** The first `next` pages of the plan are in the store. */
  ghost predicate PagesPut(w: World, table: Table, plan: PageManifest, next: nat)
  {
    next <= |plan.pages| && forall i :: 0 <= i < next ==> PageHolds(w.store.pages, plan, table.snapshot, i)
  }

  ghost predicate PurposeOk(why: Purpose)
  {
    why.ToCommit? ==> EncodedTable(why.table)
  }

  ghost predicate Writing(w: World, table: Table, current: Option<Manifest>)
  {
    EncodedTable(table) && Seen(w, current) && Newer(table.generation, current)
  }

  ghost predicate AllComplete(w: World, found: seq<PendingCommit>)
  {
    forall p :: p in found ==> Complete(w, p)
  }

  ghost predicate RecoverOk(w: World, c: Client)
    requires InRecover(c)
  {
    PurposeOk(c.why) &&
    match c
    case ListIntents(_) => true
    case ScanIntents(_, _, found) => AllComplete(w, found)
    case MatchRoot(_, _, found, p) => AllComplete(w, found) && IntentOk(w, p)
    case LoadRoot(_, _, found, p) => AllComplete(w, found) && Complete(w, p)
    case LoadPages(_, _, found, p, loaded, got, next) =>
      AllComplete(w, found) && Complete(w, p) && HalfRead(w, p.targetGeneration, loaded, got, next)
    case ReplayIntent(_, left, _) => AllComplete(w, left)
    case SwapIntent(_, left, _, expected, successor) =>
      AllComplete(w, left) && left != [] && Seen(w, expected) &&
      NextManifest(expected, left[0].targetGeneration, left[0].root, left[0].walHead) == Ok(successor)
    case DropIntent(_, left, _) => AllComplete(w, left)
  }

  ghost predicate ReadOk(w: World, c: Client)
    requires InRead(c)
  {
    match c
    case ReadManifest(_) => true
    case FindRoot(g) => Swapped'(w, g)
    case ReadRoot(g) => Swapped'(w, g)
    case ReadPages(g, loaded, got, next) => Swapped'(w, g) && HalfRead(w, g, loaded, got, next)
  }

  ghost predicate PrepareOk(w: World, c: Client)
    requires Preparing(c)
  {
    EncodedTable(c.table) &&
    match c
    case CommitRead(_) => true
    case CompareRoot(table) => Swapped'(w, table.generation)
    case ComparePages(table, loaded, got, next) =>
      Swapped'(w, table.generation) && HalfRead(w, table.generation, loaded, got, next)
    case ListRivals(table, current) => Writing(w, table, current)
    case ScanRivals(table, current, _) => Writing(w, table, current)
    case LoadPrevious(table, current) => Writing(w, table, current)
    case BuildPages(table, current, previous, refs) =>
      Writing(w, table, current) && |refs| <= PageCount(|table.snapshot|) &&
      (previous.Some? ==> current.Some? && ValidPageManifest(previous.value, current.value.generation, U64_MAX)) &&
      forall i :: 0 <= i < |refs| ==> RefOk(w, table, refs[i], i)
  }

  ghost predicate PublishOk(w: World, c: Client)
    requires Publishing(c)
  {
    match c
    case PutIntent(table, current, plan) =>
      Writing(w, table, current) && PlanOk(w, table, plan) &&
      ValidPending(table.generation, IntentFor(table, current, plan))
    case ConfirmIntent(table, current, plan) => Writing(w, table, current) && PlanOk(w, table, plan)
    case PutPage(table, current, plan, next) =>
      Writing(w, table, current) && PlanOk(w, table, plan) && PagesPut(w, table, plan, next)
    case ConfirmPage(table, current, plan, next) =>
      Writing(w, table, current) && PlanOk(w, table, plan) && PagesPut(w, table, plan, next) && next < |plan.pages| &&
      plan.pages[next].generation == plan.generation
    case PutRoot(table, current, plan) =>
      Writing(w, table, current) && PlanOk(w, table, plan) && PagesPut(w, table, plan, |plan.pages|)
    case ConfirmRoot(table, current, plan) =>
      Writing(w, table, current) && PlanOk(w, table, plan) && PagesPut(w, table, plan, |plan.pages|)
    case SwapManifest(table, current) =>
      Writing(w, table, current) && table.generation in w.encoded && w.encoded[table.generation] == table.snapshot
    case FinishCommit(table) => Durable(w, table.generation, table.snapshot)
    case AbandonCommit(_) => true
  }

  ghost predicate ClientOk(w: World, c: Client)
  {
    if c.Idle? then true
    else if InRecover(c) then RecoverOk(w, c)
    else if InRead(c) then ReadOk(w, c)
    else if Preparing(c) then PrepareOk(w, c)
    else PublishOk(w, c)
  }

  // ---- Nothing a client knows is ever taken back ----

  /** Roots, pages and history only grow, whatever any client does. */
  ghost predicate Grows(w: World, w': World)
  {
    Sub(w.store.roots, w'.store.roots) && Sub(w.store.pages, w'.store.pages) && Sub(w.encoded, w'.encoded) &&
    w.swaps <= w'.swaps && w.answers <= w'.answers
  }

  lemma ReachedStays(w: World, w': World, base: Option<nat>)
    requires ManifestOk(w') && Grows(w, w') && Reached(w, base)
    ensures Reached(w', base)
  {
  }

  lemma CompleteStays(w: World, w': World, found: seq<PendingCommit>)
    requires ManifestOk(w') && Grows(w, w') && AllComplete(w, found)
    ensures AllComplete(w', found)
  {
    forall p | p in found ensures Complete(w', p) {
      assert Complete(w, p);
      ReachedStays(w, w', p.baseGeneration);
    }
  }

  lemma SwappedStays(w: World, w': World, g: nat)
    requires Grows(w, w') && Swapped'(w, g)
    ensures Swapped'(w', g)
  {
    var i :| 0 <= i < |w.swaps| && w.swaps[i].generation == g;
    assert w'.swaps[i].generation == g;
  }

  lemma RefsStay(w: World, w': World, table: Table, refs: seq<PageReference>)
    requires Grows(w, w') && forall i :: 0 <= i < |refs| ==> RefOk(w, table, refs[i], i)
    ensures forall i :: 0 <= i < |refs| ==> RefOk(w', table, refs[i], i)
  {
    forall i | 0 <= i < |refs| ensures RefOk(w', table, refs[i], i) { assert RefOk(w, table, refs[i], i); }
  }

  lemma PagesStay(w: World, w': World, table: Table, plan: PageManifest, next: nat)
    requires Grows(w, w') && PagesPut(w, table, plan, next)
    ensures PagesPut(w', table, plan, next)
  {
    forall i | 0 <= i < next ensures PageHolds(w'.store.pages, plan, table.snapshot, i) {
      assert PageHolds(w.store.pages, plan, table.snapshot, i);
    }
  }

  lemma ClientStays(w: World, w': World, c: Client)
    requires ManifestOk(w') && Grows(w, w') && ClientOk(w, c)
    ensures ClientOk(w', c)
  {
    if InRecover(c) {
      if c.ScanIntents? || c.MatchRoot? || c.LoadRoot? || c.LoadPages? { CompleteStays(w, w', c.found); }
      if c.MatchRoot? || c.LoadRoot? || c.LoadPages? { ReachedStays(w, w', c.intent.baseGeneration); }
      if c.ReplayIntent? || c.SwapIntent? || c.DropIntent? { CompleteStays(w, w', c.left); }
    } else if InRead(c) {
      if !c.ReadManifest? { SwappedStays(w, w', c.generation); }
    } else if Preparing(c) {
      if c.CompareRoot? || c.ComparePages? { SwappedStays(w, w', c.table.generation); }
      if c.BuildPages? { RefsStay(w, w', c.table, c.refs); }
    } else if Publishing(c) {
      if c.PutIntent? || c.ConfirmIntent? || c.PutPage? || c.ConfirmPage? || c.PutRoot? || c.ConfirmRoot? {
        RefsStay(w, w', c.table, c.plan.pages);
      }
      if c.PutPage? || c.ConfirmPage? { PagesStay(w, w', c.table, c.plan, c.next); }
      if c.PutRoot? || c.ConfirmRoot? { PagesStay(w, w', c.table, c.plan, |c.plan.pages|); }
      if c.FinishCommit? { SwappedStays(w, w', c.table.generation); }
    }
  }

  // ---- One step ----

  ghost predicate StepOk(w: World, e: Effect)
  {
    var w' := Record(w, e);
    WorldOk(w') && Grows(w, w') && ClientOk(w', e.client)
  }

  lemma PagesKeepGeneration(w: World, w': World, g: nat)
    requires Sub(w.store.pages, w'.store.pages)
    requires g in w.encoded && g in w.store.roots && GenerationOk(w, g)
    requires g in w'.encoded && g in w'.store.roots && w'.store.roots[g] == w.store.roots[g]
    requires w'.encoded[g] == w.encoded[g]
    ensures GenerationOk(w', g)
  {
    var pm := w.store.roots[g];
    forall i | 0 <= i < |pm.pages| ensures PageHolds(w'.store.pages, pm, w'.encoded[g], i) {
      assert PageHolds(w.store.pages, pm, w.encoded[g], i);
    }
  }

  lemma AnswersStay(w: World, w': World)
    requires WorldOk(w) && Grows(w, w')
    ensures forall i :: 0 <= i < |w.answers| ==> AnswerOk(w', w.answers[i])
  {
    forall i | 0 <= i < |w.answers| ensures AnswerOk(w', w.answers[i]) {
      var a := w.answers[i];
      assert AnswerOk(w, a);
      if a.Committed? || a.AlreadyCommitted? { SwappedStays(w, w', a.table.generation); }
      if a.Read? { SwappedStays(w, w', a.generation); }
    }
  }

  /** A step that leaves roots and manifest alone keeps the store's invariant if
      its own intent and answer are in order. */
  lemma QuietStep(w: World, w': World)
    requires WorldOk(w) && Grows(w, w')
    requires w'.store.roots == w.store.roots && w'.encoded == w.encoded
    requires w'.swaps == w.swaps && w'.store.manifest == w.store.manifest
    requires IntentsOk(w')
    requires forall i :: |w.answers| <= i < |w'.answers| ==> AnswerOk(w', w'.answers[i])
    ensures WorldOk(w')
  {
    forall g | g in w'.encoded ensures GenerationOk(w', g) { PagesKeepGeneration(w, w', g); }
    AnswersStay(w, w');
    forall i | 0 <= i < |w'.swaps| ensures SwapOk(w', i) { assert SwapOk(w, i); }
  }

  /** Swapping in the successor of the manifest just read. */
  lemma SwapStep(w: World, w': World, successor: Manifest, root: nat, walHead: nat)
    requires WorldOk(w) && w' == w.(store := w.store.(manifest := Some(successor)), swaps := w.swaps + [successor])
    requires NextManifest(w.store.manifest, successor.generation, root, walHead) == Ok(successor)
    requires successor.generation in w.encoded
    ensures WorldOk(w') && Grows(w, w')
    ensures Swapped'(w', successor.generation)
  {
    var n := |w.swaps|;
    if n > 0 { assert SwapOk(w, n - 1); }
    forall i | 0 <= i <= n ensures SwapOk(w', i) { if i < n { assert SwapOk(w, i); } }
    assert w'.swaps[n].generation == successor.generation;
    forall g | g in w'.encoded ensures GenerationOk(w', g) { PagesKeepGeneration(w, w', g); }
    forall g | g in w'.store.wal ensures IntentOk(w', w'.store.wal[g]) {
      assert IntentOk(w, w.store.wal[g]);
      ReachedStays(w, w', w.store.wal[g].baseGeneration);
    }
    AnswersStay(w, w');
  }

  /** Reading one more page of a published generation continues its snapshot. */
  lemma ReadOneMore(w: World, g: nat, loaded: PageManifest, got: Bytes, next: nat)
    requires WorldOk(w) && HalfRead(w, g, loaded, got, next)
    ensures next < |loaded.pages| ==> ReadPage(w.store.pages, loaded, next) == Ok(Chunk(w.encoded[g], next))
    ensures next < |loaded.pages| ==> HalfRead(w, g, loaded, got + Chunk(w.encoded[g], next), next + 1)
    ensures next == |loaded.pages| ==> got == w.encoded[g] && |got| == loaded.snapshotLength
    ensures DecodedGeneration(w.encoded[g]) == Some(g)
  {
    assert GenerationOk(w, g);
    PrefixGrows(w.encoded[g], next);
    if next < |loaded.pages| {
      assert PageHolds(w.store.pages, loaded, w.encoded[g], next);
      assert EntryFor(loaded.pages[next], w.encoded[g], next, g);
    }
  }

  lemma StartReading(w: World, g: nat)
    requires WorldOk(w) && g in w.encoded
    ensures g in w.store.roots && ValidPageManifest(w.store.roots[g], g, MAX_FILE_SIZE)
    ensures HalfRead(w, g, w.store.roots[g], [], 0)
  {
    assert GenerationOk(w, g);
    DescribedManifestIsValid(w.store.roots[g], g, w.encoded[g], MAX_FILE_SIZE);
    PrefixGrows(w.encoded[g], 0);
  }

  /** A step that writes nothing, or only deletes an intent. */
  ghost predicate QuietEffect(w: World, e: Effect)
  {
    e.store.roots == w.store.roots && e.store.pages == w.store.pages && e.store.manifest == w.store.manifest &&
    Sub(e.store.wal, w.store.wal) && (e.event.Silent? || (e.event.Answered? && AnswerOk(w, e.event.answer))) &&
    ClientOk(w, e.client)
  }

  lemma QuietEffectSafe(w: World, e: Effect)
    requires WorldOk(w) && QuietEffect(w, e)
    ensures StepOk(w, e)
  {
    var w' := Record(w, e);
    assert Grows(w, w');
    assert IntentsOk(w') by {
      forall g | g in w'.store.wal ensures IntentOk(w', w'.store.wal[g]) { assert IntentOk(w, w.store.wal[g]); }
    }
    forall i | |w.answers| <= i < |w'.answers| ensures AnswerOk(w', w'.answers[i]) {
      assert w'.answers[i] == e.event.answer;
    }
    QuietStep(w, w');
    ClientStays(w, w', e.client);
  }

  lemma StoreKnown(w: World)
    requires WorldOk(w)
    ensures w.encoded.Keys == w.store.roots.Keys && w.store.manifest == LastSwap(w) && IntentsOk(w)
  {
  }

  lemma ManifestKnown(w: World)
    requires WorldOk(w) && w.store.manifest.Some?
    ensures var m := w.store.manifest.value;
      ValidManifest(m) && m in w.swaps && (forall g :: g in ManifestHistory(m) ==> Swapped'(w, g)) &&
      Swapped'(w, m.generation)
  {
    var n := |w.swaps| - 1;
    var m := w.swaps[n];
    assert SwapOk(w, n);
    forall g | g in ManifestHistory(m) ensures Swapped'(w, g) {
      var k :| 0 <= k < |m.history| && m.history[k] == g;
      assert SwapOk(w, k) && w.swaps[k].generation == g;
    }
  }

  lemma SeenKnown(w: World, current: Option<Manifest>)
    requires WorldOk(w) && Seen(w, current)
    ensures Reached(w, GenerationOf(current))
    ensures current.Some? ==> ValidManifest(current.value)
  {
    if current.Some? {
      var i :| 0 <= i < |w.swaps| && w.swaps[i] == current.value;
      assert SwapOk(w, i);
    }
  }

  lemma ReadStepSafe(w: World, c: Client)
    requires WorldOk(w) && InRead(c) && ReadOk(w, c)
    ensures StepOk(w, StepRead(w.store, c))
  {
    hide WorldOk, StepOk;
    var e := StepRead(w.store, c);
    assert QuietEffect(w, e) by {
      match c {
        case ReadManifest(at) => if w.store.manifest.Some? { ManifestKnown(w); }
        case FindRoot(g) => StartReading(w, g);
        case ReadRoot(g) => StartReading(w, g);
        case ReadPages(g, loaded, got, next) => ReadOneMore(w, g, loaded, got, next);
      }
    }
    QuietEffectSafe(w, e);
  }

  lemma ScanStepSafe(w: World, c: Client, order: seq<nat>)
    requires WorldOk(w) && RecoverOk'(w, c)
    requires (c.ListIntents? || c.ScanIntents? || c.MatchRoot? || c.LoadRoot? || c.LoadPages?)
    ensures StepOk(w, StepRecover(w.store, c, order))
  {
    hide WorldOk, StepOk;
    var e := StepRecover(w.store, c, order);
    assert QuietEffect(w, e) by {
      match c {
        case LoadRoot(_, _, _, p) => StartReading(w, p.targetGeneration);
        case LoadPages(_, _, _, p, loaded, got, next) => ReadOneMore(w, p.targetGeneration, loaded, got, next);
        case _ => StoreKnown(w);
      }
    }
    QuietEffectSafe(w, e);
  }

  ghost predicate RecoverOk'(w: World, c: Client)
  {
    InRecover(c) && RecoverOk(w, c)
  }

  lemma SwapIntentSafe(w: World, c: Client, order: seq<nat>)
    requires WorldOk(w) && c.SwapIntent? && RecoverOk(w, c)
    ensures StepOk(w, StepRecover(w.store, c, order))
  {
    hide WorldOk;
    var e := StepRecover(w.store, c, order);
    if w.store.manifest == c.expected {
      assert Complete(w, c.left[0]);
      SwapStep(w, Record(w, e), c.successor, c.left[0].root, c.left[0].walHead);
      CompleteStays(w, Record(w, e), c.left);
    } else {
      QuietEffectSafe(w, e);
    }
  }

  /** With the manifest just read, an intent never fails to follow it. */
  lemma ReplayStep(w: World, c: Client, order: seq<nat>)
    requires WorldOk(w) && c.ReplayIntent? && RecoverOk(w, c) && c.left != []
    ensures QuietEffect(w, StepRecover(w.store, c, order))
  {
    hide WorldOk;
    assert Complete(w, c.left[0]);
    StoreKnown(w);
    if w.store.manifest.Some? { ManifestKnown(w); }
    assert Decide(w.store.manifest, c.left[0]) != NoLongerFollows;
  }

  lemma ReplayStepSafe(w: World, c: Client, order: seq<nat>)
    requires WorldOk(w) && RecoverOk'(w, c) && (c.ReplayIntent? || c.DropIntent?)
    ensures StepOk(w, StepRecover(w.store, c, order))
  {
    hide WorldOk, StepOk;
    if c.ReplayIntent? && c.left != [] { ReplayStep(w, c, order); }
    QuietEffectSafe(w, StepRecover(w.store, c, order));
  }

  lemma CompareStepSafe(w: World, c: Client, order: seq<nat>)
    requires WorldOk(w) && (c.CommitRead? || c.CompareRoot? || c.ComparePages?) && PrepareOk(w, c)
    ensures StepOk(w, StepPrepare(w.store, c, order))
  {
    hide WorldOk, StepOk;
    if c.CommitRead? && w.store.manifest.Some? { ManifestKnown(w); }
    if c.CompareRoot? { StartReading(w, c.table.generation); }
    if c.ComparePages? { ReadOneMore(w, c.table.generation, c.loaded, c.got, c.next); }
    QuietEffectSafe(w, StepPrepare(w.store, c, order));
  }

  lemma PrepareStepSafe(w: World, c: Client, order: seq<nat>)
    requires WorldOk(w) && Preparing(c) && PrepareOk(w, c)
    ensures StepOk(w, StepPrepare(w.store, c, order))
  {
    hide WorldOk, StepOk;
    if c.CommitRead? || c.CompareRoot? || c.ComparePages? {
      CompareStepSafe(w, c, order);
    } else {
      if c.LoadPrevious? { SeenKnown(w, c.current); }
      if c.BuildPages? { BuildStep(w, c, order); }
      QuietEffectSafe(w, StepPrepare(w.store, c, order));
    }
  }

  lemma BuildStep(w: World, c: Client, order: seq<nat>)
    requires WorldOk(w) && c.BuildPages? && PrepareOk(w, c)
    ensures QuietEffect(w, StepPrepare(w.store, c, order))
  {
    hide WorldOk;
    var next := StepPrepare(w.store, c, order).client;
    var k := |c.refs|;
    if next.BuildPages? {
      if c.previous.Some? && k < |c.previous.value.pages| { assert ValidPageEntry(c.previous.value, k); }
      assert RefOk(w, c.table, next.refs[k], k);
    }
  }

  lemma ManifestStepSafe(w: World, c: Client)
    requires WorldOk(w) && (c.SwapManifest? || c.FinishCommit? || c.AbandonCommit?) && PublishOk(w, c)
    ensures StepOk(w, StepPublish(w.store, c))
  {
    hide WorldOk;
    var e := StepPublish(w.store, c);
    if e.event.Swapped? { SwapStep(w, Record(w, e), e.event.manifest, c.table.generation, c.table.generation); }
    else { QuietEffectSafe(w, e); }
  }

  lemma ConfirmStepSafe(w: World, c: Client)
    requires WorldOk(w) && (c.ConfirmIntent? || c.ConfirmPage? || c.ConfirmRoot?) && PublishOk(w, c)
    ensures StepOk(w, StepPublish(w.store, c))
  {
    hide WorldOk, StepOk, RefOk, EntryFor, EncodedTable, Chunk;
    var e := StepPublish(w.store, c);
    if c.ConfirmRoot? && e.client.SwapManifest? { SameSnapshot(w, c.table, c.plan); }
    QuietEffectSafe(w, e);
  }

  lemma IntentStep(w: World, c: Client)
    requires WorldOk(w) && c.PutIntent? && PublishOk(w, c)
    ensures StepOk(w, StepPublish(w.store, c))
  {
    var e := StepPublish(w.store, c);
    var w' := Record(w, e);
    SeenKnown(w, c.current);
    QuietStep(w, w');
    RefsStay(w, w', c.table, c.plan.pages);
  }

  lemma PageStep(w: World, c: Client)
    requires WorldOk(w) && c.PutPage? && PublishOk(w, c)
    ensures StepOk(w, StepPublish(w.store, c))
  {
    var e := StepPublish(w.store, c);
    var w' := Record(w, e);
    QuietStep(w, w');
    RefsStay(w, w', c.table, c.plan.pages);
    PagesStay(w, w', c.table, c.plan, c.next);
    if c.next < |c.plan.pages| { assert RefOk(w, c.table, c.plan.pages[c.next], c.next); }
  }

  /** Pages fix the snapshot: two snapshots readable through one root are equal. */
  lemma SameSnapshot(w: World, table: Table, plan: PageManifest)
    requires WorldOk(w) && EncodedTable(table) && PlanOk(w, table, plan) && PagesPut(w, table, plan, |plan.pages|)
    requires plan.generation in w.store.roots && w.store.roots[plan.generation] == plan
    ensures plan.generation in w.encoded && w.encoded[plan.generation] == table.snapshot
  {
    assert GenerationOk(w, plan.generation);
    ReadableReads(w.store.roots, w.store.pages, plan.generation, table.snapshot);
    ReadableReads(w.store.roots, w.store.pages, plan.generation, w.encoded[plan.generation]);
  }

  lemma NewRoot(w: World, w': World, table: Table, plan: PageManifest)
    requires WorldOk(w) && EncodedTable(table) && PlanOk(w, table, plan) && PagesPut(w, table, plan, |plan.pages|)
    requires plan.generation !in w.store.roots
    requires w' == w.(store := w.store.(roots := w.store.roots[plan.generation := plan]),
                      encoded := w.encoded[plan.generation := table.snapshot])
    ensures WorldOk(w') && Grows(w, w')
  {
    forall g | g in w'.encoded ensures GenerationOk(w', g) {
      if g != plan.generation { PagesKeepGeneration(w, w', g); }
    }
    forall i | 0 <= i < |w'.swaps| ensures SwapOk(w', i) { assert SwapOk(w, i); }
    AnswersStay(w, w');
  }

  lemma RootStep(w: World, c: Client)
    requires WorldOk(w) && c.PutRoot? && PublishOk(w, c)
    ensures StepOk(w, StepPublish(w.store, c))
  {
    hide WorldOk;
    var e := StepPublish(w.store, c);
    if e.event.Published? {
      NewRoot(w, Record(w, e), c.table, c.plan);
    } else {
      if e.client.SwapManifest? { SameSnapshot(w, c.table, c.plan); }
      QuietEffectSafe(w, e);
    }
  }

  lemma StepSafe(w: World, c: Client, order: seq<nat>)
    requires WorldOk(w) && ClientOk(w, c)
    ensures StepOk(w, Step(w.store, c, order))
  {
    hide WorldOk, StepOk, QuietEffect, RecoverOk, ReadOk, PrepareOk, PublishOk,
         StepRecover, StepRead, StepPrepare, StepPublish;
    if c.Idle? { QuietEffectSafe(w, Step(w.store, c, order)); }
    else if InRead(c) { ReadStepSafe(w, c); }
    else if Preparing(c) { PrepareStepSafe(w, c, order); }
    else if InRecover(c) {
      if c.SwapIntent? { SwapIntentSafe(w, c, order); }
      else if c.ReplayIntent? || c.DropIntent? { ReplayStepSafe(w, c, order); }
      else { ScanStepSafe(w, c, order); }
    }
    else if c.PutIntent? { IntentStep(w, c); }
    else if c.PutPage? { PageStep(w, c); }
    else if c.PutRoot? { RootStep(w, c); }
    else if c.ConfirmIntent? || c.ConfirmPage? || c.ConfirmRoot? { ConfirmStepSafe(w, c); }
    else { ManifestStepSafe(w, c); }
  }

  // ---- Whole runs ----

  ghost predicate SystemOk(sys: System)
  {
    WorldOk(sys.world) && forall id :: id in sys.clients ==> ClientOk(sys.world, sys.clients[id])
  }

  lemma ActSafe(sys: System, a: Action)
    requires SystemOk(sys) && Enabled(sys, a)
    ensures SystemOk(Act(sys, a)) && Grows(sys.world, Act(sys, a).world)
  {
    var sys' := Act(sys, a);
    if a.Run? {
      StepSafe(sys.world, sys.clients[a.id], a.order);
      forall id | id in sys'.clients ensures ClientOk(sys'.world, sys'.clients[id]) {
        if id != a.id { ClientStays(sys.world, sys'.world, sys.clients[id]); }
      }
    }
  }

  lemma {:induction false} RunSafe(states: seq<System>, actions: seq<Action>, i: nat)
    requires IsRun(states, actions) && i < |states|
    ensures SystemOk(states[i])
    decreases i
  {
    if i > 0 {
      RunSafe(states, actions, i - 1);
      assert states[i] == Act(states[i - 1], actions[i - 1]);
      ActSafe(states[i - 1], actions[i - 1]);
    }
  }

  lemma {:induction false} RunGrows(states: seq<System>, actions: seq<Action>, i: nat, j: nat)
    requires IsRun(states, actions) && i <= j < |states|
    ensures Grows(states[i].world, states[j].world)
    decreases j - i
  {
    if i < j {
      RunSafe(states, actions, j - 1);
      assert states[j] == Act(states[j - 1], actions[j - 1]);
      ActSafe(states[j - 1], actions[j - 1]);
      RunGrows(states, actions, i, j - 1);
    }
  }

  lemma OnlyWritersPublish(w: World, c: Client, order: seq<nat>)
    requires ClientOk(w, c)
    ensures var e := Step(w.store, c, order);
      e.event.Published? ==> c.PutRoot? && c.table == Table(e.event.generation, e.event.snapshot)
  {
  }

  /** `encoded` is not a free variable: each entry is the snapshot of a client
      that was about to publish that generation's root. */
  lemma {:induction false} EncodedByItsWriter(states: seq<System>, actions: seq<Action>, i: nat, g: nat)
    requires IsRun(states, actions) && i < |states| && g in states[i].world.encoded
    ensures exists k: nat, id :: k < i && id in states[k].clients && states[k].clients[id].PutRoot? &&
                                 states[k].clients[id].table == Table(g, states[i].world.encoded[g])
    decreases i
  {
    hide WorldOk, ClientOk, Step;
    var a, before := actions[i - 1], states[i - 1];
    assert states[i] == Act(before, a);
    if g in before.world.encoded && before.world.encoded[g] == states[i].world.encoded[g] {
      EncodedByItsWriter(states, actions, i - 1, g);
    } else {
      RunSafe(states, actions, i - 1);
      OnlyWritersPublish(before.world, before.clients[a.id], a.order);
    }
  }

  /** Every generation in the manifest history has its root and all its pages, holding what its
      writer encoded, and reads back as that snapshot. */
  lemma HistoryIsReadable(states: seq<System>, actions: seq<Action>, i: nat, g: nat)
    requires IsRun(states, actions) && i < |states|
    requires states[i].world.store.manifest.Some? && g in ManifestHistory(states[i].world.store.manifest.value)
    ensures var w := states[i].world;
      g in w.encoded && g in w.store.roots && Readable(w.store.pages, w.store.roots[g], g, w.encoded[g]) &&
      ReadAt(w.store, g) == Ok(Some(w.encoded[g]))
  {
    RunSafe(states, actions, i);
    var w := states[i].world;
    ManifestKnown(w);
    assert Swapped'(w, g) && GenerationOk(w, g);
    ReadableReads(w.store.roots, w.store.pages, g, w.encoded[g]);
  }

  /** `m'` extends the history of `m` by one newer generation. */
  ghost predicate Succeeds(m': Option<Manifest>, m: Option<Manifest>)
  {
    m'.Some? && m'.value.history == (if m.Some? then m.value.history else []) + [m'.value.generation] &&
    Increasing(m'.value.history) && (m.Some? ==> m.value.generation < m'.value.generation)
  }

  lemma OneMoreSwap(w: World, w': World, successor: Manifest)
    requires ManifestOk(w) && ManifestOk(w') && w'.swaps == w.swaps + [successor]
    ensures Succeeds(w'.store.manifest, w.store.manifest)
  {
    assert SwapOk(w', |w.swaps|);
    if w.swaps != [] { assert SwapOk(w, |w.swaps| - 1) && w'.swaps[|w.swaps| - 1] == w.swaps[|w.swaps| - 1]; }
  }

  /** The manifest changes only by gaining one newer generation at the end of its history, so each
      generation is the base of at most one successor. */
  lemma ManifestOnlyAdvances(states: seq<System>, actions: seq<Action>, i: nat)
    requires IsRun(states, actions) && i + 1 < |states|
    ensures var m, m' := states[i].world.store.manifest, states[i + 1].world.store.manifest;
      m' == m || Succeeds(m', m)
  {
    hide ClientOk, Step, Succeeds, RootsOk, IntentsOk, SwapOk, AnswerOk;
    RunSafe(states, actions, i);
    RunSafe(states, actions, i + 1);
    assert states[i + 1] == Act(states[i], actions[i]);
    var w, w' := states[i].world, states[i + 1].world;
    if w'.swaps != w.swaps {
      OneMoreSwap(w, w', Step(w.store, states[i].clients[actions[i].id], actions[i].order).event.manifest);
    }
  }

  /** Answers are forever: a committed table is what every later state reads at its generation, any
      completed read agrees with it, and no client is ever told that a read failed or that an intent
      no longer follows the manifest. */
  lemma AnswersAreForever(states: seq<System>, actions: seq<Action>, i: nat, j: nat, a: Answer)
    requires IsRun(states, actions) && i <= j < |states| && a in states[i].world.answers
    ensures a.Committed? || a.AlreadyCommitted? ==>
      ReadAt(states[j].world.store, a.table.generation) == Ok(Some(a.table.snapshot))
    ensures a.Read? ==> ReadAt(states[j].world.store, a.generation) == Ok(Some(a.bytes))
    ensures !a.ReadFailed? && !a.NoLongerFollowed?
  {
    RunSafe(states, actions, i);
    RunSafe(states, actions, j);
    RunGrows(states, actions, i, j);
    assert AnswerOk(states[i].world, a);
    if a.Committed? || a.AlreadyCommitted? {
      DurableReads(states[i].world, states[j].world, a.table.generation, a.table.snapshot);
    }
    if a.Read? { DurableReads(states[i].world, states[j].world, a.generation, a.bytes); }
  }

  lemma DurableReads(w: World, w': World, g: nat, snapshot: Bytes)
    requires WorldOk(w') && Grows(w, w') && Durable(w, g, snapshot)
    ensures ReadAt(w'.store, g) == Ok(Some(snapshot))
  {
    SwappedStays(w, w', g);
    var i :| 0 <= i < |w'.swaps| && w'.swaps[i].generation == g;
    var n := |w'.swaps| - 1;
    assert SwapOk(w', n) && w'.swaps[n].history[i] == g;
    assert GenerationOk(w', g);
    ReadableReads(w'.store.roots, w'.store.pages, g, snapshot);
  }

  /** Every intent's base is at most the current generation, so a replay never
      finds that it no longer follows. */
  lemma IntentsFollow(states: seq<System>, actions: seq<Action>, i: nat, g: nat)
    requires IsRun(states, actions) && i < |states| && g in states[i].world.store.wal
    ensures var s := states[i].world.store;
      ValidPending(g, s.wal[g]) && Decide(s.manifest, s.wal[g]) != NoLongerFollows &&
      (s.wal[g].baseGeneration.Some? ==>
       s.manifest.Some? && s.wal[g].baseGeneration.value <= s.manifest.value.generation)
  {
    RunSafe(states, actions, i);
    assert IntentOk(states[i].world, states[i].world.store.wal[g]);
  }
}
