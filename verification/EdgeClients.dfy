/** Any number of clients running `commit`, `recover` and `read` against one
    namespace, interleaved at every store call, each able to crash anywhere. */
module EdgeClients {
  import opened Base
  import opened EdgePages
  import opened EdgeProtocol

  /** What a client does once its initial `recover` is done. */
  datatype Purpose = ToCommit(table: Table) | ToRead(at: Option<nat>) | ToRecover

  /** A client between two store calls. */
  datatype Client =
    | Idle
    // recover
    | ListIntents(why: Purpose)
    | ScanIntents(why: Purpose, todo: seq<nat>, found: seq<PendingCommit>)
    | MatchRoot(why: Purpose, todo: seq<nat>, found: seq<PendingCommit>, intent: PendingCommit)
    | LoadRoot(why: Purpose, todo: seq<nat>, found: seq<PendingCommit>, intent: PendingCommit)
    | LoadPages(why: Purpose, todo: seq<nat>, found: seq<PendingCommit>, intent: PendingCommit,
                loaded: PageManifest, got: Bytes, next: nat)
    | ReplayIntent(why: Purpose, left: seq<PendingCommit>, count: nat)
    | SwapIntent(why: Purpose, left: seq<PendingCommit>, count: nat, expected: Option<Manifest>, successor: Manifest)
    | DropIntent(why: Purpose, left: seq<PendingCommit>, count: nat)
    // commit
    | CommitRead(table: Table)
    | CompareRoot(table: Table)
    | ComparePages(table: Table, loaded: PageManifest, got: Bytes, next: nat)
    | ListRivals(table: Table, current: Option<Manifest>)
    | ScanRivals(table: Table, current: Option<Manifest>, todo: seq<nat>)
    | LoadPrevious(table: Table, current: Option<Manifest>)
    | BuildPages(table: Table, current: Option<Manifest>, previous: Option<PageManifest>, refs: seq<PageReference>)
    | PutIntent(table: Table, current: Option<Manifest>, plan: PageManifest)
    | ConfirmIntent(table: Table, current: Option<Manifest>, plan: PageManifest)
    | PutPage(table: Table, current: Option<Manifest>, plan: PageManifest, next: nat)
    | ConfirmPage(table: Table, current: Option<Manifest>, plan: PageManifest, next: nat)
    | PutRoot(table: Table, current: Option<Manifest>, plan: PageManifest)
    | ConfirmRoot(table: Table, current: Option<Manifest>, plan: PageManifest)
    | SwapManifest(table: Table, current: Option<Manifest>)
    | FinishCommit(table: Table)
    | AbandonCommit(table: Table)
    // read and read_at
    | ReadManifest(at: Option<nat>)
    | FindRoot(generation: nat)
    | ReadRoot(generation: nat)
    | ReadPages(generation: nat, loaded: PageManifest, got: Bytes, next: nat)

  datatype Answer =
    | Committed(table: Table)
    | AlreadyCommitted(table: Table)
    | Read(generation: nat, bytes: Bytes)
    | NotInHistory(generation: nat)
    | ReadFailed(generation: nat)
    | Recovered(count: nat)
    | NoLongerFollowed(target: nat)

  /** What a step makes visible besides the store. */
  datatype Event =
    Silent | Published(generation: nat, snapshot: Bytes) | Swapped(manifest: Manifest) | Answered(answer: Answer)

  datatype Effect = Effect(store: Store, client: Client, event: Event)

  function Move(s: Store, c: Client): Effect { Effect(s, c, Silent) }

  function Done(s: Store, answer: Answer): Effect { Effect(s, Idle, Answered(answer)) }

  function DropWal(s: Store, generation: nat): Store
  {
    s.(wal := s.wal - {generation})
  }

  function IntentFor(table: Table, current: Option<Manifest>, plan: PageManifest): PendingCommit
  {
    PendingCommit(GenerationOf(current), table.generation, table.generation, table.generation, plan)
  }

  function AfterRecover(s: Store, why: Purpose, count: nat): Effect
  {
    match why
    case ToCommit(table) => Move(s, CommitRead(table))
    case ToRead(at) => Move(s, ReadManifest(at))
    case ToRecover => Done(s, Recovered(count))
  }

  predicate InRecover(c: Client)
  {
    c.ListIntents? || c.ScanIntents? || c.MatchRoot? || c.LoadRoot? || c.LoadPages? ||
    c.ReplayIntent? || c.SwapIntent? ||
    c.DropIntent?
  }

  predicate InRead(c: Client)
  {
    c.ReadManifest? || c.FindRoot? || c.ReadRoot? || c.ReadPages?
  }

  /** One store call of `recover`; `order` is the order a `list` call answers in. */
  function StepRecover(s: Store, c: Client, order: seq<nat>): Effect
    requires InRecover(c)
  {
    match c
    case ListIntents(why) => Move(s, ScanIntents(why, order, []))
    case ScanIntents(why, todo, found) =>
      if todo == [] then Move(s, ReplayIntent(why, SortByTarget(found), 0))
      else if todo[0] !in s.wal then Move(s, ScanIntents(why, todo[1..], found))
      else if !ValidPending(todo[0], s.wal[todo[0]]) then Move(s, Idle)
      else Move(s, MatchRoot(why, todo[1..], found, s.wal[todo[0]]))
    case MatchRoot(why, todo, found, intent) =>
      if intent.root !in s.roots then Move(s, ScanIntents(why, todo, found))
      else if s.roots[intent.root] != intent.pageManifest then Move(s, Idle)
      else Move(s, LoadRoot(why, todo, found, intent))
    case LoadRoot(why, todo, found, intent) =>
      if intent.root !in s.roots then Move(s, ScanIntents(why, todo, found))
      else if !ValidPageManifest(s.roots[intent.root], intent.targetGeneration, MAX_FILE_SIZE) then Move(s, Idle)
      else Move(s, LoadPages(why, todo, found, intent, s.roots[intent.root], [], 0))
    case LoadPages(why, todo, found, intent, loaded, got, next) =>
      if next >= |loaded.pages| then
        if |got| == loaded.snapshotLength && DecodedGeneration(got) == Some(intent.targetGeneration) then
          Move(s, ScanIntents(why, todo, found + [intent]))
        else Move(s, Idle)
      else (match ReadPage(s.pages, loaded, next)
        case Err(Missing) => Move(s, ScanIntents(why, todo, found))
        case Err(_) => Move(s, Idle)
        case Ok(bytes) => Move(s, LoadPages(why, todo, found, intent, loaded, got + bytes, next + 1)))
    case ReplayIntent(why, left, count) =>
      if left == [] then AfterRecover(s, why, count)
      else if s.manifest.Some? && !ValidManifest(s.manifest.value) then Move(s, Idle)
      else (match Decide(s.manifest, left[0])
        case AlreadyCurrent => Move(s, DropIntent(why, left, count + 1))
        case Superseded => Move(s, DropIntent(why, left, count))
        case NoLongerFollows => Done(s, NoLongerFollowed(left[0].targetGeneration))
        case Advance =>
          match NextManifest(s.manifest, left[0].targetGeneration, left[0].root, left[0].walHead)
          case Err(_) => Move(s, Idle)
          case Ok(successor) => Move(s, SwapIntent(why, left, count, s.manifest, successor)))
    case SwapIntent(why, left, count, expected, successor) =>
      if s.manifest != expected then Move(s, Idle)
      else Effect(s.(manifest := Some(successor)), DropIntent(why, left, count + 1), Swapped(successor))
    case DropIntent(why, left, count) =>
      if left == [] then Move(s, ReplayIntent(why, left, count))
      else Move(DropWal(s, left[0].targetGeneration), ReplayIntent(why, left[1..], count))
  }

  /** One store call of `read` or `read_at` after its recovery. */
  function StepRead(s: Store, c: Client): Effect
    requires InRead(c)
  {
    match c
    case ReadManifest(at) =>
      if s.manifest.None? then (if at.Some? then Done(s, NotInHistory(at.value)) else Move(s, Idle))
      else if !ValidManifest(s.manifest.value) then Done(s, ReadFailed(s.manifest.value.generation))
      else if at.None? then Move(s, ReadRoot(s.manifest.value.generation))
      else if at.value !in ManifestHistory(s.manifest.value) then Done(s, NotInHistory(at.value))
      else Move(s, FindRoot(at.value))
    case FindRoot(generation) =>
      if generation in s.roots then Move(s, ReadRoot(generation)) else Done(s, ReadFailed(generation))
    case ReadRoot(generation) =>
      if generation !in s.roots || !ValidPageManifest(s.roots[generation], generation, MAX_FILE_SIZE)
      then Done(s, ReadFailed(generation))
      else Move(s, ReadPages(generation, s.roots[generation], [], 0))
    case ReadPages(generation, loaded, got, next) =>
      if next >= |loaded.pages| then
        if |got| == loaded.snapshotLength && DecodedGeneration(got) == Some(generation)
        then Done(s, Read(generation, got)) else Done(s, ReadFailed(generation))
      else match ReadPage(s.pages, loaded, next)
        case Err(_) => Done(s, ReadFailed(generation))
        case Ok(bytes) => Move(s, ReadPages(generation, loaded, got + bytes, next + 1))
  }

  /** One store call of `commit` before it writes anything. */
  function StepPrepare(s: Store, c: Client, order: seq<nat>): Effect
    requires Preparing(c)
  {
    match c
    case CommitRead(table) =>
      if s.manifest.None? then Move(s, ListRivals(table, None))
      else if !ValidManifest(s.manifest.value) || table.generation < s.manifest.value.generation then Move(s, Idle)
      else if table.generation == s.manifest.value.generation then Move(s, CompareRoot(table))
      else Move(s, ListRivals(table, s.manifest))
    case CompareRoot(table) =>
      if table.generation !in s.roots ||
         !ValidPageManifest(s.roots[table.generation], table.generation, MAX_FILE_SIZE) then Move(s, Idle)
      else Move(s, ComparePages(table, s.roots[table.generation], [], 0))
    case ComparePages(table, loaded, got, next) =>
      if next >= |loaded.pages| then
        if |got| == loaded.snapshotLength && got == table.snapshot then Done(s, AlreadyCommitted(table))
        else Move(s, Idle)
      else (match ReadPage(s.pages, loaded, next)
        case Err(_) => Move(s, Idle)
        case Ok(bytes) => Move(s, ComparePages(table, loaded, got + bytes, next + 1)))
    case ListRivals(table, current) => Move(s, ScanRivals(table, current, order))
    case ScanRivals(table, current, todo) =>
      if todo == [] then Move(s, LoadPrevious(table, current))
      else if todo[0] !in s.wal then Move(s, ScanRivals(table, current, todo[1..]))
      else
        var rival := s.wal[todo[0]];
        if !ValidPending(todo[0], rival) then Move(s, Idle)
        else if rival.baseGeneration == GenerationOf(current) && rival.targetGeneration != table.generation
        then Move(s, Idle)
        else Move(s, ScanRivals(table, current, todo[1..]))
    case LoadPrevious(table, current) =>
      if current.None? then Move(s, BuildPages(table, current, None, []))
      else
        var generation := current.value.root;
        if generation !in s.roots || !ValidPageManifest(s.roots[generation], generation, U64_MAX) then Move(s, Idle)
        else Move(s, BuildPages(table, current, Some(s.roots[generation]), []))
    case BuildPages(table, current, previous, refs) =>
      var k := |refs|;
      if k >= PageCount(|table.snapshot|) then
        var plan := PageManifest(PAGE_MANIFEST_VERSION, table.generation, |table.snapshot|, PAGE_SIZE, refs);
        if ValidPending(table.generation, IntentFor(table, current, plan)) then Move(s, PutIntent(table, current, plan))
        else Move(s, Idle)
      else
        var chunk := Chunk(table.snapshot, k);
        if previous.Some? && k < |previous.value.pages| && previous.value.pages[k].length == |chunk| then
          var kept := previous.value.pages[k].generation;
          if (kept, k) !in s.pages then Move(s, Idle)
          else
            var generation := if s.pages[(kept, k)] == chunk then kept else table.generation;
            Move(s, BuildPages(table, current, previous, refs + [PageReference(generation, |chunk|, Crc32c(chunk))]))
        else
          Move(s, BuildPages(table, current, previous,
                             refs + [PageReference(table.generation, |chunk|, Crc32c(chunk))]))
  }

  predicate Preparing(c: Client)
  {
    c.CommitRead? || c.CompareRoot? || c.ComparePages? || c.ListRivals? || c.ScanRivals? ||
    c.LoadPrevious? || c.BuildPages?
  }

  predicate Publishing(c: Client)
  {
    c.PutIntent? || c.ConfirmIntent? || c.PutPage? || c.ConfirmPage? || c.PutRoot? || c.ConfirmRoot? ||
    c.SwapManifest? ||
    c.FinishCommit? || c.AbandonCommit?
  }

  /** One store call of `commit` from its intent on. */
  function StepPublish(s: Store, c: Client): Effect
    requires Publishing(c)
  {
    match c
    case PutIntent(table, current, plan) =>
      var (ok, wal) := PutIfAbsent(s.wal, table.generation, IntentFor(table, current, plan));
      Move(s.(wal := wal), if ok then PutPage(table, current, plan, 0) else ConfirmIntent(table, current, plan))
    case ConfirmIntent(table, current, plan) =>
      if table.generation in s.wal && s.wal[table.generation] == IntentFor(table, current, plan)
      then Move(s, PutPage(table, current, plan, 0)) else Move(s, Idle)
    case PutPage(table, current, plan, next) =>
      if next >= |plan.pages| then Move(s, PutRoot(table, current, plan))
      else if plan.pages[next].generation != plan.generation then Move(s, PutPage(table, current, plan, next + 1))
      else
        var (ok, pages) := PutIfAbsent(s.pages, (plan.generation, next), Chunk(table.snapshot, next));
        Move(s.(pages := pages),
             if ok then PutPage(table, current, plan, next + 1) else ConfirmPage(table, current, plan, next))
    case ConfirmPage(table, current, plan, next) =>
      if (plan.generation, next) in s.pages && s.pages[(plan.generation, next)] == Chunk(table.snapshot, next)
      then Move(s, PutPage(table, current, plan, next + 1)) else Move(s, AbandonCommit(table))
    case PutRoot(table, current, plan) =>
      var (ok, roots) := PutIfAbsent(s.roots, plan.generation, plan);
      if !ok then Move(s, ConfirmRoot(table, current, plan))
      else
        Effect(s.(roots := roots), SwapManifest(table, current),
               if plan.generation in s.roots then Silent else Published(plan.generation, table.snapshot))
    case ConfirmRoot(table, current, plan) =>
      if plan.generation in s.roots && s.roots[plan.generation] == plan
      then Move(s, SwapManifest(table, current)) else Move(s, AbandonCommit(table))
    case SwapManifest(table, current) => (
      match NextManifest(current, table.generation, table.generation, table.generation)
      case Err(_) => Move(s, Idle)
      case Ok(successor) =>
        if s.manifest != current then Move(s, AbandonCommit(table))
        else Effect(s.(manifest := Some(successor)), FinishCommit(table), Swapped(successor)))
    case FinishCommit(table) => Done(DropWal(s, table.generation), Committed(table))
    case AbandonCommit(table) => Move(DropWal(s, table.generation), Idle)
  }

  function Step(s: Store, c: Client, order: seq<nat>): Effect
  {
    if c.Idle? then Move(s, Idle)
    else if InRecover(c) then StepRecover(s, c, order)
    else if InRead(c) then StepRead(s, c)
    else if Preparing(c) then StepPrepare(s, c, order)
    else StepPublish(s, c)
  }

  /** The store with the history of what clients did to it: which snapshot each
      root was published for, every manifest swapped in, and every answer given. */
  datatype World = World(store: Store, encoded: map<nat, Bytes>, swaps: seq<Manifest>, answers: seq<Answer>)

  function Record(w: World, e: Effect): World
  {
    var w' := w.(store := e.store);
    match e.event
    case Silent => w'
    case Published(g, snapshot) => w'.(encoded := w.encoded[g := snapshot])
    case Swapped(m) => w'.(swaps := w.swaps + [m])
    case Answered(a) => w'.(answers := w.answers + [a])
  }

  datatype System = System(world: World, clients: map<nat, Client>)

  datatype Action =
    | Start(id: nat, why: Purpose)
    | Run(id: nat, order: seq<nat>)
    | Crash(id: nat)

  ghost predicate Enabled(sys: System, a: Action)
  {
    match a
    case Start(id, why) => id !in sys.clients && (why.ToCommit? ==> EncodedTable(why.table))
    case Run(id, order) => id in sys.clients && Lists(order, sys.world.store.wal.Keys)
    case Crash(id) => id in sys.clients
  }

  ghost function Act(sys: System, a: Action): System
    requires Enabled(sys, a)
  {
    match a
    case Start(id, why) => sys.(clients := sys.clients[id := ListIntents(why)])
    case Run(id, order) =>
      var e := Step(sys.world.store, sys.clients[id], order);
      System(Record(sys.world, e), sys.clients[id := e.client])
    case Crash(id) => sys.(clients := sys.clients - {id})
  }

  const EMPTY: System := System(World(Store(None, map[], map[], map[]), map[], [], []), map[])

  /** A run from the empty namespace. */
  ghost predicate IsRun(states: seq<System>, actions: seq<Action>)
  {
    |states| == |actions| + 1 && states[0] == EMPTY &&
    forall i :: 0 <= i < |actions| ==> Enabled(states[i], actions[i]) && states[i + 1] == Act(states[i], actions[i])
  }
}
