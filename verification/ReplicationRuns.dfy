/** Whole runs of an authority and of its followers. */
module ReplicationRuns {
  import opened Base
  import opened Journal
  import opened CatalogState
  import opened Replication

  /** The authority began with these files and this log and has committed these entries since. */
  datatype Authority = Authority(files: CatalogFiles, log: Log, entries: seq<Entry>)

  ghost predicate Lived(a: Authority) { History(a.files, a.log, a.entries) }

  /** The catalog and the log after the first `k` entries. */
  function ImageAt(a: Authority, k: nat): CatalogFiles
    requires k <= |a.entries|
  {
    ImageOf(a.files, a.log, a.entries[..k])
  }

  function LogAt(a: Authority, k: nat): Log
    requires k <= |a.entries|
  {
    Extend(a.log, a.entries[..k])
  }

  /** The replica's disk recovers to the first `durable` entries; its memory has the first `seen`. */
  ghost predicate Follows(r: Replica, a: Authority, seen: nat, durable: nat)
    reads r, r.catalog
  {
    Lived(a) && seen <= durable <= |a.entries| && durable <= seen + 1 && Sound(r.catalog.disk) &&
    Recovered(r.catalog.disk) == ImageAt(a, durable) && r.log == LogAt(a, seen)
  }

  lemma AtPosition(a: Authority, k: nat)
    requires Lived(a) && k <= |a.entries|
    ensures Opens(ImageAt(a, k), LogAt(a, k)) && InStep(ImageAt(a, k), LogAt(a, k)) && ValidLog(LogAt(a, k))
    ensures CurrentId(ImageAt(a, k)) == Ok(LastId(LogAt(a, k))) && LastId(LogAt(a, k)) == LastId(a.log) + k
    ensures LogAt(a, k).term == a.log.term
  {
    hide History, ImageOf, CurrentId, Placed;
    HistoryPrefix(a.files, a.log, a.entries, k);
  }

  lemma EntryAt(a: Authority, j: nat)
    requires Lived(a) && j < |a.entries|
    ensures Accepts(ImageAt(a, j), LogAt(a, j), a.entries[j])
    ensures ImageAt(a, j + 1) == Next(ImageAt(a, j), LogAt(a, j), a.entries[j])
    ensures LogAt(a, j + 1) == Extend(LogAt(a, j), [a.entries[j]])
    ensures a.entries[j].index == LastIndex(a.log) + j + 1
  {
    hide History, ImageOf, Next, Runs, ValidEntry;
    HistoryNext(a.files, a.log, a.entries, j);
    assert a.entries[..j + 1] == a.entries[..j] + [a.entries[j]];
  }

  /** A log in memory holds exactly the entries it has seen. */
  lemma HoldsSeen(a: Authority, seen: nat, j: nat)
    requires Lived(a) && seen <= |a.entries| && j < |a.entries|
    ensures Holds(LogAt(a, seen), a.entries[j]) <==> j < seen
    ensures forall files :: Accepts(files, LogAt(a, seen), a.entries[j]) ==> j == seen
  {
    hide Runs, ValidEntry, ImageAt, History;
    EntryAt(a, j);
    var log := LogAt(a, seen);
    if j < seen {
      assert log.entries[|a.log.entries| + j] == a.entries[j];
    }
  }

  /** One delivery of any entry of the authority, at any time. */
  method Deliver(r: Replica, ghost a: Authority, ghost j: nat, e: Entry, ghost seen: nat, ghost durable: nat)
    returns (outcome: ApplyOutcome, ghost seen': nat, ghost durable': nat)
    requires Follows(r, a, seen, durable) && j < |a.entries| && e == a.entries[j]
    modifies r, r.catalog
    ensures Follows(r, a, seen', durable')
    ensures durable <= durable' <= durable + 1 && seen' == if outcome.Applied? then seen + 1 else seen
    ensures durable' == durable + 1 ==> j == durable == seen
    ensures outcome.Applied? ==> j == seen && durable' == durable + 1 == seen'
    ensures outcome.Duplicate? ==> j < seen == durable
    ensures seen == durable && j == seen ==> outcome.Applied? || outcome.Interrupted?
    ensures seen == durable && j < seen ==> outcome.Duplicate? || outcome.Interrupted?
  {
    hide Next, Accepts, Opens, ImageAt, LogAt, Recovered, Sound;
    AtPosition(a, seen);
    AtPosition(a, durable);
    HoldsSeen(a, seen, j);
    EntryAt(a, j);
    ghost var decided;
    outcome, decided := r.Receive(e);
    seen' := if outcome.Applied? then seen + 1 else seen;
    durable' := if decided then durable + 1 else durable;
  }

  /** Delivers a page of entries in order; the first failure ends it, and what came before stays. */
  method DeliverPage(r: Replica, ghost a: Authority, ghost from: seq<nat>, page: seq<Entry>,
                     ghost seen: nat, ghost durable: nat)
    returns (outcomes: seq<ApplyOutcome>, ghost seen': nat, ghost durable': nat)
    requires Follows(r, a, seen, durable) && |from| == |page|
    requires forall i :: 0 <= i < |page| ==> from[i] < |a.entries| && page[i] == a.entries[from[i]]
    modifies r, r.catalog
    ensures Follows(r, a, seen', durable') && durable <= durable' && seen <= seen'
    ensures |outcomes| <= |page|
    ensures |outcomes| < |page| ==>
      |outcomes| > 0 && (outcomes[|outcomes| - 1].Failed? || outcomes[|outcomes| - 1].Interrupted?)
    ensures forall i :: 0 <= i < |outcomes| - 1 ==> outcomes[i].Applied? || outcomes[i].Duplicate?
  {
    hide Follows;
    outcomes, seen', durable' := [], seen, durable;
    for i := 0 to |page|
      invariant Follows(r, a, seen', durable') && durable <= durable' && seen <= seen' && |outcomes| == i
      invariant forall k :: 0 <= k < i ==> outcomes[k].Applied? || outcomes[k].Duplicate?
    {
      var outcome;
      outcome, seen', durable' := Deliver(r, a, from[i], page[i], seen', durable');
      outcomes := outcomes + [outcome];
      if outcome.Failed? || outcome.Interrupted? {
        return;
      }
    }
  }

  datatype Event = Page(from: seq<nat>) | Restart

  /** How many entries the replica recovers to after each event, and the files: the number never falls,
      and the files are those of that prefix. */
  ghost predicate Advances(a: Authority, trace: seq<(nat, CatalogFiles)>)
  {
    (forall i, j :: 0 <= i <= j < |trace| ==> trace[i].0 <= trace[j].0) &&
    forall i :: 0 <= i < |trace| ==> trace[i].0 <= |a.entries| && trace[i].1 == ImageAt(a, trace[i].0)
  }

  lemma FollowsFacts(r: Replica, a: Authority, seen: nat, durable: nat)
    requires Follows(r, a, seen, durable)
    ensures Lived(a) && seen <= durable <= |a.entries| && Sound(r.catalog.disk)
    ensures Recovered(r.catalog.disk) == ImageAt(a, durable)
  {
  }

  /** A follower fed any pages of the authority's entries, in any order and any number of times,
      interrupted anywhere and restarted at will: its disk always recovers to a prefix of the
      authority's history that only grows, and a restart that is not interrupted opens there. */
  method Follow(r: Replica, a: Authority, events: seq<Event>)
    returns (up: bool, ghost seen: nat, ghost durable: nat, ghost trace: seq<(nat, CatalogFiles)>)
    requires Follows(r, a, 0, 0)
    requires forall i, k :: 0 <= i < |events| && events[i].Page? && 0 <= k < |events[i].from| ==>
      events[i].from[k] < |a.entries|
    modifies r, r.catalog
    ensures Lived(a) && durable <= |a.entries| && Sound(r.catalog.disk)
    ensures Recovered(r.catalog.disk) == ImageAt(a, durable)
    ensures up ==> Follows(r, a, seen, durable)
    ensures up && events != [] && events[|events| - 1].Restart? ==> seen == durable
    ensures |trace| == |events| + 1 && trace[0].0 == 0 && trace[|events|] == (durable, Recovered(r.catalog.disk))
    ensures Advances(a, trace)
  {
    hide Follows, Sound, Recovered, ImageAt, Lived;
    up, seen, durable := true, 0, 0;
    FollowsFacts(r, a, 0, 0);
    trace := [(0, Recovered(r.catalog.disk))];
    for i := 0 to |events|
      invariant Lived(a) && durable <= |a.entries| && Sound(r.catalog.disk)
      invariant Recovered(r.catalog.disk) == ImageAt(a, durable)
      invariant up ==> Follows(r, a, seen, durable)
      invariant up && i > 0 && events[i - 1].Restart? ==> seen == durable
      invariant |trace| == i + 1 && trace[0].0 == 0 && trace[i] == (durable, Recovered(r.catalog.disk))
      invariant Advances(a, trace)
    {
      match events[i] {
        case Restart =>
          var interrupted := ReopenAt(r, a.log.term, a, durable);
          up, seen := !interrupted, durable;
        case Page(from) =>
          if up {
            var page := seq(|from|, k requires 0 <= k < |from| => a.entries[from[k]]);
            var _, seen', durable' := DeliverPage(r, a, from, page, seen, durable);
            seen, durable := seen', durable';
            FollowsFacts(r, a, seen, durable);
          }
      }
      trace := trace + [(durable, Recovered(r.catalog.disk))];
    }
  }

  /** Opening a replica's catalog again: the stored log passes every check. */
  method ReopenAt(r: Replica, term: u64, ghost a: Authority, ghost durable: nat) returns (interrupted: bool)
    requires Lived(a) && durable <= |a.entries| && Sound(r.catalog.disk)
    requires Recovered(r.catalog.disk) == ImageAt(a, durable) && term == a.log.term
    modifies r, r.catalog
    ensures Sound(r.catalog.disk) && Recovered(r.catalog.disk) == ImageAt(a, durable)
    ensures !interrupted ==> Follows(r, a, durable, durable)
  {
    hide Opens, InStep, ImageAt, LogAt, Recovered, Sound;
    AtPosition(a, durable);
    var outcome;
    outcome, interrupted := r.Open(term);
  }

  /** The entry that the authority makes of transaction steps. */
  function EntryFor(log: Log, schemaTag: string, steps: seq<Step>): Entry
    requires LastIndex(log) < U64_MAX && LastId(log) < U64_MAX
  {
    var index, id := LastIndex(log) + 1, LastId(log) + 1;
    if forall i :: 0 <= i < |steps| ==> steps[i].Mutation? then
      var operations := seq(|steps|, i requires 0 <= i < |steps| && steps[i].Mutation? => steps[i].operation);
      Entry(ENTRY_VERSION, log.term, index, id, schemaTag, operations, [])
    else Entry(ENTRY_STEPS_VERSION, log.term, index, id, schemaTag, [], steps)
  }

  lemma EntryKeepsSteps(log: Log, schemaTag: string, steps: seq<Step>)
    requires LastIndex(log) < U64_MAX && LastId(log) < U64_MAX
    ensures Steps(EntryFor(log, schemaTag, steps)) == steps && EntryFor(log, schemaTag, steps).term == log.term
  {
  }

  /** The authority's next proposal: what it commits extends the history, whatever interrupts it,
      and the entry runs exactly the steps that were proposed. */
  method Propose(r: Replica, ghost a: Authority, steps: seq<Step>)
    returns (outcome: ApplyOutcome, ghost a': Authority)
    requires Follows(r, a, |a.entries|, |a.entries|)
    modifies r, r.catalog
    ensures a' == a || (a'.files == a.files && a'.log == a.log && |a'.entries| == |a.entries| + 1 &&
                        a'.entries[..|a.entries|] == a.entries && Steps(a'.entries[|a.entries|]) == steps)
    ensures outcome.Applied? ==> a' != a && Follows(r, a', |a'.entries|, |a'.entries|)
    ensures !outcome.Applied? ==> Follows(r, a', |a.entries|, |a'.entries|)
    ensures outcome.Failed? ==> a' == a
  {
    hide Next, Accepts, InStep, Opens, Recovered, Sound, ImageAt, LogAt, Lived,
         CurrentId, ValidEntry, ValidLog, EntryFor, Steps;
    a' := a;
    AtPosition(a, |a.entries|);
    var log := r.log;
    var recovery := r.catalog.RecoverLocked();
    if recovery.Crashed? {
      return Interrupted, a';
    }
    if CurrentId(r.catalog.disk.files) != Ok(LastId(log)) {
      return Failed(CatalogStateMismatch), a';
    }
    if LastIndex(log) >= U64_MAX || LastId(log) >= U64_MAX {
      return Failed(Exhausted), a';
    }
    var e := EntryFor(log, SchemaTag(r.catalog.disk.files), steps);
    EntryKeepsSteps(log, SchemaTag(r.catalog.disk.files), steps);
    if !ValidEntry(e) {
      return Failed(InvalidEntry), a';
    }
    ghost var decided;
    outcome, decided := r.ApplyNew(e);
    if decided {
      a' := a.(entries := a.entries + [e]);
      LivedOn(a, e);
    }
  }

  lemma LivedOn(a: Authority, e: Entry)
    requires Lived(a) && Accepts(ImageAt(a, |a.entries|), LogAt(a, |a.entries|), e)
    ensures var a' := a.(entries := a.entries + [e]);
            Lived(a') && LogAt(a', |a.entries|) == LogAt(a, |a.entries|) &&
            LogAt(a', |a'.entries|) == Extend(LogAt(a, |a.entries|), [e]) &&
            ImageAt(a', |a'.entries|) == Next(ImageAt(a, |a.entries|), LogAt(a, |a.entries|), e)
  {
    hide Next, Accepts, Opens;
    var a' := a.(entries := a.entries + [e]);
    assert a.entries[..|a.entries|] == a.entries == a'.entries[..|a.entries|];
    assert a'.entries[..|a'.entries|] == a'.entries;
  }
}
