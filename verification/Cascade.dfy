/** Referential actions: the bounded cascade that follows a parent change. */
module Cascade {
  import opened Base

  datatype Value = Null | Scalar(id: int)
  datatype Record = Record(deleted: bool, values: map<string, Value>)
  datatype Action = Restrict | NoAction | CascadeChange | SetNull
  datatype ForeignKey = ForeignKey(name: string, localFields: seq<string>, parentTable: string,
                                   parentFields: seq<string>, onUpdate: Action, onDelete: Action, deferrable: bool)
  datatype Table = Table(fields: set<string>, uniqueKeys: set<seq<string>>, foreignKeys: seq<ForeignKey>,
                         records: seq<Record>)
  type Tables = map<string, Table>
  type Deferred = map<string, set<string>>
  type Images = map<string, seq<Record>>

  datatype CatalogError = Invalid | Restricted | NotConverged | Violated

  /** The local schema checks a patched row must pass; nothing is assumed of them. */
  const PatchAllowed: (Table, nat, map<string, Value>, set<string>) -> bool

  function TupleValues(r: Record, fields: seq<string>): Option<seq<Value>>
  {
    if forall f :: f in fields ==> f in r.values
    then Some(seq(|fields|, i requires 0 <= i < |fields| => r.values[fields[i]])) else None
  }

  /** The parent fields that some foreign key of `tables` refers to in `name`. */
  function ReferencedFields(name: string, tables: Tables): set<string>
  {
    set n, k, f | n in tables && 0 <= k < |tables[n].foreignKeys| && tables[n].foreignKeys[k].parentTable == name &&
                  f in tables[n].foreignKeys[k].parentFields :: f
  }

  function Project(r: Record, fields: set<string>): Record
  {
    Record(r.deleted, map f | f in r.values && f in fields :: r.values[f])
  }

  /** `snapshot_referenced_table`. */
  function SnapshotReferenced(name: string, records: seq<Record>, tables: Tables): Option<seq<Record>>
  {
    var fields := ReferencedFields(name, tables);
    if fields == {} then None else Some(seq(|records|, i requires 0 <= i < |records| => Project(records[i], fields)))
  }

  datatype ParentChange = ParentChange(was: seq<Value>, now: Option<seq<Value>>)

  /** What happened to the key that row `index` held in the before image. */
  function ChangeAt(before: seq<Record>, current: Table, fields: seq<string>, index: nat): Option<ParentChange>
    requires index < |before|
  {
    var was := TupleValues(before[index], fields);
    if before[index].deleted || was.None? then None
    else if index >= |current.records| || current.records[index].deleted then Some(ParentChange(was.value, None))
    else
      var now := TupleValues(current.records[index], fields);
      if now.None? || was.value == now.value then None else Some(ParentChange(was.value, now))
  }

  function ChangesFrom(before: seq<Record>, current: Table, fields: seq<string>, index: nat): seq<ParentChange>
    requires index <= |before|
    decreases |before| - index
  {
    if index == |before| then []
    else
      var rest := ChangesFrom(before, current, fields, index + 1);
      match ChangeAt(before, current, fields, index)
      case None => rest
      case Some(change) => [change] + rest
  }

  /** `parent_changes`. */
  function ParentChanges(before: seq<Record>, current: Table, fields: seq<string>): seq<ParentChange>
  {
    ChangesFrom(before, current, fields, 0)
  }

  lemma {:induction false} ChangesAreExact(before: seq<Record>, current: Table, fields: seq<string>, index: nat,
                                           change: ParentChange)
    requires index <= |before|
    ensures change in ChangesFrom(before, current, fields, index) <==>
            exists k :: index <= k < |before| && ChangeAt(before, current, fields, k) == Some(change)
    decreases |before| - index
  {
    if index < |before| { ChangesAreExact(before, current, fields, index + 1, change); }
  }

  predicate Matches(r: Record, fk: ForeignKey, key: seq<Value>)
  {
    !r.deleted && TupleValues(r, fk.localFields) == Some(key)
  }

  function ActionFor(fk: ForeignKey, change: ParentChange): Action
  {
    if change.now.Some? then fk.onUpdate else fk.onDelete
  }

  function FieldsPatch(fields: seq<string>, values: seq<Value>): map<string, Value>
  {
    if fields == [] || values == [] then map[] else map[fields[0] := values[0]] + FieldsPatch(fields[1..], values[1..])
  }

  function Nulls(n: nat): seq<Value> { seq(n, _ => Null) }

  /** The rows of `records` from `index` on that hold the key. */
  function MatchingFrom(records: seq<Record>, fk: ForeignKey, key: seq<Value>, index: nat): (r: seq<nat>)
    requires index <= |records|
    ensures forall i :: i in r <==> index <= i < |records| && Matches(records[i], fk, key)
    ensures forall k :: 0 <= k < |r| ==> r[k] < |records|
    decreases |records| - index
  {
    if index == |records| then []
    else if Matches(records[index], fk, key) then [index] + MatchingFrom(records, fk, key, index + 1)
    else MatchingFrom(records, fk, key, index + 1)
  }

  function Patched(t: Table, index: nat, patch: map<string, Value>): Table
    requires index < |t.records|
  {
    t.(records := t.records[index := t.records[index].(values := t.records[index].values + patch)])
  }

  function Deleted(t: Table, index: nat): Table
    requires index < |t.records|
  {
    t.(records := t.records[index := t.records[index].(deleted := true)])
  }

  predicate SameShape(a: Table, b: Table)
  {
    a.(records := b.records) == b && |a.records| == |b.records|
  }

  /** The loop of `apply_action` over the matching rows. */
  function Rewrite(child: Table, rows: seq<nat>, patch: Option<map<string, Value>>, deferred: set<string>)
    : (r: Result<Table, CatalogError>)
    requires forall k :: 0 <= k < |rows| ==> rows[k] < |child.records|
    ensures r.Ok? ==> SameShape(child, r.value)
    decreases |rows|
  {
    if rows == [] then Ok(child)
    else if patch.None? then Rewrite(Deleted(child, rows[0]), rows[1..], patch, deferred)
    else if !PatchAllowed(child, rows[0], patch.value, deferred) then Err(Invalid)
    else Rewrite(Patched(child, rows[0], patch.value), rows[1..], patch, deferred)
  }

  /** `apply_action`: the new child table, and whether it acted. */
  function ApplyAction(child: Table, fk: ForeignKey, change: ParentChange, deferred: set<string>)
    : (r: Result<(Table, bool), CatalogError>)
    ensures r.Ok? ==> SameShape(child, r.value.0)
    ensures r.Ok? && !r.value.1 ==> r.value.0 == child
    ensures r.Ok? && !r.value.1 && !ActionFor(fk, change).NoAction? ==>
            forall i :: 0 <= i < |child.records| ==> !Matches(child.records[i], fk, change.was)
  {
    var action := ActionFor(fk, change);
    var rows := MatchingFrom(child.records, fk, change.was, 0);
    if rows == [] then
      assert forall i :: 0 <= i < |child.records| ==> i !in rows;
      Ok((child, false))
    else if action.Restrict? then Err(Restricted)
    else if action.NoAction? then Ok((child, false))
    else
      var patch :=
        if action.SetNull? then Some(FieldsPatch(fk.localFields, Nulls(|fk.localFields|)))
        else if change.now.Some? then Some(FieldsPatch(fk.localFields, change.now.value))
        else None;
      match Rewrite(child, rows, patch, deferred)
      case Err(e) => Err(e)
      case Ok(child') => Ok((child', true))
  }

  /** Where a cascade stands: the tables, the images taken of tables before the cascade first changed
      them, the tables it changed, and whether the current pass changed anything. */
  datatype Sweep = Sweep(tables: Tables, images: Images, changed: set<string>, dirty: bool)

  function ImageOf(before: Images, s: Sweep, name: string): Option<seq<Record>>
  {
    if name in before then Some(before[name]) else if name in s.images then Some(s.images[name]) else None
  }

  function DeferredFor(deferred: Deferred, name: string): set<string>
  {
    if name in deferred then deferred[name] else {}
  }

  function DoChange(before: Images, s: Sweep, child: string, fk: ForeignKey, change: ParentChange, deferred: Deferred)
    : Result<Sweep, CatalogError>
    requires child in s.tables
  {
    match ApplyAction(s.tables[child], fk, change, DeferredFor(deferred, child))
    case Err(e) => Err(e)
    case Ok((_, false)) => Ok(s)
    case Ok((child', true)) =>
      Ok(Sweep(s.tables[child := child'], WithImage(before, s, child), s.changed + {child}, true))
  }

  function DoChanges(before: Images, s: Sweep, child: string, fk: ForeignKey, changes: seq<ParentChange>,
                     deferred: Deferred)
    : Result<Sweep, CatalogError>
    requires child in s.tables
    decreases |changes|
  {
    if changes == [] then Ok(s)
    else match DoChange(before, s, child, fk, changes[0], deferred)
      case Err(e) => Err(e)
      case Ok(s') => DoChanges(before, s', child, fk, changes[1..], deferred)
  }

  /** The changes of the parent that one foreign key has to react to. */
  function ChangesFor(before: Images, s: Sweep, fk: ForeignKey): seq<ParentChange>
  {
    var image := ImageOf(before, s, fk.parentTable);
    if image.None? || fk.parentTable !in s.tables then []
    else ParentChanges(image.value, s.tables[fk.parentTable], fk.parentFields)
  }

  type Link = (string, ForeignKey)

  function LinksOf(child: string, keys: seq<ForeignKey>): (r: seq<Link>)
    ensures forall x :: x in r <==> x.0 == child && x.1 in keys
  {
    if keys == [] then [] else [(child, keys[0])] + LinksOf(child, keys[1..])
  }

  /** Every (child table, foreign key) pair in the order a pass visits them. */
  function Links(tables: Tables, order: seq<string>): (r: seq<Link>)
    requires forall n :: n in order ==> n in tables
    ensures forall x :: x in r <==> x.0 in order && x.1 in tables[x.0].foreignKeys
  {
    if order == [] then [] else LinksOf(order[0], tables[order[0]].foreignKeys) + Links(tables, order[1..])
  }

  /** One pass over `links`. */
  function DoLinks(before: Images, s: Sweep, links: seq<Link>, deferred: Deferred): Result<Sweep, CatalogError>
    decreases |links|
  {
    if links == [] then Ok(s)
    else if links[0].0 !in s.tables then DoLinks(before, s, links[1..], deferred)
    else match DoChanges(before, s, links[0].0, links[0].1, ChangesFor(before, s, links[0].1), deferred)
      case Err(e) => Err(e)
      case Ok(s') => DoLinks(before, s', links[1..], deferred)
  }

  function DoPasses(before: Images, s: Sweep, links: seq<Link>, deferred: Deferred, passes: nat)
    : Result<Sweep, CatalogError>
    decreases passes
  {
    if passes == 0 then Err(NotConverged)
    else match DoLinks(before, s.(dirty := false), links, deferred)
      case Err(e) => Err(e)
      case Ok(s') => if s'.dirty then DoPasses(before, s', links, deferred, passes - 1) else Ok(s')
  }

  function TotalRows(tables: Tables, order: seq<string>): nat
    requires forall n :: n in order ==> n in tables
  {
    if order == [] then 0 else |tables[order[0]].records| + TotalRows(tables, order[1..])
  }

  function MaxPasses(tables: Tables, order: seq<string>): nat
    requires forall n :: n in order ==> n in tables
  {
    var relationships := |Links(tables, order)|;
    (TotalRows(tables, order) + 1) * (if relationships < 1 then 1 else relationships)
  }

  /** What `apply_actions` computes, as a function. */
  function Cascaded(before: Images, tables: Tables, deferred: Deferred, order: seq<string>): Result<Sweep, CatalogError>
    requires forall n :: n in order ==> n in tables
  {
    DoPasses(before, Sweep(tables, map[], {}, false), Links(tables, order), deferred, MaxPasses(tables, order))
  }

  // ---- Frame: a cascade changes only the tables it reports ----

  /** `s` came from `tables` by changing only `s.changed`, and holds the original image of each changed
      table that something refers to. */
  ghost predicate Framed(before: Images, tables: Tables, s: Sweep)
  {
    s.tables.Keys == tables.Keys && s.changed <= tables.Keys &&
    (forall n :: n in tables ==> SameShape(tables[n], s.tables[n])) &&
    (forall n :: n in tables && n !in s.changed ==> s.tables[n] == tables[n]) &&
    (forall n :: n in s.images ==> n in s.changed && n !in before &&
                                   SnapshotReferenced(n, tables[n].records, tables) == Some(s.images[n])) &&
    (forall n :: n in s.changed && n !in before && n !in s.images ==> ReferencedFields(n, tables) == {})
  }

  lemma SameReferences(name: string, a: Tables, b: Tables)
    requires a.Keys == b.Keys && forall n :: n in a ==> SameShape(a[n], b[n])
    ensures ReferencedFields(name, a) == ReferencedFields(name, b)
  {
  }

  /** Acting on `child` takes its image first, unless one is already held. */
  function WithImage(before: Images, s: Sweep, child: string): Images
    requires child in s.tables
  {
    if child in before || child in s.images then s.images
    else
      var image := SnapshotReferenced(child, s.tables[child].records, s.tables);
      if image.None? then s.images else s.images[child := image.value]
  }

  lemma ImageFramed(before: Images, tables: Tables, s: Sweep, child: string)
    requires Framed(before, tables, s) && child in tables
    ensures forall n :: n in WithImage(before, s, child) ==>
      (n in s.changed || n == child) && n !in before &&
      SnapshotReferenced(n, tables[n].records, tables) == Some(WithImage(before, s, child)[n])
    ensures child !in before && child !in WithImage(before, s, child) ==> ReferencedFields(child, tables) == {}
    ensures Sub(s.images, WithImage(before, s, child))
  {
    hide ReferencedFields;
    SameReferences(child, tables, s.tables);
  }

  lemma ChangeFramed(before: Images, tables: Tables, s: Sweep, child: string, fk: ForeignKey, change: ParentChange,
                     deferred: Deferred)
    requires Framed(before, tables, s) && child in s.tables
    requires DoChange(before, s, child, fk, change, deferred).Ok?
    ensures Framed(before, tables, DoChange(before, s, child, fk, change, deferred).value)
  {
    hide ApplyAction, ReferencedFields, SnapshotReferenced, WithImage;
    ImageFramed(before, tables, s, child);
  }

  lemma {:induction false} ChangesFramed(before: Images, tables: Tables, s: Sweep, child: string, fk: ForeignKey,
                                         changes: seq<ParentChange>, deferred: Deferred)
    requires Framed(before, tables, s) && child in s.tables
    requires DoChanges(before, s, child, fk, changes, deferred).Ok?
    ensures var s' := DoChanges(before, s, child, fk, changes, deferred).value;
      Framed(before, tables, s') && (s.dirty ==> s'.dirty) && (!s'.dirty ==> s' == s)
    decreases |changes|
  {
    if changes != [] {
      ChangeFramed(before, tables, s, child, fk, changes[0], deferred);
      ChangesFramed(before, tables, DoChange(before, s, child, fk, changes[0], deferred).value,
                    child, fk, changes[1..], deferred);
    }
  }

  // ---- Any Ok result is a fixpoint ----

  /** No active child row still holds a key its parent gave up, unless NO ACTION allows it. */
  ghost predicate Settled(before: Images, s: Sweep, child: string, fk: ForeignKey)
    requires child in s.tables
  {
    forall change :: change in ChangesFor(before, s, fk) && !ActionFor(fk, change).NoAction? ==>
      forall i :: 0 <= i < |s.tables[child].records| ==> !Matches(s.tables[child].records[i], fk, change.was)
  }

  lemma {:induction false} QuietChangesSettle(before: Images, s: Sweep, child: string, fk: ForeignKey,
                                              changes: seq<ParentChange>, deferred: Deferred,
                                              change: ParentChange, i: nat)
    requires child in s.tables && DoChanges(before, s, child, fk, changes, deferred) == Ok(s) && !s.dirty
    requires change in changes && !ActionFor(fk, change).NoAction? && i < |s.tables[child].records|
    ensures !Matches(s.tables[child].records[i], fk, change.was)
    decreases |changes|
  {
    var step := DoChange(before, s, child, fk, changes[0], deferred).value;
    if step.dirty { StaysDirty(before, step, child, fk, changes[1..], deferred); }
    if change != changes[0] { QuietChangesSettle(before, s, child, fk, changes[1..], deferred, change, i); }
  }

  lemma {:induction false} StaysDirty(before: Images, s: Sweep, child: string, fk: ForeignKey,
                                      changes: seq<ParentChange>, deferred: Deferred)
    requires s.dirty && child in s.tables
    ensures var r := DoChanges(before, s, child, fk, changes, deferred); r.Ok? ==> r.value.dirty
    decreases |changes|
  {
    if changes != [] && DoChange(before, s, child, fk, changes[0], deferred).Ok? {
      StaysDirty(before, DoChange(before, s, child, fk, changes[0], deferred).value, child, fk, changes[1..], deferred);
    }
  }

  lemma {:induction false} PassSettles(before: Images, tables: Tables, s: Sweep, links: seq<Link>, deferred: Deferred)
    requires Framed(before, tables, s) && DoLinks(before, s, links, deferred).Ok?
    ensures var s' := DoLinks(before, s, links, deferred).value;
      Framed(before, tables, s') && (s.dirty ==> s'.dirty) &&
      (!s'.dirty ==> s' == s && forall x :: x in links && x.0 in s.tables ==> Settled(before, s, x.0, x.1))
    decreases |links|
  {
    if links == [] {
    } else if links[0].0 !in s.tables {
      PassSettles(before, tables, s, links[1..], deferred);
    } else {
      var (child, fk) := links[0];
      var changes := ChangesFor(before, s, fk);
      ChangesFramed(before, tables, s, child, fk, changes, deferred);
      var s1 := DoChanges(before, s, child, fk, changes, deferred).value;
      PassSettles(before, tables, s1, links[1..], deferred);
      if !DoLinks(before, s, links, deferred).value.dirty {
        forall change, i | change in changes && !ActionFor(fk, change).NoAction? && 0 <= i < |s.tables[child].records|
          ensures !Matches(s.tables[child].records[i], fk, change.was)
        {
          QuietChangesSettle(before, s, child, fk, changes, deferred, change, i);
        }
      }
    }
  }

  lemma {:induction false} PassesSettle(before: Images, tables: Tables, s: Sweep, links: seq<Link>,
                                        deferred: Deferred, passes: nat)
    requires Framed(before, tables, s) && DoPasses(before, s, links, deferred, passes).Ok?
    ensures var s' := DoPasses(before, s, links, deferred, passes).value;
      Framed(before, tables, s') && forall x :: x in links && x.0 in s'.tables ==> Settled(before, s', x.0, x.1)
    decreases passes
  {
    var s0 := s.(dirty := false);
    PassSettles(before, tables, s0, links, deferred);
    var s1 := DoLinks(before, s0, links, deferred).value;
    if s1.dirty { PassesSettle(before, tables, s1, links, deferred, passes - 1); }
  }

  /** A cascade changes no table but those it reports. */
  lemma CascadeFramed(before: Images, tables: Tables, deferred: Deferred, order: seq<string>)
    requires Lists(order, tables.Keys) && Cascaded(before, tables, deferred, order).Ok?
    ensures Framed(before, tables, Cascaded(before, tables, deferred, order).value)
  {
    PassesSettle(before, tables, Sweep(tables, map[], {}, false),
                 Links(tables, order), deferred, MaxPasses(tables, order));
  }

  /** Any successful cascade ends in a fixpoint: no active row of any table still refers, under
      RESTRICT, CASCADE or SET NULL, to a key that its parent table held before and gave up. */
  lemma CascadeIsFixpoint(before: Images, tables: Tables, deferred: Deferred, order: seq<string>, child: string,
                          fk: ForeignKey)
    requires Lists(order, tables.Keys) && Cascaded(before, tables, deferred, order).Ok?
    requires child in tables && fk in tables[child].foreignKeys
    ensures child in Cascaded(before, tables, deferred, order).value.tables
    ensures Settled(before, Cascaded(before, tables, deferred, order).value, child, fk)
  {
    var s := Sweep(tables, map[], {}, false);
    PassesSettle(before, tables, s, Links(tables, order), deferred, MaxPasses(tables, order));
    assert (child, fk) in Links(tables, order);
  }

  // ---- The loops ----

  lemma {:induction false} LinksSplit(before: Images, s: Sweep, a: seq<Link>, b: seq<Link>, deferred: Deferred)
    ensures var r := DoLinks(before, s, a, deferred);
      DoLinks(before, s, a + b, deferred) == if r.Err? then r else DoLinks(before, r.value, b, deferred)
    decreases |a|
  {
    if a == [] {
      assert a + b == b;
    } else {
      assert (a + b)[1..] == a[1..] + b;
      var x := a[0];
      if x.0 !in s.tables { LinksSplit(before, s, a[1..], b, deferred); }
      else {
        var r := DoChanges(before, s, x.0, x.1, ChangesFor(before, s, x.1), deferred);
        if r.Ok? { LinksSplit(before, r.value, a[1..], b, deferred); }
      }
    }
  }

  method RunChanges(before: Images, start: Sweep, child: string, fk: ForeignKey, changes: seq<ParentChange>,
                    deferred: Deferred)
    returns (r: Result<Sweep, CatalogError>)
    requires child in start.tables
    ensures r == DoChanges(before, start, child, fk, changes, deferred)
  {
    var s, i := start, 0;
    while i < |changes|
      invariant 0 <= i <= |changes| && child in s.tables
      invariant DoChanges(before, start, child, fk, changes, deferred) ==
        DoChanges(before, s, child, fk, changes[i..], deferred)
    {
      assert changes[i..][0] == changes[i] && changes[i..][1..] == changes[i + 1..];
      var step := DoChange(before, s, child, fk, changes[i], deferred);
      if step.Err? { return step; }
      s := step.value;
      i := i + 1;
    }
    r := Ok(s);
  }

  lemma FramedHas(before: Images, tables: Tables, s: Sweep, child: string)
    requires Framed(before, tables, s) && child in tables
    ensures child in s.tables && s.tables[child].foreignKeys == tables[child].foreignKeys
  {
  }

  lemma NoLinks(before: Images, s: Sweep, child: string, deferred: Deferred)
    ensures LinksOf(child, []) == [] && DoLinks(before, s, [], deferred) == Ok(s)
  {
  }

  lemma LinkStep(before: Images, s: Sweep, child: string, keys: seq<ForeignKey>, deferred: Deferred)
    requires keys != [] && child in s.tables
    ensures var r := DoChanges(before, s, child, keys[0], ChangesFor(before, s, keys[0]), deferred);
      DoLinks(before, s, LinksOf(child, keys), deferred) ==
        if r.Err? then r else DoLinks(before, r.value, LinksOf(child, keys[1..]), deferred)
  {
  }

  method RunKeys(before: Images, start: Sweep, ghost tables: Tables, child: string, keys: seq<ForeignKey>,
                 deferred: Deferred)
    returns (r: Result<Sweep, CatalogError>)
    requires Framed(before, tables, start) && child in tables
    ensures r == DoLinks(before, start, LinksOf(child, keys), deferred)
    ensures r.Ok? ==> Framed(before, tables, r.value)
  {
    hide Framed, DoChanges, ChangesFor, DoLinks, LinksOf;
    var s, k := start, 0;
    assert keys[k..] == keys;
    while k < |keys|
      invariant 0 <= k <= |keys| && Framed(before, tables, s)
      invariant DoLinks(before, start, LinksOf(child, keys), deferred) ==
        DoLinks(before, s, LinksOf(child, keys[k..]), deferred)
    {
      assert keys[k..][0] == keys[k] && keys[k..][1..] == keys[k + 1..];
      FramedHas(before, tables, s, child);
      LinkStep(before, s, child, keys[k..], deferred);
      var changes := ChangesFor(before, s, keys[k]);
      var step := RunChanges(before, s, child, keys[k], changes, deferred);
      if step.Err? { return step; }
      ChangesFramed(before, tables, s, child, keys[k], changes, deferred);
      s := step.value;
      k := k + 1;
    }
    assert keys[k..] == [];
    NoLinks(before, s, child, deferred);
    r := Ok(s);
  }

  method RunPass(before: Images, start: Sweep, tables: Tables, order: seq<string>, deferred: Deferred)
    returns (r: Result<Sweep, CatalogError>)
    requires Framed(before, tables, start) && Lists(order, tables.Keys)
    ensures r == DoLinks(before, start, Links(tables, order), deferred)
    ensures r.Ok? ==> Framed(before, tables, r.value)
  {
    hide Framed, DoLinks, LinksOf;
    var s, i := start, 0;
    while i < |order|
      invariant 0 <= i <= |order| && Framed(before, tables, s)
      invariant DoLinks(before, start, Links(tables, order), deferred) ==
        DoLinks(before, s, Links(tables, order[i..]), deferred)
    {
      var child := order[i];
      assert order[i..][0] == child && order[i..][1..] == order[i + 1..];
      FramedHas(before, tables, s, child);
      var keys := s.tables[child].foreignKeys;
      LinksSplit(before, s, LinksOf(child, keys), Links(tables, order[i + 1..]), deferred);
      var step := RunKeys(before, s, tables, child, keys, deferred);
      if step.Err? { return step; }
      s := step.value;
      i := i + 1;
    }
    NoLinks(before, s, "", deferred);
    r := Ok(s);
  }

  lemma FramedAnew(before: Images, tables: Tables)
    ensures Framed(before, tables, Sweep(tables, map[], {}, false))
  {
  }

  lemma FramedClean(before: Images, tables: Tables, s: Sweep)
    requires Framed(before, tables, s)
    ensures Framed(before, tables, s.(dirty := false))
  {
  }

  /** `apply_actions`: the bounded full scan, pass by pass. */
  method ApplyActions(before: Images, tables: Tables, deferred: Deferred, order: seq<string>)
    returns (r: Result<Sweep, CatalogError>)
    requires Lists(order, tables.Keys)
    ensures r == Cascaded(before, tables, deferred, order)
  {
    hide DoLinks, MaxPasses, Links, Framed;
    FramedAnew(before, tables);
    var links := Links(tables, order);
    var limit := MaxPasses(tables, order);
    var s := Sweep(tables, map[], {}, false);
    for pass := 0 to limit
      invariant Framed(before, tables, s)
      invariant Cascaded(before, tables, deferred, order) == DoPasses(before, s, links, deferred, limit - pass)
    {
      FramedClean(before, tables, s);
      var swept := RunPass(before, s.(dirty := false), tables, order, deferred);
      if swept.Err? { return swept; }
      if !swept.value.dirty { return swept; }
      s := swept.value;
    }
    r := Err(NotConverged);
  }
}
