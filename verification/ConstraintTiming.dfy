/** Statement-time and commit-time constraint checking over a catalog transaction. */
module ConstraintTiming {
  import opened Base
  import opened Cascade

  /** Deferring more names can only make the local checks of a table weaker. */
  ghost predicate Monotone(f: (Table, set<string>) -> bool)
  {
    forall t, few, more :: few <= more && f(t, few) ==> f(t, more)
  }

  type LocalChecks = f: (Table, set<string>) -> bool | Monotone(f) witness (t: Table, d: set<string>) => true

  /** The local schema constraints of a table, with the given names deferred. */
  const LocalOk: LocalChecks
  /** The names of a table's deferrable constraints, and those that start deferred. */
  const Deferrable: Table -> set<string>
  const InitiallyDeferred: Table -> set<string>

  // ---- Validation ----

  function FieldValue(r: Record, field: string): Value
  {
    if field in r.values then r.values[field] else Null
  }

  /** `candidate` is the parent row that `r` refers to. */
  predicate IsParent(fk: ForeignKey, r: Record, candidate: Record)
  {
    !candidate.deleted &&
    forall i :: 0 <= i < |fk.parentFields| && i < |fk.localFields| ==>
      FieldValue(candidate, fk.parentFields[i]) == FieldValue(r, fk.localFields[i])
  }

  predicate HasParent(fk: ForeignKey, r: Record, parent: Table)
  {
    (exists f :: f in fk.localFields && FieldValue(r, f) == Null) ||
    exists k :: 0 <= k < |parent.records| && IsParent(fk, r, parent.records[k])
  }

  predicate KeyHolds(tables: Tables, child: string, fk: ForeignKey, deferred: set<string>)
    requires child in tables
  {
    fk.parentTable in tables &&
    (forall f :: f in fk.parentFields ==> f in tables[fk.parentTable].fields) &&
    fk.parentFields in tables[fk.parentTable].uniqueKeys &&
    ((fk.deferrable && fk.name in deferred) ||
     forall i :: 0 <= i < |tables[child].records| && !tables[child].records[i].deleted ==>
       HasParent(fk, tables[child].records[i], tables[fk.parentTable]))
  }

  predicate Affected(changed: Option<set<string>>, child: string, fk: ForeignKey)
  {
    changed.None? || child in changed.value || fk.parentTable in changed.value
  }

  predicate TableChecks(tables: Tables, deferred: Deferred, changed: Option<set<string>>, child: string)
    requires child in tables
  {
    (changed.None? || child in changed.value ==> LocalOk(tables[child], DeferredFor(deferred, child))) &&
    forall k :: 0 <= k < |tables[child].foreignKeys| && Affected(changed, child, tables[child].foreignKeys[k]) ==>
      KeyHolds(tables, child, tables[child].foreignKeys[k], DeferredFor(deferred, child))
  }

  /** What `validate_loaded_tables_with_deferred` accepts. */
  predicate ChecksPass(tables: Tables, deferred: Deferred, changed: Option<set<string>>)
  {
    forall child :: child in tables ==> TableChecks(tables, deferred, changed, child)
  }

  /** Every constraint that is not deferred holds, on all tables. */
  predicate ConstraintsHold(tables: Tables, deferred: Deferred)
  {
    ChecksPass(tables, deferred, None)
  }

  method CheckRows(tables: Tables, child: string, fk: ForeignKey) returns (ok: bool)
    requires child in tables && fk.parentTable in tables
    ensures ok <==> forall i :: 0 <= i < |tables[child].records| && !tables[child].records[i].deleted ==>
                      HasParent(fk, tables[child].records[i], tables[fk.parentTable])
  {
    var records := tables[child].records;
    for i := 0 to |records|
      invariant forall j :: 0 <= j < i && !records[j].deleted ==> HasParent(fk, records[j], tables[fk.parentTable])
    {
      if !records[i].deleted && !HasParent(fk, records[i], tables[fk.parentTable]) { return false; }
    }
    return true;
  }

  /** `validate_loaded_tables_with_deferred`, table by table and key by key. */
  method Validate(tables: Tables, deferred: Deferred, changed: Option<set<string>>) returns (ok: bool)
    ensures ok <==> ChecksPass(tables, deferred, changed)
  {
    var todo := tables.Keys;
    while todo != {}
      invariant todo <= tables.Keys
      invariant forall n :: n in tables && n !in todo ==> TableChecks(tables, deferred, changed, n)
      decreases todo
    {
      var child :| child in todo;
      todo := todo - {child};
      var names := DeferredFor(deferred, child);
      if (changed.None? || child in changed.value) && !LocalOk(tables[child], names) { return false; }
      var keys := tables[child].foreignKeys;
      for k := 0 to |keys|
        invariant forall j :: 0 <= j < k && Affected(changed, child, keys[j]) ==>
          KeyHolds(tables, child, keys[j], names)
      {
        var fk := keys[k];
        if Affected(changed, child, fk) {
          if fk.parentTable !in tables { return false; }
          if exists f :: f in fk.parentFields && f !in tables[fk.parentTable].fields { return false; }
          if fk.parentFields !in tables[fk.parentTable].uniqueKeys { return false; }
          if !(fk.deferrable && fk.name in names) {
            var rows := CheckRows(tables, child, fk);
            if !rows { return false; }
          }
        }
      }
    }
    return true;
  }

  /** Re-checking only the changed tables is re-checking everything. */
  lemma IncrementalIsFull(a: Tables, b: Tables, deferred: Deferred, changed: set<string>)
    requires ConstraintsHold(a, deferred) && a.Keys == b.Keys && forall n :: n in a && n !in changed ==> b[n] == a[n]
    ensures ConstraintsHold(b, deferred) <==> ChecksPass(b, deferred, Some(changed))
  {
    if ChecksPass(b, deferred, Some(changed)) {
      forall n | n in b ensures TableChecks(b, deferred, None, n) {
        assert TableChecks(b, deferred, Some(changed), n) && TableChecks(a, deferred, None, n);
        forall k | 0 <= k < |b[n].foreignKeys| ensures KeyHolds(b, n, b[n].foreignKeys[k], DeferredFor(deferred, n)) {
          var fk := b[n].foreignKeys[k];
          if !Affected(Some(changed), n, fk) { assert KeyHolds(a, n, a[n].foreignKeys[k], DeferredFor(deferred, n)); }
        }
      }
    } else {
      var n :| n in b && !TableChecks(b, deferred, Some(changed), n);
      assert !TableChecks(b, deferred, None, n);
    }
  }

  ghost predicate Weaker(few: Deferred, more: Deferred)
  {
    forall n :: DeferredFor(few, n) <= DeferredFor(more, n)
  }

  lemma DeferringWeakens(tables: Tables, few: Deferred, more: Deferred)
    requires ConstraintsHold(tables, few) && Weaker(few, more)
    ensures ConstraintsHold(tables, more)
  {
    forall n | n in tables ensures TableChecks(tables, more, None, n) {
      assert TableChecks(tables, few, None, n);
      forall k | 0 <= k < |tables[n].foreignKeys|
        ensures KeyHolds(tables, n, tables[n].foreignKeys[k], DeferredFor(more, n)) {
        assert KeyHolds(tables, n, tables[n].foreignKeys[k], DeferredFor(few, n));
      }
    }
  }

  // ---- Statements ----

  datatype Mode = Immediate | DeferredMode

  datatype Step =
    | Mutate(name: string, change: Table -> Option<Table>)
    | SetConstraints(table: Option<string>, names: seq<string>, all: bool, mode: Mode)

  /** A mutation changes rows, never the schema. */
  predicate SameSchema(a: Table, b: Table)
  {
    a.(records := b.records) == b
  }

  /** `apply_operation_to_tables`: the new tables and the tables it changed. */
  function ApplyMutation(tables: Tables, name: string, change: Table -> Option<Table>, deferred: Deferred,
                         order: seq<string>)
    : (r: Result<(Tables, set<string>), CatalogError>)
    requires Lists(order, tables.Keys)
    ensures r.Ok? ==> r.value.0.Keys == tables.Keys
  {
    if name !in tables then Err(Invalid)
    else
      var mutated := change(tables[name]);
      if mutated.None? || !SameSchema(tables[name], mutated.value) then Err(Invalid)
      else
        var image := SnapshotReferenced(name, tables[name].records, tables);
        var before: Images := if image.Some? then map[name := image.value] else map[];
        var after := tables[name := mutated.value];
        assert after.Keys == tables.Keys;
        match Cascaded(before, after, deferred, order)
        case Err(e) => Err(e)
        case Ok(s) =>
          CascadeFramed(before, after, deferred, order);
          var changed := {name} + s.changed;
          if ChecksPass(s.tables, deferred, Some(changed)) then Ok((s.tables, changed)) else Err(Violated)
  }

  /** The (table, constraint) pairs a SET CONSTRAINTS command selects. */
  function Targets(tables: Tables, table: Option<string>, names: seq<string>, all: bool)
    : Result<set<(string, string)>, CatalogError>
  {
    if all != (names == []) then Err(Invalid)
    else if all && table.Some? then
      if table.value !in tables then Err(Invalid)
      else Ok(set c | c in Deferrable(tables[table.value]) :: (table.value, c))
    else if all then Ok(set n, c | n in tables && c in Deferrable(tables[n]) :: (n, c))
    else if table.None? || table.value !in tables then Err(Invalid)
    else Ok(set c | c in names :: (table.value, c))
  }

  /** `change_constraint_modes`. */
  function ChangeModes(tables: Tables, current: Deferred, table: Option<string>, names: seq<string>, all: bool,
                       mode: Mode)
    : Result<Deferred, CatalogError>
  {
    match Targets(tables, table, names, all)
    case Err(e) => Err(e)
    case Ok(targets) =>
      if exists x :: x in targets && (x.0 !in tables || x.1 !in Deferrable(tables[x.0])) then Err(Invalid)
      else
        var next := map n | n in current.Keys + (set x | x in targets :: x.0) ::
          var chosen := set x | x in targets && x.0 == n :: x.1;
          if mode.Immediate? then DeferredFor(current, n) - chosen else DeferredFor(current, n) + chosen;
        if mode.Immediate? && !ConstraintsHold(tables, next) then Err(Violated) else Ok(next)
  }

  datatype Transaction = Transaction(tables: Tables, touched: set<string>, deferred: Deferred)

  function TakeStep(x: Transaction, step: Step, order: seq<string>): (r: Result<Transaction, CatalogError>)
    requires Lists(order, x.tables.Keys)
    ensures r.Ok? ==> r.value.tables.Keys == x.tables.Keys
  {
    match step
    case Mutate(name, change) => (
      match ApplyMutation(x.tables, name, change, x.deferred, order)
      case Err(e) => Err(e)
      case Ok((tables, changed)) => Ok(Transaction(tables, x.touched + changed, x.deferred)))
    case SetConstraints(table, names, all, mode) =>
      match ChangeModes(x.tables, x.deferred, table, names, all, mode)
      case Err(e) => Err(e)
      case Ok(deferred) => Ok(x.(deferred := deferred))
  }

  /** Only reported tables differ from the image, and every constraint that is
      not deferred right now holds on all of them. */
  ghost predicate Consistent(image: Tables, x: Transaction)
  {
    x.tables.Keys == image.Keys && (forall n :: n in image && n !in x.touched ==> x.tables[n] == image[n]) &&
    ConstraintsHold(x.tables, x.deferred)
  }

  lemma MutationConsistent(image: Tables, x: Transaction, name: string, change: Table -> Option<Table>,
                           order: seq<string>)
    requires Consistent(image, x) && Lists(order, x.tables.Keys)
    requires ApplyMutation(x.tables, name, change, x.deferred, order).Ok?
    ensures var (tables, changed) := ApplyMutation(x.tables, name, change, x.deferred, order).value;
      Consistent(image, Transaction(tables, x.touched + changed, x.deferred))
  {
    var (tables, changed) := ApplyMutation(x.tables, name, change, x.deferred, order).value;
    var image1 := SnapshotReferenced(name, x.tables[name].records, x.tables);
    var before: Images := if image1.Some? then map[name := image1.value] else map[];
    var after := x.tables[name := change(x.tables[name]).value];
    assert after.Keys == x.tables.Keys;
    CascadeFramed(before, after, x.deferred, order);
    IncrementalIsFull(x.tables, tables, x.deferred, changed);
  }

  lemma ModesConsistent(x: Transaction, step: Step)
    requires ConstraintsHold(x.tables, x.deferred) && step.SetConstraints?
    requires ChangeModes(x.tables, x.deferred, step.table, step.names, step.all, step.mode).Ok?
    ensures ConstraintsHold(x.tables,
                            ChangeModes(x.tables, x.deferred, step.table, step.names, step.all, step.mode).value)
  {
    var next := ChangeModes(x.tables, x.deferred, step.table, step.names, step.all, step.mode).value;
    if step.mode.DeferredMode? { DeferringWeakens(x.tables, x.deferred, next); }
  }

  function RunSteps(x: Transaction, steps: seq<Step>, order: seq<string>): (r: Result<Transaction, CatalogError>)
    requires Lists(order, x.tables.Keys)
    ensures r.Ok? ==> r.value.tables.Keys == x.tables.Keys
    decreases |steps|
  {
    if steps == [] then Ok(x)
    else match TakeStep(x, steps[0], order)
      case Err(e) => Err(e)
      case Ok(x') => RunSteps(x', steps[1..], order)
  }

  /** Across any sequence of mutations and mode changes from a valid image, every constraint not
      deferred holds on all tables after each successful step. */
  lemma {:induction false} StepsStayConsistent(image: Tables, x: Transaction, steps: seq<Step>, order: seq<string>)
    requires Consistent(image, x) && Lists(order, x.tables.Keys) && RunSteps(x, steps, order).Ok?
    ensures Consistent(image, RunSteps(x, steps, order).value)
    decreases |steps|
  {
    if steps != [] {
      match steps[0] {
        case Mutate(name, change) => MutationConsistent(image, x, name, change, order);
        case SetConstraints(_, _, _, _) => ModesConsistent(x, steps[0]);
      }
      StepsStayConsistent(image, TakeStep(x, steps[0], order).value, steps[1..], order);
    }
  }

  // ---- Commit ----

  function StartTransaction(image: Tables): Transaction
  {
    Transaction(image, {}, map n | n in image :: InitiallyDeferred(image[n]))
  }

  function BeforeAll(image: Tables, tables: Tables): Images
  {
    map n | n in image && SnapshotReferenced(n, image[n].records, tables).Some? ::
      SnapshotReferenced(n, image[n].records, tables).value
  }

  /** The validation and replacement part of `commit_loaded_tables_locked`: the tables on disk afterwards. */
  function CommitLoaded(image: Tables, x: Transaction, order: seq<string>): Result<Tables, CatalogError>
    requires x.tables.Keys == image.Keys && Lists(order, image.Keys)
  {
    if x.touched == {} then Ok(image)
    else
      var before := BeforeAll(image, x.tables);
      match Cascaded(before, x.tables, x.deferred, order)
      case Err(e) => Err(e)
      case Ok(s) =>
        CascadeFramed(before, x.tables, x.deferred, order);
        var replaced := map n | n in image :: if n in x.touched + s.changed then s.tables[n] else image[n];
        if ConstraintsHold(replaced, map[]) then Ok(replaced) else Err(Violated)
  }

  /** What a commit writes: the transaction's tables after their last cascade. */
  ghost predicate Commits(image: Tables, x: Transaction, order: seq<string>, written: Tables)
    requires x.tables.Keys == image.Keys && Lists(order, image.Keys)
  {
    if x.touched == {} then written == x.tables
    else
      var r := Cascaded(BeforeAll(image, x.tables), x.tables, x.deferred, order);
      r.Ok? && written == r.value.tables
  }

  lemma CommitIsComplete(image: Tables, x: Transaction, order: seq<string>)
    requires ConstraintsHold(image, map[]) && Lists(order, image.Keys) && Consistent(image, x)
    requires CommitLoaded(image, x, order).Ok?
    ensures ConstraintsHold(CommitLoaded(image, x, order).value, map[])
    ensures Commits(image, x, order, CommitLoaded(image, x, order).value)
  {
    hide ConstraintsHold, Cascaded, BeforeAll;
    if x.touched != {} { CascadeFramed(BeforeAll(image, x.tables), x.tables, x.deferred, order); }
  }

  /** A transaction that commits satisfies every constraint, deferred ones included, and writes every
      table its statements and cascades changed. */
  lemma CommitSatisfiesAll(image: Tables, steps: seq<Step>, order: seq<string>)
    requires ConstraintsHold(image, map[]) && Lists(order, image.Keys)
    requires RunSteps(StartTransaction(image), steps, order).Ok?
    ensures Consistent(image, RunSteps(StartTransaction(image), steps, order).value)
    ensures var x := RunSteps(StartTransaction(image), steps, order).value;
      var r := CommitLoaded(image, x, order);
      r.Ok? ==> ConstraintsHold(r.value, map[]) && Commits(image, x, order, r.value)
  {
    hide ConstraintsHold, RunSteps, CommitLoaded, Commits;
    var x := StartTransaction(image);
    DeferringWeakens(image, map[], x.deferred);
    StepsStayConsistent(image, x, steps, order);
    var x' := RunSteps(x, steps, order).value;
    if CommitLoaded(image, x', order).Ok? { CommitIsComplete(image, x', order); }
  }

  // ---- The loops of a transaction ----

  method ApplyOperation(tables: Tables, name: string, change: Table -> Option<Table>, deferred: Deferred,
                        order: seq<string>)
    returns (r: Result<(Tables, set<string>), CatalogError>)
    requires Lists(order, tables.Keys)
    ensures r == ApplyMutation(tables, name, change, deferred, order)
  {
    hide ChecksPass, Cascaded, SnapshotReferenced;
    if name !in tables { return Err(Invalid); }
    var mutated := change(tables[name]);
    if mutated.None? || !SameSchema(tables[name], mutated.value) { return Err(Invalid); }
    var image := SnapshotReferenced(name, tables[name].records, tables);
    var before: Images := if image.Some? then map[name := image.value] else map[];
    var after := tables[name := mutated.value];
    assert after.Keys == tables.Keys;
    var cascaded := ApplyActions(before, after, deferred, order);
    if cascaded.Err? { return Err(cascaded.error); }
    var changed := {name} + cascaded.value.changed;
    var ok := Validate(cascaded.value.tables, deferred, Some(changed));
    r := if ok then Ok((cascaded.value.tables, changed)) else Err(Violated);
  }

  /** `commit_steps_internal`: runs the steps in order, then commits. */
  method CommitSteps(image: Tables, steps: seq<Step>, order: seq<string>) returns (r: Result<Tables, CatalogError>)
    requires Lists(order, image.Keys)
    ensures steps != [] && RunSteps(StartTransaction(image), steps, order).Ok? ==>
      r == CommitLoaded(image, RunSteps(StartTransaction(image), steps, order).value, order)
    ensures steps == [] || RunSteps(StartTransaction(image), steps, order).Err? ==> r.Err?
  {
    hide CommitLoaded, ApplyMutation, ChangeModes;
    if steps == [] { return Err(Invalid); }
    var x := StartTransaction(image);
    ghost var start := x;
    for i := 0 to |steps|
      invariant x.tables.Keys == image.Keys
      invariant RunSteps(start, steps, order) == RunSteps(x, steps[i..], order)
    {
      assert steps[i..][0] == steps[i] && steps[i..][1..] == steps[i + 1..];
      match steps[i] {
        case Mutate(name, change) =>
          var applied := ApplyOperation(x.tables, name, change, x.deferred, order);
          if applied.Err? { return Err(applied.error); }
          x := Transaction(applied.value.0, x.touched + applied.value.1, x.deferred);
        case SetConstraints(table, names, all, mode) =>
          var modes := ChangeModes(x.tables, x.deferred, table, names, all, mode);
          if modes.Err? { return Err(modes.error); }
          x := x.(deferred := modes.value);
      }
    }
    r := CommitLoaded(image, x, order);
  }
}
