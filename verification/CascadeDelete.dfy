/** A DELETE that reaches rows only through ON DELETE CASCADE keys removes exactly the rows that
    refer, directly or through others, to the deleted row. */
module CascadeDelete {
  import opened Base
  import opened Cascade

  type Row = (string, nat)

  predicate IsRow(t: Tables, r: Row) { r.0 in t && r.1 < |t[r.0].records| }

  predicate Active(t: Tables, r: Row) { IsRow(t, r) && !t[r.0].records[r.1].deleted }

  /** Row `c` holds in some foreign key the parent key of row `p`. */
  ghost predicate Refers(t: Tables, c: Row, p: Row)
  {
    Active(t, c) && Active(t, p) &&
    exists fk :: fk in t[c.0].foreignKeys && RefersBy(t, c, p, fk)
  }

  predicate RefersBy(t: Tables, c: Row, p: Row, fk: ForeignKey)
    requires IsRow(t, c) && IsRow(t, p)
  {
    var key := TupleValues(t[p.0].records[p.1], fk.parentFields);
    fk.parentTable == p.0 && key.Some? && TupleValues(t[c.0].records[c.1], fk.localFields) == key
  }

  /** `rows` contains `start` and every row that refers to one of its rows. */
  ghost predicate Closed(t: Tables, start: Row, rows: set<Row>)
  {
    start in rows && forall c, p :: p in rows && Refers(t, c, p) ==> c in rows
  }

  /** Every foreign key names at least one parent field. */
  ghost predicate KeysNameFields(t: Tables)
  {
    forall n, fk :: n in t && fk in t[n].foreignKeys ==> fk.parentFields != []
  }

  /** `p` is in the least closed set. */
  ghost predicate InLeast(t: Tables, start: Row, p: Row)
  {
    forall rows: set<Row> :: Closed(t, start, rows) ==> p in rows
  }

  /** Every foreign key by which a row refers to a row of the least closed set cascades deletes. */
  ghost predicate InvolvedCascade(t: Tables, start: Row)
  {
    forall c: Row, p: Row, fk ::
      Active(t, c) && Active(t, p) && fk in t[c.0].foreignKeys && RefersBy(t, c, p, fk) && InLeast(t, start, p) ==>
      fk.onDelete == CascadeChange
  }

  ghost predicate RecordKept(was: Record, now: Record) { now == was || now == was.(deleted := true) }

  ghost predicate OnlyDeletes(t: Tables, t': Tables)
  {
    t'.Keys == t.Keys && (forall n :: n in t ==> SameShape(t[n], t'[n])) &&
    forall n, i :: n in t && 0 <= i < |t[n].records| ==> RecordKept(t[n].records[i], t'[n].records[i])
  }

  /** Row `r` was active in `t` and is deleted in `t'`. */
  predicate Gone(t: Tables, t': Tables, r: Row)
  {
    Active(t, r) && IsRow(t', r) && t'[r.0].records[r.1].deleted
  }

  /** The statement: `start` deleted in place, its table's image taken before. */
  function AfterDelete(t: Tables, start: Row): Tables
    requires Active(t, start)
  {
    t[start.0 := Deleted(t[start.0], start.1)]
  }

  function BeforeImages(t: Tables, name: string): Images
    requires name in t
  {
    match SnapshotReferenced(name, t[name].records, t)
    case None => map[]
    case Some(records) => map[name := records]
  }

  /** Everything deleted so far has to be: it is in every closed set. */
  ghost predicate Justified(t: Tables, start: Row, t': Tables)
  {
    OnlyDeletes(t, t') && Gone(t, t', start) &&
    forall r :: Gone(t, t', r) ==> InLeast(t, start, r)
  }

  /** A change that announces the deletion of a row already gone. */
  ghost predicate Announces(t: Tables, t': Tables, fk: ForeignKey, change: ParentChange)
  {
    change.now.None? &&
    exists k: nat :: Gone(t, t', (fk.parentTable, k)) &&
                TupleValues(t[fk.parentTable].records[k], fk.parentFields) == Some(change.was)
  }

  // ---- Images ----

  lemma ProjectionKeepsTuples(r: Record, known: set<string>, fields: seq<string>)
    requires forall f :: f in fields ==> f in known
    ensures TupleValues(Project(r, known), fields) == TupleValues(r, fields)
  {
    var p := Project(r, known);
    if forall f :: f in fields ==> f in r.values {
      assert TupleValues(p, fields).value == TupleValues(r, fields).value;
    }
  }

  lemma ParentFieldsAreReferenced(t: Tables, child: string, fk: ForeignKey)
    requires child in t && fk in t[child].foreignKeys
    ensures forall f :: f in fk.parentFields ==> f in ReferencedFields(fk.parentTable, t)
  {
    var k :| 0 <= k < |t[child].foreignKeys| && t[child].foreignKeys[k] == fk;
  }

  /** The images a cascade compares with are those of the tables before the statement. */
  ghost predicate ImagesOriginal(t: Tables, start: Row, before: Images, s: Sweep)
    requires Active(t, start)
  {
    before == BeforeImages(t, start.0) && Framed(before, AfterDelete(t, start), s)
  }

  lemma ImageIsOriginal(t: Tables, start: Row, before: Images, s: Sweep, child: string, fk: ForeignKey)
    requires Active(t, start) && KeysNameFields(t) && ImagesOriginal(t, start, before, s)
    requires child in t && fk in t[child].foreignKeys && fk.parentTable in t
    ensures var image := ImageOf(before, s, fk.parentTable);
      image.Some? ==> SnapshotReferenced(fk.parentTable, t[fk.parentTable].records, t) == image
    ensures ImageOf(before, s, fk.parentTable).None? ==>
      s.tables[fk.parentTable] == t[fk.parentTable] && fk.parentTable != start.0
  {
    ParentFieldsAreReferenced(t, child, fk);
    assert fk.parentFields[0] in ReferencedFields(fk.parentTable, t);
    SameReferences(fk.parentTable, t, AfterDelete(t, start));
  }

  lemma ChangeMeansGone(t: Tables, start: Row, before: Images, s: Sweep, child: string, fk: ForeignKey, k: nat)
    requires Active(t, start) && KeysNameFields(t) && ImagesOriginal(t, start, before, s) && OnlyDeletes(t, s.tables)
    requires child in t && fk in t[child].foreignKeys && fk.parentTable in t
    requires ImageOf(before, s, fk.parentTable).Some? && k < |t[fk.parentTable].records|
    ensures |ImageOf(before, s, fk.parentTable).value| == |t[fk.parentTable].records|
    ensures
      ChangeAt(ImageOf(before, s, fk.parentTable).value, s.tables[fk.parentTable], fk.parentFields, k) ==
      if Gone(t, s.tables, (fk.parentTable, k)) && TupleValues(t[fk.parentTable].records[k], fk.parentFields).Some?
      then Some(ParentChange(TupleValues(t[fk.parentTable].records[k], fk.parentFields).value, None)) else None
  {
    ImageIsOriginal(t, start, before, s, child, fk);
    ParentFieldsAreReferenced(t, child, fk);
    var was, now := t[fk.parentTable].records[k], s.tables[fk.parentTable].records[k];
    assert RecordKept(was, now);
    ProjectionKeepsTuples(was, ReferencedFields(fk.parentTable, t), fk.parentFields);
  }

  lemma ChangesAnnounce(t: Tables, start: Row, before: Images, s: Sweep, child: string, fk: ForeignKey,
                        change: ParentChange)
    requires Active(t, start) && KeysNameFields(t) && ImagesOriginal(t, start, before, s) && OnlyDeletes(t, s.tables)
    requires child in t && fk in t[child].foreignKeys && change in ChangesFor(before, s, fk)
    ensures Announces(t, s.tables, fk, change)
  {
    var image := ImageOf(before, s, fk.parentTable).value;
    ChangesAreExact(image, s.tables[fk.parentTable], fk.parentFields, 0, change);
    var k :| 0 <= k < |image| && ChangeAt(image, s.tables[fk.parentTable], fk.parentFields, k) == Some(change);
    ImageIsOriginal(t, start, before, s, child, fk);
    ChangeMeansGone(t, start, before, s, child, fk, k);
  }

  // ---- One cascading delete ----

  lemma {:induction false} RewriteDeletes(child: Table, rows: seq<nat>, deferred: set<string>)
    requires forall k :: 0 <= k < |rows| ==> rows[k] < |child.records|
    ensures var r := Rewrite(child, rows, None, deferred);
      r.Ok? && SameShape(child, r.value) &&
      forall i :: 0 <= i < |child.records| ==>
        r.value.records[i] == if i in rows then child.records[i].(deleted := true) else child.records[i]
    decreases |rows|
  {
    if rows != [] { RewriteDeletes(Deleted(child, rows[0]), rows[1..], deferred); }
  }

  lemma DeleteActs(child: Table, fk: ForeignKey, change: ParentChange, deferred: set<string>)
    requires fk.onDelete == CascadeChange && change.now.None?
    ensures var r := ApplyAction(child, fk, change, deferred);
      r.Ok? && SameShape(child, r.value.0) &&
      (forall i :: 0 <= i < |child.records| ==>
        r.value.0.records[i] ==
          if Matches(child.records[i], fk, change.was) then child.records[i].(deleted := true) else child.records[i]) &&
      (r.value.1 <==> exists i :: 0 <= i < |child.records| && Matches(child.records[i], fk, change.was))
  {
    var rows := MatchingFrom(child.records, fk, change.was, 0);
    RewriteDeletes(child, rows, deferred);
    if rows != [] { assert rows[0] in rows; }
  }

  /** Deleting the rows of `child` that refer to a row already gone. */
  ghost predicate DeletesMatches(a: Tables, b: Tables, child: string, fk: ForeignKey, key: seq<Value>)
    requires child in a
  {
    b.Keys == a.Keys && (forall n :: n in a && n != child ==> b[n] == a[n]) && SameShape(a[child], b[child]) &&
    forall i :: 0 <= i < |a[child].records| ==>
      b[child].records[i] ==
        if Matches(a[child].records[i], fk, key) then a[child].records[i].(deleted := true) else a[child].records[i]
  }

  lemma NewlyGoneRefers(t: Tables, a: Tables, b: Tables, child: string, fk: ForeignKey, key: seq<Value>, k: nat, r: Row)
    requires OnlyDeletes(t, a) && child in t && fk in t[child].foreignKeys && DeletesMatches(a, b, child, fk, key)
    requires Gone(t, a, (fk.parentTable, k)) && TupleValues(t[fk.parentTable].records[k], fk.parentFields) == Some(key)
    requires Gone(t, b, r) && !Gone(t, a, r)
    ensures Refers(t, r, (fk.parentTable, k))
  {
    assert RecordKept(t[r.0].records[r.1], a[r.0].records[r.1]);
    assert RefersBy(t, r, (fk.parentTable, k), fk);
  }

  lemma ReferrerInLeast(t: Tables, start: Row, c: Row, p: Row)
    requires InLeast(t, start, p) && Refers(t, c, p)
    ensures InLeast(t, start, c)
  {
  }

  lemma MatchesJustified(t: Tables, start: Row, a: Tables, b: Tables, child: string, fk: ForeignKey,
                         change: ParentChange)
    requires Justified(t, start, a) && child in t && fk in t[child].foreignKeys && Announces(t, a, fk, change)
    requires DeletesMatches(a, b, child, fk, change.was)
    ensures Justified(t, start, b)
  {
    hide Refers, TupleValues, InLeast;
    var k: nat :| Gone(t, a, (fk.parentTable, k)) &&
                  TupleValues(t[fk.parentTable].records[k], fk.parentFields) == Some(change.was);
    assert OnlyDeletes(t, b) && Gone(t, b, start) by {
      forall n, i | n in t && 0 <= i < |t[n].records| ensures RecordKept(t[n].records[i], b[n].records[i]) {
        assert RecordKept(t[n].records[i], a[n].records[i]);
      }
    }
    forall r: Row | Gone(t, b, r) ensures InLeast(t, start, r) {
      if !Gone(t, a, r) {
        NewlyGoneRefers(t, a, b, child, fk, change.was, k, r);
        ReferrerInLeast(t, start, r, (fk.parentTable, k));
      }
    }
  }

  lemma AnnouncesStays(t: Tables, a: Tables, b: Tables, fk: ForeignKey, change: ParentChange)
    requires Announces(t, a, fk, change) && OnlyDeletes(a, b)
    ensures Announces(t, b, fk, change)
  {
    var k: nat :| Gone(t, a, (fk.parentTable, k)) &&
                  TupleValues(t[fk.parentTable].records[k], fk.parentFields) == Some(change.was);
    assert RecordKept(a[fk.parentTable].records[k], b[fk.parentTable].records[k]);
    assert Gone(t, b, (fk.parentTable, k));
  }

  // ---- Convergence ----

  function ActiveRows(records: seq<Record>): nat
  {
    if records == [] then 0 else (if records[0].deleted then 0 else 1) + ActiveRows(records[1..])
  }

  lemma {:induction false} FewerActive(a: seq<Record>, b: seq<Record>)
    requires |a| == |b| && forall i :: 0 <= i < |a| ==> RecordKept(a[i], b[i])
    ensures ActiveRows(b) <= ActiveRows(a) <= |a|
    ensures (exists i :: 0 <= i < |a| && !a[i].deleted && b[i].deleted) ==> ActiveRows(b) < ActiveRows(a)
    decreases |a|
  {
    if a != [] {
      assert RecordKept(a[0], b[0]);
      FewerActive(a[1..], b[1..]);
      if i :| 0 < i < |a| && !a[i].deleted && b[i].deleted { assert !a[1..][i - 1].deleted && b[1..][i - 1].deleted; }
    }
  }

  function SumActive(t: Tables, order: seq<string>): nat
    requires forall n :: n in order ==> n in t
  {
    if order == [] then 0 else ActiveRows(t[order[0]].records) + SumActive(t, order[1..])
  }

  /** Deletions only lower the number of active rows, which the row count bounds. */
  lemma {:induction false} SumFalls(a: Tables, b: Tables, order: seq<string>)
    requires OnlyDeletes(a, b) && forall n :: n in order ==> n in a
    ensures SumActive(b, order) <= SumActive(a, order) <= TotalRows(a, order)
    ensures (exists n :: n in order && ActiveRows(b[n].records) < ActiveRows(a[n].records)) ==>
      SumActive(b, order) < SumActive(a, order)
    decreases |order|
  {
    if order != [] {
      FewerActive(a[order[0]].records, b[order[0]].records);
      SumFalls(a, b, order[1..]);
    }
  }

  // ---- Passes ----

  /** The state a cascade stays in, and how far `s'` has come from `s`. */
  ghost predicate Progress(t: Tables, start: Row, before: Images, order: seq<string>, s: Sweep, s': Sweep)
    requires Active(t, start) && forall n :: n in order ==> n in t
  {
    ImagesOriginal(t, start, before, s') && Justified(t, start, s'.tables) && OnlyDeletes(s.tables, s'.tables) &&
    s.tables.Keys == t.Keys && (s.dirty ==> s'.dirty) &&
    (s'.dirty && !s.dirty ==> SumActive(s'.tables, order) < SumActive(s.tables, order))
  }

  lemma ProgressReflexive(t: Tables, start: Row, before: Images, order: seq<string>, s: Sweep)
    requires Active(t, start) && forall n :: n in order ==> n in t
    requires ImagesOriginal(t, start, before, s) && Justified(t, start, s.tables)
    ensures Progress(t, start, before, order, s, s)
  {
  }

  lemma ProgressTransitive(t: Tables, start: Row, before: Images, order: seq<string>, a: Sweep, b: Sweep, c: Sweep)
    requires Active(t, start) && forall n :: n in order ==> n in t
    requires Progress(t, start, before, order, a, b) && Progress(t, start, before, order, b, c)
    ensures Progress(t, start, before, order, a, c)
  {
    hide Justified, ImagesOriginal;
    forall n, i | n in a.tables && 0 <= i < |a.tables[n].records|
      ensures RecordKept(a.tables[n].records[i], c.tables[n].records[i]) {
      assert RecordKept(a.tables[n].records[i], b.tables[n].records[i]);
      assert RecordKept(b.tables[n].records[i], c.tables[n].records[i]);
    }
    SumFalls(a.tables, b.tables, order);
    SumFalls(b.tables, c.tables, order);
  }

  lemma ChangeDeletes(before: Images, s: Sweep, child: string, fk: ForeignKey, change: ParentChange, deferred: Deferred)
    requires child in s.tables && fk.onDelete == CascadeChange && change.now.None?
    ensures var r := DoChange(before, s, child, fk, change, deferred);
      r.Ok? && DeletesMatches(s.tables, r.value.tables, child, fk, change.was) && (s.dirty ==> r.value.dirty) &&
      (r.value.dirty && !s.dirty ==>
        ActiveRows(r.value.tables[child].records) < ActiveRows(s.tables[child].records))
  {
    hide Rewrite, MatchingFrom, ApplyAction, SnapshotReferenced;
    DeleteActs(s.tables[child], fk, change, DeferredFor(deferred, child));
    var s' := DoChange(before, s, child, fk, change, deferred).value;
    FewerActive(s.tables[child].records, s'.tables[child].records);
  }

  /** A key that does not cascade has no row that refers to a row already gone. */
  lemma UninvolvedMatchNothing(t: Tables, start: Row, t': Tables, child: string, fk: ForeignKey,
                               change: ParentChange, i: nat)
    requires InvolvedCascade(t, start) && Justified(t, start, t') && Announces(t, t', fk, change)
    requires child in t && fk in t[child].foreignKeys && fk.onDelete != CascadeChange && i < |t'[child].records|
    ensures !Matches(t'[child].records[i], fk, change.was)
  {
    var k: nat :| Gone(t, t', (fk.parentTable, k)) &&
                  TupleValues(t[fk.parentTable].records[k], fk.parentFields) == Some(change.was);
    var c: Row, p: Row := (child, i), (fk.parentTable, k);
    assert InLeast(t, start, p);
    assert RecordKept(t[child].records[i], t'[child].records[i]);
    if Matches(t'[child].records[i], fk, change.was) {
      assert RefersBy(t, c, p, fk);
    }
  }

  /** A change that no row of the child holds leaves everything as it is. */
  lemma NoMatchNoChange(before: Images, s: Sweep, child: string, fk: ForeignKey, change: ParentChange,
                        deferred: Deferred)
    requires child in s.tables
    requires forall i :: 0 <= i < |s.tables[child].records| ==> !Matches(s.tables[child].records[i], fk, change.was)
    ensures DoChange(before, s, child, fk, change, deferred) == Ok(s)
  {
    var rows := MatchingFrom(s.tables[child].records, fk, change.was, 0);
    assert forall i :: i !in rows;
  }

  lemma ChangeProgress(t: Tables, start: Row, before: Images, order: seq<string>, s: Sweep, child: string,
                       fk: ForeignKey, change: ParentChange, deferred: Deferred)
    requires Active(t, start) && KeysNameFields(t) && InvolvedCascade(t, start) && Lists(order, t.Keys)
    requires ImagesOriginal(t, start, before, s)
    requires Justified(t, start, s.tables) && child in t && fk in t[child].foreignKeys
    requires Announces(t, s.tables, fk, change)
    ensures var r := DoChange(before, s, child, fk, change, deferred);
      r.Ok? && Progress(t, start, before, order, s, r.value)
  {
    hide Framed, DoChange, SnapshotReferenced, TupleValues, ActiveRows, InvolvedCascade;
    if fk.onDelete != CascadeChange {
      forall i | 0 <= i < |s.tables[child].records| ensures !Matches(s.tables[child].records[i], fk, change.was) {
        UninvolvedMatchNothing(t, start, s.tables, child, fk, change, i);
      }
      NoMatchNoChange(before, s, child, fk, change, deferred);
      ProgressReflexive(t, start, before, order, s);
      return;
    }
    ChangeDeletes(before, s, child, fk, change, deferred);
    ChangeFramed(before, AfterDelete(t, start), s, child, fk, change, deferred);
    var s' := DoChange(before, s, child, fk, change, deferred).value;
    MatchesJustified(t, start, s.tables, s'.tables, child, fk, change);
    assert OnlyDeletes(s.tables, s'.tables);
    SumFalls(s.tables, s'.tables, order);
  }

  lemma {:induction false} ChangesProgress(t: Tables, start: Row, before: Images, order: seq<string>, s: Sweep,
                                           child: string, fk: ForeignKey, changes: seq<ParentChange>,
                                           deferred: Deferred)
    requires Active(t, start) && KeysNameFields(t) && InvolvedCascade(t, start) && Lists(order, t.Keys)
    requires ImagesOriginal(t, start, before, s)
    requires Justified(t, start, s.tables) && child in t && fk in t[child].foreignKeys && child in s.tables
    requires forall change :: change in changes ==> Announces(t, s.tables, fk, change)
    ensures var r := DoChanges(before, s, child, fk, changes, deferred);
      r.Ok? && Progress(t, start, before, order, s, r.value)
    decreases |changes|
  {
    hide Framed, DoChange, SnapshotReferenced, TupleValues, Justified, Announces, ImagesOriginal, SumActive;
    if changes == [] {
      ProgressReflexive(t, start, before, order, s);
    } else {
      ChangeProgress(t, start, before, order, s, child, fk, changes[0], deferred);
      var s' := DoChange(before, s, child, fk, changes[0], deferred).value;
      forall change | change in changes[1..] ensures Announces(t, s'.tables, fk, change) {
        AnnouncesStays(t, s.tables, s'.tables, fk, change);
      }
      ChangesProgress(t, start, before, order, s', child, fk, changes[1..], deferred);
      ProgressTransitive(t, start, before, order, s, s',
                         DoChanges(before, s', child, fk, changes[1..], deferred).value);
    }
  }

  lemma {:induction false} PassProgress(t: Tables, start: Row, before: Images, order: seq<string>, s: Sweep,
                                        links: seq<Link>, deferred: Deferred)
    requires Active(t, start) && KeysNameFields(t) && InvolvedCascade(t, start) && Lists(order, t.Keys)
    requires ImagesOriginal(t, start, before, s)
    requires Justified(t, start, s.tables)
    requires forall x :: x in links ==> x.0 in t && x.1 in t[x.0].foreignKeys
    ensures var r := DoLinks(before, s, links, deferred);
      r.Ok? && Progress(t, start, before, order, s, r.value)
    decreases |links|
  {
    hide Framed, SnapshotReferenced, TupleValues, Announces, SumActive, ChangesFor, DoChanges;
    if links != [] {
      var (child, fk) := links[0];
      var changes := ChangesFor(before, s, fk);
      forall change | change in changes ensures Announces(t, s.tables, fk, change) {
        ChangesAnnounce(t, start, before, s, child, fk, change);
      }
      ChangesProgress(t, start, before, order, s, child, fk, changes, deferred);
      var s' := DoChanges(before, s, child, fk, changes, deferred).value;
      PassProgress(t, start, before, order, s', links[1..], deferred);
      ProgressTransitive(t, start, before, order, s, s', DoLinks(before, s', links[1..], deferred).value);
    }
  }

  lemma {:induction false} PassesConverge(t: Tables, start: Row, before: Images, order: seq<string>, s: Sweep,
                                          links: seq<Link>, deferred: Deferred, passes: nat)
    requires Active(t, start) && KeysNameFields(t) && InvolvedCascade(t, start) && Lists(order, t.Keys)
    requires ImagesOriginal(t, start, before, s)
    requires Justified(t, start, s.tables) && passes > SumActive(s.tables, order)
    requires forall x :: x in links ==> x.0 in t && x.1 in t[x.0].foreignKeys
    ensures var r := DoPasses(before, s, links, deferred, passes); r.Ok? && Justified(t, start, r.value.tables)
    decreases passes
  {
    hide SnapshotReferenced, TupleValues, Justified, DoLinks, SumActive, Refers, Framed;
    FramedClean(before, AfterDelete(t, start), s);
    var s0 := s.(dirty := false);
    PassProgress(t, start, before, order, s0, links, deferred);
    var s1 := DoLinks(before, s0, links, deferred).value;
    if s1.dirty { PassesConverge(t, start, before, order, s1, links, deferred, passes - 1); }
  }

  // ---- The deleted set is closed ----

  lemma FixpointIsClosed(t: Tables, start: Row, before: Images, s: Sweep, c: Row, p: Row)
    requires Active(t, start) && KeysNameFields(t) && InvolvedCascade(t, start) && ImagesOriginal(t, start, before, s)
    requires Justified(t, start, s.tables)
    requires forall n, fk :: n in t && fk in t[n].foreignKeys ==> Settled(before, s, n, fk)
    requires Gone(t, s.tables, p) && Refers(t, c, p)
    ensures Gone(t, s.tables, c)
  {
    hide Framed, SnapshotReferenced;
    var fk :| fk in t[c.0].foreignKeys && RefersBy(t, c, p, fk);
    ImageIsOriginal(t, start, before, s, c.0, fk);
    var image := ImageOf(before, s, p.0).value;
    ChangeMeansGone(t, start, before, s, c.0, fk, p.1);
    var key := TupleValues(t[p.0].records[p.1], fk.parentFields).value;
    ChangesAreExact(image, s.tables[p.0], fk.parentFields, 0, ParentChange(key, None));
    assert ParentChange(key, None) in ChangesFor(before, s, fk);
    assert Settled(before, s, c.0, fk);
    assert RecordKept(t[c.0].records[c.1], s.tables[c.0].records[c.1]);
  }

  /** The deleted rows are exactly the least closed set: `t'` deletes `start`, everything that refers to
      a deleted row, nothing that some closed set leaves out, and changes nothing else. */
  ghost predicate DeletesLeastClosure(t: Tables, start: Row, t': Tables)
  {
    Justified(t, start, t') && forall c, p :: Gone(t, t', p) && Refers(t, c, p) ==> Gone(t, t', c)
  }

  lemma EnoughPasses(tables: Tables, order: seq<string>)
    requires forall n :: n in order ==> n in tables
    ensures TotalRows(tables, order) < MaxPasses(tables, order)
  {
    var rows, links := TotalRows(tables, order) + 1, |Links(tables, order)|;
    assert links >= 1 ==> rows * links >= rows * 1;
  }

  lemma StatementStarts(t: Tables, start: Row)
    requires Active(t, start)
    ensures Justified(t, start, AfterDelete(t, start))
    ensures ImagesOriginal(t, start, BeforeImages(t, start.0), Sweep(AfterDelete(t, start), map[], {}, false))
  {
    var tables := AfterDelete(t, start);
    forall n, i | n in t && 0 <= i < |t[n].records| ensures RecordKept(t[n].records[i], tables[n].records[i]) { }
  }

  /** When every key involved cascades, whatever the other keys of the catalog do, the cascade converges
      within its pass limit and deletes exactly the least set of rows closed under key reference from
      the deleted row, in any table order. */
  lemma DeleteCascadesExactly(t: Tables, start: Row, deferred: Deferred, order: seq<string>)
    requires Active(t, start) && KeysNameFields(t) && InvolvedCascade(t, start) && Lists(order, t.Keys)
    ensures var r := Cascaded(BeforeImages(t, start.0), AfterDelete(t, start), deferred, order);
      r.Ok? && DeletesLeastClosure(t, start, r.value.tables)
  {
    hide DoPasses, Settled, Framed, BeforeImages, SnapshotReferenced, Refers, Gone, Closed, MaxPasses, SumActive;
    var before, tables := BeforeImages(t, start.0), AfterDelete(t, start);
    var s := Sweep(tables, map[], {}, false);
    StatementStarts(t, start);
    SumFalls(tables, tables, order);
    EnoughPasses(tables, order);
    PassesConverge(t, start, before, order, s, Links(tables, order), deferred, MaxPasses(tables, order));
    var s' := Cascaded(before, tables, deferred, order).value;
    forall n, fk | n in t && fk in t[n].foreignKeys ensures Settled(before, s', n, fk) {
      CascadeIsFixpoint(before, tables, deferred, order, n, fk);
    }
    CascadeFramed(before, tables, deferred, order);
    forall c: Row, p: Row | Gone(t, s'.tables, p) && Refers(t, c, p) ensures Gone(t, s'.tables, c) {
      FixpointIsClosed(t, start, before, s', c, p);
    }
  }
}
