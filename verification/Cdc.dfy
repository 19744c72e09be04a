/** Change data capture: events between table images, the event log and its pages. */
module Cdc {
  import opened Base
  import opened RowMvcc

  datatype ChangeRecord = ChangeRecord(number: nat, before: Option<Row>, after: Option<Row>)
  datatype Event = Event(id: nat, reset: bool, changes: seq<ChangeRecord>)
  datatype CdcError = InvalidEvent | NotIncreasing | Conflicting | Older | BadPageSize

  const MAX_PAGE_SIZE: nat := 1000

  // ---- Events between two images ----

  function RowOf(rows: seq<Row>, i: nat): Option<Row>
  {
    if i < |rows| then Some(rows[i]) else None
  }

  predicate Captured(before: seq<Row>, after: seq<Row>, reset: bool, i: nat)
  {
    reset || RowOf(before, i) != RowOf(after, i)
  }

  /** The captured changes of the first `n` rows. */
  function ChangesUpTo(before: seq<Row>, after: seq<Row>, reset: bool, n: nat): seq<ChangeRecord>
  {
    if n == 0 then []
    else
      ChangesUpTo(before, after, reset, n - 1) +
      if Captured(before, after, reset, n - 1)
      then [ChangeRecord(n, RowOf(before, n - 1), RowOf(after, n - 1))] else []
  }

  function RowCount(before: seq<Row>, after: seq<Row>): nat
  {
    if |before| < |after| then |after| else |before|
  }

  function EventOf(id: nat, before: seq<Row>, after: seq<Row>, reset: bool): Event
  {
    Event(id, reset, ChangesUpTo(before, after, reset, RowCount(before, after)))
  }

  method EventForTables(id: nat, before: seq<Row>, after: seq<Row>, reset: bool) returns (r: Result<Event, CdcError>)
    ensures r == if id == 0 then Err(InvalidEvent) else Ok(EventOf(id, before, after, reset))
  {
    if id == 0 {
      return Err(InvalidEvent);
    }
    var count := if |before| < |after| then |after| else |before|;
    var changes: seq<ChangeRecord> := [];
    for i := 0 to count
      invariant changes == ChangesUpTo(before, after, reset, i)
    {
      var b := if i < |before| then Some(before[i]) else None;
      var a := if i < |after| then Some(after[i]) else None;
      if reset || b != a {
        changes := changes + [ChangeRecord(i + 1, b, a)];
      }
    }
    return Ok(Event(id, reset, changes));
  }

  predicate ValidChange(changes: seq<ChangeRecord>, i: nat)
    requires i < |changes|
  {
    changes[i].number > (if i == 0 then 0 else changes[i - 1].number) &&
    (changes[i].before.Some? || changes[i].after.Some?)
  }

  predicate ValidEvent(e: Event)
  {
    e.id != 0 && forall i :: 0 <= i < |e.changes| ==> ValidChange(e.changes, i)
  }

  lemma {:induction false} ChangesValid(before: seq<Row>, after: seq<Row>, reset: bool, n: nat)
    requires n <= RowCount(before, after)
    ensures var c := ChangesUpTo(before, after, reset, n);
            (forall i :: 0 <= i < |c| ==> ValidChange(c, i)) && (c != [] ==> c[|c| - 1].number <= n)
  {
    if n > 0 {
      ChangesValid(before, after, reset, n - 1);
      var c, d := ChangesUpTo(before, after, reset, n - 1), ChangesUpTo(before, after, reset, n);
      assert forall i :: 0 <= i < |c| ==> ValidChange(d, i) == ValidChange(c, i);
    }
  }

  /** Every event between two images is one that the log accepts. */
  lemma EventIsValid(id: nat, before: seq<Row>, after: seq<Row>, reset: bool)
    requires id != 0
    ensures ValidEvent(EventOf(id, before, after, reset))
  {
    ChangesValid(before, after, reset, RowCount(before, after));
  }

  /** An image: the rows by number. */
  type Rows = map<nat, Row>

  function ImageOf(rows: seq<Row>): Rows
  {
    map n: nat | 1 <= n <= |rows| :: Numbered(rows, n)
  }

  function Numbered(rows: seq<Row>, n: nat): Row
    requires 1 <= n <= |rows|
  {
    rows[n - 1]
  }

  function Put(m: Rows, n: nat, row: Option<Row>): Rows
  {
    if row.Some? then m[n := row.value] else m - {n}
  }

  /** What a consumer makes of an image: the changes in order, forward. */
  function Replay(changes: seq<ChangeRecord>, m: Rows): Rows
  {
    if changes == [] then m
    else
      var last := changes[|changes| - 1];
      Put(Replay(changes[..|changes| - 1], m), last.number, last.after)
  }

  /** The changes taken back. */
  function Revert(changes: seq<ChangeRecord>, m: Rows): Rows
  {
    if changes == [] then m
    else
      var last := changes[|changes| - 1];
      Put(Revert(changes[..|changes| - 1], m), last.number, last.before)
  }

  function Look(m: Rows, n: nat): Option<Row> { if n in m then Some(m[n]) else None }

  lemma {:induction false} ReplayAt(before: seq<Row>, after: seq<Row>, reset: bool, n: nat, m: Rows, k: nat)
    ensures var c := ChangesUpTo(before, after, reset, n);
            var captured := 1 <= k <= n && Captured(before, after, reset, k - 1);
            Look(Replay(c, m), k) == (if captured then RowOf(after, k - 1) else Look(m, k)) &&
            Look(Revert(c, m), k) == (if captured then RowOf(before, k - 1) else Look(m, k))
    decreases n
  {
    if n > 0 {
      ReplayAt(before, after, reset, n - 1, m, k);
      var shorter, c := ChangesUpTo(before, after, reset, n - 1), ChangesUpTo(before, after, reset, n);
      if c != shorter {
        assert c[..|c| - 1] == shorter;
      }
    }
  }

  lemma SameRows(a: Rows, b: Rows)
    requires forall k :: Look(a, k) == Look(b, k)
    ensures a == b
  {
    forall k: nat ensures (k in a <==> k in b) && (k in a ==> a[k] == b[k]) {
      assert Look(a, k) == Look(b, k);
    }
  }

  /** An event leads from the image before it to the image after it, and back. */
  lemma EventLeadsAcross(id: nat, before: seq<Row>, after: seq<Row>, reset: bool)
    ensures Replay(EventOf(id, before, after, reset).changes, ImageOf(before)) == ImageOf(after)
    ensures Revert(EventOf(id, before, after, reset).changes, ImageOf(after)) == ImageOf(before)
  {
    var n := RowCount(before, after);
    var c := ChangesUpTo(before, after, reset, n);
    forall k ensures Look(Replay(c, ImageOf(before)), k) == Look(ImageOf(after), k) &&
                     Look(Revert(c, ImageOf(after)), k) == Look(ImageOf(before), k)
    {
      ReplayAt(before, after, reset, n, ImageOf(before), k);
      ReplayAt(before, after, reset, n, ImageOf(after), k);
    }
    SameRows(Replay(c, ImageOf(before)), ImageOf(after));
    SameRows(Revert(c, ImageOf(after)), ImageOf(before));
  }

  /** A reset event leads there from any image with no further rows. */
  lemma ResetStandsAlone(id: nat, before: seq<Row>, after: seq<Row>, m: Rows)
    requires forall k :: k in m ==> 1 <= k <= RowCount(before, after)
    ensures Replay(EventOf(id, before, after, true).changes, m) == ImageOf(after)
  {
    var n := RowCount(before, after);
    var c := ChangesUpTo(before, after, true, n);
    forall k ensures Look(Replay(c, m), k) == Look(ImageOf(after), k) {
      ReplayAt(before, after, true, n, m, k);
    }
    SameRows(Replay(c, m), ImageOf(after));
  }

  // ---- The log ----

  ghost predicate Increasing(log: seq<Event>)
  {
    forall i, j :: 0 <= i < j < |log| ==> log[i].id < log[j].id
  }

  /** What appending makes of a log. */
  ghost function Appended(log: seq<Event>, e: Event): Result<seq<Event>, CdcError>
  {
    if !ValidEvent(e) then Err(InvalidEvent)
    else if e in log then Ok(log)
    else if exists i :: 0 <= i < |log| && log[i].id == e.id then Err(Conflicting)
    else if log != [] && log[|log| - 1].id > e.id then Err(Older)
    else Ok(log + [e])
  }

  lemma AppendedTwice(log: seq<Event>, e: Event)
    requires Increasing(log) && Appended(log, e).Ok?
    ensures var r := Appended(log, e).value;
            Increasing(r) && log <= r && e in r && Appended(r, e) == Ok(r)
  {
  }

  class EventLog {
    var events: seq<Event>

    constructor ()
      ensures events == []
    {
      events := [];
    }

    /** Adds an event at the end, or finds that it is there. */
    method Append(e: Event) returns (r: Result<(), CdcError>)
      modifies this
      ensures old(Increasing(events)) ==> Increasing(events)
      ensures old(Increasing(events)) ==>
        Appended(old(events), e) == if r.Ok? then Ok(events) else Err(r.error)
      ensures r.Err? ==> events == old(events)
      ensures !old(Increasing(events)) ==> events == old(events)
    {
      if !ValidEvent(e) {
        return Err(InvalidEvent);
      }
      for i := 0 to |events|
        invariant events == old(events)
        invariant forall j :: 0 <= j < i ==> events[j].id != e.id
        invariant forall j, k :: 0 <= j < k < i ==> events[j].id < events[k].id
      {
        if i > 0 && events[i].id <= events[i - 1].id {
          return Err(NotIncreasing);
        }
        if events[i].id == e.id {
          if events[i] == e {
            return Ok(());
          }
          return Err(Conflicting);
        }
      }
      if events != [] && events[|events| - 1].id > e.id {
        return Err(Older);
      }
      events := events + [e];
      return Ok(());
    }
  }

  // ---- Reading in pages ----

  function Past(log: seq<Event>, after: Option<nat>): seq<Event>
  {
    if log == [] then []
    else (if after.None? || log[0].id > after.value then [log[0]] else []) + Past(log[1..], after)
  }

  datatype Page = Page(events: seq<Event>, next: Option<nat>)

  /** The next `limit` events, and where the following page starts, if there is one. */
  function PageOf(log: seq<Event>, after: Option<nat>, limit: nat): Page
    requires limit > 0
  {
    var all := Past(log, after);
    if |all| <= limit then Page(all, None) else Page(all[..limit], Some(all[limit - 1].id))
  }

  lemma {:induction false} PastConcat(a: seq<Event>, b: seq<Event>, after: Option<nat>)
    ensures Past(a + b, after) == Past(a, after) + Past(b, after)
    decreases |a|
  {
    if a == [] {
      assert a + b == b;
    } else {
      PastConcat(a[1..], b, after);
      assert (a + b)[1..] == a[1..] + b;
    }
  }

  lemma PastNext(log: seq<Event>, i: nat, after: Option<nat>)
    ensures Past(log[..0], after) == []
    ensures i < |log| ==>
      Past(log[..i + 1], after) ==
      Past(log[..i], after) + if after.None? || log[i].id > after.value then [log[i]] else []
  {
    if i < |log| {
      assert log[..i + 1] == log[..i] + [log[i]];
      PastConcat(log[..i], [log[i]], after);
    }
  }

  function FirstOf(events: seq<Event>, n: nat): seq<Event>
  {
    if |events| <= n then events else events[..n]
  }

  /** The scan over the log, which stops collecting one past the page. */
  method ReadPage(log: seq<Event>, after: Option<nat>, limit: nat) returns (r: Result<Page, CdcError>)
    ensures r.Ok? ==> 1 <= limit <= MAX_PAGE_SIZE && Increasing(log) && r.value == PageOf(log, after, limit)
    ensures r.Err? ==> !(1 <= limit <= MAX_PAGE_SIZE) || !Increasing(log)
  {
    if !(1 <= limit <= MAX_PAGE_SIZE) {
      return Err(BadPageSize);
    }
    hide Past;
    var events: seq<Event> := [];
    PastNext(log, 0, after);
    for i := 0 to |log|
      invariant forall j, k :: 0 <= j < k < i ==> log[j].id < log[k].id
      invariant events == FirstOf(Past(log[..i], after), limit + 1)
    {
      if i > 0 && log[i].id <= log[i - 1].id {
        return Err(NotIncreasing);
      }
      PastNext(log, i, after);
      if (after.None? || log[i].id > after.value) && |events| <= limit {
        events := events + [log[i]];
      }
    }
    assert log[..|log|] == log;
    if |events| > limit {
      return Ok(Page(events[..limit], Some(events[limit - 1].id)));
    }
    return Ok(Page(events, None));
  }

  lemma {:induction false} PastAll(log: seq<Event>, after: Option<nat>)
    requires forall i :: 0 <= i < |log| ==> after.None? || log[i].id > after.value
    ensures Past(log, after) == log
    decreases |log|
  {
    if log != [] {
      PastAll(log[1..], after);
    }
  }

  /** The events past the `k`-th of those past `after` are the rest of them. */
  lemma {:induction false} PastMore(log: seq<Event>, after: Option<nat>, k: nat)
    requires Increasing(log) && 0 < k <= |Past(log, after)|
    ensures Past(log, Some(Past(log, after)[k - 1].id)) == Past(log, after)[k..]
    ensures Past(log, after)[k - 1].id >= log[0].id
    decreases |log|
  {
    PastFirst(log, after);
    hide Past;
    if after.None? || log[0].id > after.value {
      PastAll(log, after);
      PastRest(log, k);
    } else {
      PastFirst(log[1..], after);
      PastMore(log[1..], after, k);
      assert log[1..][0] == log[1];
      PastFirst(log, Some(Past(log, after)[k - 1].id));
    }
  }

  lemma PastFirst(log: seq<Event>, after: Option<nat>)
    ensures log == [] ==> Past(log, after) == []
    ensures log != [] && after.Some? && log[0].id <= after.value ==> Past(log, after) == Past(log[1..], after)
  {
  }

  lemma PastRest(log: seq<Event>, k: nat)
    requires Increasing(log) && 0 < k <= |log|
    ensures Past(log, Some(log[k - 1].id)) == log[k..]
  {
    hide Past;
    var from := Some(log[k - 1].id);
    assert log == log[..k] + log[k..];
    PastConcat(log[..k], log[k..], from);
    PastNone(log[..k], from.value);
    PastAll(log[k..], from);
  }

  lemma {:induction false} PastNone(log: seq<Event>, after: nat)
    requires forall i :: 0 <= i < |log| ==> log[i].id <= after
    ensures Past(log, Some(after)) == []
    decreases |log|
  {
    if log != [] {
      PastNone(log[1..], after);
    }
  }

  /** Following the cursors, with any page size at each step, ends and yields the log unpaged. */
  method ReadAll(log: seq<Event>, after: Option<nat>, sizes: nat -> nat) returns (events: seq<Event>)
    requires Increasing(log) && forall i :: 1 <= sizes(i) <= MAX_PAGE_SIZE
    ensures events == Past(log, after)
  {
    hide Past;
    events := [];
    var cursor, i := after, 0;
    while true
      invariant events + Past(log, cursor) == Past(log, after)
      decreases |Past(log, cursor)|
    {
      var page := ReadPage(log, cursor, sizes(i));
      events := events + page.value.events;
      if page.value.next.None? {
        return;
      }
      PastMore(log, cursor, sizes(i));
      cursor, i := page.value.next, i + 1;
    }
  }
}
