/** The catalog transaction ID, committed in the same journal transaction as the files it covers. */
module CatalogState {
  import opened Base
  import opened Binary
  import opened Journal

  /** A file is bytes, or a value that stands for its encoding. */
  datatype Content<X> = Raw(bytes: Bytes) | Encoded(value: X)

  const STATE_FILE: string := ".txbase.catalog.state"
  const STATE_MAGIC: Bytes := [0x54, 0x58, 0x43, 0x53]
  const STATE_VERSION: byte := 1

  datatype StateError = BadHeader | Truncated | UnknownVersion(version: byte) | ZeroId

  function StateBytes(id: u64): Bytes
  {
    STATE_MAGIC + [STATE_VERSION] + ToLe(id, 8)
  }

  function DecodeState(bytes: Bytes): (r: Result<nat, StateError>)
    ensures r.Ok? ==> r.value != 0
  {
    if !(STATE_MAGIC <= bytes) then Err(BadHeader)
    else
      var body := bytes[4..];
      if |body| != 9 then Err(Truncated)
      else if body[0] != STATE_VERSION then Err(UnknownVersion(body[0]))
      else if FromLe(body[1..]) == 0 then Err(ZeroId)
      else Ok(FromLe(body[1..]))
  }

  /** The state file stores exactly the positive 64-bit IDs, each in exactly one way. */
  lemma StateRoundTrip(id: u64)
    ensures DecodeState(StateBytes(id)) == if id == 0 then Err(ZeroId) else Ok(id)
  {
    PowWidths();
    LeRoundTrip(id, 8);
    assert StateBytes(id)[4..][1..] == ToLe(id, 8);
    assert StateBytes(id)[..4] == STATE_MAGIC;
  }

  lemma StateBytesAreCanonical(bytes: Bytes)
    requires DecodeState(bytes).Ok?
    ensures DecodeState(bytes).value <= U64_MAX && StateBytes(DecodeState(bytes).value) == bytes
  {
    hide FromLe, ToLe, Pow256;
    PowWidths();
    LeBytesRoundTrip(bytes[5..]);
    assert bytes[4..][1..] == bytes[5..];
    assert bytes == bytes[..4] + [bytes[4]] + bytes[5..];
  }

  /** The ID that a set of files is at: zero before the first commit. */
  function CurrentId<X>(files: Files<Content<X>>): (r: Result<nat, StateError>)
    ensures r.Ok? ==> r.value <= U64_MAX
  {
    if STATE_FILE !in files then Ok(0)
    else if !files[STATE_FILE].Raw? then Err(BadHeader)
    else
      var r := DecodeState(files[STATE_FILE].bytes);
      if r.Ok? then StateBytesAreCanonical(files[STATE_FILE].bytes); r else r
  }

  function StateImage<X>(id: u64): Image<Content<X>>
  {
    (STATE_FILE, Some(Raw(StateBytes(id))))
  }

  /** The files after transaction `id` wrote `images`. */
  function CommittedFiles<X>(files: Files<Content<X>>, id: u64, images: seq<Image<Content<X>>>): Files<Content<X>>
  {
    Overlay(files, images + [StateImage(id)])
  }

  lemma CommittedId<X>(files: Files<Content<X>>, id: u64, images: seq<Image<Content<X>>>)
    requires id != 0 && Distinct(images + [StateImage(id)])
    ensures CurrentId(CommittedFiles(files, id, images)) == Ok(id)
  {
    var all := images + [StateImage(id)];
    assert all[|images|].0 == STATE_FILE;
    OverlayAt(files, all, STATE_FILE);
    StateRoundTrip(id);
  }

  /** The changes that put `images` in place, with what is there now as the undo images. */
  function ChangesFor<V>(files: Files<V>, images: seq<Image<V>>): (r: seq<FileChange<V>>)
    ensures |r| == |images|
    ensures AfterImages(r) == images && Current(files, BeforeImages(r))
  {
    var r := seq(|images|, i requires 0 <= i < |images| =>
      FileChange(images[i].0, Get(files, images[i].0), images[i].1));
    assert forall i :: 0 <= i < |r| ==> AfterImages(r)[i] == images[i];
    r
  }

  /** Commits changes together with transaction ID `id`. */
  method CommitAt<X(0)>(c: Catalog<Content<X>>, id: u64, changes: seq<FileChange<Content<X>>>)
    returns (outcome: Outcome, ghost decided: bool)
    requires Sound(c.disk)
    modifies c
    ensures Sound(c.disk)
    ensures outcome.Refused? <==>
      id == 0 || old(c.disk).journal.Some? || CurrentId(old(c.disk).files).Err? ||
      id <= CurrentId(old(c.disk).files).value || !Distinct(AfterImages(changes) + [StateImage(id)])
    ensures outcome.Refused? ==> c.disk == old(c.disk) && !decided
    ensures outcome.Done? ==> decided && c.disk.files == CommittedFiles(old(c.disk).files, id, AfterImages(changes))
    ensures decided <==> CommittedSince(old(c.written), c.written)
    ensures decided ==> Recovered(c.disk) == CommittedFiles(old(c.disk).files, id, AfterImages(changes))
    ensures !decided && Current(old(c.disk).files, BeforeImages(changes)) && !outcome.Refused? ==>
      Recovered(c.disk) == old(c.disk).files
  {
    decided := false;
    if id == 0 || c.disk.journal.Some? {
      return Refused, decided;
    }
    var current := CurrentId(c.disk.files);
    if current.Err? || id <= current.value {
      return Refused, decided;
    }
    var before := Get(c.disk.files, STATE_FILE);
    var all := changes + [FileChange(STATE_FILE, before, Some(Raw(StateBytes(id))))];
    assert AfterImages(all) == AfterImages(changes) + [StateImage(id)];
    assert BeforeImages(all) == BeforeImages(changes) + [(STATE_FILE, before)];
    SameTargets(all);
    if Distinct(BeforeImages(all)) {
      OverlayIsIdentity(c.disk.files, BeforeImages(all));
    }
    outcome, decided := c.CommitFiles(all);
    decided := decided && !outcome.Refused?;
  }

  // ---- Whole runs ----

  /** The transactions `picked` out of `work`, in order. */
  function Chosen<V>(work: seq<seq<Image<V>>>, picked: seq<nat>): seq<seq<Image<V>>>
    requires forall k :: 0 <= k < |picked| ==> picked[k] < |work|
  {
    seq(|picked|, k requires 0 <= k < |picked| => work[picked[k]])
  }

  /** One transaction after another, with consecutive IDs from `first`. */
  function Replay<X>(files: Files<Content<X>>, first: nat, done: seq<seq<Image<Content<X>>>>): Files<Content<X>>
    requires first + |done| <= U64_MAX + 1
    decreases |done|
  {
    if done == [] then files
    else CommittedFiles(Replay(files, first, done[..|done| - 1]), first + |done| - 1, done[|done| - 1])
  }

  lemma ReplayNone<X>(files: Files<Content<X>>, first: nat)
    requires first <= U64_MAX + 1
    ensures Replay(files, first, []) == files
  {
  }

  lemma ReplayOne<X>(files: Files<Content<X>>, first: nat, done: seq<seq<Image<Content<X>>>>,
                     images: seq<Image<Content<X>>>)
    requires first + |done| <= U64_MAX
    ensures Replay(files, first, done + [images]) == CommittedFiles(Replay(files, first, done), first + |done|, images)
  {
    hide CommittedFiles;
    assert (done + [images])[..|done|] == done;
  }

  /** The indices `picked` below `n`, in order. */
  ghost predicate Increasing(picked: seq<nat>, n: nat)
  {
    (forall k :: 0 <= k < |picked| ==> picked[k] < n) &&
    (forall j, k :: 0 <= j < k < |picked| ==> picked[j] < picked[k])
  }

  /** Takes the write lock, which recovers, and commits one transaction under the next ID. */
  method Transact<X(0)>(c: Catalog<Content<X>>, images: seq<Image<Content<X>>>)
    returns (outcome: Outcome, ghost decided: bool)
    requires Sound(c.disk)
    modifies c
    ensures Sound(c.disk)
    ensures !decided ==> Recovered(c.disk) == old(Recovered(c.disk))
    ensures outcome.Done? && images != [] ==> decided
    ensures decided <==> CommittedSince(old(c.written), c.written)
    ensures decided ==>
      var id := CurrentId(old(Recovered(c.disk)));
      id.Ok? && id.value < U64_MAX &&
      Recovered(c.disk) == CommittedFiles(old(Recovered(c.disk)), id.value + 1, images) &&
      CurrentId(Recovered(c.disk)) == Ok(id.value + 1)
  {
    decided := false;
    outcome := c.RecoverLocked();
    if outcome.Crashed? { return; }
    var id := CurrentId(c.disk.files);
    if id.Err? { return Refused, decided; }
    if images == [] { return Done, decided; }
    if id.value == U64_MAX { return Refused, decided; }
    var files := c.disk.files;
    outcome, decided := CommitAt(c, id.value + 1, ChangesFor(files, images));
    if decided {
      CommittedId(files, id.value + 1, images);
    }
  }

  /** Any number of transactions, each of which may crash anywhere, recovery included:
      the catalog is at all times one recovery away from exactly the decided ones, in order,
      and its ID counts them. */
  method Run<X(0)>(c: Catalog<Content<X>>, work: seq<seq<Image<Content<X>>>>)
    returns (ghost first: nat, ghost picked: seq<nat>, finished: set<nat>)
    requires Sound(c.disk) && CurrentId(Recovered(c.disk)).Ok?
    modifies c
    ensures Sound(c.disk)
    ensures first == CurrentId(old(Recovered(c.disk))).value
    ensures Increasing(picked, |work|)
    ensures first + |picked| <= U64_MAX
    ensures Recovered(c.disk) == Replay(old(Recovered(c.disk)), first + 1, Chosen(work, picked))
    ensures CurrentId(Recovered(c.disk)) == Ok(first + |picked|)
    ensures forall t :: t in finished && t < |work| && work[t] != [] ==> t in picked
  {
    hide CommittedFiles, CurrentId, Sound, Recovered, Replay;
    ghost var start := Recovered(c.disk);
    first, picked, finished := CurrentId(start).value, [], {};
    assert Chosen(work, picked) == [];
    ReplayNone(start, first + 1);
    for i := 0 to |work|
      invariant Sound(c.disk)
      invariant Increasing(picked, i)
      invariant first + |picked| <= U64_MAX
      invariant Recovered(c.disk) == Replay(start, first + 1, Chosen(work, picked))
      invariant CurrentId(Recovered(c.disk)) == Ok(first + |picked|)
      invariant forall t :: t in finished && t < |work| && work[t] != [] ==> t in picked
    {
      var outcome;
      ghost var decided;
      outcome, decided := Transact(c, work[i]);
      if decided {
        ghost var was := picked;
        picked := picked + [i];
        assert Chosen(work, picked) == Chosen(work, was) + [work[i]];
        ReplayOne(start, first + 1, Chosen(work, was), work[i]);
      }
      if outcome.Done? {
        finished := finished + {i};
      }
    }
  }
}
