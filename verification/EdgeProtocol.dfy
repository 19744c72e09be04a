/** The manifest, the intent log and the decisions that commit and recovery take from them. */
module EdgeProtocol {
  import opened Base
  import opened EdgePages

  /** `root` is the generation whose page root the manifest names. */
  datatype Manifest = Manifest(generation: nat, root: nat, walHead: nat, history: seq<nat>)
  datatype PendingCommit = PendingCommit(baseGeneration: Option<nat>, targetGeneration: nat, root: nat, walHead: nat,
                                         pageManifest: PageManifest)

  /** One table namespace: the manifest object, and the objects under `wal/`,
      `snapshots/` and `pages/`. */
  datatype Store = Store(manifest: Option<Manifest>, wal: map<nat, PendingCommit>, roots: map<nat, PageManifest>,
                         pages: Pages)

  /** A table together with its encoded snapshot. */
  datatype Table = Table(generation: nat, snapshot: Bytes)

  /** What encoding within the limits guarantees of a table. */
  ghost predicate EncodedTable(t: Table)
  {
    0 < |t.snapshot| <= MAX_FILE_SIZE && DecodedGeneration(t.snapshot) == Some(t.generation)
  }

  function GenerationOf(current: Option<Manifest>): Option<nat>
  {
    if current.Some? then Some(current.value.generation) else None
  }

  predicate Increasing(h: seq<nat>)
  {
    forall i, j :: 0 <= i < j < |h| ==> h[i] < h[j]
  }

  /** `Manifest::validate` together with `validate_manifest_root`. */
  predicate ValidManifest(m: Manifest)
  {
    m.root == m.generation && (m.history != [] ==> Increasing(m.history) && m.history[|m.history| - 1] == m.generation)
  }

  function ManifestHistory(m: Manifest): seq<nat>
  {
    if m.history == [] then [m.generation] else m.history
  }

  /** `history_with_generation`, then `Manifest::to_bytes` on the result. */
  function NextManifest(current: Option<Manifest>, generation: nat, root: nat, walHead: nat)
    : (r: Result<Manifest, StoreError>)
    ensures r.Ok? ==> ValidManifest(r.value) && r.value.generation == generation
    ensures r.Ok? && current.Some? && ValidManifest(current.value) ==> current.value.generation < generation
  {
    var history := if current.None? then [] else ManifestHistory(current.value);
    if history != [] && generation <= history[|history| - 1] then Err(Invalid)
    else
      var m := Manifest(generation, root, walHead, history + [generation]);
      if ValidManifest(m) then Ok(m) else Err(Invalid)
  }

  /** `put_if_absent`: false stands for the conflict with different bytes. */
  function PutIfAbsent<K, V(==)>(objects: map<K, V>, key: K, value: V): (r: (bool, map<K, V>))
    ensures Sub(objects, r.1) && (r.0 <==> key in r.1 && r.1[key] == value)
  {
    if key !in objects then (true, objects[key := value]) else (objects[key] == value, objects)
  }

  /** `PendingCommit::validate` and `validate_pending` for the intent stored under `wal/key`. */
  predicate ValidPending(key: nat, p: PendingCommit)
  {
    p.targetGeneration == key && p.root == key &&
    (p.baseGeneration.Some? ==> p.baseGeneration.value < p.targetGeneration) &&
    ValidPageManifest(p.pageManifest, p.targetGeneration, U64_MAX)
  }

  /** What recovery does with a complete intent, given the manifest it reads. */
  datatype Decision = AlreadyCurrent | Superseded | Advance | NoLongerFollows

  function Decide(current: Option<Manifest>, p: PendingCommit): Decision
  {
    if current.Some? && current.value.generation == p.targetGeneration && current.value.root == p.root
    then AlreadyCurrent
    else
      var generation := GenerationOf(current);
      if generation == p.baseGeneration then Advance
      else if generation.Some? && (p.baseGeneration.None? || generation.value > p.baseGeneration.value) then Superseded
      else NoLongerFollows
  }

  /** `read_pending_snapshot`: whether everything the intent promised is published. */
  function ReadPending(s: Store, p: PendingCommit): Result<bool, StoreError>
  {
    if p.root !in s.roots then Ok(false)
    else if s.roots[p.root] != p.pageManifest then Err(Invalid)
    else match ReadSnapshot(s.roots, s.pages, p.root)
      case Err(Missing) => Ok(false)
      case Err(e) => Err(e)
      case Ok(bytes) => if DecodedGeneration(bytes) == Some(p.targetGeneration) then Ok(true) else Err(Invalid)
  }

  /** `read_at` on a store no client is changing, without its initial recovery. */
  function ReadAt(s: Store, generation: nat): Result<Option<Bytes>, StoreError>
  {
    if s.manifest.None? then Ok(None)
    else if !ValidManifest(s.manifest.value) then Err(Invalid)
    else if generation !in ManifestHistory(s.manifest.value) || generation !in s.roots then Ok(None)
    else match ReadSnapshot(s.roots, s.pages, generation)
      case Err(e) => Err(e)
      case Ok(bytes) => if DecodedGeneration(bytes) == Some(generation) then Ok(Some(bytes)) else Err(Invalid)
  }

  predicate SortedByTarget(s: seq<PendingCommit>)
  {
    forall i, j :: 0 <= i < j < |s| ==> s[i].targetGeneration <= s[j].targetGeneration
  }

  function InsertByTarget(p: PendingCommit, s: seq<PendingCommit>): (r: seq<PendingCommit>)
    requires SortedByTarget(s)
    ensures SortedByTarget(r) && |r| == |s| + 1
    ensures forall x :: x in r <==> x == p || x in s
  {
    if s == [] || p.targetGeneration < s[0].targetGeneration then [p] + s
    else
      var rest := InsertByTarget(p, s[1..]);
      assert forall x :: x in s[1..] ==> s[0].targetGeneration <= x.targetGeneration;
      assert forall i :: 0 <= i < |rest| ==> rest[i] in rest && s[0].targetGeneration <= rest[i].targetGeneration;
      [s[0]] + rest
  }

  /** The order in which recovery replays the intents it found. */
  function SortByTarget(s: seq<PendingCommit>): (r: seq<PendingCommit>)
    ensures SortedByTarget(r) && |r| == |s|
    ensures forall x :: x in r <==> x in s
  {
    if s == [] then [] else InsertByTarget(s[0], SortByTarget(s[1..]))
  }
}
