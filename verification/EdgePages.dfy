/** Immutable page objects: a snapshot is cut into 4 MiB pages, and a page
    manifest (the root object of a generation) names where each page lives. */
module EdgePages {
  import opened Base

  const PAGE_SIZE: nat := 4194304
  const PAGE_MANIFEST_VERSION: nat := 1
  /** The file-size limit every client is configured with. */
  const MAX_FILE_SIZE: nat
  /** CRC-32C, of which nothing is assumed. */
  const Crc32c: Bytes -> nat
  /** The generation stored inside an encoded table, if the bytes decode. */
  const DecodedGeneration: Bytes -> Option<nat>

  datatype PageReference = PageReference(generation: nat, length: nat, crc32c: nat)
  datatype PageManifest = PageManifest(version: nat, generation: nat, snapshotLength: nat, pageSize: nat,
                                       pages: seq<PageReference>)

  /** Page objects by (generation that wrote them, page index). */
  type Pages = map<(nat, nat), Bytes>

  datatype StoreError = Invalid | Conflict | Missing

  /** Where page `k` starts in a snapshot of `n` bytes (or `n`, past its end). */
  function Bound(n: nat, k: nat): (b: nat)
    ensures b <= n
  {
    if k * 4194304 < n then k * 4194304 else n
  }

  function PageCount(n: nat): nat
  {
    n / 4194304 + (if n % 4194304 != 0 then 1 else 0)
  }

  lemma PageCountCovers(n: nat, k: nat)
    ensures k < PageCount(n) <==> Bound(n, k) < n
    ensures k < PageCount(n) ==> Bound(n, k) < Bound(n, k + 1) <= Bound(n, k) + PAGE_SIZE
    ensures k + 1 < PageCount(n) ==> Bound(n, k + 1) == Bound(n, k) + PAGE_SIZE
    ensures k + 1 == PageCount(n) ==> Bound(n, k + 1) == n
  {
  }

  /** Page `k` of `snapshot`, as `chunks(PAGE_SIZE)` yields it. */
  function Chunk(snapshot: Bytes, k: nat): Bytes
  {
    var n := |snapshot|;
    if Bound(n, k) <= Bound(n, k + 1) then snapshot[Bound(n, k)..Bound(n, k + 1)] else []
  }

  /** The bytes of the first `k` pages. */
  function Prefix(snapshot: Bytes, k: nat): Bytes
  {
    snapshot[..Bound(|snapshot|, k)]
  }

  lemma PrefixGrows(snapshot: Bytes, k: nat)
    ensures Prefix(snapshot, 0) == []
    ensures k < PageCount(|snapshot|) ==> Prefix(snapshot, k) + Chunk(snapshot, k) == Prefix(snapshot, k + 1)
    ensures k == PageCount(|snapshot|) ==> Prefix(snapshot, k) == snapshot
  {
    PageCountCovers(|snapshot|, k);
  }

  predicate ValidPageEntry(pm: PageManifest, index: nat)
    requires index < |pm.pages|
  {
    var page := pm.pages[index];
    page.length == (if index + 1 == |pm.pages| then pm.snapshotLength - PAGE_SIZE * index else PAGE_SIZE) &&
    page.generation <= pm.generation
  }

  /** `PageManifest::validate`. */
  predicate ValidPageManifest(pm: PageManifest, generation: nat, maxFileSize: nat)
  {
    pm.version == PAGE_MANIFEST_VERSION && pm.generation == generation && pm.pageSize == PAGE_SIZE &&
    0 < pm.snapshotLength <= maxFileSize && PageCount(pm.snapshotLength) == |pm.pages| &&
    forall index :: 0 <= index < |pm.pages| ==> ValidPageEntry(pm, index)
  }

  /** One entry of `make_manifest`: the page's length and checksum, and a
      generation not newer than the manifest's own. */
  predicate EntryFor(page: PageReference, snapshot: Bytes, index: nat, generation: nat)
  {
    page.length == |Chunk(snapshot, index)| && page.crc32c == Crc32c(Chunk(snapshot, index)) &&
    page.generation <= generation
  }

  /** `pm` is a manifest that `make_manifest` can build for `snapshot`. */
  ghost predicate Describes(pm: PageManifest, generation: nat, snapshot: Bytes)
  {
    pm.version == PAGE_MANIFEST_VERSION && pm.generation == generation && pm.pageSize == PAGE_SIZE &&
    pm.snapshotLength == |snapshot| && |pm.pages| == PageCount(|snapshot|) &&
    forall index :: 0 <= index < |pm.pages| ==> EntryFor(pm.pages[index], snapshot, index, generation)
  }

  /** What a writer builds, every reader's validation accepts. */
  lemma DescribedManifestIsValid(pm: PageManifest, generation: nat, snapshot: Bytes, limit: nat)
    requires Describes(pm, generation, snapshot) && 0 < |snapshot| <= limit
    ensures ValidPageManifest(pm, generation, limit)
  {
    forall index | 0 <= index < |pm.pages|
      ensures ValidPageEntry(pm, index)
    {
      PageCountCovers(|snapshot|, index);
      assert EntryFor(pm.pages[index], snapshot, index, generation);
    }
  }

  predicate PageHolds(pages: Pages, pm: PageManifest, snapshot: Bytes, index: nat)
    requires index < |pm.pages|
  {
    var key := (pm.pages[index].generation, index);
    key in pages && pages[key] == Chunk(snapshot, index)
  }

  /** The objects of one generation are all there, with the bytes of `snapshot`. */
  ghost predicate Readable(pages: Pages, pm: PageManifest, generation: nat, snapshot: Bytes)
  {
    Describes(pm, generation, snapshot) &&
    forall index :: 0 <= index < |pm.pages| ==> PageHolds(pages, pm, snapshot, index)
  }

  /** `read_page` on a page the manifest names. */
  function ReadPage(pages: Pages, pm: PageManifest, index: nat): Result<Bytes, StoreError>
    requires index < |pm.pages|
  {
    var page := pm.pages[index];
    if (page.generation, index) !in pages then Err(Missing)
    else
      var bytes := pages[(page.generation, index)];
      if |bytes| != page.length || Crc32c(bytes) != page.crc32c then Err(Invalid) else Ok(bytes)
  }

  function ReadPagesFrom(pages: Pages, pm: PageManifest, index: nat): Result<Bytes, StoreError>
    requires index <= |pm.pages|
    decreases |pm.pages| - index
  {
    if index == |pm.pages| then Ok([])
    else match ReadPage(pages, pm, index)
      case Err(e) => Err(e)
      case Ok(bytes) =>
        match ReadPagesFrom(pages, pm, index + 1)
        case Err(e) => Err(e)
        case Ok(rest) => Ok(bytes + rest)
  }

  /** `read_snapshot_bytes` for a page root. */
  function ReadSnapshot(roots: map<nat, PageManifest>, pages: Pages, generation: nat): Result<Bytes, StoreError>
  {
    if generation !in roots then Err(Missing)
    else
      var pm := roots[generation];
      if !ValidPageManifest(pm, generation, MAX_FILE_SIZE) then Err(Invalid)
      else match ReadPagesFrom(pages, pm, 0)
        case Err(e) => Err(e)
        case Ok(bytes) => if |bytes| != pm.snapshotLength then Err(Invalid) else Ok(bytes)
  }

  lemma {:induction false} ReadPagesYieldsRest(pages: Pages, pm: PageManifest, generation: nat, snapshot: Bytes,
                                               index: nat)
    requires Readable(pages, pm, generation, snapshot) && index <= |pm.pages|
    ensures ReadPagesFrom(pages, pm, index).Ok?
    ensures Prefix(snapshot, index) + ReadPagesFrom(pages, pm, index).value == snapshot
    decreases |pm.pages| - index
  {
    hide Bound, Chunk, Prefix, PageCount;
    PrefixGrows(snapshot, index);
    if index < |pm.pages| {
      assert PageHolds(pages, pm, snapshot, index);
      assert EntryFor(pm.pages[index], snapshot, index, generation);
      ReadPagesYieldsRest(pages, pm, generation, snapshot, index + 1);
      var rest := ReadPagesFrom(pages, pm, index + 1).value;
      assert Prefix(snapshot, index) + (Chunk(snapshot, index) + rest) == Prefix(snapshot, index + 1) + rest;
    }
  }

  /** Reading a generation whose objects are present gives back exactly the
      snapshot they were cut from. */
  lemma ReadableReads(roots: map<nat, PageManifest>, pages: Pages, generation: nat, snapshot: Bytes)
    requires generation in roots && Readable(pages, roots[generation], generation, snapshot)
    requires 0 < |snapshot| <= MAX_FILE_SIZE
    ensures ReadSnapshot(roots, pages, generation) == Ok(snapshot)
  {
    DescribedManifestIsValid(roots[generation], generation, snapshot, MAX_FILE_SIZE);
    ReadPagesYieldsRest(pages, roots[generation], generation, snapshot, 0);
    PrefixGrows(snapshot, 0);
    var bytes := ReadPagesFrom(pages, roots[generation], 0).value;
    assert [] + bytes == bytes;
  }
}
