/** Byte deltas between two images of a file, as the write-ahead log stores them. */
module ByteDelta {
  import opened Base
  import opened Binary

  datatype Patch = Patch(offset: nat, bytes: Bytes)
  datatype Delta = Delta(baseLength: nat, targetLength: nat, baseHash: u64, targetHash: u64, patches: seq<Patch>)

  datatype DeltaError = Mismatch | BadPatch | BadChecksum | Overflow | Truncated | Unreasonable

  /** The checksum; nothing below depends on which it is. */
  const DeltaHash: Bytes -> u64

  function End(p: Patch): nat { p.offset + |p.bytes| }

  ghost predicate Covered(patches: seq<Patch>, i: nat)
  {
    exists k :: 0 <= k < |patches| && patches[k].offset <= i < End(patches[k])
  }

  /** Patches that are non-empty, in order, disjoint and within `n` bytes. */
  ghost predicate Ordered(patches: seq<Patch>, n: nat)
  {
    (forall k :: 0 <= k < |patches| ==> patches[k].bytes != [] && End(patches[k]) <= n) &&
    (forall j, k :: 0 <= j < k < |patches| ==> End(patches[j]) <= patches[k].offset)
  }

  /** The patches hold the target's bytes, and exactly those that base lacks or has otherwise. */
  ghost predicate Rewrites(patches: seq<Patch>, base: Bytes, target: Bytes, n: nat)
    requires n <= |target|
  {
    Ordered(patches, n) &&
    (forall k :: 0 <= k < |patches| ==> patches[k].bytes == target[patches[k].offset..End(patches[k])]) &&
    (forall i: nat :: i < n ==> (Covered(patches, i) <==> i >= |base| || base[i] != target[i]))
  }

  /** What `New` promises of a delta. */
  ghost predicate IsDelta(d: Delta, base: Bytes, target: Bytes)
  {
    d.baseLength == |base| && d.targetLength == |target| &&
    d.baseHash == DeltaHash(base) && d.targetHash == DeltaHash(target) &&
    Rewrites(d.patches, base, target, |target|)
  }

  lemma RewritesMore(patches: seq<Patch>, base: Bytes, target: Bytes, n: nat, m: nat)
    requires n <= m <= |target| && Rewrites(patches, base, target, n)
    requires forall i :: n <= i < m ==> i < |base| && base[i] == target[i]
    ensures Rewrites(patches, base, target, m)
  {
  }

  lemma RewritesPatch(patches: seq<Patch>, base: Bytes, target: Bytes, n: nat, m: nat)
    requires n < m <= |target| && Rewrites(patches, base, target, n)
    requires forall i :: n <= i < m ==> i >= |base| || base[i] != target[i]
    ensures Rewrites(patches + [Patch(n, target[n..m])], base, target, m)
  {
    var all := patches + [Patch(n, target[n..m])];
    forall i: nat | i < m ensures Covered(all, i) <==> i >= |base| || base[i] != target[i] {
      if i < n {
        if Covered(patches, i) {
          var k :| 0 <= k < |patches| && patches[k].offset <= i < End(patches[k]);
          assert all[k].offset <= i < End(all[k]);
        }
      } else {
        assert all[|patches|].offset <= i < End(all[|patches|]);
      }
    }
  }

  /** Compares two images and collects the runs that differ. */
  method New(base: Bytes, target: Bytes) returns (d: Delta)
    ensures IsDelta(d, base, target)
  {
    var common := Min(|base|, |target|);
    var patches: seq<Patch> := [];
    var offset := 0;
    while offset < common
      invariant 0 <= offset <= common
      invariant Rewrites(patches, base, target, offset)
    {
      if base[offset] == target[offset] {
        RewritesMore(patches, base, target, offset, offset + 1);
        offset := offset + 1;
        continue;
      }
      var start := offset;
      offset := offset + 1;
      while offset < common && base[offset] != target[offset]
        invariant start < offset <= common
        invariant forall i :: start <= i < offset ==> base[i] != target[i]
      {
        offset := offset + 1;
      }
      RewritesPatch(patches, base, target, start, offset);
      patches := patches + [Patch(start, target[start..offset])];
    }
    if |target| > common {
      RewritesPatch(patches, base, target, common, |target|);
      assert target[common..|target|] == target[common..];
      patches := patches + [Patch(common, target[common..])];
    }
    return Delta(|base|, |target|, DeltaHash(base), DeltaHash(target), patches);
  }

  // ---- Applying a delta ----

  /** `current` cut or filled up with zeroes to `n` bytes. */
  function Resized(current: Bytes, n: nat): (r: Bytes)
    ensures |r| == n
  {
    if |current| >= n then current[..n] else current + seq(n - |current|, _ => 0)
  }

  function Overwrite(output: Bytes, p: Patch): (r: Bytes)
    requires End(p) <= |output|
    ensures |r| == |output|
    ensures forall i :: 0 <= i < |output| ==>
      r[i] == if p.offset <= i < End(p) then p.bytes[i - p.offset] else output[i]
  {
    output[..p.offset] + p.bytes + output[End(p)..]
  }

  /** A delta can tell the two images apart, if they differ at all. */
  predicate Apart(base: Bytes, target: Bytes)
  {
    base == target || |base| != |target| || DeltaHash(base) != DeltaHash(target)
  }

  function ImageHash(i: nat): nat { DeltaHash(ToLe(i, 9)) }

  /** The hashes of the first `k` numbers as nine-byte images. */
  function ImageHashes(k: nat): set<nat>
  {
    if k == 0 then {} else ImageHashes(k - 1) + {ImageHash(k - 1)}
  }

  lemma {:induction false} HashesDiffer(k: nat)
    requires forall i: nat, j: nat :: i < j < k ==> ImageHash(i) != ImageHash(j)
    ensures |ImageHashes(k)| == k
    ensures forall h :: h in ImageHashes(k) ==> h <= U64_MAX && exists i: nat :: i < k && ImageHash(i) == h
  {
    hide ToLe;
    if k > 0 {
      HashesDiffer(k - 1);
      assert ImageHash(k - 1) !in ImageHashes(k - 1);
      assert ImageHash(k - 1) <= U64_MAX;
    }
  }

  lemma {:induction false} BoundedSet(s: set<nat>, n: nat)
    requires forall x :: x in s ==> x < n
    ensures |s| <= n
  {
    if n > 0 {
      BoundedSet(s - {n - 1}, n - 1);
    } else {
      assert s == {};
    }
  }

  /** No hash of 64 bits tells all images apart: two of nine bytes collide. */
  lemma TwoImagesCollide()
    ensures exists base, target :: |base| == |target| == 9 && !Apart(base, target)
  {
    if forall i: nat, j: nat :: i < j < U64_MAX + 2 ==> ImageHash(i) != ImageHash(j) {
      HashesDiffer(U64_MAX + 2);
      BoundedSet(ImageHashes(U64_MAX + 2), U64_MAX + 1);
      assert false;
    }
    var i: nat, j: nat :| i < j < U64_MAX + 2 && ImageHash(i) == ImageHash(j);
    PowWidths();
    assert Pow256(9) == 256 * Pow256(8);
    LeRoundTrip(i, 9);
    LeRoundTrip(j, 9);
    assert !Apart(ToLe(i, 9), ToLe(j, 9));
  }

  /** Applies a delta to its base, or to its target when it has been applied already. */
  method Apply(current: Bytes, d: Delta, ghost target: Bytes) returns (r: Result<Bytes, DeltaError>)
    ensures |current| == d.targetLength && DeltaHash(current) == d.targetHash ==> r == Ok(current)
    ensures r.Ok? ==> DeltaHash(r.value) == d.targetHash && |r.value| == d.targetLength
    ensures |current| != d.targetLength || DeltaHash(current) != d.targetHash ==>
      |current| != d.baseLength || DeltaHash(current) != d.baseHash ==> r == Err(Mismatch)
    ensures IsDelta(d, current, target) ==> (r == Ok(target) <==> Apart(current, target))
  {
    hide Rewrites;
    if |current| == d.targetLength && DeltaHash(current) == d.targetHash {
      return Ok(current);
    }
    if |current| != d.baseLength || DeltaHash(current) != d.baseHash {
      return Err(Mismatch);
    }
    r := ApplyPatches(current, d, target);
    if r.Ok? && DeltaHash(r.value) != d.targetHash {
      return Err(BadChecksum);
    }
  }

  method ApplyPatches(current: Bytes, d: Delta, ghost target: Bytes) returns (r: Result<Bytes, DeltaError>)
    ensures IsDelta(d, current, target) ==> r == Ok(target)
    ensures r.Ok? ==> |r.value| == d.targetLength
  {
    ghost var good := IsDelta(d, current, target);
    var output := Resized(current, d.targetLength);
    ghost var start := output;
    var previousEnd := 0;
    for k := 0 to |d.patches|
      invariant |output| == d.targetLength
      invariant previousEnd == if k == 0 then 0 else End(d.patches[k - 1])
      invariant good ==> Patched(d.patches[..k], start, target, output)
    {
      var p := d.patches[k];
      if p.bytes == [] || p.offset < previousEnd || End(p) > |output| {
        return Err(BadPatch);
      }
      if good {
        PatchedNext(d.patches, k, start, target, output);
      }
      output := Overwrite(output, p);
      previousEnd := End(p);
    }
    if good {
      assert d.patches[..|d.patches|] == d.patches;
      AllPatched(d.patches, current, target, output);
    }
    return Ok(output);
  }

  /** Where a patch has been written the output is the target, elsewhere what it was. */
  ghost predicate Patched(done: seq<Patch>, start: Bytes, target: Bytes, output: Bytes)
  {
    |output| == |target| == |start| &&
    forall i: nat :: i < |target| ==> output[i] == if Covered(done, i) then target[i] else start[i]
  }

  lemma PatchedNext(patches: seq<Patch>, k: nat, start: Bytes, target: Bytes, output: Bytes)
    requires k < |patches| && Patched(patches[..k], start, target, output) && End(patches[k]) <= |target|
    requires patches[k].bytes == target[patches[k].offset..End(patches[k])]
    ensures Patched(patches[..k + 1], start, target, Overwrite(output, patches[k]))
  {
    var p := patches[k];
    forall i: nat | i < |target|
      ensures Covered(patches[..k + 1], i) <==> Covered(patches[..k], i) || p.offset <= i < End(p)
    {
      if p.offset <= i < End(p) {
        assert patches[..k + 1][k].offset <= i < End(patches[..k + 1][k]);
      } else if Covered(patches[..k], i) {
        var j :| 0 <= j < k && patches[..k][j].offset <= i < End(patches[..k][j]);
        assert patches[..k + 1][j].offset <= i < End(patches[..k + 1][j]);
      }
    }
  }

  lemma AllPatched(patches: seq<Patch>, base: Bytes, target: Bytes, output: Bytes)
    requires Rewrites(patches, base, target, |target|)
    requires Patched(patches, Resized(base, |target|), target, output)
    ensures output == target
  {
    forall i: nat | i < |target| ensures output[i] == target[i] {
      assert Covered(patches, i) <==> i >= |base| || base[i] != target[i];
    }
  }

  // ---- The stored form ----

  function EncodePatches(patches: seq<Patch>): Bytes
  {
    if patches == [] then []
    else
      ToLe(patches[0].offset, 8) + ToLe(|patches[0].bytes|, 4) + patches[0].bytes + EncodePatches(patches[1..])
  }

  function EncodeHeader(d: Delta): (r: Bytes)
    ensures |r| == 36
  {
    ToLe(d.baseLength, 8) + ToLe(d.targetLength, 8) + ToLe(d.baseHash, 8) + ToLe(d.targetHash, 8) + ToLe(|d.patches|, 4)
  }

  function Encoded(d: Delta): Bytes { EncodeHeader(d) + EncodePatches(d.patches) }

  /** The widths that the stored form has room for. */
  predicate Fits(d: Delta)
  {
    d.baseLength <= U64_MAX && d.targetLength <= U64_MAX && |d.patches| <= U32_MAX &&
    forall k :: 0 <= k < |d.patches| ==> d.patches[k].offset <= U64_MAX && |d.patches[k].bytes| <= U32_MAX
  }

  method Encode(payload: Bytes, d: Delta) returns (r: Result<Bytes, DeltaError>)
    requires d.baseLength <= U64_MAX && d.targetLength <= U64_MAX
    ensures r == if Fits(d) then Ok(payload + Encoded(d)) else Err(Overflow)
  {
    hide ToLe;
    if |d.patches| > U32_MAX {
      return Err(Overflow);
    }
    var out := payload + EncodeHeader(d);
    assert d.patches[0..] == d.patches;
    for k := 0 to |d.patches|
      invariant out + EncodePatches(d.patches[k..]) == payload + Encoded(d)
      invariant forall j :: 0 <= j < k ==> d.patches[j].offset <= U64_MAX && |d.patches[j].bytes| <= U32_MAX
    {
      var p := d.patches[k];
      if p.offset > U64_MAX || |p.bytes| > U32_MAX {
        return Err(Overflow);
      }
      assert d.patches[k..][1..] == d.patches[k + 1..];
      var patch := ToLe(p.offset, 8) + ToLe(|p.bytes|, 4) + p.bytes;
      assert out + (patch + EncodePatches(d.patches[k + 1..])) == (out + patch) + EncodePatches(d.patches[k + 1..]);
      out := out + patch;
    }
    assert d.patches[|d.patches|..] == [] && out + [] == out;
    return Ok(out);
  }

  datatype Parsed<T> = Parsed(value: T, rest: Bytes)

  function TakeBytes(b: Bytes, n: nat): Result<Parsed<Bytes>, DeltaError>
  {
    if n > |b| then Err(Truncated) else Ok(Parsed(b[..n], b[n..]))
  }

  function TakeLe(b: Bytes, k: nat): Result<Parsed<nat>, DeltaError>
  {
    if k > |b| then Err(Truncated) else Ok(Parsed(FromLe(b[..k]), b[k..]))
  }

  function ParsePatches(b: Bytes, n: nat): Result<Parsed<seq<Patch>>, DeltaError>
    decreases n
  {
    if n == 0 then Ok(Parsed([], b))
    else
      var p := ParsePatch(b);
      if p.Err? then Err(p.error)
      else Prefixed([p.value.value], ParsePatches(p.value.rest, n - 1))
  }

  /** What was parsed before, with what comes after. */
  function Prefixed(done: seq<Patch>, more: Result<Parsed<seq<Patch>>, DeltaError>)
    : Result<Parsed<seq<Patch>>, DeltaError>
  {
    if more.Err? then more else Ok(Parsed(done + more.value.value, more.value.rest))
  }

  lemma PrefixedNone(more: Result<Parsed<seq<Patch>>, DeltaError>)
    ensures Prefixed([], more) == more
  {
    assert more.Ok? ==> [] + more.value.value == more.value.value;
  }

  lemma PrefixedNext(done: seq<Patch>, p: Patch, more: Result<Parsed<seq<Patch>>, DeltaError>)
    ensures Prefixed(done, Prefixed([p], more)) == Prefixed(done + [p], more)
  {
    assert more.Ok? ==> done + ([p] + more.value.value) == done + [p] + more.value.value;
  }

  function ParsePatch(b: Bytes): Result<Parsed<Patch>, DeltaError>
  {
    var offset := TakeLe(b, 8);
    if offset.Err? then Err(offset.error)
    else
      var length := TakeLe(offset.value.rest, 4);
      if length.Err? then Err(length.error)
      else
        var bytes := TakeBytes(length.value.rest, length.value.value);
        if bytes.Err? then Err(bytes.error)
        else Ok(Parsed(Patch(offset.value.value, bytes.value.value), bytes.value.rest))
  }

  function Parse(b: Bytes): Result<Parsed<Delta>, DeltaError>
  {
    if |b| < 36 then Err(Truncated)
    else
      LeWidth(b[16..24]); LeWidth(b[24..32]);
      var count := FromLe(b[32..36]);
      if count > (|b| - 36) / 12 then Err(Unreasonable)
      else
        var patches := ParsePatches(b[36..], count);
        if patches.Err? then Err(patches.error)
        else
          Ok(Parsed(Delta(FromLe(b[..8]), FromLe(b[8..16]), FromLe(b[16..24]), FromLe(b[24..32]), patches.value.value),
                    patches.value.rest))
  }

  lemma LeWidth(b: Bytes)
    ensures |b| == 8 ==> FromLe(b) <= U64_MAX
  {
    LeBytesRoundTrip(b);
    PowWidths();
  }

  lemma TakeLeRoundTrip(n: nat, k: nat, rest: Bytes)
    requires n < Pow256(k)
    ensures TakeLe(ToLe(n, k) + rest, k) == Ok(Parsed(n, rest))
  {
    LeRoundTrip(n, k);
    assert (ToLe(n, k) + rest)[..k] == ToLe(n, k) && (ToLe(n, k) + rest)[k..] == rest;
  }

  lemma ParsePatchRoundTrip(p: Patch, rest: Bytes)
    requires p.offset <= U64_MAX && |p.bytes| <= U32_MAX
    ensures ParsePatch(ToLe(p.offset, 8) + ToLe(|p.bytes|, 4) + p.bytes + rest) == Ok(Parsed(p, rest))
  {
    hide TakeLe, ToLe;
    PowWidths();
    var tail := ToLe(|p.bytes|, 4) + (p.bytes + rest);
    assert ToLe(p.offset, 8) + ToLe(|p.bytes|, 4) + p.bytes + rest == ToLe(p.offset, 8) + tail;
    TakeLeRoundTrip(p.offset, 8, tail);
    TakeLeRoundTrip(|p.bytes|, 4, p.bytes + rest);
    assert (p.bytes + rest)[..|p.bytes|] == p.bytes && (p.bytes + rest)[|p.bytes|..] == rest;
  }

  lemma {:induction false} ParsePatchesRoundTrip(patches: seq<Patch>, rest: Bytes)
    requires forall k :: 0 <= k < |patches| ==> patches[k].offset <= U64_MAX && |patches[k].bytes| <= U32_MAX
    ensures ParsePatches(EncodePatches(patches) + rest, |patches|) == Ok(Parsed(patches, rest))
    ensures |EncodePatches(patches)| >= 12 * |patches|
    decreases |patches|
  {
    hide ParsePatch, ToLe;
    if patches == [] {
      assert EncodePatches(patches) + rest == rest;
    } else {
      var p, more := patches[0], EncodePatches(patches[1..]) + rest;
      ParsePatchesRoundTrip(patches[1..], rest);
      ParsePatchRoundTrip(p, more);
      assert EncodePatches(patches) + rest == ToLe(p.offset, 8) + ToLe(|p.bytes|, 4) + p.bytes + more;
      assert patches == [p] + patches[1..];
    }
  }

  /** A stored delta reads back, whatever follows it. */
  lemma ParseRoundTrip(d: Delta, rest: Bytes)
    requires Fits(d)
    ensures Parse(Encoded(d) + rest) == Ok(Parsed(d, rest))
  {
    hide ParsePatches, ToLe, FromLe, EncodePatches, Pow256;
    var b := Encoded(d) + rest;
    PowWidths();
    LeRoundTrip(d.baseLength, 8);
    LeRoundTrip(d.targetLength, 8);
    LeRoundTrip(d.baseHash, 8);
    LeRoundTrip(d.targetHash, 8);
    LeRoundTrip(|d.patches|, 4);
    assert b[..8] == ToLe(d.baseLength, 8) && b[8..16] == ToLe(d.targetLength, 8);
    assert b[16..24] == ToLe(d.baseHash, 8) && b[24..32] == ToLe(d.targetHash, 8);
    assert b[32..36] == ToLe(|d.patches|, 4) && b[36..] == EncodePatches(d.patches) + rest;
    ParsePatchesRoundTrip(d.patches, rest);
  }

  /** Reads a delta at a cursor. */
  method Decode(payload: Bytes, cursor: nat) returns (r: Result<Delta, DeltaError>, next: nat)
    requires cursor <= |payload|
    ensures cursor <= next <= |payload|
    ensures Parse(payload[cursor..]) == if r.Ok? then Ok(Parsed(r.value, payload[next..])) else Err(r.error)
  {
    hide ToLe, FromLe, ParsePatch;
    next := cursor;
    var b := payload[cursor..];
    if |b| < 36 {
      return Err(Truncated), next;
    }
    LeWidth(b[16..24]);
    LeWidth(b[24..32]);
    var count := FromLe(b[32..36]);
    next := cursor + 36;
    if count > (|payload| - next) / 12 {
      return Err(Unreasonable), next;
    }
    ghost var whole := ParsePatches(b[36..], count);
    assert b[36..] == payload[next..];
    var patches: seq<Patch> := [];
    PrefixedNone(whole);
    for k := 0 to count
      invariant cursor <= next <= |payload|
      invariant whole == Prefixed(patches, ParsePatches(payload[next..], count - k))
    {
      var p := ParsePatch(payload[next..]);
      if p.Err? {
        return Err(p.error), next;
      }
      ParsePatchRest(payload[next..]);
      next := |payload| - |p.value.rest|;
      assert payload[next..] == p.value.rest;
      PrefixedNext(patches, p.value.value, ParsePatches(payload[next..], count - k - 1));
      patches := patches + [p.value.value];
    }
    assert patches + [] == patches;
    return Ok(Delta(FromLe(b[..8]), FromLe(b[8..16]), FromLe(b[16..24]), FromLe(b[24..32]), patches)), next;
  }

  lemma ParsePatchRest(b: Bytes)
    requires ParsePatch(b).Ok?
    ensures var rest := ParsePatch(b).value.rest; |rest| <= |b| && rest == b[|b| - |rest|..]
  {
  }

  /** From the comparison through the stored form to the file: a delta of any two images, decoded
      and applied to the first, gives the second whenever it can tell them apart, and applied to
      the second leaves it. */
  method RoundTrip(base: Bytes, target: Bytes) returns (r: Result<(Bytes, Bytes), DeltaError>)
    requires |base| <= U64_MAX && |target| <= U64_MAX
    ensures Apart(base, target) && r != Err(Overflow) ==> r == Ok((target, target))
    ensures r == Err(Overflow) ==> |target| > U32_MAX
  {
    hide IsDelta, Apart, Fits, Parse, Encoded;
    var d := New(base, target);
    DeltaFits(d, base, target);
    var encoded := Encode([], d);
    if encoded.Err? {
      return Err(Overflow);
    }
    assert encoded == Ok(Encoded(d)) by { assert [] + Encoded(d) == Encoded(d); }
    ParseRoundTrip(d, []);
    assert Encoded(d) + [] == Encoded(d) == Encoded(d)[0..];
    var decoded, _ := Decode(encoded.value, 0);
    var first := Apply(base, decoded.value, target);
    var second := Apply(target, decoded.value, target);
    if first.Err? || second.Err? {
      return Err(BadChecksum);
    }
    return Ok((first.value, second.value));
  }

  /** Patches are disjoint, so there are no more of them than bytes. */
  lemma DeltaFits(d: Delta, base: Bytes, target: Bytes)
    requires IsDelta(d, base, target) && |base| <= U64_MAX && |target| <= U64_MAX
    ensures d.baseLength <= U64_MAX && d.targetLength <= U64_MAX && (|target| <= U32_MAX ==> Fits(d))
    ensures |target| == d.targetLength && DeltaHash(target) == d.targetHash
  {
    PatchesFit(d.patches, |target|);
  }

  lemma {:induction false} PatchesFit(patches: seq<Patch>, n: nat)
    requires Ordered(patches, n)
    ensures |patches| <= n
    decreases |patches|
  {
    if patches != [] {
      var k := |patches| - 1;
      PatchesFit(patches[..k], patches[k].offset);
    }
  }
}
