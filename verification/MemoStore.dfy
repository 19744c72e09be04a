/** Memo sidecar files: blocks of text or bytes named by number. */
module MemoStore {
  import opened Base
  import opened Binary

  datatype Format = Dbase3 | Dbase4 | FoxPro
  datatype MemoError = BadHeader | Outside | TruncatedMemo | BadLength | HasMarker | TooLong | BlockOverflow

  const DBT_BLOCK_SIZE: nat := 512
  const EOF_MARKER: byte := 0x1a
  const SPACE: byte := 0x20

  // ---- Opening ----

  /** The block size that a header states. */
  function BlockSizeOf(bytes: Bytes, format: Format): Result<nat, MemoError>
  {
    match format
    case FoxPro =>
      if |bytes| < 8 then Err(BadHeader)
      else
        var size := FromBe(bytes[6..8]);
        if size < 8 || |bytes| < size then Err(BadHeader) else Ok(size)
    case Dbase3 => if |bytes| < DBT_BLOCK_SIZE then Err(BadHeader) else Ok(DBT_BLOCK_SIZE)
    case Dbase4 =>
      if |bytes| < DBT_BLOCK_SIZE then Err(BadHeader)
      else
        var stated := FromLe(bytes[20..22]);
        var size := if stated == 0 then DBT_BLOCK_SIZE else stated;
        if size < DBT_BLOCK_SIZE || size % DBT_BLOCK_SIZE != 0 || |bytes| < size then Err(BadHeader) else Ok(size)
  }

  // ---- Reading ----

  /** Where the two-byte end marker first occurs. */
  function FirstPair(data: Bytes): Option<nat>
  {
    if |data| < 2 then None
    else if data[0] == EOF_MARKER && data[1] == EOF_MARKER then Some(0)
    else
      var later := FirstPair(data[1..]);
      if later.Some? then Some(later.value + 1) else None
  }

  /** A single end marker followed by nothing but filling. */
  function LoneMarker(data: Bytes): Option<nat>
  {
    if data == [] then None
    else if data[0] == EOF_MARKER then
      if forall i :: 1 <= i < |data| ==> data[i] in {0, SPACE, EOF_MARKER} then Some(0) else None
    else
      var later := LoneMarker(data[1..]);
      if later.Some? then Some(later.value + 1) else None
  }

  lemma {:induction false} MarkersInside(data: Bytes)
    ensures FirstPair(data).Some? ==> FirstPair(data).value + 2 <= |data|
    ensures LoneMarker(data).Some? ==> LoneMarker(data).value < |data|
    decreases |data|
  {
    if data != [] {
      MarkersInside(data[1..]);
    }
  }

  function Terminated(data: Bytes): Bytes
  {
    MarkersInside(data);
    var pair := FirstPair(data);
    if pair.Some? then data[..pair.value]
    else
      var lone := LoneMarker(data);
      if lone.Some? then data[..lone.value] else data
  }

  function Read(bytes: Bytes, size: nat, format: Format, block: nat): Result<Option<Bytes>, MemoError>
  {
    var start := block * size;
    if block == 0 then Ok(None)
    else if start >= |bytes| then Err(Outside)
    else
      var data := bytes[start..];
      if format.Dbase3? then Ok(Some(Terminated(data)))
      else if |data| < 8 then Err(TruncatedMemo)
      else
        var stated := if format.Dbase4? then FromLe(data[4..8]) else FromBe(data[4..8]);
        if format.Dbase4? && stated < 8 then Err(BadLength)
        else
          var end := if format.Dbase4? then stated else 8 + stated;
          if end > |data| then Err(TruncatedMemo) else Ok(Some(data[8..end]))
  }

  // ---- What appending stores ----

  /** The bytes that a memo takes before filling. */
  function Framed(format: Format, binary: bool, data: Bytes): Bytes
  {
    match format
    case Dbase3 => data + [EOF_MARKER, EOF_MARKER]
    case Dbase4 => [0xff, 0xff, 0x08, 0x00] + ToLe(|data| + 8, 4) + data
    case FoxPro => ToBe(if binary then 0 else 1, 4) + ToBe(|data|, 4) + data
  }

  /** What a format can hold: dBASE III text has no marker, and its binary data none that could be
      taken for the end. */
  predicate Storable(format: Format, binary: bool, data: Bytes)
  {
    match format
    case Dbase3 =>
      if binary then
        |data| <= U32_MAX && (data != [] ==> data[|data| - 1] != EOF_MARKER) && FirstPair(data) == None
      else EOF_MARKER !in data
    case Dbase4 => |data| + 8 <= U32_MAX
    case FoxPro => |data| <= U32_MAX
  }

  /** The block holds these bytes, whatever comes after them. */
  predicate Stores(bytes: Bytes, size: nat, block: nat, framed: Bytes)
  {
    block > 0 && block * size + |framed| <= |bytes| && bytes[block * size..block * size + |framed|] == framed
  }

  lemma {:induction false} FirstPairEnds(data: Bytes, rest: Bytes)
    requires FirstPair(data) == None && (data != [] ==> data[|data| - 1] != EOF_MARKER)
    ensures FirstPair(data + [EOF_MARKER, EOF_MARKER] + rest) == Some(|data|)
    decreases |data|
  {
    var all := data + [EOF_MARKER, EOF_MARKER] + rest;
    if data != [] {
      FirstPairEnds(data[1..], rest);
      assert all[1..] == data[1..] + [EOF_MARKER, EOF_MARKER] + rest;
    }
  }

  lemma {:induction false} NoMarkerNoPair(data: Bytes)
    requires EOF_MARKER !in data
    ensures FirstPair(data) == None
    decreases |data|
  {
    if data != [] {
      NoMarkerNoPair(data[1..]);
    }
  }

  /** A block that holds a memo reads as that memo. */
  lemma StoredReads(bytes: Bytes, size: nat, format: Format, binary: bool, block: nat, data: Bytes)
    requires size > 0 && Storable(format, binary, data) && Stores(bytes, size, block, Framed(format, binary, data))
    ensures Read(bytes, size, format, block) == Ok(Some(data))
  {
    hide ToLe, ToBe, FromLe, FromBe, FirstPair;
    var framed := Framed(format, binary, data);
    var at := block * size;
    var all := bytes[at..];
    assert all[..|framed|] == bytes[at..at + |framed|];
    assert all == framed + all[|framed|..];
    assert framed != [] && block * size < |bytes|;
    PowWidths();
    match format
    case Dbase3 =>
      if !binary {
        NoMarkerNoPair(data);
        assert data != [] ==> data[|data| - 1] in data;
      }
      FirstPairEnds(data, all[|framed|..]);
      assert all == data + [EOF_MARKER, EOF_MARKER] + all[|framed|..];
      assert all[..|data|] == data;
    case Dbase4 =>
      LeRoundTrip(|data| + 8, 4);
      assert all[4..8] == ToLe(|data| + 8, 4);
      assert all[8..|data| + 8] == data;
    case FoxPro =>
      BeRoundTrip(|data|, 4);
      assert all[4..8] == ToBe(|data|, 4);
      assert all[8..|data| + 8] == data;
  }

  function Blocks(length: nat, size: nat): nat
    requires size > 0
  {
    length / size + if length % size != 0 then 1 else 0
  }

  lemma BlocksCover(length: nat, size: nat)
    requires size > 0
    ensures Blocks(length, size) * size >= length && Blocks(length, size) * size < length + size
    ensures length > 0 ==> Blocks(length, size) > 0
    ensures length >= size ==> Blocks(length, size) >= 1
  {
    assert length == (length / size) * size + length % size;
  }

  function Fill(b: byte, n: nat): (r: Bytes)
    ensures |r| == n
  {
    seq(n, _ => b)
  }

  function HeaderBytes(format: Format, next: nat): (r: Bytes)
    ensures |r| == 4
  {
    if format.Dbase4? then ToLe(next, 4) else ToBe(next, 4)
  }

  /** The next free block that a header names. */
  function NextBlock(bytes: Bytes, format: Format): nat
    requires |bytes| >= 4
  {
    if format.Dbase4? then FromLe(bytes[..4]) else FromBe(bytes[..4])
  }

  /** A whole number of blocks: zeroes after what is there, then the memo, then its filling. */
  function Extended(bytes: Bytes, size: nat, format: Format, framed: Bytes): Bytes
    requires size > 0
  {
    BlocksCover(|bytes|, size);
    BlocksCover(|framed|, size);
    var pad: byte := if format.FoxPro? then 0 else SPACE;
    bytes + Fill(0, Blocks(|bytes|, size) * size - |bytes|) +
    framed + Fill(pad, Blocks(|framed|, size) * size - |framed|)
  }

  /** The file after a memo is appended: extended, and its header pointing past the end. */
  function Appended(bytes: Bytes, size: nat, format: Format, framed: Bytes): Bytes
    requires size > 0 && |bytes| >= 4
  {
    HeaderBytes(format, Blocks(|bytes|, size) + Blocks(|framed|, size)) + Extended(bytes, size, format, framed)[4..]
  }

  /** The new memo is where the file used to end, every old one is where it was, and the header names
      the block after the new end. */
  lemma AppendedStores(bytes: Bytes, size: nat, format: Format, framed: Bytes)
    requires size >= 4 && |bytes| >= size && framed != []
    ensures var all, first := Appended(bytes, size, format, framed), Blocks(|bytes|, size);
            var last := first + Blocks(|framed|, size);
            |all| == last * size && 0 < first < last && |bytes| <= first * size &&
            Stores(all, size, first, framed) && first * size + |framed| <= last * size &&
            (last <= U32_MAX ==> NextBlock(all, format) == last)
  {
    hide Appended, NextBlock;
    BlocksCover(|bytes|, size);
    BlocksCover(|framed|, size);
    var first, count := Blocks(|bytes|, size), Blocks(|framed|, size);
    Grows(first, size);
    assert (first + count) * size == first * size + count * size;
    AppendedShape(bytes, size, format, framed, first * size, count * size, first + count);
  }

  /** The same in bytes. */
  lemma AppendedShape(bytes: Bytes, size: nat, format: Format, framed: Bytes, at: nat, room: nat, next: nat)
    requires size > 0 && 4 <= |bytes| <= at && |framed| <= room
    requires at == Blocks(|bytes|, size) * size && room == Blocks(|framed|, size) * size
    requires next == Blocks(|bytes|, size) + Blocks(|framed|, size)
    ensures var all := Appended(bytes, size, format, framed);
            |all| == at + room && all[at..at + |framed|] == framed &&
            (next <= U32_MAX ==> NextBlock(all, format) == next)
  {
    hide ToLe, ToBe, FromLe, FromBe, Blocks;
    var all := Appended(bytes, size, format, framed);
    var head, tail := bytes + Fill(0, at - |bytes|), Fill(if format.FoxPro? then 0 else SPACE, room - |framed|);
    assert Extended(bytes, size, format, framed) == head + framed + tail;
    assert all[at..at + |framed|] == (head + framed + tail)[at..at + |framed|] == framed;
    PowWidths();
    if next <= U32_MAX {
      LeRoundTrip(next, 4);
      BeRoundTrip(next, 4);
      assert all[..4] == HeaderBytes(format, next);
    }
  }

  /** Only the first four bytes of what was there may have changed. */
  ghost predicate Grown(before: Bytes, after: Bytes)
  {
    4 <= |before| <= |after| && after[4..|before|] == before[4..]
  }

  lemma AppendedGrows(bytes: Bytes, size: nat, format: Format, framed: Bytes)
    requires size > 0 && |bytes| >= 4
    ensures Grown(bytes, Extended(bytes, size, format, framed)) && Grown(bytes, Appended(bytes, size, format, framed))
  {
    hide ToLe, ToBe;
    var wide, all := Extended(bytes, size, format, framed), Appended(bytes, size, format, framed);
    assert wide[..|bytes|] == bytes;
    assert all[4..|bytes|] == wide[4..|bytes|] == wide[..|bytes|][4..];
  }

  /** A memo outside the header stays. */
  lemma StoresKept(before: Bytes, after: Bytes, size: nat, block: nat, framed: Bytes)
    requires size >= 4 && Grown(before, after) && Stores(before, size, block, framed)
    ensures Stores(after, size, block, framed)
  {
    Grows(block, size);
    var at, end := block * size, block * size + |framed|;
    SubSlice(before, 4, |before|, at - 4, end - 4);
    SubSlice(after, 4, |before|, at - 4, end - 4);
    assert before[4..|before|] == before[4..];
  }

  lemma SubSlice(b: Bytes, i: nat, j: nat, k: nat, l: nat)
    requires i <= j <= |b| && k <= l <= j - i
    ensures b[i..j][k..l] == b[i + k..i + l]
  {
    var x, y := b[i..j][k..l], b[i + k..i + l];
    forall n | 0 <= n < l - k ensures x[n] == y[n] {
      assert x[n] == b[i..j][k + n] == b[i + (k + n)] == y[n];
    }
    assert x == y;
  }

  class MemoFile {
    var bytes: Bytes
    const size: nat
    const format: Format

    ghost predicate Valid()
      reads this
    {
      8 <= size <= |bytes|
    }

    constructor FromBytes(b: Bytes, s: nat, f: Format)
      requires BlockSizeOf(b, f) == Ok(s)
      ensures Valid() && bytes == b && size == s && format == f
    {
      bytes, size, format := b, s, f;
    }

    method AppendPayload(framed: Bytes) returns (r: Result<nat, MemoError>)
      requires Valid() && framed != []
      modifies this
      ensures r.Ok? <==> Blocks(|old(bytes)|, size) + Blocks(|framed|, size) <= U32_MAX
      ensures r.Ok? ==> Valid() && r.value == Blocks(|old(bytes)|, size)
      ensures r.Ok? ==> bytes == Appended(old(bytes), size, format, framed)
      ensures Grown(old(bytes), bytes)
    {
      hide ToLe, ToBe, Grown;
      AppendedGrows(bytes, size, format, framed);
      BlocksCover(|bytes|, size);
      BlocksCover(|framed|, size);
      AppendedStores(bytes, size, format, framed);
      var start := |bytes| / size + if |bytes| % size != 0 then 1 else 0;
      ghost var was := bytes;
      if |bytes| < start * size {
        bytes := bytes + Fill(0, start * size - |bytes|);
      }
      var count := |framed| / size + if |framed| % size != 0 then 1 else 0;
      var pad: byte := if format.FoxPro? then 0 else SPACE;
      bytes := bytes + (framed + Fill(pad, count * size - |framed|));
      assert bytes == Extended(was, size, format, framed);
      if start + count > U32_MAX {
        return Err(BlockOverflow);
      }
      bytes := HeaderBytes(format, start + count) + bytes[4..];
      return Ok(start);
    }

    /** Stores text, or bytes, in a block of its own. */
    method Append(binary: bool, data: Bytes) returns (r: Result<nat, MemoError>)
      requires Valid()
      modifies this
      ensures r.Ok? == (Storable(format, binary, data) &&
                        Blocks(|old(bytes)|, size) + Blocks(|Framed(format, binary, data)|, size) <= U32_MAX)
      ensures r.Ok? ==> Valid() && r.value == Blocks(|old(bytes)|, size)
      ensures r.Ok? ==> bytes == Appended(old(bytes), size, format, Framed(format, binary, data))
      ensures !Storable(format, binary, data) ==> bytes == old(bytes)
      ensures Grown(old(bytes), bytes)
    {
      hide ToLe, ToBe, Appended, FirstPair;
      if !Storable(format, binary, data) {
        return Err(if format.Dbase3? && (!binary || |data| <= U32_MAX) then HasMarker else TooLong);
      }
      r := AppendPayload(Framed(format, binary, data));
    }
  }

  /** The file is `block` whole blocks, and its header names that block as the next free one. */
  ghost predicate EndsAt(bytes: Bytes, size: nat, format: Format, block: nat)
  {
    |bytes| >= 4 && |bytes| == block * size && NextBlock(bytes, format) == block
  }

  /** The same by blocks alone. */
  lemma AppendedEnds(bytes: Bytes, size: nat, format: Format, framed: Bytes)
    requires size >= 4 && |bytes| >= size && framed != []
    ensures var all, last := Appended(bytes, size, format, framed), Blocks(|bytes|, size) + Blocks(|framed|, size);
            Blocks(|all|, size) == last && Stores(all, size, Blocks(|bytes|, size), framed) &&
            (last <= U32_MAX ==> EndsAt(all, size, format, last))
  {
    hide Appended, NextBlock, Stores, Blocks;
    AppendedStores(bytes, size, format, framed);
    var last := Blocks(|bytes|, size) + Blocks(|framed|, size);
    BlocksExact(last, size);
    Grows(last, size);
  }

  datatype Item = Item(binary: bool, data: Bytes)

  /** The blocks that a memo takes. */
  function Room(format: Format, size: nat, item: Item): nat
    requires size > 0
  {
    Blocks(|Framed(format, item.binary, item.data)|, size)
  }

  /** The block at which memo `i` starts when `items` follow one another from block `first`. */
  function BlockOf(format: Format, size: nat, items: seq<Item>, first: nat, i: nat): nat
    requires size > 0 && i <= |items|
  {
    if i == 0 then first else BlockOf(format, size, items, first, i - 1) + Room(format, size, items[i - 1])
  }

  lemma BlockNext(format: Format, size: nat, items: seq<Item>, first: nat, i: nat)
    requires size > 0
    ensures BlockOf(format, size, items, first, 0) == first
    ensures i < |items| ==>
      BlockOf(format, size, items, first, i + 1) ==
      BlockOf(format, size, items, first, i) + Room(format, size, items[i])
  {
  }

  lemma {:induction false} BlocksAdvance(format: Format, size: nat, items: seq<Item>, first: nat, i: nat, j: nat)
    requires size > 0 && i <= j <= |items|
    ensures BlockOf(format, size, items, first, i) <= BlockOf(format, size, items, first, j)
    ensures i < j ==>
      BlockOf(format, size, items, first, i) + Room(format, size, items[i]) <= BlockOf(format, size, items, first, j)
    decreases j - i
  {
    hide Room;
    if i < j {
      BlocksAdvance(format, size, items, first, i, j - 1);
    }
  }

  /** The memo is whole in its block. */
  ghost predicate Placed(bytes: Bytes, size: nat, format: Format, item: Item, block: nat)
  {
    Storable(format, item.binary, item.data) && Stores(bytes, size, block, Framed(format, item.binary, item.data))
  }

  /** Any memos, one after another, from the block at which the file ends: each is in blocks of its own
      and reads back as it was, in the final file too, and the header names the next free block. The
      first that the format cannot hold, or for which block numbers run out, ends it. */
  method AppendAll(m: MemoFile, items: seq<Item>) returns (blocks: seq<nat>)
    requires m.Valid()
    modifies m
    ensures |blocks| <= |items|
    ensures var first := Blocks(|old(m.bytes)|, m.size);
      (forall i :: 0 <= i < |blocks| ==> blocks[i] == BlockOf(m.format, m.size, items, first, i)) &&
      (|blocks| < |items| ==>
        !Storable(m.format, items[|blocks|].binary, items[|blocks|].data) ||
        BlockOf(m.format, m.size, items, first, |blocks| + 1) > U32_MAX) &&
      (|blocks| == |items| && items != [] ==>
        EndsAt(m.bytes, m.size, m.format, BlockOf(m.format, m.size, items, first, |items|)))
    ensures forall i :: 0 <= i < |blocks| ==>
      Placed(m.bytes, m.size, m.format, items[i], blocks[i]) &&
      Read(m.bytes, m.size, m.format, blocks[i]) == Ok(Some(items[i].data))
    ensures forall i, j :: 0 <= i < j < |blocks| ==> blocks[i] + Room(m.format, m.size, items[i]) <= blocks[j]
  {
    hide Read, Stores, Storable, Framed, Appended, EndsAt, Grown, Blocks, BlockOf;
    ghost var first := Blocks(|m.bytes|, m.size);
    blocks := [];
    BlockNext(m.format, m.size, items, first, 0);
    for i := 0 to |items|
      invariant m.Valid() && |blocks| == i
      invariant forall k :: 0 <= k < i ==>
        Placed(m.bytes, m.size, m.format, items[k], blocks[k]) &&
        blocks[k] == BlockOf(m.format, m.size, items, first, k)
      invariant Blocks(|m.bytes|, m.size) == BlockOf(m.format, m.size, items, first, i)
      invariant i > 0 ==> EndsAt(m.bytes, m.size, m.format, BlockOf(m.format, m.size, items, first, i))
    {
      ghost var was := m.bytes;
      BlockNext(m.format, m.size, items, first, i);
      var r := m.Append(items[i].binary, items[i].data);
      forall k | 0 <= k < i ensures Placed(m.bytes, m.size, m.format, items[k], blocks[k]) {
        StoresKept(was, m.bytes, m.size, blocks[k], Framed(m.format, items[k].binary, items[k].data));
      }
      if r.Err? {
        break;
      }
      FramedNotEmpty(m.format, items[i]);
      AppendedEnds(was, m.size, m.format, Framed(m.format, items[i].binary, items[i].data));
      blocks := blocks + [r.value];
    }
    forall i | 0 <= i < |blocks| ensures Read(m.bytes, m.size, m.format, blocks[i]) == Ok(Some(items[i].data)) {
      StoredReads(m.bytes, m.size, m.format, items[i].binary, blocks[i], items[i].data);
    }
    forall i, j | 0 <= i < j < |blocks| ensures blocks[i] + Room(m.format, m.size, items[i]) <= blocks[j] {
      BlocksAdvance(m.format, m.size, items, first, i, j);
    }
  }

  lemma FramedNotEmpty(format: Format, item: Item)
    ensures Framed(format, item.binary, item.data) != []
  {
  }

  lemma BlocksExact(n: nat, size: nat)
    requires size > 0
    ensures Blocks(n * size, size) == n && n * size / size == n
  {
    var q, r := n * size / size, n * size % size;
    DivMod(n * size, size);
    assert (n - q) * size == r;
    if n > q {
      Grows(n - q, size);
    }
  }

  lemma DivMod(a: nat, size: nat)
    requires size > 0
    ensures a == a / size * size + a % size && a % size < size
  {
  }

  lemma Grows(k: nat, size: nat)
    requires k >= 1
    ensures k * size >= size
  {
  }
}
