/** Pointers from records into a memo file, and packing both. */
module MemoPack {
  import opened Base
  import opened Binary
  import opened Decimal
  import opened MemoStore

  // ---- Pointers ----

  const PLUS: byte := 0x2b

  predicate Blank(b: byte) { b in {0x20, 0x00} }

  predicate AllBlank(bytes: Bytes) { forall i :: 0 <= i < |bytes| ==> Blank(bytes[i]) }

  function TrimEnd(bytes: Bytes): Bytes
  {
    if bytes != [] && Blank(bytes[|bytes| - 1]) then TrimEnd(bytes[..|bytes| - 1]) else bytes
  }

  function TrimStart(bytes: Bytes): Bytes
  {
    if bytes != [] && Blank(bytes[0]) then TrimStart(bytes[1..]) else bytes
  }

  /** An unsigned 32-bit number in decimal, with an optional plus sign. */
  function ParseU32(text: Bytes): Option<nat>
  {
    var digits := if text != [] && text[0] == PLUS then text[1..] else text;
    if digits == [] || !AllDigits(digits) || Value(digits) > U32_MAX then None else Some(Value(digits))
  }

  /** The block that a pointer names; `None` inside for a blank pointer. */
  function MemoIndex(pointer: Bytes): Result<Option<nat>, MemoError>
  {
    if AllBlank(pointer) then Ok(None)
    else if |pointer| == 4 then Ok(Some(FromLe(pointer)))
    else
      var block := ParseU32(TrimStart(TrimEnd(pointer)));
      if block.None? then Err(BadLength) else Ok(block)
  }

  function EncodePointer(width: nat, block: nat): (r: Result<Bytes, MemoError>)
    ensures r.Ok? ==> |r.value| == width
  {
    if width == 4 then Ok(ToLe(block, 4))
    else
      var text := Digits(block);
      if |text| > width then Err(TooLong) else Ok(Fill(SPACE, width - |text|) + text)
  }

  lemma {:induction false} TrimStartFill(n: nat, text: Bytes)
    requires text != [] && !Blank(text[0])
    ensures TrimStart(Fill(SPACE, n) + text) == text
    decreases n
  {
    var all := Fill(SPACE, n) + text;
    if n == 0 {
      assert all == text;
    } else {
      TrimStartFill(n - 1, text);
      assert all[1..] == Fill(SPACE, n - 1) + text;
    }
  }

  /** Decimal pointers of any width read back for every block; four-byte ones exactly when their
      bytes are not all blank. */
  lemma PointerRoundTrip(width: nat, block: nat)
    requires block <= U32_MAX && EncodePointer(width, block).Ok?
    ensures width != 4 ==> MemoIndex(EncodePointer(width, block).value) == Ok(Some(block))
    ensures width == 4 ==>
      (MemoIndex(EncodePointer(4, block).value) == Ok(Some(block)) <==> !AllBlank(ToLe(block, 4)))
  {
    hide ToLe, FromLe;
    if width == 4 {
      PowWidths();
      LeRoundTrip(block, 4);
    } else {
      var text := Digits(block);
      var pointer := Fill(SPACE, width - |text|) + text;
      assert IsDigit(text[0]) && IsDigit(text[|text| - 1]);
      assert pointer[width - 1] == text[|text| - 1] && !Blank(pointer[width - 1]);
      assert TrimEnd(pointer) == pointer;
      TrimStartFill(width - |text|, text);
      DigitsValue(block);
    }
  }

  /** Block 32 is such a one: its four bytes are a space and three zeroes. */
  lemma Block32ReadsAsNone()
    ensures EncodePointer(4, 32) == Ok([0x20, 0, 0, 0]) && MemoIndex([0x20, 0, 0, 0]) == Ok(None)
  {
    assert ToLe(32, 4) == [0x20] + ToLe(0, 3);
    assert ToLe(0, 3) == [0] + ToLe(0, 2);
    assert ToLe(0, 2) == [0] + ToLe(0, 1);
    assert ToLe(0, 1) == [0] + ToLe(0, 0);
    assert ToLe(32, 4) == [0x20, 0, 0, 0];
  }

  // ---- Packing ----

  datatype Field = Field(offset: nat, width: nat, binary: bool)
  datatype Record = Record(deleted: bool, bytes: Bytes)
  /** A memo file as a value. */
  datatype Memo = Memo(bytes: Bytes, size: nat, format: Format)

  function FieldEnd(f: Field): nat { f.offset + f.width }

  /** Memo fields lie in the record, one after another. */
  ghost predicate Laid(fields: seq<Field>, length: nat)
  {
    (forall i :: 0 <= i < |fields| ==> FieldEnd(fields[i]) <= length) &&
    (forall i, j :: 0 <= i < j < |fields| ==> FieldEnd(fields[i]) <= fields[j].offset)
  }

  function Slice(record: Bytes, f: Field): (r: Bytes)
    requires FieldEnd(f) <= |record|
    ensures |r| == f.width
  {
    record[f.offset..FieldEnd(f)]
  }

  function WithSlice(record: Bytes, f: Field, slice: Bytes): (r: Bytes)
    requires FieldEnd(f) <= |record| && |slice| == f.width
    ensures |r| == |record| && Slice(r, f) == slice
    ensures r[..f.offset] == record[..f.offset] && r[FieldEnd(f)..] == record[FieldEnd(f)..]
  {
    record[..f.offset] + slice + record[FieldEnd(f)..]
  }

  /** The memo that a pointer leads to. */
  function Target(pointer: Bytes, m: Memo): Result<Option<Bytes>, MemoError>
  {
    var block := MemoIndex(pointer);
    if block.Err? then Err(block.error)
    else if block.value.None? then Ok(None)
    else Read(m.bytes, m.size, m.format, block.value.value)
  }

  /** What a reader of the field sees: no memo and an empty one look the same. */
  function Content(pointer: Bytes, m: Memo): Result<Bytes, MemoError>
  {
    var r := Target(pointer, m);
    if r.Err? then Err(r.error) else Ok(if r.value.Some? then r.value.value else [])
  }

  /** The memo to be moved, if there is one that is not empty. */
  function Cargo(pointer: Bytes, binary: bool, m: Memo): Option<Item>
  {
    var r := Target(pointer, m);
    if r.Ok? && r.value.Some? && r.value.value != [] then Some(Item(binary, r.value.value)) else None
  }

  /** The blocks that it takes in the packed file. */
  function CargoRoom(pointer: Bytes, binary: bool, m: Memo): nat
    requires m.size > 0
  {
    var c := Cargo(pointer, binary, m);
    if c.Some? then Room(m.format, m.size, c.value) else 0
  }

  /** Packing can move the memo of a pointer to block `k`: it can be read, the format can hold it, and
      the new reference fits. */
  predicate Movable(pointer: Bytes, binary: bool, m: Memo, k: nat)
    requires m.size > 0
  {
    var r, c := Target(pointer, m), Cargo(pointer, binary, m);
    r.Ok? &&
    (r.value == Some([]) ==> EncodePointer(|pointer|, 0).Ok?) &&
    (c.Some? ==>
      Storable(m.format, binary, c.value.data) && k + CargoRoom(pointer, binary, m) <= U32_MAX &&
      EncodePointer(|pointer|, k).Ok?)
  }

  /** `was` into `from` became `now` into `to`, with its memo, if it has one, whole at block `k`. */
  ghost predicate Moved(was: Bytes, from: Memo, now: Bytes, to: Memo, binary: bool, k: nat)
  {
    |now| == |was| && to.format == from.format &&
    var r, c := Target(was, from), Cargo(was, binary, from);
    r.Ok? &&
    (r.value == None ==> now == was) &&
    (r.value == Some([]) ==> EncodePointer(|was|, 0) == Ok(now)) &&
    (c.Some? ==>
      k <= U32_MAX && EncodePointer(|was|, k) == Ok(now) && Placed(to.bytes, to.size, to.format, c.value, k))
  }

  lemma BlankTargetsAgree(pointer: Bytes, a: Memo, b: Memo)
    requires Target(pointer, a) == Ok(None)
    ensures Target(pointer, b) == Ok(None)
  {
  }

  /** Packing keeps what a reader sees, unless a memo that is not empty goes to a block whose number is
      all blank in the four bytes of its field: then the reader sees none. */
  lemma MovedKeepsContent(was: Bytes, from: Memo, now: Bytes, to: Memo, binary: bool, k: nat)
    requires Moved(was, from, now, to, binary, k) && to.size > 0
    ensures Content(was, from).Ok?
    ensures Content(now, to) == Content(was, from) <==>
            Content(was, from).value == [] || |was| != 4 || !AllBlank(ToLe(k, 4))
    ensures Content(now, to) == Content(was, from) || Content(now, to) == Ok([])
  {
    hide ToLe, FromLe, Framed, Stores, Storable, Read, TrimStart, TrimEnd;
    var r := Target(was, from);
    if r.value == None {
      BlankTargetsAgree(was, from, to);
    } else if r.value == Some([]) {
      PointerRoundTrip(|was|, 0);
      ZeroPointer(|was|, to);
    } else {
      PointerRoundTrip(|was|, k);
      StoredReads(to.bytes, to.size, to.format, binary, k, r.value.value);
    }
  }

  lemma ZeroPointer(width: nat, m: Memo)
    requires EncodePointer(width, 0).Ok?
    ensures Content(EncodePointer(width, 0).value, m) == Ok([])
  {
    hide TrimStart, TrimEnd, FromLe;
    PointerRoundTrip(width, 0);
    ZeroBytes(4);
  }

  lemma {:induction false} ZeroBytes(k: nat)
    ensures AllBlank(ToLe(0, k))
  {
    if k > 0 {
      ZeroBytes(k - 1);
    }
  }

  ghost function AsMemo(m: MemoFile): Memo
    reads m
  {
    Memo(m.bytes, m.size, m.format)
  }

  /** A memo file that has only grown. */
  ghost predicate Later(to: Memo, later: Memo)
  {
    to.size >= 4 && later.size == to.size && later.format == to.format && Grown(to.bytes, later.bytes)
  }

  /** A moved memo stays where it is while more are appended. */
  lemma MovedStays(was: Bytes, from: Memo, now: Bytes, to: Memo, later: Memo, binary: bool, k: nat)
    requires Moved(was, from, now, to, binary, k) && Later(to, later)
    ensures Moved(was, from, now, later, binary, k)
  {
    hide Target, EncodePointer, Storable, Framed, Stores, Grown;
    var c := Cargo(was, binary, from);
    if c.Some? {
      StoresKept(to.bytes, later.bytes, to.size, k, Framed(to.format, c.value.binary, c.value.data));
    }
  }

  /** The packed file is `k` whole blocks. */
  ghost predicate Filled(m: MemoFile, source: Memo, k: nat)
    reads m
  {
    m.Valid() && m.size == source.size && m.format == source.format && Blocks(|m.bytes|, m.size) == k
  }

  /** Copies the memo of one field to block `k` and rewrites its pointer. */
  method PackField(record: Bytes, f: Field, source: Memo, compacted: MemoFile, ghost k: nat)
    returns (r: Result<Bytes, MemoError>)
    requires FieldEnd(f) <= |record| && Filled(compacted, source, k)
    modifies compacted
    ensures Grown(old(compacted.bytes), compacted.bytes)
    ensures r.Ok? <==> Movable(Slice(record, f), f.binary, source, k)
    ensures r.Ok? ==> Filled(compacted, source, k + CargoRoom(Slice(record, f), f.binary, source))
    ensures r.Ok? ==> |r.value| == |record|
    ensures r.Ok? ==> r.value[..f.offset] == record[..f.offset] && r.value[FieldEnd(f)..] == record[FieldEnd(f)..]
    ensures r.Ok? ==> Moved(Slice(record, f), source, Slice(r.value, f), AsMemo(compacted), f.binary, k)
  {
    hide Read, MemoIndex, EncodePointer, Framed, Stores, Storable, Appended, Blocks, EndsAt;
    var pointer := Slice(record, f);
    var block := MemoIndex(pointer);
    if block.Err? {
      return Err(block.error);
    }
    if block.value.None? {
      return Ok(record);
    }
    var data := Read(source.bytes, source.size, source.format, block.value.value);
    if data.Err? {
      return Err(data.error);
    }
    if data.value.None? {
      return Ok(record);
    }
    var target := 0;
    if data.value.value != [] {
      ghost var was := compacted.bytes;
      var appended := compacted.Append(f.binary, data.value.value);
      if appended.Err? {
        return Err(appended.error);
      }
      FramedNotEmpty(compacted.format, Item(f.binary, data.value.value));
      AppendedEnds(was, compacted.size, compacted.format, Framed(compacted.format, f.binary, data.value.value));
      target := appended.value;
    }
    var encoded := EncodePointer(f.width, target);
    if encoded.Err? {
      return Err(encoded.error);
    }
    return Ok(WithSlice(record, f, encoded.value));
  }

  /** The block at which field `n` of a record stores, when its first stores at block `k`. */
  function FieldBlock(record: Bytes, fields: seq<Field>, n: nat, source: Memo, k: nat): nat
    requires source.size > 0 && n <= |fields| && forall i :: 0 <= i < |fields| ==> FieldEnd(fields[i]) <= |record|
  {
    if n == 0 then k
    else
      FieldBlock(record, fields, n - 1, source, k) +
      CargoRoom(Slice(record, fields[n - 1]), fields[n - 1].binary, source)
  }

  lemma FieldBlockNext(record: Bytes, fields: seq<Field>, n: nat, source: Memo, k: nat)
    requires source.size > 0 && forall i :: 0 <= i < |fields| ==> FieldEnd(fields[i]) <= |record|
    ensures FieldBlock(record, fields, 0, source, k) == k
    ensures n < |fields| ==>
      FieldBlock(record, fields, n + 1, source, k) ==
      FieldBlock(record, fields, n, source, k) + CargoRoom(Slice(record, fields[n]), fields[n].binary, source)
  {
  }

  /** Every memo of the record can be moved, the first to block `k`. */
  ghost predicate RecordMovable(record: Bytes, fields: seq<Field>, source: Memo, k: nat)
    requires source.size > 0 && Laid(fields, |record|)
  {
    forall n :: 0 <= n < |fields| ==>
      Movable(Slice(record, fields[n]), fields[n].binary, source, FieldBlock(record, fields, n, source, k))
  }

  /** A record with its pointers moved and the rest as it was. */
  ghost predicate RecordMoved(before: Bytes, after: Bytes, fields: seq<Field>, n: nat, from: Memo, to: Memo, k: nat)
    requires from.size > 0 && Laid(fields, |before|) && n <= |fields|
  {
    |after| == |before| &&
    (forall i :: 0 <= i < n ==>
      Moved(Slice(before, fields[i]), from, Slice(after, fields[i]), to, fields[i].binary,
            FieldBlock(before, fields, i, from, k))) &&
    (forall j :: 0 <= j < |before| && (forall i :: 0 <= i < n ==> !(fields[i].offset <= j < FieldEnd(fields[i]))) ==>
      after[j] == before[j])
  }

  lemma RecordMovedStays(before: Bytes, after: Bytes, fields: seq<Field>, n: nat, from: Memo, to: Memo, later: Memo,
                         k: nat)
    requires from.size > 0 && Laid(fields, |before|) && n <= |fields|
    requires RecordMoved(before, after, fields, n, from, to, k) && Later(to, later)
    ensures RecordMoved(before, after, fields, n, from, later, k)
  {
    hide Moved, Later, FieldBlock;
    forall i | 0 <= i < n
      ensures Moved(Slice(before, fields[i]), from, Slice(after, fields[i]), later, fields[i].binary,
                    FieldBlock(before, fields, i, from, k))
    {
      MovedStays(Slice(before, fields[i]), from, Slice(after, fields[i]), to, later, fields[i].binary,
                 FieldBlock(before, fields, i, from, k));
    }
  }

  /** The fields not yet visited are as they were. */
  lemma UnmovedSlice(before: Bytes, after: Bytes, fields: seq<Field>, n: nat, from: Memo, to: Memo, k: nat)
    requires from.size > 0 && Laid(fields, |before|) && n < |fields|
    requires RecordMoved(before, after, fields, n, from, to, k)
    ensures Slice(after, fields[n]) == Slice(before, fields[n])
  {
    hide Moved, FieldBlock;
  }

  /** One more field: those before it end where it begins or earlier, so they are untouched. */
  lemma RecordMovedNext(before: Bytes, mid: Bytes, after: Bytes, fields: seq<Field>, n: nat, from: Memo, to: Memo,
                        k: nat)
    requires from.size > 0 && Laid(fields, |before|) && n < |fields| && RecordMoved(before, mid, fields, n, from, to, k)
    requires |after| == |mid|
    requires Moved(Slice(mid, fields[n]), from, Slice(after, fields[n]), to, fields[n].binary,
                   FieldBlock(before, fields, n, from, k))
    requires after[..fields[n].offset] == mid[..fields[n].offset]
    requires after[FieldEnd(fields[n])..] == mid[FieldEnd(fields[n])..]
    ensures RecordMoved(before, after, fields, n + 1, from, to, k)
  {
    hide Moved, FieldBlock;
    var f := fields[n];
    UnmovedSlice(before, mid, fields, n, from, to, k);
    forall i | 0 <= i < n ensures Slice(after, fields[i]) == Slice(mid, fields[i]) {
      assert after[fields[i].offset..FieldEnd(fields[i])] == after[..f.offset][fields[i].offset..FieldEnd(fields[i])];
      assert mid[fields[i].offset..FieldEnd(fields[i])] == mid[..f.offset][fields[i].offset..FieldEnd(fields[i])];
    }
    forall j | 0 <= j < |before| && (forall i :: 0 <= i < n + 1 ==> !(fields[i].offset <= j < FieldEnd(fields[i])))
      ensures after[j] == before[j]
    {
      assert !(f.offset <= j < FieldEnd(f));
      assert j < f.offset ==> after[..f.offset][j] == mid[..f.offset][j];
      assert j >= FieldEnd(f) ==> after[FieldEnd(f)..][j - FieldEnd(f)] == mid[FieldEnd(f)..][j - FieldEnd(f)];
    }
  }

  method PackRecord(record: Bytes, fields: seq<Field>, source: Memo, compacted: MemoFile, ghost k: nat)
    returns (r: Result<Bytes, MemoError>)
    requires Laid(fields, |record|) && Filled(compacted, source, k)
    modifies compacted
    ensures Grown(old(compacted.bytes), compacted.bytes)
    ensures r.Ok? <==> RecordMovable(record, fields, source, k)
    ensures r.Ok? ==> Filled(compacted, source, FieldBlock(record, fields, |fields|, source, k))
    ensures r.Ok? ==> RecordMoved(record, r.value, fields, |fields|, source, AsMemo(compacted), k)
  {
    hide Moved, Grown, RecordMoved, Movable, FieldBlock, CargoRoom, Blocks;
    FieldBlockNext(record, fields, 0, source, k);
    GrownTwice(compacted.bytes, compacted.bytes, compacted.bytes);
    var now := record;
    RecordUnmoved(record, fields, source, AsMemo(compacted), k);
    for i := 0 to |fields|
      invariant |now| == |record| && Grown(old(compacted.bytes), compacted.bytes)
      invariant Filled(compacted, source, FieldBlock(record, fields, i, source, k))
      invariant forall n :: 0 <= n < i ==>
        Movable(Slice(record, fields[n]), fields[n].binary, source, FieldBlock(record, fields, n, source, k))
      invariant RecordMoved(record, now, fields, i, source, AsMemo(compacted), k)
    {
      ghost var before := AsMemo(compacted);
      UnmovedSlice(record, now, fields, i, source, before, k);
      FieldBlockNext(record, fields, i, source, k);
      var next := PackField(now, fields[i], source, compacted, FieldBlock(record, fields, i, source, k));
      GrownTwice(old(compacted.bytes), before.bytes, compacted.bytes);
      if next.Err? {
        return Err(next.error);
      }
      RecordMovedStays(record, now, fields, i, source, before, AsMemo(compacted), k);
      RecordMovedNext(record, now, next.value, fields, i, source, AsMemo(compacted), k);
      now := next.value;
    }
    return Ok(now);
  }

  lemma RecordUnmoved(record: Bytes, fields: seq<Field>, from: Memo, to: Memo, k: nat)
    requires from.size > 0 && Laid(fields, |record|)
    ensures RecordMoved(record, record, fields, 0, from, to, k)
  {
  }

  lemma GrownTwice(a: Bytes, b: Bytes, c: Bytes)
    ensures |a| >= 4 ==> Grown(a, a)
    ensures Grown(a, b) && Grown(b, c) ==> Grown(a, c)
  {
    if Grown(a, b) && Grown(b, c) {
      SubSlice(c, 4, |b|, 0, |a| - 4);
      SubSlice(b, 4, |b|, 0, |a| - 4);
      assert b[4..|b|] == b[4..];
    }
  }

  // ---- The whole table ----

  /** The records that are not deleted, in order. */
  function Survivors(records: seq<Record>): (r: seq<Record>)
    ensures forall x :: x in r ==> x in records && !x.deleted
  {
    if records == [] then []
    else
      var last := records[|records| - 1];
      Survivors(records[..|records| - 1]) + if last.deleted then [] else [last]
  }

  /** Records of one length, with the memo fields in it, and a memo file as it is opened. */
  ghost predicate IsTable(records: seq<Record>, fields: seq<Field>, length: nat, source: Memo)
  {
    Laid(fields, length) && (forall r :: r in records ==> |r.bytes| == length) && source.size > 0 &&
    BlockSizeOf(source.bytes, source.format) == Ok(source.size)
  }

  lemma OpenedSize(m: Memo)
    requires BlockSizeOf(m.bytes, m.format) == Ok(m.size)
    ensures 8 <= m.size <= |m.bytes| && BlockSizeOf(m.bytes[..m.size], m.format) == Ok(m.size)
  {
    assert m.bytes[..m.size][6..8] == m.bytes[6..8];
    assert m.size >= 22 ==> m.bytes[..m.size][20..22] == m.bytes[20..22];
  }

  /** The block at which surviving record `i` begins to store: the header is block 0, and every memo
      that is not empty takes its blocks in record and field order. */
  ghost function RecordBlock(records: seq<Record>, fields: seq<Field>, length: nat, source: Memo, i: nat): nat
    requires IsTable(records, fields, length, source) && i <= |Survivors(records)|
  {
    if i == 0 then 1
    else
      assert Survivors(records)[i - 1] in records;
      FieldBlock(Survivors(records)[i - 1].bytes, fields, |fields|, source,
                 RecordBlock(records, fields, length, source, i - 1))
  }

  /** Every memo of every surviving record can be moved to its block. */
  ghost predicate Packable(records: seq<Record>, fields: seq<Field>, length: nat, source: Memo)
    requires IsTable(records, fields, length, source)
  {
    forall i :: 0 <= i < |Survivors(records)| ==>
      Survivors(records)[i] in records &&
      RecordMovable(Survivors(records)[i].bytes, fields, source, RecordBlock(records, fields, length, source, i))
  }

  /** The first surviving records, in order, with their memos moved to their blocks. */
  ghost predicate Packed(records: seq<Record>, packed: seq<Record>, fields: seq<Field>, length: nat, from: Memo,
                         to: Memo)
    requires IsTable(records, fields, length, from)
  {
    |packed| <= |Survivors(records)| &&
    forall i :: 0 <= i < |packed| ==>
      !packed[i].deleted && Survivors(records)[i] in records &&
      RecordMoved(Survivors(records)[i].bytes, packed[i].bytes, fields, |fields|, from, to,
                  RecordBlock(records, fields, length, from, i))
  }

  lemma PackedStays(records: seq<Record>, packed: seq<Record>, fields: seq<Field>, length: nat, from: Memo, to: Memo,
                    later: Memo)
    requires IsTable(records, fields, length, from)
    requires Packed(records, packed, fields, length, from, to) && Later(to, later)
    ensures Packed(records, packed, fields, length, from, later)
  {
    hide RecordMoved, RecordBlock, Later, Survivors;
    forall i | 0 <= i < |packed|
      ensures RecordMoved(Survivors(records)[i].bytes, packed[i].bytes, fields, |fields|, from, later,
                          RecordBlock(records, fields, length, from, i))
    {
      RecordMovedStays(Survivors(records)[i].bytes, packed[i].bytes, fields, |fields|, from, to, later,
                       RecordBlock(records, fields, length, from, i));
    }
  }

  /** Drops the deleted records and copies the memos of the others into a new file. */
  method Pack(records: seq<Record>, fields: seq<Field>, length: nat, source: Memo)
    returns (r: Result<(seq<Record>, Memo), MemoError>)
    requires IsTable(records, fields, length, source)
    ensures r.Ok? <==> Packable(records, fields, length, source)
    ensures r.Ok? ==>
      var (packed, to) := r.value;
      |packed| == |Survivors(records)| && to.size == source.size && to.format == source.format &&
      Packed(records, packed, fields, length, source, to)
  {
    hide Grown, BlockSizeOf, RecordMoved, RecordMovable, RecordBlock, Survivors, Blocks, FieldBlock;
    var survivors := DropDeleted(records);
    OpenedSize(source);
    var header := source.bytes[..source.size];
    var compacted := new MemoFile.FromBytes(header, source.size, source.format);
    compacted.bytes := HeaderBytes(source.format, 1) + compacted.bytes[4..];
    BlocksExact(1, source.size);
    RecordBlockNext(records, fields, length, source, 0);
    var packed: seq<Record> := [];
    for i := 0 to |survivors|
      invariant |packed| == i && Filled(compacted, source, RecordBlock(records, fields, length, source, i))
      invariant forall n :: 0 <= n < i ==>
        survivors[n] in records &&
        RecordMovable(survivors[n].bytes, fields, source, RecordBlock(records, fields, length, source, n))
      invariant Packed(records, packed, fields, length, source, AsMemo(compacted))
    {
      ghost var before := AsMemo(compacted);
      assert survivors[i] in records;
      RecordBlockNext(records, fields, length, source, i);
      var next := PackRecord(survivors[i].bytes, fields, source, compacted,
                             RecordBlock(records, fields, length, source, i));
      if next.Err? {
        return Err(next.error);
      }
      PackedStays(records, packed, fields, length, source, before, AsMemo(compacted));
      packed := packed + [Record(false, next.value)];
    }
    return Ok((packed, Memo(compacted.bytes, compacted.size, compacted.format)));
  }

  lemma RecordBlockNext(records: seq<Record>, fields: seq<Field>, length: nat, source: Memo, i: nat)
    requires IsTable(records, fields, length, source)
    ensures RecordBlock(records, fields, length, source, 0) == 1
    ensures i < |Survivors(records)| ==>
      Survivors(records)[i] in records &&
      RecordBlock(records, fields, length, source, i + 1) ==
      FieldBlock(Survivors(records)[i].bytes, fields, |fields|, source, RecordBlock(records, fields, length, source, i))
  {
    hide FieldBlock;
    assert i < |Survivors(records)| ==> Survivors(records)[i] in Survivors(records);
  }

  method DropDeleted(records: seq<Record>) returns (survivors: seq<Record>)
    ensures survivors == Survivors(records)
  {
    survivors := [];
    for i := 0 to |records|
      invariant survivors == Survivors(records[..i])
    {
      assert records[..i + 1][..i] == records[..i];
      if !records[i].deleted {
        survivors := survivors + [records[i]];
      }
    }
    assert records[..|records|] == records;
  }

  /** The block of one memo, from the table alone. */
  ghost function MemoBlock(records: seq<Record>, fields: seq<Field>, length: nat, source: Memo, i: nat, f: nat): nat
    requires IsTable(records, fields, length, source) && i < |Survivors(records)| && f < |fields|
  {
    assert Survivors(records)[i] in Survivors(records);
    FieldBlock(Survivors(records)[i].bytes, fields, f, source, RecordBlock(records, fields, length, source, i))
  }

  /** After a pack a reader sees a memo of a surviving record as before exactly when it is empty, or its
      field is not four bytes wide, or its block number is not all blank in four bytes. */
  lemma PackKeepsContents(records: seq<Record>, packed: seq<Record>, fields: seq<Field>, length: nat, from: Memo,
                          to: Memo, i: nat, f: nat)
    requires IsTable(records, fields, length, from) && to.size > 0
    requires Packed(records, packed, fields, length, from, to) && i < |packed| && f < |fields|
    ensures Survivors(records)[i] in records && |packed[i].bytes| == length
    ensures var was, now := Slice(Survivors(records)[i].bytes, fields[f]), Slice(packed[i].bytes, fields[f]);
            Content(was, from).Ok? &&
            (Content(now, to) == Content(was, from) <==>
              Content(was, from).value == [] || fields[f].width != 4 ||
              !AllBlank(ToLe(MemoBlock(records, fields, length, from, i, f), 4))) &&
            (Content(now, to) == Content(was, from) || Content(now, to) == Ok([]))
  {
    hide Moved, Content, FieldBlock, RecordBlock, AllBlank, ToLe;
    assert Survivors(records)[i] in records;
    var was, now := Slice(Survivors(records)[i].bytes, fields[f]), Slice(packed[i].bytes, fields[f]);
    MovedKeepsContent(was, from, now, to, fields[f].binary, MemoBlock(records, fields, length, from, i, f));
  }

  /** A dBASE III memo with a lone end marker inside reads well, yet a text field cannot have it packed. */
  lemma LoneMarkerCannotBePacked(pointer: Bytes, m: Memo, block: nat, data: Bytes, k: nat)
    requires m.format.Dbase3? && m.size > 0 && MemoIndex(pointer) == Ok(Some(block))
    requires Storable(Dbase3, true, data) && EOF_MARKER in data
    requires Stores(m.bytes, m.size, block, Framed(Dbase3, true, data))
    ensures Content(pointer, m) == Ok(data) && !Movable(pointer, false, m, k)
  {
    hide Read, MemoIndex, FirstPair, Stores;
    StoredReads(m.bytes, m.size, m.format, true, block, data);
  }

  // ---- A table on which packing loses a memo ----

  const ONE_FIELD: seq<Field> := [Field(0, 4, false)]

  /** A FoxPro file with blocks of 16 bytes and the text "A" in block 1. */
  function OneMemo(): Memo
  {
    Memo([0, 0, 0, 2, 0, 0, 0, 16] + Fill(0, 8) + Framed(FoxPro, false, [0x41]) + Fill(0, 7), 16, FoxPro)
  }

  /** As many records that all refer to it. */
  function Referrers(n: nat): seq<Record>
  {
    seq(n, _ => Record(false, ToLe(1, 4)))
  }

  lemma OneMemoReads()
    ensures BlockSizeOf(OneMemo().bytes, FoxPro) == Ok(16)
    ensures Target(ToLe(1, 4), OneMemo()) == Ok(Some([0x41]))
    ensures CargoRoom(ToLe(1, 4), false, OneMemo()) == 1
  {
    hide ToLe, FromLe, ToBe, Read;
    var m := OneMemo();
    assert m.bytes[6..8] == [0, 16];
    HeaderSize();
    assert m.bytes[16..25] == Framed(FoxPro, false, [0x41]);
    StoredReads(m.bytes, 16, FoxPro, false, 1, [0x41]);
    PowWidths();
    LeRoundTrip(1, 4);
    OneIsNotBlank();
  }

  lemma HeaderSize()
    ensures FromBe([0, 16]) == 16
  {
    assert Reversed([0, 16]) == [16, 0];
    assert FromLe([16, 0]) == 16 + 256 * FromLe([16, 0][1..]);
  }

  lemma OneIsNotBlank()
    ensures !AllBlank(ToLe(1, 4))
  {
    assert ToLe(1, 4)[0] == 1 && !Blank(1);
  }

  lemma {:induction false} ReferrersSurvive(n: nat)
    ensures Survivors(Referrers(n)) == Referrers(n)
  {
    if n > 0 {
      ReferrersSurvive(n - 1);
      assert Referrers(n)[..n - 1] == Referrers(n - 1);
      assert Referrers(n) == Referrers(n - 1) + [Referrers(n)[n - 1]];
    }
  }

  lemma ReferrersAreTable(n: nat)
    ensures IsTable(Referrers(n), ONE_FIELD, 4, OneMemo()) && |Survivors(Referrers(n))| == n
  {
    hide ToLe;
    OneMemoReads();
    ReferrersSurvive(n);
  }

  lemma {:induction false} ReferrerBlocks(n: nat, i: nat)
    requires i <= n && IsTable(Referrers(n), ONE_FIELD, 4, OneMemo()) && |Survivors(Referrers(n))| == n
    ensures RecordBlock(Referrers(n), ONE_FIELD, 4, OneMemo(), i) == 1 + i
    decreases i
  {
    hide ToLe, Survivors, CargoRoom, FieldBlock, OneMemo;
    RecordBlockNext(Referrers(n), ONE_FIELD, 4, OneMemo(), i);
    if i > 0 {
      ReferrerBlocks(n, i - 1);
      RecordBlockNext(Referrers(n), ONE_FIELD, 4, OneMemo(), i - 1);
      ReferrersSurvive(n);
      OneFieldBlock(i);
    }
  }

  lemma OneFieldBlock(k: nat)
    ensures OneMemo().size > 0
    ensures FieldBlock(ToLe(1, 4), ONE_FIELD, 0, OneMemo(), k) == k
    ensures FieldBlock(ToLe(1, 4), ONE_FIELD, 1, OneMemo(), k) == k + 1
  {
    hide ToLe, CargoRoom;
    OneMemoReads();
    assert Slice(ToLe(1, 4), ONE_FIELD[0]) == ToLe(1, 4);
    FieldBlockNext(ToLe(1, 4), ONE_FIELD, 0, OneMemo(), k);
  }

  /** Thirty-two records with the same one-block memo can be packed, and the last of them, whose memo
      goes to block 32, then reads as empty. */
  lemma PackLosesBlock32(packed: seq<Record>, to: Memo)
    ensures IsTable(Referrers(32), ONE_FIELD, 4, OneMemo())
    ensures Packable(Referrers(32), ONE_FIELD, 4, OneMemo())
    ensures Content(Referrers(32)[31].bytes, OneMemo()) == Ok([0x41])
    ensures Packed(Referrers(32), packed, ONE_FIELD, 4, OneMemo(), to) && |packed| == 32 && to.size > 0 ==>
      |packed[31].bytes| == 4 && Content(packed[31].bytes, to) == Ok([])
  {
    hide ToLe, Survivors, CargoRoom, FieldBlock, RecordBlock, OneMemo, Packed, MemoIndex, Read;
    ReferrersAreTable(32);
    ReferrersSurvive(32);
    OneMemoReads();
    forall i | 0 <= i < 32
      ensures RecordMovable(ToLe(1, 4), ONE_FIELD, OneMemo(), RecordBlock(Referrers(32), ONE_FIELD, 4, OneMemo(), i))
    {
      ReferrerBlocks(32, i);
      OneFieldMovable(1 + i);
    }
    if Packed(Referrers(32), packed, ONE_FIELD, 4, OneMemo(), to) && |packed| == 32 && to.size > 0 {
      PackKeepsContents(Referrers(32), packed, ONE_FIELD, 4, OneMemo(), to, 31, 0);
      ReferrerBlocks(32, 31);
      OneFieldBlock(32);
      assert Slice(ToLe(1, 4), ONE_FIELD[0]) == ToLe(1, 4);
      assert Slice(packed[31].bytes, ONE_FIELD[0]) == packed[31].bytes;
      Block32ReadsAsNone();
    }
  }

  lemma OneFieldMovable(k: nat)
    requires 1 <= k <= 32
    ensures OneMemo().size > 0 && OneMemo().format == FoxPro && RecordMovable(ToLe(1, 4), ONE_FIELD, OneMemo(), k)
  {
    hide ToLe, CargoRoom, MemoIndex, Read, FieldBlock;
    OneMemoReads();
    OneFieldBlock(k);
    assert Slice(ToLe(1, 4), ONE_FIELD[0]) == ToLe(1, 4);
  }
}
