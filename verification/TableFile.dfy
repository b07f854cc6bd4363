/** Whole table files: data blocks, an index block of handles and the footer, read back row by row. */
module TableFile {
  import opened Bytes
  import opened Cursors
  import opened Sequences
  import opened Sstable
  import opened TableWriter

  // ---------------------------------------------------------------- rows and internal keys

  const SEQUENCE_LIMIT := 0x100_0000_0000_0000

  /** One version of a user key. A tombstone keeps whatever value bytes it has. */
  datatype Row = Row(user: bytes, sequence: nat, deletion: bool, value: bytes)

  function InternalKeyOf(row: Row): bytes {
    row.user + ToLe(row.sequence * 256 + (if row.deletion then 0 else 1), 8)
  }

  predicate RowFits(row: Row) {
    row.sequence < SEQUENCE_LIMIT
  }

  function RecordOfRow(row: Row, origin: string): Record
    requires RowFits(row)
  {
    Record(row.user, row.value, row.sequence, row.deletion, origin)
  }

  /** The trailer is seven bytes of sequence number above a type byte; only type 0 is a deletion. */
  lemma TrailerSplits(user: bytes, sequence: nat, kind: byte)
    requires sequence < SEQUENCE_LIMIT
    ensures SplitInternalKey(user + ToLe(sequence * 256 + kind, 8)) == Some(InternalKey(user, sequence, kind == 0))
  {
    var trailer := sequence * 256 + kind;
    var key := user + ToLe(trailer, 8);
    WidthLimits();
    LeRoundTrip(trailer, 8);
    assert key[|key| - 8..] == ToLe(trailer, 8);
    assert key[..|key| - 8] == user;
  }

  /** User key, sequence number and deletion survive the trailer. */
  lemma InternalKeyRoundTrip(row: Row)
    requires RowFits(row)
    ensures SplitInternalKey(InternalKeyOf(row)) == Some(InternalKey(row.user, row.sequence, row.deletion))
  {
    TrailerSplits(row.user, row.sequence, if row.deletion then 0 else 1);
  }

  function RowRecords(rows: seq<Row>, origin: string): seq<Record>
    requires forall i :: 0 <= i < |rows| ==> RowFits(rows[i])
  {
    if rows == [] then [] else [RecordOfRow(rows[0], origin)] + RowRecords(rows[1..], origin)
  }

  // ---------------------------------------------------------------- stored blocks

  /** A data block as written: its rows, the prefix lengths and restarts chosen for them, and the
      bytes stored for it, plain or compressed. */
  datatype DataBlock = DataBlock(rows: seq<Row>, shared: seq<nat>, restarts: bytes, kind: byte, body: bytes)

  function Items(b: DataBlock): seq<Item>
    requires |b.shared| == |b.rows|
  {
    seq(|b.rows|, i requires 0 <= i < |b.rows| => Item(b.shared[i], InternalKeyOf(b.rows[i]), b.rows[i].value))
  }

  predicate Stored(codec: Codec, b: DataBlock) {
    && |b.shared| == |b.rows|
    && ItemsFit(Items(b), []) && IsRestartArray(b.restarts)
    && StandsFor(codec, b.kind, b.body, EncodeBlock(Items(b), b.restarts))
    && forall i :: 0 <= i < |b.rows| ==> RowFits(b.rows[i])
  }

  lemma {:induction false} ItemRecords(rows: seq<Row>, items: seq<Item>, origin: string)
    requires |items| == |rows| && forall i :: 0 <= i < |rows| ==> RowFits(rows[i])
    requires forall i :: 0 <= i < |rows| ==> items[i].key == InternalKeyOf(rows[i]) && items[i].value == rows[i].value
    ensures EntryRecords(EntriesOf(items), origin) == RowRecords(rows, origin)
  {
    hide InternalKeyOf, SplitInternalKey;
    if rows != [] {
      InternalKeyRoundTrip(rows[0]);
      ItemRecords(rows[1..], items[1..], origin);
      assert EntriesOf(items) == [Entry(items[0].key, items[0].value)] + EntriesOf(items[1..]);
    }
  }

  /** A block's bytes in the file: body, compression type, masked checksum over both. */
  function Region(codec: Codec, kind: byte, body: bytes): (s: bytes)
    ensures |s| == |body| + BLOCK_TRAILER_LEN
  {
    body + [kind] + ToLe(MaskCrc(codec.crc(body + [kind])), 4)
  }

  predicate At(buf: bytes, handle: BlockHandle, region: bytes) {
    && handle.size + BLOCK_TRAILER_LEN == |region|
    && handle.offset + |region| <= |buf|
    && buf[handle.offset..handle.offset + |region|] == region
  }

  /** A block found where its handle says is read as what it stands for. */
  lemma ReadRegion(codec: Codec, buf: bytes, handle: BlockHandle, kind: byte, body: bytes, block: bytes)
    requires At(buf, handle, Region(codec, kind, body)) && StandsFor(codec, kind, body, block)
    ensures BlockAt(codec, buf, handle) == Ok(block)
  {
    hide BlockAt, At, Region, StandsFor, Decompress;
    RegionDecompressed(codec, buf, handle, kind, body);
    DecompressExact(codec, kind, body, block);
  }

  lemma RegionDecompressed(codec: Codec, buf: bytes, handle: BlockHandle, kind: byte, body: bytes)
    requires At(buf, handle, Region(codec, kind, body))
    ensures BlockAt(codec, buf, handle) == Decompress(codec, kind, body)
  {
    hide Decompress;
    var stored := MaskCrc(codec.crc(body + [kind]));
    WidthLimits();
    LeRoundTrip(stored, 4);
    var region := Region(codec, kind, body);
    assert region[..handle.size + 1] == body + [kind];
    assert region[handle.size + 1..handle.size + 5] == ToLe(stored, 4);
    assert region[..handle.size] == body;
  }

  /** A block is read iff the bytes at its handle are one that a writer would have stored there: a
      body, a type and their checksum, and the body stands for the block. */
  lemma BlockAcceptedIff(codec: Codec, buf: bytes, handle: BlockHandle, block: bytes)
    ensures BlockAt(codec, buf, handle) == Ok(block) <==>
            exists kind: byte, body: bytes ::
              At(buf, handle, Region(codec, kind, body)) && StandsFor(codec, kind, body, block)
  {
    hide Decompress, Region, At, StandsFor;
    if kind: byte, body: bytes :| At(buf, handle, Region(codec, kind, body)) && StandsFor(codec, kind, body, block) {
      ReadRegion(codec, buf, handle, kind, body, block);
    }
    if BlockAt(codec, buf, handle) == Ok(block) {
      var region := buf[handle.offset..handle.offset + handle.size + BLOCK_TRAILER_LEN];
      var kind, body := region[handle.size], region[..handle.size];
      StoredRegion(codec, buf, handle);
      DecompressExact(codec, kind, body, block);
      assert At(buf, handle, Region(codec, kind, body)) && StandsFor(codec, kind, body, block);
    }
  }

  /** Bytes of that extent with a matching checksum are in place. */
  ghost predicate SomeRegionAt(codec: Codec, buf: bytes, handle: BlockHandle) {
    exists kind: byte, body: bytes :: At(buf, handle, Region(codec, kind, body))
  }

  /** Why a block is refused: its extent leaves the file, its checksum does not match, its
      compression is unknown, or it does not decompress; checked in this order. */
  lemma BlockRefused(codec: Codec, buf: bytes, handle: BlockHandle)
    ensures handle.offset + handle.size + 5 > |buf| ==> BlockAt(codec, buf, handle) == Err(LengthOutOfRange)
    ensures handle.offset + handle.size + 5 <= |buf| ==>
              (BlockAt(codec, buf, handle) == Err(BadBlockCrc) <==> !SomeRegionAt(codec, buf, handle))
    ensures SomeRegionAt(codec, buf, handle) && BlockAt(codec, buf, handle).Err? ==>
              BlockAt(codec, buf, handle)
              == Err(if buf[handle.offset + handle.size] > 1 then UnknownCompression else LengthOutOfRange)
  {
    hide Decompress, Region;
    if handle.offset + handle.size + 5 <= |buf| {
      var region := buf[handle.offset..handle.offset + handle.size + 5];
      var kind, body := region[handle.size], region[..handle.size];
      DecompressExact(codec, kind, body, []);
      if BlockAt(codec, buf, handle) != Err(BadBlockCrc) {
        StoredRegion(codec, buf, handle);
        assert At(buf, handle, Region(codec, kind, body));
      } else if other: byte, rest: bytes :| At(buf, handle, Region(codec, other, rest)) {
        RegionDecompressed(codec, buf, handle, other, rest);
        DecompressExact(codec, other, rest, []);
      }
    }
  }

  lemma StoredRegion(codec: Codec, buf: bytes, handle: BlockHandle)
    requires handle.offset + handle.size + BLOCK_TRAILER_LEN <= |buf|
    requires BlockAt(codec, buf, handle) != Err(BadBlockCrc)
    ensures var region := buf[handle.offset..handle.offset + handle.size + BLOCK_TRAILER_LEN];
            At(buf, handle, Region(codec, region[handle.size], region[..handle.size]))
  {
    hide Decompress, Le, ToLe, MaskCrc;
    var region := buf[handle.offset..handle.offset + handle.size + BLOCK_TRAILER_LEN];
    var stored := region[handle.size + 1..handle.size + 5];
    TrailerParts(region, handle.size);
    ToLeOfLe(stored);
  }

  lemma TrailerParts(region: bytes, size: nat)
    requires |region| == size + BLOCK_TRAILER_LEN
    ensures region[..size + 1] == region[..size] + [region[size]]
    ensures region == region[..size] + [region[size]] + region[size + 1..size + 5]
  {
  }

  // ---------------------------------------------------------------- handles and footer

  function EncodeHandle(h: BlockHandle): bytes {
    EncodeVar(h.offset) + EncodeVar(h.size)
  }

  lemma HandleRoundTrip(h: BlockHandle, rest: bytes)
    ensures HandleRead(EncodeHandle(h) + rest) == Read(Ok(h), |EncodeHandle(h)|)
    ensures |EncodeHandle(h)| <= 2 * MAX_VARINT_LEN
  {
    hide DecodeVar, EncodeVar;
    var a, b := EncodeVar(h.offset), EncodeVar(h.size);
    VarRoundTrip(h.offset, b + rest);
    VarRoundTrip(h.size, rest);
    assert EncodeHandle(h) + rest == a + (b + rest);
    assert (a + (b + rest))[|a|..] == b + rest;
  }

  const MAGIC_BYTES: bytes := [0x57, 0xFB, 0x80, 0x8B, 0x24, 0x75, 0x47, 0xDB]

  /** Two handles always fit in front of the magic: four varints of at most ten bytes. */
  function Footer(metaindex: BlockHandle, index: BlockHandle): (s: bytes)
    ensures |s| == FOOTER_LEN
  {
    HandleRoundTrip(metaindex, []);
    HandleRoundTrip(index, []);
    var handles := EncodeHandle(metaindex) + EncodeHandle(index);
    handles + Zeros(40 - |handles|) + MAGIC_BYTES
  }

  lemma FooterParts(metaindex: BlockHandle, index: BlockHandle) returns (pad: bytes)
    ensures var m, x, footer := EncodeHandle(metaindex), EncodeHandle(index), Footer(metaindex, index);
            && |m| + |x| + |pad| == MAGIC_OFFSET
            && footer[..MAGIC_OFFSET] == m + (x + pad)
            && footer[|m|..MAGIC_OFFSET] == x + pad
            && footer[MAGIC_OFFSET..MAGIC_OFFSET + 8] == MAGIC_BYTES
  {
    hide EncodeHandle, HandleRead;
    HandleRoundTrip(metaindex, []);
    HandleRoundTrip(index, []);
    var m, x := EncodeHandle(metaindex), EncodeHandle(index);
    pad := Zeros(MAGIC_OFFSET - |m + x|);
    var footer := Footer(metaindex, index);
    assert footer == m + (x + pad) + MAGIC_BYTES;
  }

  lemma FooterRoundTrip(front: bytes, metaindex: BlockHandle, index: BlockHandle)
    ensures IndexHandle(front + Footer(metaindex, index)) == Ok(index)
  {
    hide HandleRead, EncodeHandle, Footer, Le;
    var footer, buf := Footer(metaindex, index), front + Footer(metaindex, index);
    var pad := FooterParts(metaindex, index);
    var m, x := EncodeHandle(metaindex), EncodeHandle(index);
    MagicReads();
    FooterBehind(front, footer);
    HandleRoundTrip(metaindex, x + pad);
    HandleRoundTrip(index, pad);
  }

  /** The magic is checked byte for byte, before anything else of the footer. */
  lemma MagicChecked(buf: bytes)
    ensures IndexHandle(buf) == Err(BadTableMagic) <==> |buf| >= 48 && buf[|buf| - 8..] != MAGIC_BYTES
  {
    hide DecodeVar;
    if |buf| >= FOOTER_LEN {
      var magic := buf[|buf| - FOOTER_LEN..][MAGIC_OFFSET..MAGIC_OFFSET + 8];
      assert magic == buf[|buf| - 8..];
      ToLeOfLe(magic);
      ToLeOfLe(MAGIC_BYTES);
      MagicReads();
    }
  }

  lemma FooterBehind(front: bytes, footer: bytes)
    requires |footer| == FOOTER_LEN
    ensures (front + footer)[|front + footer| - FOOTER_LEN..] == footer
  {
  }

  lemma MagicReads()
    ensures Le64(MAGIC_BYTES) == TABLE_MAGIC
  {
    LittleEndian(MAGIC_BYTES);
    LittleEndian(MAGIC_BYTES[..4]);
    LittleEndian(MAGIC_BYTES[4..]);
  }

  // ---------------------------------------------------------------- any table with its blocks in place

  function AllRows(blocks: seq<DataBlock>): seq<Row> {
    if blocks == [] then [] else blocks[0].rows + AllRows(blocks[1..])
  }

  predicate AllStored(codec: Codec, blocks: seq<DataBlock>) {
    forall i :: 0 <= i < |blocks| ==> Stored(codec, blocks[i])
  }

  lemma {:induction false} AllRowsFit(codec: Codec, blocks: seq<DataBlock>)
    requires AllStored(codec, blocks)
    ensures forall i :: 0 <= i < |AllRows(blocks)| ==> RowFits(AllRows(blocks)[i])
  {
    if blocks != [] {
      assert Stored(codec, blocks[0]);
      AllRowsFit(codec, blocks[1..]);
    }
  }

  function RecordsOfBlocks(codec: Codec, blocks: seq<DataBlock>, origin: string): seq<Record>
    requires AllStored(codec, blocks)
  {
    AllRowsFit(codec, blocks);
    RowRecords(AllRows(blocks), origin)
  }

  lemma {:induction false} RowRecordsConcat(a: seq<Row>, b: seq<Row>, origin: string)
    requires forall i :: 0 <= i < |a| ==> RowFits(a[i])
    requires forall i :: 0 <= i < |b| ==> RowFits(b[i])
    ensures RowRecords(a + b, origin) == RowRecords(a, origin) + RowRecords(b, origin)
  {
    if a == [] {
      assert a + b == b;
    } else {
      RowRecordsConcat(a[1..], b, origin);
      ConcatTail(a, b);
      Associative([RecordOfRow(a[0], origin)], RowRecords(a[1..], origin), RowRecords(b, origin));
    }
  }

  /** Index entry i leads to data block i in the file. */
  predicate Indexed(codec: Codec, buf: bytes, blocks: seq<DataBlock>, index: seq<Entry>) {
    && |index| == |blocks|
    && forall i :: 0 <= i < |blocks| ==> Leads(codec, buf, blocks[i], index[i].value)
  }

  predicate Leads(codec: Codec, buf: bytes, b: DataBlock, handle: bytes) {
    var h := HandleRead(handle).out;
    h.Ok? && At(buf, h.value, Region(codec, b.kind, b.body))
  }

  lemma IndexedBlock(codec: Codec, buf: bytes, b: DataBlock, e: Entry, origin: string)
    requires Stored(codec, b) && Leads(codec, buf, b, e.value)
    ensures IndexedRecords(codec, buf, e, origin) == Ok(RowRecords(b.rows, origin))
  {
    hide BlockAt, HandleRead, BlockEntries, EncodeBlock, StandsFor, ItemsFit;
    ReadRegion(codec, buf, HandleRead(e.value).out.value, b.kind, b.body, EncodeBlock(Items(b), b.restarts));
    BlockRoundTrip(Items(b), b.restarts);
    ItemRecords(b.rows, Items(b), origin);
  }

  lemma StoredRowsFit(codec: Codec, b: DataBlock)
    requires Stored(codec, b)
    ensures forall i :: 0 <= i < |b.rows| ==> RowFits(b.rows[i])
  {
  }

  lemma {:induction false} CollectRows(codec: Codec, buf: bytes, blocks: seq<DataBlock>, index: seq<Entry>,
                                       origin: string)
    requires AllStored(codec, blocks) && Indexed(codec, buf, blocks, index)
    ensures Collect(codec, buf, index, origin) == Ok(RecordsOfBlocks(codec, blocks, origin))
  {
    hide IndexedRecords, Stored, Leads;
    if blocks != [] {
      IndexedBlock(codec, buf, blocks[0], index[0], origin);
      CollectRows(codec, buf, blocks[1..], index[1..], origin);
      StoredRowsFit(codec, blocks[0]);
      AllRowsFit(codec, blocks[1..]);
      RowRecordsConcat(blocks[0].rows, AllRows(blocks[1..]), origin);
    }
  }

  /** Wherever its blocks lie, a table whose footer leads to an index block and whose index leads to
      the data blocks reads as exactly the rows of the blocks, in index order. */
  lemma TableReads(codec: Codec, buf: bytes, blocks: seq<DataBlock>, handle: BlockHandle,
                   items: seq<Item>, restarts: bytes, kind: byte, body: bytes, origin: string)
    requires AllStored(codec, blocks) && Indexed(codec, buf, blocks, EntriesOf(items))
    requires IndexHandle(buf) == Ok(handle) && At(buf, handle, Region(codec, kind, body))
    requires ItemsFit(items, []) && IsRestartArray(restarts)
    requires StandsFor(codec, kind, body, EncodeBlock(items, restarts))
    ensures TableRecords(codec, buf, origin) == Ok(RecordsOfBlocks(codec, blocks, origin))
  {
    hide BlockAt, HandleRead, BlockEntries, EncodeBlock, StandsFor, ItemsFit, IndexHandle, Collect;
    ReadRegion(codec, buf, handle, kind, body, EncodeBlock(items, restarts));
    BlockRoundTrip(items, restarts);
    CollectRows(codec, buf, blocks, EntriesOf(items), origin);
  }

  // ---------------------------------------------------------------- the builder's layout

  function RegionOf(codec: Codec): DataBlock -> bytes {
    (b: DataBlock) => Region(codec, b.kind, b.body)
  }

  /** The data blocks one after another. */
  function Regions(codec: Codec, blocks: seq<DataBlock>): bytes {
    FlatMap(RegionOf(codec), blocks)
  }

  function RegionOffset(codec: Codec, blocks: seq<DataBlock>, i: nat): nat
    requires i <= |blocks|
  {
    |Regions(codec, blocks[..i])|
  }

  /** A table file as a builder writes it: data blocks, other blocks, index block, footer. The index
      items (keys, prefix lengths, restarts) and the stored form of the index block are its choice. */
  datatype Table = Table(blocks: seq<DataBlock>, others: bytes, metaindex: BlockHandle,
                         items: seq<Item>, restarts: bytes, kind: byte, body: bytes)

  function TableBytes(codec: Codec, t: Table): bytes
    requires |Regions(codec, t.blocks) + t.others| + |t.body| < U64_LIMIT
  {
    var front := Regions(codec, t.blocks) + t.others;
    front + Region(codec, t.kind, t.body) + Footer(t.metaindex, BlockHandle(|front|, |t.body|))
  }

  predicate WellBuilt(codec: Codec, t: Table) {
    && AllStored(codec, t.blocks)
    && |Regions(codec, t.blocks) + t.others| + |t.body| < U64_LIMIT
    && IndexItems(codec, t.blocks, t.items)
    && ItemsFit(t.items, []) && IsRestartArray(t.restarts)
    && StandsFor(codec, t.kind, t.body, EncodeBlock(t.items, t.restarts))
  }

  lemma RegionInPlace(codec: Codec, blocks: seq<DataBlock>, i: nat, rest: bytes)
    requires i < |blocks| && |Regions(codec, blocks)| < U64_LIMIT
    ensures RegionOffset(codec, blocks, i) + |blocks[i].body| + BLOCK_TRAILER_LEN <= |Regions(codec, blocks)|
    ensures At(Regions(codec, blocks) + rest, BlockHandle(RegionOffset(codec, blocks, i), |blocks[i].body|),
               Region(codec, blocks[i].kind, blocks[i].body))
  {
    hide Region;
    SplitAt(blocks, i);
    SplitOff(blocks, i);
    FlatMapConcat(RegionOf(codec), blocks[..i], blocks[i..]);
    FlatMapConcat(RegionOf(codec), [blocks[i]], blocks[i + 1..]);
    FlatMapSingle(RegionOf(codec), blocks[i]);
  }

  /** The index item of every block holds its handle; index keys, prefix lengths and restarts are free. */
  predicate IndexItems(codec: Codec, blocks: seq<DataBlock>, items: seq<Item>) {
    && |items| == |blocks|
    && forall i :: 0 <= i < |blocks| ==>
         && RegionOffset(codec, blocks, i) < U64_LIMIT && |blocks[i].body| < U64_LIMIT
         && items[i].value == EncodeHandle(BlockHandle(RegionOffset(codec, blocks, i), |blocks[i].body|))
  }

  lemma IndexLeads(codec: Codec, blocks: seq<DataBlock>, items: seq<Item>, rest: bytes)
    requires |Regions(codec, blocks)| < U64_LIMIT && IndexItems(codec, blocks, items)
    ensures Indexed(codec, Regions(codec, blocks) + rest, blocks, EntriesOf(items))
  {
    hide HandleRead, EncodeHandle, Region, At;
    var buf := Regions(codec, blocks) + rest;
    forall i | 0 <= i < |blocks|
      ensures Leads(codec, buf, blocks[i], EntriesOf(items)[i].value)
    {
      var h := BlockHandle(RegionOffset(codec, blocks, i), |blocks[i].body|);
      RegionInPlace(codec, blocks, i, rest);
      HandleRoundTrip(h, []);
      assert EncodeHandle(h) + [] == EncodeHandle(h);
    }
  }

  /** Reading a built table returns exactly the rows written, in order, for any choice of prefix
      lengths, restarts, compression, index keys and other blocks. */
  lemma TableRoundTrip(codec: Codec, t: Table, origin: string)
    requires WellBuilt(codec, t)
    ensures TableRecords(codec, TableBytes(codec, t), origin) == Ok(RecordsOfBlocks(codec, t.blocks, origin))
  {
    hide IndexHandle, Footer, Region, Regions, StandsFor, EncodeBlock, ItemsFit, AllStored, Stored, IndexItems,
      Indexed;
    var front := Regions(codec, t.blocks) + t.others;
    var region, handle := Region(codec, t.kind, t.body), BlockHandle(|front|, |t.body|);
    var footer := Footer(t.metaindex, handle);
    var buf := TableBytes(codec, t);
    FooterRoundTrip(front + region, t.metaindex, handle);
    assert buf[|front|..|front| + |region|] == region;
    assert buf == Regions(codec, t.blocks) + (t.others + region + footer);
    IndexLeads(codec, t.blocks, t.items, t.others + region + footer);
    TableReads(codec, buf, t.blocks, handle, t.items, t.restarts, t.kind, t.body, origin);
  }

  // ---------------------------------------------------------------- a plain builder

  predicate RowStorable(row: Row) {
    RowFits(row) && |row.user| + INTERNAL_KEY_TRAILER < U32_LIMIT && |row.value| < U32_LIMIT
  }

  predicate AllStorable(groups: seq<seq<Row>>) {
    forall i, j :: 0 <= i < |groups| && 0 <= j < |groups[i]| ==> RowStorable(groups[i][j])
  }

  function PlainItems(rows: seq<Row>): (items: seq<Item>)
    ensures |items| == |rows|
  {
    seq(|rows|, i requires 0 <= i < |rows| => Item(0, InternalKeyOf(rows[i]), rows[i].value))
  }

  /** Items that share nothing fit whatever key comes before them. */
  lemma {:induction false} UnsharedFit(items: seq<Item>, prev: bytes)
    requires forall i :: 0 <= i < |items| ==>
               items[i].shared == 0 && |items[i].key| < U32_LIMIT && |items[i].value| < U32_LIMIT
    ensures ItemsFit(items, prev)
  {
    if items != [] {
      assert items[0].key[..0] == prev[..0];
      UnsharedFit(items[1..], items[0].key);
    }
  }

  lemma PlainItemsFit(rows: seq<Row>)
    requires forall i :: 0 <= i < |rows| ==> RowStorable(rows[i])
    ensures ItemsFit(PlainItems(rows), [])
  {
    forall i | 0 <= i < |rows|
      ensures |PlainItems(rows)[i].key| < U32_LIMIT && |PlainItems(rows)[i].value| < U32_LIMIT
    {
      assert RowStorable(rows[i]);
    }
    UnsharedFit(PlainItems(rows), []);
  }

  /** An uncompressed block without prefix sharing and without restarts. */
  function PlainBlock(rows: seq<Row>): DataBlock
    requires forall i :: 0 <= i < |rows| ==> RowStorable(rows[i])
  {
    PlainItemsFit(rows);
    DataBlock(rows, seq(|rows|, _ => 0), [], 0, EncodeBlock(PlainItems(rows), []))
  }

  lemma PlainStored(codec: Codec, rows: seq<Row>)
    requires forall i :: 0 <= i < |rows| ==> RowStorable(rows[i])
    ensures Stored(codec, PlainBlock(rows))
  {
    PlainItemsFit(rows);
    assert Items(PlainBlock(rows)) == PlainItems(rows);
  }

  function PlainBlocks(groups: seq<seq<Row>>): (blocks: seq<DataBlock>)
    requires AllStorable(groups)
    ensures |blocks| == |groups|
  {
    seq(|groups|, i requires 0 <= i < |groups| => PlainBlock(groups[i]))
  }

  predicate Addressable(codec: Codec, blocks: seq<DataBlock>) {
    forall i :: 0 <= i < |blocks| ==> RegionOffset(codec, blocks, i) < U64_LIMIT && |blocks[i].body| < U64_LIMIT
  }

  function PlainIndex(codec: Codec, blocks: seq<DataBlock>): (items: seq<Item>)
    requires Addressable(codec, blocks)
    ensures |items| == |blocks|
  {
    seq(|blocks|, i requires 0 <= i < |blocks| =>
      Item(0, [], EncodeHandle(BlockHandle(RegionOffset(codec, blocks, i), |blocks[i].body|))))
  }

  lemma PlainIndexFits(codec: Codec, blocks: seq<DataBlock>)
    requires Addressable(codec, blocks)
    ensures ItemsFit(PlainIndex(codec, blocks), []) && IndexItems(codec, blocks, PlainIndex(codec, blocks))
  {
    hide EncodeHandle, RegionOffset;
    forall i | 0 <= i < |blocks|
      ensures |PlainIndex(codec, blocks)[i].value| < U32_LIMIT
    {
      HandleRoundTrip(BlockHandle(RegionOffset(codec, blocks, i), |blocks[i].body|), []);
    }
    UnsharedFit(PlainIndex(codec, blocks), []);
  }

  /** These blocks behind the plainest index the format allows. */
  function TableOf(codec: Codec, blocks: seq<DataBlock>): Table
    requires Addressable(codec, blocks)
  {
    PlainIndexFits(codec, blocks);
    var items := PlainIndex(codec, blocks);
    Table(blocks, [], BlockHandle(0, 0), items, [], 0, EncodeBlock(items, []))
  }

  /** The table of these rows, block by block, in the plainest form the format allows. */
  function PlainTable(codec: Codec, groups: seq<seq<Row>>): Table
    requires AllStorable(groups) && Addressable(codec, PlainBlocks(groups))
  {
    TableOf(codec, PlainBlocks(groups))
  }

  lemma {:induction false} AllRowsPlain(groups: seq<seq<Row>>)
    requires AllStorable(groups)
    ensures AllRows(PlainBlocks(groups)) == FlatMap((g: seq<Row>) => g, groups)
  {
    hide PlainBlock;
    if groups != [] {
      PlainRows(groups[0]);
      AllRowsPlain(groups[1..]);
      assert PlainBlocks(groups)[1..] == PlainBlocks(groups[1..]);
    }
  }

  lemma PlainRows(rows: seq<Row>)
    requires forall i :: 0 <= i < |rows| ==> RowStorable(rows[i])
    ensures PlainBlock(rows).rows == rows
  {
  }

  /** For any rows in any grouping into blocks there is a table file, and it reads back as these rows. */
  lemma PlainTableRoundTrip(codec: Codec, groups: seq<seq<Row>>, origin: string)
    requires AllStorable(groups) && Addressable(codec, PlainBlocks(groups))
    requires var t := PlainTable(codec, groups); |Regions(codec, t.blocks)| + |t.body| < U64_LIMIT
    ensures var t := PlainTable(codec, groups);
            && WellBuilt(codec, t)
            && AllRows(t.blocks) == FlatMap((g: seq<Row>) => g, groups)
            && TableRecords(codec, TableBytes(codec, t), origin) == Ok(RecordsOfBlocks(codec, t.blocks, origin))
  {
    hide TableRecords, TableBytes, EncodeBlock, Regions, PlainBlock, Stored;
    var t := PlainTable(codec, groups);
    PlainIndexFits(codec, t.blocks);
    forall i | 0 <= i < |t.blocks|
      ensures Stored(codec, t.blocks[i])
    {
      PlainStored(codec, groups[i]);
    }
    AllRowsPlain(groups);
    assert Regions(codec, t.blocks) + [] == Regions(codec, t.blocks);
    TableRoundTrip(codec, t, origin);
  }

  /** The same rows stored as the Snappy image of their plain block. */
  function SnappyBlock(compress: bytes -> bytes, rows: seq<Row>): DataBlock
    requires forall i :: 0 <= i < |rows| ==> RowStorable(rows[i])
  {
    var plain := PlainBlock(rows);
    plain.(kind := 1, body := compress(plain.body))
  }

  /** The library decompresses what the builder compressed, and the block is within the limit. */
  predicate Decompresses(codec: Codec, compress: bytes -> bytes, block: bytes) {
    && codec.snappyLength(compress(block)).Some? && codec.snappyLength(compress(block)).value <= 0x1000_0000
    && codec.snappyDecode(compress(block)) == Some(block)
  }

  lemma SnappyStored(codec: Codec, compress: bytes -> bytes, rows: seq<Row>)
    requires forall i :: 0 <= i < |rows| ==> RowStorable(rows[i])
    requires Decompresses(codec, compress, PlainBlock(rows).body)
    ensures Stored(codec, SnappyBlock(compress, rows))
  {
    PlainItemsFit(rows);
    assert Items(SnappyBlock(compress, rows)) == PlainItems(rows);
  }

  function SnappyBlocks(compress: bytes -> bytes, groups: seq<seq<Row>>): (blocks: seq<DataBlock>)
    requires AllStorable(groups)
    ensures |blocks| == |groups|
  {
    seq(|groups|, i requires 0 <= i < |groups| => SnappyBlock(compress, groups[i]))
  }

  lemma {:induction false} AllRowsSnappy(compress: bytes -> bytes, groups: seq<seq<Row>>)
    requires AllStorable(groups)
    ensures AllRows(SnappyBlocks(compress, groups)) == FlatMap((g: seq<Row>) => g, groups)
  {
    hide PlainBlock;
    if groups != [] {
      PlainRows(groups[0]);
      AllRowsSnappy(compress, groups[1..]);
      assert SnappyBlocks(compress, groups)[1..] == SnappyBlocks(compress, groups[1..]);
    }
  }

  /** A table of compressed blocks reads as the rows that were compressed. */
  lemma SnappyTableRoundTrip(codec: Codec, compress: bytes -> bytes, groups: seq<seq<Row>>, origin: string)
    requires AllStorable(groups) && Addressable(codec, SnappyBlocks(compress, groups))
    requires forall i :: 0 <= i < |groups| ==> Decompresses(codec, compress, PlainBlock(groups[i]).body)
    requires var t := TableOf(codec, SnappyBlocks(compress, groups)); |Regions(codec, t.blocks)| + |t.body| < U64_LIMIT
    ensures var t := TableOf(codec, SnappyBlocks(compress, groups));
            && WellBuilt(codec, t) && (forall i :: 0 <= i < |t.blocks| ==> t.blocks[i].kind == 1)
            && AllRows(t.blocks) == FlatMap((g: seq<Row>) => g, groups)
            && TableRecords(codec, TableBytes(codec, t), origin) == Ok(RecordsOfBlocks(codec, t.blocks, origin))
  {
    hide TableRecords, TableBytes, EncodeBlock, Regions, PlainBlock, Stored, Decompresses;
    var t := TableOf(codec, SnappyBlocks(compress, groups));
    PlainIndexFits(codec, t.blocks);
    forall i | 0 <= i < |t.blocks|
      ensures Stored(codec, t.blocks[i])
    {
      SnappyStored(codec, compress, groups[i]);
    }
    AllRowsSnappy(compress, groups);
    assert Regions(codec, t.blocks) + [] == Regions(codec, t.blocks);
    TableRoundTrip(codec, t, origin);
  }

  // ---------------------------------------------------------------- acceptance of arbitrary tables

  /** A list of index entries is accepted iff every block it names is; the first failure decides. */
  lemma {:induction false} CollectAccepts(codec: Codec, buf: bytes, index: seq<Entry>, origin: string)
    ensures Collect(codec, buf, index, origin).Ok? <==>
            forall i :: 0 <= i < |index| ==> IndexedRecords(codec, buf, index[i], origin).Ok?
    ensures Collect(codec, buf, index, origin).Err? ==>
            exists i :: 0 <= i < |index|
                        && IndexedRecords(codec, buf, index[i], origin) == Collect(codec, buf, index, origin)
                        && forall j :: 0 <= j < i ==> IndexedRecords(codec, buf, index[j], origin).Ok?
  {
    hide IndexedRecords;
    if index != [] {
      CollectAccepts(codec, buf, index[1..], origin);
      var first, later := IndexedRecords(codec, buf, index[0], origin), Collect(codec, buf, index[1..], origin);
      if first.Ok? && later.Err? {
        var i :| 0 <= i < |index[1..]|
                 && IndexedRecords(codec, buf, index[1..][i], origin) == later
                 && forall j :: 0 <= j < i ==> IndexedRecords(codec, buf, index[1..][j], origin).Ok?;
        assert index[i + 1] == index[1..][i];
        forall j | 0 <= j < i + 1
          ensures IndexedRecords(codec, buf, index[j], origin).Ok?
        {
          assert j > 0 ==> index[j] == index[1..][j - 1];
        }
      }
    }
  }

  // ---------------------------------------------------------------- tombstones

  lemma {:induction false} RowRecordsAt(rows: seq<Row>, origin: string, i: nat)
    requires i < |rows| && forall k :: 0 <= k < |rows| ==> RowFits(rows[k])
    ensures |RowRecords(rows, origin)| == |rows| && RowRecords(rows, origin)[i] == RecordOfRow(rows[i], origin)
  {
    if i > 0 {
      RowRecordsAt(rows[1..], origin, i - 1);
    } else if |rows| > 1 {
      RowRecordsAt(rows[1..], origin, 0);
    }
  }

  lemma RowRecordsLength(rows: seq<Row>, origin: string)
    requires forall k :: 0 <= k < |rows| ==> RowFits(rows[k])
    ensures |RowRecords(rows, origin)| == |rows|
  {
    if rows != [] {
      RowRecordsAt(rows, origin, 0);
    }
  }

  lemma OneItemLength(item: Item)
    requires item.shared == 0 && |item.key| < U32_LIMIT && |item.value| < U32_LIMIT
    ensures ItemsFit([item], []) && |EncodeBlock([item], [])| <= 34 + |item.key| + |item.value|
  {
    hide EncodeVar;
    UnsharedFit([item], []);
    EncodeVarFits(0);
    EncodeVarFits(|item.key|);
    EncodeVarFits(|item.value|);
    assert [item][1..] == [];
    assert EncodeItems([item], []) == EncodeItem(item, []) + [];
  }

  /** A table of a single row is small enough for its handles. */
  lemma OneRowTable(codec: Codec, row: Row)
    requires RowStorable(row)
    ensures AllStorable([[row]]) && Addressable(codec, PlainBlocks([[row]]))
    ensures var t := PlainTable(codec, [[row]]);
            t.blocks == [PlainBlock([row])] && |Regions(codec, t.blocks)| + |t.body| < U64_LIMIT
  {
    hide EncodeBlock, EncodeHandle, InternalKeyOf;
    var block := PlainBlock([row]);
    assert PlainBlocks([[row]]) == [block];
    assert PlainItems([row]) == [Item(0, InternalKeyOf(row), row.value)];
    InternalKeyLength(row);
    OneItemLength(PlainItems([row])[0]);
    FlatMapSingle(RegionOf(codec), block);
    assert [block][..0] == [];
    assert RegionOffset(codec, [block], 0) == 0;
    assert Addressable(codec, [block]);
    var items := PlainIndex(codec, [block]);
    HandleRoundTrip(BlockHandle(0, |block.body|), []);
    OneItemLength(items[0]);
    assert items == [items[0]];
  }

  lemma InternalKeyLength(row: Row)
    ensures |InternalKeyOf(row)| == |row.user| + INTERNAL_KEY_TRAILER
  {
  }

  /** A tombstone stored with a value is surfaced with that value, from a table file that holds it. */
  lemma TombstoneWithValue(codec: Codec, row: Row, origin: string)
    requires RowStorable(row) && row.deletion && row.value != []
    ensures AllStorable([[row]]) && Addressable(codec, PlainBlocks([[row]]))
    ensures var t := PlainTable(codec, [[row]]);
            && |Regions(codec, t.blocks) + t.others| + |t.body| < U64_LIMIT
            && TableRecords(codec, TableBytes(codec, t), origin)
               == Ok([Record(row.user, row.value, row.sequence, true, origin)])
  {
    hide TableRecords, TableBytes, Regions, PlainBlock, PlainBlocks, AllStored, RecordsOfBlocks, RowStorable,
      Stored, ItemsFit, IndexItems, RowFits;
    OneRowTable(codec, row);
    var t := PlainTable(codec, [[row]]);
    assert Regions(codec, t.blocks) + t.others == Regions(codec, t.blocks);
    PlainTableRoundTrip(codec, [[row]], origin);
    AllStoredBlocks(codec, t);
    OneRowRecords(codec, row, origin);
  }

  lemma OneRowRecords(codec: Codec, row: Row, origin: string)
    requires RowStorable(row)
    ensures var blocks := [PlainBlock([row])];
            && AllStored(codec, blocks)
            && RecordsOfBlocks(codec, blocks, origin)
               == [Record(row.user, row.value, row.sequence, row.deletion, origin)]
  {
    hide Stored, RowRecords, PlainBlock;
    PlainStored(codec, [row]);
    PlainRows([row]);
    var blocks := [PlainBlock([row])];
    assert blocks[1..] == [] && AllRows([]) == [];
    assert AllRows(blocks) == [row];
    RowRecordsAt([row], origin, 0);
    assert RowRecords([row], origin) == [RecordOfRow(row, origin)];
  }

  /** The tombstones read from a table carry no value iff the writer stored none for any of them. */
  lemma TombstonesEmptyIff(codec: Codec, t: Table, origin: string)
    requires WellBuilt(codec, t)
    ensures TableRecords(codec, TableBytes(codec, t), origin).Ok?
    ensures (forall r :: r in TableRecords(codec, TableBytes(codec, t), origin).value && r.deleted ==> r.value == [])
            <==> (forall row :: row in AllRows(t.blocks) && row.deletion ==> row.value == [])
  {
    TableRoundTrip(codec, t, origin);
    hide TableRecords, TableBytes, WellBuilt, RowRecords;
    AllStoredBlocks(codec, t);
    AllRowsFit(codec, t.blocks);
    var rows, records := AllRows(t.blocks), RecordsOfBlocks(codec, t.blocks, origin);
    RowRecordsLength(rows, origin);
    forall i | 0 <= i < |rows|
      ensures records[i] == RecordOfRow(rows[i], origin) && records[i] in records && rows[i] in rows
    {
      RowRecordsAt(rows, origin, i);
    }
  }

  lemma AllStoredBlocks(codec: Codec, t: Table)
    requires WellBuilt(codec, t)
    ensures AllStored(codec, t.blocks)
  {
  }

  // ---------------------------------------------------------------- records and entries of any accepted table

  /** The entry stands in the data block that an index entry names. */
  predicate BlockHolds(codec: Codec, buf: bytes, named: Entry, e: Entry) {
    var handle := HandleRead(named.value).out;
    handle.Ok? &&
    var block := BlockAt(codec, buf, handle.value);
    block.Ok? && BlockEntries(block.value).Ok? && e in BlockEntries(block.value).value
  }

  /** The entry stands in a data block of the table. */
  ghost predicate TableHolds(codec: Codec, buf: bytes, e: Entry) {
    var handle := IndexHandle(buf);
    handle.Ok? &&
    var block := BlockAt(codec, buf, handle.value);
    block.Ok? && BlockEntries(block.value).Ok?
    && exists named :: named in BlockEntries(block.value).value && BlockHolds(codec, buf, named, e)
  }

  lemma {:induction false} EntryRecordsHold(entries: seq<Entry>, origin: string, r: Record)
    ensures r in EntryRecords(entries, origin) <==> exists e :: e in entries && EntryRecord(e, origin) == [r]
  {
    hide SplitInternalKey;
    if entries != [] {
      EntryRecordsHold(entries[1..], origin, r);
      assert forall e :: e in entries <==> e == entries[0] || e in entries[1..];
    }
  }

  lemma IndexedHold(codec: Codec, buf: bytes, named: Entry, origin: string, r: Record)
    requires IndexedRecords(codec, buf, named, origin).Ok?
    ensures r in IndexedRecords(codec, buf, named, origin).value <==>
            exists e :: BlockHolds(codec, buf, named, e) && EntryRecord(e, origin) == [r]
  {
    hide HandleRead, BlockAt, BlockEntries, EntryRecord;
    var block := BlockAt(codec, buf, HandleRead(named.value).out.value).value;
    EntryRecordsHold(BlockEntries(block).value, origin, r);
  }

  /** The entry stands in a data block that one of these index entries names. */
  ghost predicate SomeBlockHolds(codec: Codec, buf: bytes, index: seq<Entry>, e: Entry) {
    exists named :: named in index && BlockHolds(codec, buf, named, e)
  }

  lemma {:induction false} CollectHolds(codec: Codec, buf: bytes, index: seq<Entry>, origin: string, r: Record)
    requires Collect(codec, buf, index, origin).Ok?
    ensures r in Collect(codec, buf, index, origin).value <==>
            exists e :: SomeBlockHolds(codec, buf, index, e) && EntryRecord(e, origin) == [r]
  {
    hide IndexedRecords, BlockHolds, EntryRecord;
    if index != [] {
      IndexedHold(codec, buf, index[0], origin, r);
      CollectHolds(codec, buf, index[1..], origin, r);
      forall e
        ensures SomeBlockHolds(codec, buf, index, e)
                <==> BlockHolds(codec, buf, index[0], e) || SomeBlockHolds(codec, buf, index[1..], e)
      {
        assert forall named :: named in index <==> named == index[0] || named in index[1..];
      }
    }
  }

  /** Of any bytes accepted as a table: a record is surfaced iff an entry of a data block holds it. */
  lemma RecordsAreEntries(codec: Codec, buf: bytes, origin: string, r: Record)
    requires TableRecords(codec, buf, origin).Ok?
    ensures r in TableRecords(codec, buf, origin).value <==>
            exists e :: TableHolds(codec, buf, e) && EntryRecord(e, origin) == [r]
  {
    hide IndexHandle, BlockAt, BlockEntries, BlockHolds, EntryRecord, Collect;
    var index := BlockEntries(BlockAt(codec, buf, IndexHandle(buf).value).value).value;
    CollectHolds(codec, buf, index, origin, r);
    assert forall e :: TableHolds(codec, buf, e) <==> SomeBlockHolds(codec, buf, index, e);
  }

  /** An internal key whose type byte, the first of the trailer, says deletion. */
  predicate DeletionKey(key: bytes) {
    |key| >= INTERNAL_KEY_TRAILER && key[|key| - INTERNAL_KEY_TRAILER] == TYPE_DELETION
  }

  lemma DeletionSurfaces(e: Entry, origin: string)
    ensures DeletionKey(e.key) <==> |EntryRecord(e, origin)| == 1 && EntryRecord(e, origin)[0].deleted
    ensures EntryRecord(e, origin) != [] ==> EntryRecord(e, origin)[0].value == e.value
  {
    if |e.key| >= INTERNAL_KEY_TRAILER {
      var trailer := e.key[|e.key| - INTERNAL_KEY_TRAILER..];
      LowByte(trailer[0], Le(trailer[1..]));
    }
  }

  /** Of any bytes accepted as a table: its tombstones are empty iff no entry of a data block has a
      deletion key and a value. */
  lemma AcceptedTombstonesEmptyIff(codec: Codec, buf: bytes, origin: string)
    requires TableRecords(codec, buf, origin).Ok?
    ensures (forall r :: r in TableRecords(codec, buf, origin).value && r.deleted ==> r.value == [])
            <==> (forall e :: TableHolds(codec, buf, e) && DeletionKey(e.key) ==> e.value == [])
  {
    hide TableRecords, TableHolds, DeletionKey, EntryRecord;
    var records := TableRecords(codec, buf, origin).value;
    forall e | TableHolds(codec, buf, e) && DeletionKey(e.key)
      ensures exists r :: r in records && r.deleted && r.value == e.value
    {
      DeletionSurfaces(e, origin);
      var r := EntryRecord(e, origin)[0];
      assert EntryRecord(e, origin) == [r];
      RecordsAreEntries(codec, buf, origin, r);
    }
    forall r | r in records && r.deleted
      ensures exists e :: TableHolds(codec, buf, e) && DeletionKey(e.key) && e.value == r.value
    {
      RecordsAreEntries(codec, buf, origin, r);
      var e :| TableHolds(codec, buf, e) && EntryRecord(e, origin) == [r];
      DeletionSurfaces(e, origin);
    }
  }
}
