/** The SSTable reader: footer, checksummed blocks, prefix-compressed entries, internal keys. */
module Sstable {
  import opened Bytes
  import opened Cursors
  import opened Sequences

  const FOOTER_LEN := 48
  const MAGIC_OFFSET := 40
  const TABLE_MAGIC: u64 := 0xdb47_7524_8b80_fb57
  const BLOCK_TRAILER_LEN := 5
  const COMPRESSION_NONE: byte := 0
  const COMPRESSION_SNAPPY: byte := 1
  const TYPE_DELETION := 0
  const INTERNAL_KEY_TRAILER := 8
  const MAX_DECOMPRESSED_BLOCK := 256 * 1024 * 1024

  /** The library routines a table is read with; arbitrary functions stand in their place. */
  datatype Codec = Codec(crc: Crc32c, snappyLength: bytes -> Option<nat>, snappyDecode: bytes -> Option<bytes>)

  datatype BlockHandle = BlockHandle(offset: u64, size: u64)
  datatype Entry = Entry(key: bytes, value: bytes)

  // ---------------------------------------------------------------- handles and footer

  function HandleRead(s: bytes): Read<BlockHandle> {
    var offset := Var64Read(s);
    if offset.out.Err? then Read(Err(offset.out.error), offset.used)
    else
      var size := Var64Read(s[offset.used..]);
      if size.out.Err? then Read(Err(size.out.error), offset.used + size.used)
      else Read(Ok(BlockHandle(offset.out.value, size.out.value)), offset.used + size.used)
  }

  method ReadBlockHandle(cur: Cursor) returns (r: Result<BlockHandle>)
    requires cur.Valid()
    modifies cur
    ensures cur.Valid() && old(cur.pos) <= cur.pos
    ensures Read(r, cur.pos - old(cur.pos)) == HandleRead(old(cur.Rest()))
    ensures cur.Rest() == old(cur.Rest())[cur.pos - old(cur.pos)..]
  {
    hide DecodeVar;
    var offset :- cur.ReadVarintU64();
    var size :- cur.ReadVarintU64();
    return Ok(BlockHandle(offset, size));
  }

  /** The index handle of a table file. */
  function IndexHandle(buf: bytes): Result<BlockHandle> {
    if |buf| < FOOTER_LEN then Err(UnexpectedEof)
    else
      var footer := buf[|buf| - FOOTER_LEN..];
      if Le64(footer[MAGIC_OFFSET..MAGIC_OFFSET + 8]) != TABLE_MAGIC then Err(BadTableMagic)
      else
        var metaindex := HandleRead(footer[..MAGIC_OFFSET]);
        if metaindex.out.Err? then Err(metaindex.out.error)
        else HandleRead(footer[metaindex.used..MAGIC_OFFSET]).out
  }

  method ParseFooter(buf: bytes) returns (r: Result<BlockHandle>)
    ensures r == IndexHandle(buf)
  {
    hide Var64Read;
    if |buf| < FOOTER_LEN {
      return Err(UnexpectedEof);
    }
    var footer := buf[|buf| - FOOTER_LEN..];
    if Le64(footer[MAGIC_OFFSET..MAGIC_OFFSET + 8]) != TABLE_MAGIC {
      return Err(BadTableMagic);
    }
    var cur := new Cursor(footer[..MAGIC_OFFSET]);
    var metaindex :- ReadBlockHandle(cur);
    assert cur.Rest() == footer[cur.pos..MAGIC_OFFSET];
    r := ReadBlockHandle(cur);
  }

  // ---------------------------------------------------------------- blocks

  /** The block a handle names, trailer stripped: in bounds, checksummed, decompressed. */
  function BlockAt(codec: Codec, buf: bytes, handle: BlockHandle): Result<bytes> {
    var end := handle.offset + handle.size + BLOCK_TRAILER_LEN;
    if end > |buf| then Err(LengthOutOfRange)
    else
      var region := buf[handle.offset..end];
      var stored := Le32(region[handle.size + 1..handle.size + 5]);
      if MaskCrc(codec.crc(region[..handle.size + 1])) != stored then Err(BadBlockCrc)
      else Decompress(codec, region[handle.size], region[..handle.size])
  }

  function Decompress(codec: Codec, kind: byte, data: bytes): Result<bytes> {
    if kind == COMPRESSION_NONE then Ok(data)
    else if kind == COMPRESSION_SNAPPY then
      match codec.snappyLength(data)
      case None => Err(LengthOutOfRange)
      case Some(n) =>
        if n > MAX_DECOMPRESSED_BLOCK then Err(LengthOutOfRange)
        else
          match codec.snappyDecode(data)
          case None => Err(LengthOutOfRange)
          case Some(block) => Ok(block)
    else Err(UnknownCompression)
  }

  /** Bytes stored with type byte `kind` stand for `block`: plain, or its Snappy image of at most 256 MiB. */
  predicate StandsFor(codec: Codec, kind: byte, data: bytes, block: bytes) {
    || (kind == 0 && data == block)
    || (&& kind == 1 && codec.snappyLength(data).Some? && codec.snappyLength(data).value <= 0x1000_0000
        && codec.snappyDecode(data) == Some(block))
  }

  /** Exactly the stored forms are accepted; a type byte above 1 is an unknown compression, and any
      other failure a length out of range. */
  lemma DecompressExact(codec: Codec, kind: byte, data: bytes, block: bytes)
    ensures Decompress(codec, kind, data) == Ok(block) <==> StandsFor(codec, kind, data, block)
    ensures Decompress(codec, kind, data).Err? ==>
              Decompress(codec, kind, data) == Err(if kind > 1 then UnknownCompression else LengthOutOfRange)
  {
  }

  // ---------------------------------------------------------------- entries

  datatype EntryHeader = EntryHeader(shared: u32, nonShared: u32, valueLen: u32)

  function HeaderRead(s: bytes): (r: Read<EntryHeader>)
    ensures r.out.Ok? ==> 3 <= r.used <= |s|
  {
    var shared := Var32Read(s);
    if shared.out.Err? then Read(Err(shared.out.error), shared.used)
    else
      var nonShared := Var32Read(s[shared.used..]);
      if nonShared.out.Err? then Read(Err(nonShared.out.error), shared.used + nonShared.used)
      else
        var used := shared.used + nonShared.used;
        var valueLen := Var32Read(s[used..]);
        if valueLen.out.Err? then Read(Err(valueLen.out.error), used + valueLen.used)
        else Read(Ok(EntryHeader(shared.out.value, nonShared.out.value, valueLen.out.value)), used + valueLen.used)
  }

  datatype EntryRead = EntryRead(entry: Entry, shared: nat, used: nat)

  /** The entry at the front of `s` when `prev` is the key before it. */
  function NextEntry(s: bytes, prev: bytes): (r: Result<EntryRead>)
    ensures r.Ok? ==> 3 <= r.value.used <= |s| && r.value.shared <= |prev|
  {
    var header := HeaderRead(s);
    if header.out.Err? then Err(header.out.error)
    else
      var EntryHeader(shared, nonShared, valueLen) := header.out.value;
      var body := s[header.used..];
      if shared > |prev| then Err(LengthOutOfRange)
      else if nonShared > |body| then Err(UnexpectedEof)
      else
        var rest := body[nonShared..];
        if valueLen > |rest| then Err(UnexpectedEof)
        else
          var entry := Entry(prev[..shared] + body[..nonShared], rest[..valueLen]);
          Ok(EntryRead(entry, shared, header.used + nonShared + valueLen))
  }

  function Prepend<T>(front: seq<T>, r: Result<seq<T>>): Result<seq<T>> {
    if r.Err? then r else Ok(front + r.value)
  }

  lemma PrependTwice<T>(a: seq<T>, b: seq<T>, r: Result<seq<T>>)
    ensures Prepend(a, Prepend(b, r)) == Prepend(a + b, r)
  {
    if r.Ok? {
      assert a + (b + r.value) == (a + b) + r.value;
    }
  }

  function Entries(s: bytes, prev: bytes): Result<seq<Entry>> {
    if s == [] then Ok([])
    else
      var next := NextEntry(s, prev);
      if next.Err? then Err(next.error)
      else Prepend([next.value.entry], Entries(s[next.value.used..], next.value.entry.key))
  }

  /** The entry area of a block: everything before the restart array and its count. */
  function EntryArea(block: bytes): Result<bytes> {
    if |block| < 4 then Err(UnexpectedEof)
    else
      var countAt := |block| - 4;
      var restarts := Le32(block[countAt..]);
      if restarts * 4 > countAt then Err(LengthOutOfRange)
      else Ok(block[..countAt - restarts * 4])
  }

  function BlockEntries(block: bytes): Result<seq<Entry>> {
    var area := EntryArea(block);
    if area.Err? then Err(area.error) else Entries(area.value, [])
  }

  method ReadEntryHeader(cur: Cursor) returns (r: Result<EntryHeader>)
    requires cur.Valid()
    modifies cur
    ensures cur.Valid() && old(cur.pos) <= cur.pos
    ensures Read(r, cur.pos - old(cur.pos)) == HeaderRead(old(cur.Rest()))
    ensures cur.Rest() == old(cur.Rest())[cur.pos - old(cur.pos)..]
  {
    hide DecodeVar, Var32Read;
    ghost var s := cur.Rest();
    var shared :- cur.ReadVarintU32();
    var nonShared :- cur.ReadVarintU32();
    ghost var a, b := Var32Read(s).used, Var32Read(s[Var32Read(s).used..]).used;
    Drop(s, a, b);
    var valueLen :- cur.ReadVarintU32();
    Drop(s, a + b, Var32Read(s[a + b..]).used);
    return Ok(EntryHeader(shared, nonShared, valueLen));
  }

  lemma EntriesStep(s: bytes, prev: bytes, out: seq<Entry>)
    requires s != []
    ensures var next := NextEntry(s, prev);
            Prepend(out, Entries(s, prev))
            == if next.Err? then Err(next.error)
               else Prepend(out + [next.value.entry], Entries(s[next.value.used..], next.value.entry.key))
  {
    hide NextEntry;
    var next := NextEntry(s, prev);
    if next.Ok? {
      PrependTwice(out, [next.value.entry], Entries(s[next.value.used..], next.value.entry.key));
    }
  }

  method ParseBlockEntries(block: bytes) returns (r: Result<seq<Entry>>)
    ensures r == BlockEntries(block)
  {
    hide Entries, NextEntry, Le32, Prepend;
    if |block| < 4 {
      return Err(UnexpectedEof);
    }
    var countAt := |block| - 4;
    var restartBytes := Le32(block[countAt..]) * 4;
    if restartBytes > countAt {
      return Err(LengthOutOfRange);
    }
    var entriesEnd := countAt - restartBytes;
    var cur := new Cursor(block[..entriesEnd]);
    var prevKey: bytes := [];
    var out: seq<Entry> := [];
    ghost var all := Entries(block[..entriesEnd], []);
    PrependNothing(all);
    while cur.pos < |cur.buf|
      invariant cur.Valid() && fresh(cur)
      invariant Prepend(out, Entries(cur.Rest(), prevKey)) == all
      decreases |cur.Rest()|
    {
      EntriesStep(cur.Rest(), prevKey, out);
      var entry := ReadEntry(cur, prevKey);
      if entry.Err? {
        return Err(entry.error);
      }
      prevKey := entry.value.key;
      out := out + [entry.value];
    }
    assert cur.Rest() == [];
    AllEntriesRead(prevKey, out);
    return Ok(out);
  }

  /** The body of the entry loop: three lengths, the key behind its shared prefix, the value. */
  method ReadEntry(cur: Cursor, prevKey: bytes) returns (r: Result<Entry>)
    requires cur.Valid()
    modifies cur
    ensures cur.Valid()
    ensures var next := NextEntry(old(cur.Rest()), prevKey);
            if next.Err? then r == Err(next.error)
            else
              && r == Ok(next.value.entry)
              && cur.Rest() == old(cur.Rest())[next.value.used..]
  {
    hide HeaderRead, NextEntry, TakeRead;
    ghost var s := cur.Rest();
    NextEntryFails(s, prevKey);
    var header :- ReadEntryHeader(cur);
    var shared := header.shared;
    if shared > |prevKey| {
      return Err(LengthOutOfRange);
    }
    ghost var body := cur.Rest();
    TakeUsed(body, header.nonShared);
    var keyDelta :- cur.Take(header.nonShared);
    TakeUsed(cur.Rest(), header.valueLen);
    var value :- cur.Take(header.valueLen);
    r := Ok(Entry(prevKey[..shared] + keyDelta, value));
    NextEntryIs(s, prevKey, header, keyDelta, value);
  }

  lemma TakeUsed(s: bytes, n: nat)
    ensures TakeRead(s, n).out.Ok? <==> n <= |s|
    ensures TakeRead(s, n).used == if n <= |s| then n else 0
    ensures TakeRead(s, n).out.Err? ==> TakeRead(s, n).out == Err(UnexpectedEof)
  {
  }

  lemma NextEntryFails(s: bytes, prev: bytes)
    ensures var header, next := HeaderRead(s), NextEntry(s, prev);
            if header.out.Err? then next == Err(header.out.error)
            else
              var h, body := header.out.value, s[header.used..];
              && (h.shared > |prev| ==> next == Err(LengthOutOfRange))
              && (h.shared <= |prev| && TakeRead(body, h.nonShared).out.Err? ==> next == Err(UnexpectedEof))
              && (h.shared <= |prev| && h.nonShared <= |body| && TakeRead(body[h.nonShared..], h.valueLen).out.Err?
                  ==> next == Err(UnexpectedEof))
  {
    hide HeaderRead;
  }

  lemma NextEntryIs(s: bytes, prev: bytes, header: EntryHeader, keyDelta: bytes, value: bytes)
    requires HeaderRead(s).out == Ok(header) && header.shared <= |prev|
    requires var body := s[HeaderRead(s).used..];
             && TakeRead(body, header.nonShared) == Read(Ok(keyDelta), header.nonShared)
             && TakeRead(body[header.nonShared..], header.valueLen) == Read(Ok(value), header.valueLen)
    ensures var next := NextEntry(s, prev);
            && next.Ok? && next.value.entry == Entry(prev[..header.shared] + keyDelta, value)
            && s[next.value.used..] == s[HeaderRead(s).used..][header.nonShared..][header.valueLen..]
  {
    hide HeaderRead;
    var at := HeaderRead(s).used;
    Drop(s, at, header.nonShared);
    Drop(s, at + header.nonShared, header.valueLen);
  }

  lemma PrependNothing<T>(r: Result<seq<T>>)
    ensures Prepend([], r) == r
  {
    if r.Ok? {
      assert [] + r.value == r.value;
    }
  }

  lemma AllEntriesRead(prev: bytes, out: seq<Entry>)
    ensures Prepend(out, Entries([], prev)) == Ok(out)
  {
    assert out + [] == out;
  }

  // ---------------------------------------------------------------- records

  datatype InternalKey = InternalKey(user: bytes, sequence: u64, deletion: bool)

  function SplitInternalKey(internal: bytes): Option<InternalKey> {
    if |internal| < INTERNAL_KEY_TRAILER then None
    else
      var n := |internal| - INTERNAL_KEY_TRAILER;
      var trailer := Le64(internal[n..]);
      Some(InternalKey(internal[..n], trailer / 256, trailer % 256 == TYPE_DELETION))
  }

  /** An entry's record; none if its key is shorter than the trailer. */
  function EntryRecord(e: Entry, origin: string): seq<Record> {
    match SplitInternalKey(e.key)
    case None => []
    case Some(k) => [Record(k.user, e.value, k.sequence, k.deletion, origin)]
  }

  function EntryRecords(entries: seq<Entry>, origin: string): seq<Record> {
    if entries == [] then [] else EntryRecord(entries[0], origin) + EntryRecords(entries[1..], origin)
  }

  /** The records of the data block an index entry names. */
  function IndexedRecords(codec: Codec, buf: bytes, e: Entry, origin: string): Result<seq<Record>> {
    var handle := HandleRead(e.value).out;
    if handle.Err? then Err(handle.error)
    else
      var block := BlockAt(codec, buf, handle.value);
      if block.Err? then Err(block.error)
      else
        var entries := BlockEntries(block.value);
        if entries.Err? then Err(entries.error) else Ok(EntryRecords(entries.value, origin))
  }

  /** The records behind a list of index entries; the first failure fails the table. */
  function Collect(codec: Codec, buf: bytes, index: seq<Entry>, origin: string): Result<seq<Record>> {
    if index == [] then Ok([])
    else
      var first := IndexedRecords(codec, buf, index[0], origin);
      if first.Err? then first else Prepend(first.value, Collect(codec, buf, index[1..], origin))
  }

  function TableRecords(codec: Codec, buf: bytes, origin: string): Result<seq<Record>> {
    var handle := IndexHandle(buf);
    if handle.Err? then Err(handle.error)
    else
      var block := BlockAt(codec, buf, handle.value);
      if block.Err? then Err(block.error)
      else
        var index := BlockEntries(block.value);
        if index.Err? then Err(index.error) else Collect(codec, buf, index.value, origin)
  }

  lemma CollectStep(codec: Codec, buf: bytes, index: seq<Entry>, i: nat, origin: string, records: seq<Record>)
    requires i < |index|
    ensures var first := IndexedRecords(codec, buf, index[i], origin);
            Prepend(records, Collect(codec, buf, index[i..], origin))
            == if first.Err? then first else Prepend(records + first.value, Collect(codec, buf, index[i + 1..], origin))
  {
    hide IndexedRecords;
    assert index[i..][1..] == index[i + 1..];
    var first := IndexedRecords(codec, buf, index[i], origin);
    if first.Ok? {
      PrependTwice(records, first.value, Collect(codec, buf, index[i + 1..], origin));
    }
  }

  method ParseTable(codec: Codec, buf: bytes, origin: string) returns (r: Result<seq<Record>>)
    ensures r == TableRecords(codec, buf, origin)
  {
    hide Collect, BlockEntries, HandleRead, BlockAt, IndexHandle, EntryRecords, SplitInternalKey;
    var indexHandle :- ParseFooter(buf);
    var indexBlock :- BlockAt(codec, buf, indexHandle);
    var index :- ParseBlockEntries(indexBlock);
    var records: seq<Record> := [];
    ghost var all := Collect(codec, buf, index, origin);
    PrependNothing(all);
    assert index[0..] == index;
    var i := 0;
    while i < |index|
      invariant i <= |index|
      invariant Prepend(records, Collect(codec, buf, index[i..], origin)) == all
    {
      CollectStep(codec, buf, index, i, origin, records);
      var cur := new Cursor(index[i].value);
      var dataHandle := ReadBlockHandle(cur);
      if dataHandle.Err? {
        return Err(dataHandle.error);
      }
      var dataBlock := BlockAt(codec, buf, dataHandle.value);
      if dataBlock.Err? {
        return Err(dataBlock.error);
      }
      var entries := ParseBlockEntries(dataBlock.value);
      if entries.Err? {
        return Err(entries.error);
      }
      ghost var before := records;
      var j := 0;
      assert entries.value[0..] == entries.value;
      while j < |entries.value|
        invariant j <= |entries.value|
        invariant records + EntryRecords(entries.value[j..], origin) == before + EntryRecords(entries.value, origin)
      {
        EntryRecordsStep(entries.value, j, origin, records);
        var split := SplitInternalKey(entries.value[j].key);
        if split.Some? {
          var k := split.value;
          records := records + [Record(k.user, entries.value[j].value, k.sequence, k.deletion, origin)];
        }
        j := j + 1;
      }
      EntryRecordsDone(entries.value, origin, records);
      i := i + 1;
    }
    CollectDone(codec, buf, index, origin, records);
    return Ok(records);
  }

  lemma CollectDone(codec: Codec, buf: bytes, index: seq<Entry>, origin: string, records: seq<Record>)
    ensures Prepend(records, Collect(codec, buf, index[|index|..], origin)) == Ok(records)
  {
    assert records + [] == records;
  }

  lemma EntryRecordsStep(entries: seq<Entry>, j: nat, origin: string, records: seq<Record>)
    requires j < |entries|
    ensures records + EntryRecords(entries[j..], origin)
            == (records + EntryRecord(entries[j], origin)) + EntryRecords(entries[j + 1..], origin)
    ensures records + [] == records
  {
    assert entries[j..][1..] == entries[j + 1..];
  }

  lemma EntryRecordsDone(entries: seq<Entry>, origin: string, records: seq<Record>)
    ensures records + EntryRecords(entries[|entries|..], origin) == records
  {
  }
}
