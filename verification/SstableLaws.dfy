/** What the table reader accepts and refuses, for arbitrary bytes, down to the single byte. */
module SstableLaws {
  import opened Bytes
  import opened Cursors
  import opened Sequences
  import opened Sstable
  import opened TableFile

  // ---------------------------------------------------------------- handles and footer

  /** The bytes begin with two varints, offset and size, `used` bytes in all. */
  ghost predicate IsHandle(s: bytes, h: BlockHandle, used: nat) {
    exists n: nat :: n <= used && n <= |s| && HasVarint(s, n, h.offset) && HasVarint(s[n..], used - n, h.size)
  }

  /** A handle is read iff there is one; otherwise a varint is missing. */
  lemma HandleExact(s: bytes, h: BlockHandle, used: nat)
    ensures HandleRead(s) == Read(Ok(h), used) <==> IsHandle(s, h, used)
    ensures HandleRead(s).out.Err? ==> HandleRead(s).out.error == BadVarint
  {
    hide HasVarint, Var64Read;
    var first := Var64Read(s);
    Var64Exact(s, first.used, 0);
    Var64Bounds(s);
    Var64Exact(s[first.used..], 0, 0);
    if HandleRead(s) == Read(Ok(h), used) {
      Var64Exact(s, first.used, h.offset);
      Var64Bounds(s[first.used..]);
      Var64Exact(s[first.used..], used - first.used, h.size);
    }
    if IsHandle(s, h, used) {
      var n: nat :| n <= used && n <= |s| && HasVarint(s, n, h.offset) && HasVarint(s[n..], used - n, h.size);
      Var64Exact(s, n, h.offset);
      Var64Exact(s[n..], used - n, h.size);
    }
  }

  lemma Var64Bounds(s: bytes)
    ensures Var64Read(s).used <= |s|
  {
  }

  /** A footer is read iff the file has 48 bytes and ends with the magic, and the 40 bytes in front of
      it begin with two handles, of which the second is the result. */
  lemma FooterExact(buf: bytes, index: BlockHandle)
    ensures |buf| < 48 ==> IndexHandle(buf) == Err(UnexpectedEof)
    ensures |buf| >= 48 && buf[|buf| - 8..] == MAGIC_BYTES ==>
              (IndexHandle(buf) == Ok(index) <==> FooterHolds(buf[|buf| - 48..|buf| - 8], index))
    ensures |buf| >= 48 && buf[|buf| - 8..] == MAGIC_BYTES && IndexHandle(buf).Err? ==>
              IndexHandle(buf) == Err(BadVarint)
  {
    hide HandleRead, IsHandle, Le, MAGIC_BYTES;
    if |buf| >= 48 && buf[|buf| - 8..] == MAGIC_BYTES {
      MagicChecked(buf);
      var handles := buf[|buf| - 48..|buf| - 8];
      var footer := buf[|buf| - 48..];
      assert footer[..40] == handles;
      var meta := HandleRead(handles);
      HandleExact(handles, index, 0);
      if meta.out.Ok? {
        HandleExact(handles, meta.out.value, meta.used);
        HandleBounds(handles);
        assert footer[meta.used..40] == handles[meta.used..];
        var second := HandleRead(handles[meta.used..]);
        HandleExact(handles[meta.used..], index, second.used);
      }
      if FooterHolds(handles, index) {
        var metaindex, n: nat, m: nat :|
          n <= |handles| && IsHandle(handles, metaindex, n) && IsHandle(handles[n..], index, m);
        HandleExact(handles, metaindex, n);
        HandleExact(handles[n..], index, m);
      }
    }
  }

  ghost predicate FooterHolds(handles: bytes, index: BlockHandle) {
    exists metaindex, n: nat, m: nat ::
      n <= |handles| && IsHandle(handles, metaindex, n) && IsHandle(handles[n..], index, m)
  }

  lemma HandleBounds(s: bytes)
    ensures HandleRead(s).used <= |s|
  {
    Var64Bounds(s);
    Var64Bounds(s[Var64Read(s).used..]);
    hide Var64Read;
  }

  // ---------------------------------------------------------------- entries

  /** The bytes begin with three varints below 2^32, `used` bytes in all. */
  ghost predicate IsHeader(s: bytes, h: EntryHeader, used: nat) {
    exists a: nat, b: nat ::
      && a + b <= used && a + b <= |s|
      && HasVarint(s, a, h.shared) && HasVarint(s[a..], b, h.nonShared)
      && HasVarint(s[a + b..], used - a - b, h.valueLen)
  }

  lemma Var32Bounds(s: bytes)
    ensures Var32Read(s).used <= |s|
  {
  }

  lemma HeaderExact(s: bytes, h: EntryHeader, used: nat)
    ensures HeaderRead(s) == Read(Ok(h), used) <==> IsHeader(s, h, used)
    ensures HeaderRead(s).out.Err? ==> HeaderRead(s).out.error == BadVarint
  {
    hide HasVarint, Var32Read;
    var a := Var32Read(s).used;
    Var32Bounds(s);
    var b := Var32Read(s[a..]).used;
    Var32Bounds(s[a..]);
    Var32Exact(s, 0, 0);
    Var32Exact(s[a..], 0, 0);
    Var32Bounds(s[a + b..]);
    Var32Exact(s[a + b..], 0, 0);
    if HeaderRead(s) == Read(Ok(h), used) {
      Var32Exact(s, a, h.shared);
      Var32Exact(s[a..], b, h.nonShared);
      Var32Exact(s[a + b..], used - a - b, h.valueLen);
    }
    if IsHeader(s, h, used) {
      var m: nat, n: nat :|
        && m + n <= used && m + n <= |s|
        && HasVarint(s, m, h.shared) && HasVarint(s[m..], n, h.nonShared)
        && HasVarint(s[m + n..], used - m - n, h.valueLen);
      Var32Exact(s, m, h.shared);
      Var32Exact(s[m..], n, h.nonShared);
      Var32Exact(s[m + n..], used - m - n, h.valueLen);
    }
  }

  /** Behind a header of `at` bytes: the rest of the key, put behind what is shared, and the value. */
  predicate EntryBehind(s: bytes, prev: bytes, h: EntryHeader, at: nat, r: EntryRead) {
    && r.shared == h.shared <= |prev|
    && r.used == at + h.nonShared + h.valueLen <= |s|
    && r.entry.key == prev[..h.shared] + s[at..at + h.nonShared]
    && r.entry.value == s[at + h.nonShared..r.used]
  }

  /** An entry is read iff its header is there and what the header claims is behind it. */
  lemma EntryExact(s: bytes, prev: bytes, r: EntryRead)
    ensures NextEntry(s, prev) == Ok(r) <==>
            exists h, at: nat :: IsHeader(s, h, at) && EntryBehind(s, prev, h, at, r)
  {
    hide HeaderRead, IsHeader;
    var header := HeaderRead(s);
    if NextEntry(s, prev) == Ok(r) {
      var h := header.out.value;
      HeaderExact(s, h, header.used);
      Window(s, header.used, 0, h.nonShared);
      Drop(s, header.used, h.nonShared);
      Window(s, header.used + h.nonShared, 0, h.valueLen);
      assert EntryBehind(s, prev, h, header.used, r);
    }
    if h, at: nat :| IsHeader(s, h, at) && EntryBehind(s, prev, h, at, r) {
      HeaderExact(s, h, at);
      Window(s, at, 0, h.nonShared);
      Drop(s, at, h.nonShared);
      Window(s, at + h.nonShared, 0, h.valueLen);
    }
  }

  /** Why an entry is refused: a varint is missing or too large, more is shared than the key before
      it has, or its bytes leave the area; checked in this order. */
  lemma EntryRefused(s: bytes, prev: bytes, h: EntryHeader, at: nat)
    ensures NextEntry(s, prev) == Err(BadVarint) <==> !exists g, n: nat :: IsHeader(s, g, n)
    ensures IsHeader(s, h, at) && h.shared > |prev| ==> NextEntry(s, prev) == Err(LengthOutOfRange)
    ensures IsHeader(s, h, at) && h.shared <= |prev| && at + h.nonShared + h.valueLen > |s| ==>
              NextEntry(s, prev) == Err(UnexpectedEof)
  {
    hide HeaderRead, IsHeader;
    HeaderExact(s, h, at);
    if HeaderRead(s).out.Ok? {
      HeaderExact(s, HeaderRead(s).out.value, HeaderRead(s).used);
    } else if g, n: nat :| IsHeader(s, g, n) {
      HeaderExact(s, g, n);
    }
  }

  /** The bytes are these entries one after another, and then `rest`. */
  ghost predicate HoldsEntries(s: bytes, prev: bytes, entries: seq<Entry>, rest: bytes)
    decreases |entries|
  {
    if entries == [] then rest == s
    else
      exists r: EntryRead ::
        && NextEntry(s, prev) == Ok(r) && r.entry == entries[0] && r.used <= |s|
        && HoldsEntries(s[r.used..], r.entry.key, entries[1..], rest)
  }

  function LastKey(entries: seq<Entry>, prev: bytes): bytes {
    if entries == [] then prev else entries[|entries| - 1].key
  }

  /** An area is read as its entries iff they fill it; the first that is refused gives the error. */
  lemma {:induction false} EntriesExact(s: bytes, prev: bytes) returns (entries: seq<Entry>, rest: bytes)
    ensures HoldsEntries(s, prev, entries, rest)
    ensures rest == [] ==> Entries(s, prev) == Ok(entries)
    ensures rest != [] ==> NextEntry(rest, LastKey(entries, prev)).Err?
                           && Entries(s, prev) == Err(NextEntry(rest, LastKey(entries, prev)).error)
    decreases |s|
  {
    hide NextEntry, LastKey;
    if s == [] || NextEntry(s, prev).Err? {
      entries, rest := [], s;
      LastKeyCases(Entry([], []), [], prev);
    } else {
      var r := NextEntry(s, prev).value;
      AdvancesBy(s, prev);
      var later;
      later, rest := EntriesExact(s[r.used..], r.entry.key);
      entries := [r.entry] + later;
      assert entries[1..] == later;
      LastKeyCases(r.entry, later, prev);
    }
  }

  lemma AdvancesBy(s: bytes, prev: bytes)
    requires NextEntry(s, prev).Ok?
    ensures 3 <= NextEntry(s, prev).value.used <= |s|
  {
  }

  lemma LastKeyCases(first: Entry, later: seq<Entry>, prev: bytes)
    ensures LastKey([], prev) == prev
    ensures LastKey([first] + later, prev) == LastKey(later, first.key)
  {
  }

  /** The entry area is what is left in front of a restart array and its four-byte count. */
  lemma AreaExact(block: bytes, area: bytes)
    ensures |block| < 4 ==> EntryArea(block) == Err(UnexpectedEof)
    ensures |block| >= 4 ==>
              var restarts := Le(block[|block| - 4..]);
              && (EntryArea(block) == Ok(area) <==> area <= block && |area| + 4 * restarts + 4 == |block|)
              && (4 * restarts + 4 > |block| <==> EntryArea(block) == Err(LengthOutOfRange))
              && (EntryArea(block).Err? ==> EntryArea(block) == Err(LengthOutOfRange))
  {
    hide Le;
    if |block| >= 4 && 4 * Le(block[|block| - 4..]) + 4 <= |block| {
      var end := |block| - 4 - 4 * Le(block[|block| - 4..]);
      assert EntryArea(block) == Ok(block[..end]);
      assert area <= block ==> area == block[..|area|];
    }
  }

  // ---------------------------------------------------------------- records

  /** The record of an entry: the key up to its last eight bytes, whose first is the type, 0 a
      deletion, and whose others are the sequence number. An entry with a shorter key has none. */
  lemma EntryRecordExact(e: Entry, origin: string)
    ensures |e.key| < 8 ==> EntryRecord(e, origin) == []
    ensures |e.key| >= 8 ==>
              var n := |e.key| - 8;
              && Le(e.key[n + 1..]) < 0x100_0000_0000_0000
              && EntryRecord(e, origin)
                 == [Record(e.key[..n], e.value, Le(e.key[n + 1..]), e.key[n] == 0, origin)]
  {
    if |e.key| >= 8 {
      var trailer := e.key[|e.key| - 8..];
      assert trailer[1..] == e.key[|e.key| - 7..];
      LowByte(trailer[0], Le(trailer[1..]));
      LeBound(trailer[1..]);
      SevenBytes();
    }
  }

  lemma SevenBytes()
    ensures Pow256(7) == 0x100_0000_0000_0000
  {
    WidthLimits();
    assert Pow256(8) == 256 * Pow256(7);
  }

  /** A block with entries lies at the handle. */
  predicate Readable(codec: Codec, buf: bytes, handle: BlockHandle) {
    BlockAt(codec, buf, handle).Ok? && BlockEntries(BlockAt(codec, buf, handle).value).Ok?
  }

  /** A table is accepted iff its footer, its index block and every data block the index names are. */
  lemma TableAcceptedIff(codec: Codec, buf: bytes, origin: string)
    ensures TableRecords(codec, buf, origin).Ok? <==>
            && IndexHandle(buf).Ok? && Readable(codec, buf, IndexHandle(buf).value)
            && forall named :: named in BlockEntries(BlockAt(codec, buf, IndexHandle(buf).value).value).value ==>
                 HandleRead(named.value).out.Ok? && Readable(codec, buf, HandleRead(named.value).out.value)
  {
    hide IndexHandle, BlockAt, BlockEntries, HandleRead, Collect, EntryRecords;
    if IndexHandle(buf).Ok? && Readable(codec, buf, IndexHandle(buf).value) {
      var index := BlockEntries(BlockAt(codec, buf, IndexHandle(buf).value).value).value;
      CollectAccepts(codec, buf, index, origin);
      forall named | named in index
        ensures IndexedRecords(codec, buf, named, origin).Ok?
                <==> HandleRead(named.value).out.Ok? && Readable(codec, buf, HandleRead(named.value).out.value)
      {
      }
    }
  }

  /** Why a block is unreadable: it is refused itself or its entries are. */
  function Refusal(codec: Codec, buf: bytes, handle: BlockHandle): (e: Error)
    requires !Readable(codec, buf, handle)
  {
    var block := BlockAt(codec, buf, handle);
    if block.Err? then block.error else BlockEntries(block.value).error
  }

  /** The first reason in reading order is the error: footer, index block, then the named blocks. */
  lemma TableRefused(codec: Codec, buf: bytes, origin: string)
    ensures IndexHandle(buf).Err? ==> TableRecords(codec, buf, origin) == Err(IndexHandle(buf).error)
    ensures IndexHandle(buf).Ok? && !Readable(codec, buf, IndexHandle(buf).value) ==>
              TableRecords(codec, buf, origin) == Err(Refusal(codec, buf, IndexHandle(buf).value))
    ensures IndexHandle(buf).Ok? && Readable(codec, buf, IndexHandle(buf).value)
            && TableRecords(codec, buf, origin).Err? ==>
              var index := BlockEntries(BlockAt(codec, buf, IndexHandle(buf).value).value).value;
              exists i :: FirstUnreadable(codec, buf, index, i, TableRecords(codec, buf, origin).error)
  {
    hide IndexHandle, BlockAt, BlockEntries, HandleRead, Collect, EntryRecords;
    if IndexHandle(buf).Ok? && Readable(codec, buf, IndexHandle(buf).value) && TableRecords(codec, buf, origin).Err? {
      var index := BlockEntries(BlockAt(codec, buf, IndexHandle(buf).value).value).value;
      CollectAccepts(codec, buf, index, origin);
      var i :| 0 <= i < |index|
               && IndexedRecords(codec, buf, index[i], origin) == Collect(codec, buf, index, origin)
               && forall j :: 0 <= j < i ==> IndexedRecords(codec, buf, index[j], origin).Ok?;
      assert FirstUnreadable(codec, buf, index, i, TableRecords(codec, buf, origin).error);
    }
  }

  /** Index entry i names no readable block, for this reason, and those before it do. */
  ghost predicate FirstUnreadable(codec: Codec, buf: bytes, index: seq<Entry>, i: int, e: Error) {
    && 0 <= i < |index|
    && (var handle := HandleRead(index[i].value).out;
        if handle.Err? then e == handle.error
        else !Readable(codec, buf, handle.value) && e == Refusal(codec, buf, handle.value))
    && forall j :: 0 <= j < i ==>
         var handle := HandleRead(index[j].value).out;
         handle.Ok? && Readable(codec, buf, handle.value)
  }
}
