# A verified model of the LevelDB forensic reader

The repository reads raw LevelDB files: write-ahead logs and SSTables, including records a normal
lookup hides, then decodes Chrome's Local and Session Storage from the records and prints them.
This project models that logic in Dafny 4.11 and proves what the reader recovers.

How it is built:

- The readers' loops are methods, the cursor is a class with a mutable position. Each is proved equal
  to a function of its input (`ParseLog` to `Log.LogRecords`, `ParseTable` to `Sstable.TableRecords`,
  and so on). The theorems are about these functions, so they hold of the methods.
- These functions are pinned down apart from their own bodies: for arbitrary bytes the lemmas named
  Exact, Refused, Decoded, Shown and Spelling say in numbers and relations what each step accepts,
  refuses and returns, and the writers spell out their bytes without the reader's functions.
- The writer's side of both file formats is not in the repository. It is written here from the LevelDB
  log and table formats as the reader restates them (leveldb-core/src/log.rs:5-14,
  leveldb-core/src/sstable.rs:5-16): `LogWriter.Fragments` cuts a payload at block ends, with the
  empty first fragment when exactly seven bytes are left; `TableFile.TableBytes` lays out a table with
  every choice left to a builder (prefix lengths, restarts, compression, index keys, other blocks) free.
- crc32c, Snappy, the protobuf decoder, UTF-8 validity and lossy UTF-8 text are function-valued
  parameters: every theorem holds for any functions in their place. Damage theorems take "the checksum
  does not match" as a hypothesis about the damaged bytes.
- A varint is at most ten bytes with bits beyond 64 shifted out. Strings of session keys are their
  UTF-8 bytes. Errors are tags without payload. A `usize` is 64 bits wide, so an addition that would
  overflow it is a range error that the unbounded comparison already gives.

| file | content |
|---|---|
| Bytes.dfy, Sequences.dfy | integers, varints, masked checksum; sequence helpers |
| Cursors.dfy, Batches.dfy | the cursor; the batch parser and its encoder |
| Log.dfy, LogLaws.dfy | the log reader; its laws on arbitrary bytes |
| LogWriter.dfy, LogDamage.dfy, LogCorruption.dfy, LogAbandon.dfy, Wal.dfy | written logs: round trip, truncation, overwritten bytes, failing checksums, lying lengths; the same for logs of batches |
| Sstable.dfy, TableWriter.dfy, TableFile.dfy, SstableLaws.dfy | the table reader; blocks and whole tables; its laws on arbitrary bytes |
| History.dfy | the merged view of everything recovered |
| Values.dfy, LocalStorage.dfy, SessionStorage.dfy, Jsonl.dfy | decoders and the JSONL view |

## Where the code and its documentation differ

The model follows the code.

- leveldb-core/src/log.rs:100-102 and leveldb-core/src/lib.rs:104-106 say that every well-formed batch is
  emitted. It is not when the length field of a record before it in the same block lies
  (`LogAbandon.IntactNeighbourLost`). Because giving up a block (leveldb-core/src/log.rs:122-131) does not
  reset the reassembly state, a payload nobody wrote can come out (`LogAbandon.JoinedOverGap`). Whenever
  the scan gives up a block at a record, `LogAbandon.AbandonedBlock` gives the exact output,
  `LogAbandon.IntactKeptIff` says by the layout alone when every other payload is emitted and when nothing
  else is, and `LogAbandon.OnlyLosesIff` when nothing is made up. A lying length that still fits its block
  makes the scan go on inside other records, so what is read up to the next block depends on the bytes
  there; `LogAbandon.AnyRecordConfined` says what is read around it whatever they are.
- leveldb-core/src/log.rs:100 says that a record with a failing checksum is skipped. One without data whose
  header became all zero is not skipped but ends the block (leveldb-core/src/log.rs:120-123), which costs more
  than its payload iff the payload is empty and other records follow in the block
  (`LogAbandon.BrokenCostsOneIff`).
- leveldb-core/src/record.rs:19 says that a tombstone has no value. The log reader keeps that
  (`Batches.BatchLaws`); the table reader passes on whatever value is stored
  (`TableFile.TombstoneWithValue`, exactly when in `TableFile.AcceptedTombstonesEmptyIff`).
- leveldb4n6/src/render.rs:4-8 calls JSONL faithful and round-trippable. That holds for raw records
  (`Jsonl.FileRoundTrip`). The session view prints text, encoding and the lossy flag of a map value but not
  its raw bytes (leveldb4n6/src/render.rs:335-344). They tell the value from every other one iff its decode
  lost nothing and it has no second form with or without the optional prefix
  (`SessionStorage.MapLineDeterminesIff`, by `Values.ViewDeterminesIff`): `[0x41, 0, 7]` and `[0x41, 0, 8]`
  look alike, and so do `[0x41, 0]` and `[0, 0x41, 0]`. The Local Storage view prints the text of a script key
  with neither its encoding nor its raw bytes (leveldb4n6/src/render.rs:197-206), and this never tells the
  key from every other one (`LocalStorage.LineNeverDeterminesKey`).

## Model

| member | source | states |
|---|---|---|
| Bytes.MaskCrcInvertible | leveldb-core/src/log.rs:29-33 | masking a checksum loses nothing, so equal masked checksums mean equal checksums |
| Bytes.MaskCrcRotates | leveldb-core/src/log.rs:29-33 | the low 15 bits move above the high 17, then 0xa282ead8 is added modulo 2^32 |
| Bytes.LittleEndian | leveldb-core/src/bytes.rs:51-61 | two, four and eight bytes in numbers, lowest byte first |
| Bytes.VarExact | leveldb-core/src/bytes.rs:65-72 | which bytes are a varint, canonical or not, and its value: at most ten bytes up to the first without the high bit, seven bits a byte, modulo 2^64 |
| Bytes.VarRoundTrip | leveldb-core/src/bytes.rs:65-72 | every 64-bit value written as a varint takes at most ten bytes and reads back, whatever follows |
| Bytes.VarLocal | leveldb-core/src/bytes.rs:65-72 | a successful varint read uses 1 to 10 bytes and depends on none behind them |
| Cursors.Cursor.Take | leveldb-core/src/bytes.rs:34-45 | returns exactly the next n bytes and moves past them, or fails and stays |
| Cursors.Cursor.ReadU8 | leveldb-core/src/bytes.rs:47-49 | the next byte, or a failure that does not move |
| Cursors.Cursor.ReadU32Le | leveldb-core/src/bytes.rs:51-54 | the next four bytes as a little-endian integer |
| Cursors.Cursor.ReadU64Le | leveldb-core/src/bytes.rs:56-61 | the next eight bytes as a little-endian integer |
| Cursors.Cursor.ReadVarintU64 | leveldb-core/src/bytes.rs:65-72 | the varint ahead and the exact advance; no move on failure |
| Cursors.Cursor.ReadVarintU32 | leveldb-core/src/bytes.rs:74-78 | the same for 32 bits; a too large value fails with the cursor already behind it |
| Cursors.Cursor.ReadLengthPrefixed | leveldb-core/src/bytes.rs:83-101 | the body behind a length, or a refusal of a length beyond the end |
| Cursors.PositionMonotone | leveldb-core/src/bytes.rs:11-101 | over any sequence of reads, failed ones included, the position never decreases nor leaves the buffer |
| Cursors.Var64Exact | leveldb-core/src/bytes.rs:65-72 | a varint is read iff the bytes begin with one; a failure does not move |
| Cursors.Var32Exact | leveldb-core/src/bytes.rs:74-78 | the same below 2^32; a larger one is refused, never truncated, with the cursor behind it |
| Cursors.PrefixedExact | leveldb-core/src/bytes.rs:83-101 | a body is read iff the bytes are its length as a varint and then the body |
| Cursors.PrefixedRefused | leveldb-core/src/bytes.rs:83-101 | a length beyond the end and a missing varint are told apart, and where the cursor stands then |
| Cursors.PrefixedRoundTrip | leveldb-core/src/bytes.rs:83-101 | reading a length-prefixed encoding returns the body and leaves exactly the rest |
| Cursors.PrefixedLocal | leveldb-core/src/bytes.rs:83-101 | a successful length-prefixed read does not depend on bytes behind it |
| Batches.ReadOp | leveldb-core/src/log.rs:58-94 | one operation is decoded and the cursor stands behind it, or nothing is decoded |
| Batches.ParseWriteBatch | leveldb-core/src/log.rs:45-98 | the loop appends exactly the readable operations of a batch |
| Batches.NextOpExact | leveldb-core/src/log.rs:62-93 | an operation is decoded iff the bytes begin with a type byte 1, a key and a value, or a type byte 0 and a key |
| Batches.BatchExact | leveldb-core/src/log.rs:42-98 | for arbitrary bytes: the records are those of the operations that stand behind the header, as many as claimed or up to the first place that holds none |
| Batches.BatchRoundTrip | leveldb-core/src/log.rs:45-98 | parsing an encoded batch gives one record an operation with sequence base + i, key, value and flag |
| Batches.BatchPrefixMonotone | leveldb-core/src/log.rs:42-44 | records of a truncated batch are a prefix of the records of the whole |
| Batches.BatchLaws | leveldb-core/src/log.rs:45-98 | for arbitrary bytes: saturating sequence numbers, empty tombstones, output no heavier than the operations area, at most one record for two bytes |
| Log.ParseLog | leveldb-core/src/log.rs:103-183 | the nested block scan with its reassembly state returns the batches' records of the reassembled payloads |
| Log.PhysicalExact | leveldb-core/src/log.rs:114-135 | which physical record the bytes hold, in numbers; intact iff the stored checksum is the masked crc32c of the type byte and then the data |
| Log.RunConcat | leveldb-core/src/log.rs:106-175 | reassembly of a stream is reassembly of its parts with the state carried over |
| LogLaws.ReassemblyRefinesGrammar | leveldb-core/src/log.rs:137-175 | payloads are exactly the intact FULL and FIRST MIDDLE* LAST runs of the stream, in order, none twice, none skipped |
| LogLaws.LogConserves | leveldb-core/src/log.rs:103-183 | for arbitrary bytes: keys, values, pending fragment and headers never exceed the file |
| LogLaws.ScanSplitsAtBlocks | leveldb-core/src/log.rs:109-131 | what is scanned on either side of a block boundary is independent of the other side |
| LogWriter.IntactIffEncoded | leveldb-core/src/log.rs:114-135 | a record passes with a matching checksum iff its bytes are exactly what a writer stores |
| LogWriter.OnDisk | leveldb-core/src/log.rs:5-14 | a written log byte for byte: one record of type 1, or over three blocks of 32768 bytes records of types 2, 3 and 4 |
| LogWriter.ScanLayout | leveldb-core/src/log.rs:114-135 | the scan of any legal layout accepts exactly the records laid out |
| LogWriter.RunFragments | leveldb-core/src/log.rs:137-175 | the fragments of a payload reassemble to it from any state |
| LogWriter.LogRoundTrip | leveldb-core/src/log.rs:103-183 | the payloads written are the payloads read, over however many blocks |
| LogDamage.TornTail | leveldb-core/src/log.rs:128-131 | of any prefix of a log exactly the payloads wholly inside it are read |
| LogDamage.ZeroTailIgnored | leveldb-core/src/log.rs:120-123 | zero bytes behind a complete log change nothing |
| LogDamage.BlockDamageConfined | leveldb-core/src/log.rs:109-179 | bytes up to a block boundary replaced by anything: payloads before and payloads beginning behind are read, in order |
| LogDamage.DamageConfined | leveldb-core/src/log.rs:109-179 | any range of bytes replaced by anything: payloads ending before it and payloads beginning in a block behind it are read, in order |
| LogCorruption.BrokenRecordsLoseTheirPayloads | leveldb-core/src/log.rs:120-175 | any set of records with failing checksums and kept lengths, none of them an empty payload's that became padding: exactly the payloads without such a record are read |
| LogAbandon.BrokenCostsOneIff | leveldb-core/src/log.rs:120-175 | one such record, any type and data in it, loses exactly its payload iff it does not read as padding in front of other records of its block |
| LogAbandon.ScanAbandons | leveldb-core/src/log.rs:120-131 | a rejected record loses everything up to the next block and nothing more |
| LogAbandon.AbandonedBlock | leveldb-core/src/log.rs:120-179 | the exact payloads read when the scan gives up a block at any record of a written log |
| LogAbandon.IntactKeptIff | leveldb-core/src/log.rs:100-131 | every other payload is emitted iff the gap holds no record of another payload (or the join happens to restore the one it swallows), and nothing else iff moreover the gap is not between two fragments |
| LogAbandon.AnyRecordConfined | leveldb-core/src/log.rs:109-179 | whatever stands in place of a record: the payloads before it and those beginning in a later block are read |
| LogAbandon.OnlyLosesIff | leveldb-core/src/log.rs:122-131 | nothing is made up iff the gap is not inside a payload with a continuation in the next block |
| LogAbandon.IntactNeighbourLost | leveldb-core/src/log.rs:126-131 | a lying length loses an intact record behind it in the same block |
| LogAbandon.JoinedOverGap | leveldb-core/src/log.rs:126-131 | a lying length in the middle of a payload joins the fragments around it |
| Wal.WalRoundTrip | leveldb-core/src/log.rs:103-183 | a log of batches reads as one record an operation, in order |
| Wal.WalTornTail | leveldb-core/src/log.rs:99-102 | of any byte prefix exactly the records of the batches wholly inside it |
| Wal.WalZeroTail | leveldb-core/src/log.rs:120-123 | trailing zero bytes change nothing |
| Wal.WalBadRecord | leveldb-core/src/log.rs:135-175 | one failing checksum costs exactly the batch of that record |
| Wal.WalBrokenRecords | leveldb-core/src/log.rs:135-175 | any number of failing checksums cost exactly the batches they belong to |
| Wal.WalDamage | leveldb-core/src/log.rs:109-179 | any overwritten range of bytes costs no batch that ended before it or begins in a block behind it |
| Sstable.ReadBlockHandle | leveldb-core/src/sstable.rs:53-57 | two varints, first failure reported |
| Sstable.ParseFooter | leveldb-core/src/sstable.rs:59-90 | the index handle behind a valid magic, or the code's error |
| Sstable.ReadEntry | leveldb-core/src/sstable.rs:222-243 | one prefix-compressed entry with every bounds check and the exact advance |
| Sstable.ParseBlockEntries | leveldb-core/src/sstable.rs:192-246 | the entry loop returns the decoded list or the first failure |
| Sstable.ParseTable | leveldb-core/src/sstable.rs:264-288 | the index and data block loops return all records in order or the first failure |
| Sstable.DecompressExact | leveldb-core/src/sstable.rs:155-185 | a stored block is accepted iff it is plain with type 0, or with type 1 a Snappy image of at most 256 MiB, and what it stands for; the error otherwise |
| SstableLaws.HandleExact | leveldb-core/src/sstable.rs:53-57 | a handle is read iff the bytes are offset and size as varints |
| SstableLaws.FooterExact | leveldb-core/src/sstable.rs:59-82 | a footer with the magic is read iff 40 bytes begin with two handles; the second is the result; the error otherwise |
| SstableLaws.EntryExact | leveldb-core/src/sstable.rs:222-243 | an entry is read iff its three varints, the rest of its key and its value are there |
| SstableLaws.EntryRefused | leveldb-core/src/sstable.rs:222-243 | why an entry is refused, in the order checked |
| SstableLaws.EntriesExact | leveldb-core/src/sstable.rs:218-246 | an area is read as the entries that fill it; the first refused entry gives the error |
| SstableLaws.AreaExact | leveldb-core/src/sstable.rs:192-219 | the entry area ends where the restart array its last four bytes claim begins; the errors otherwise |
| SstableLaws.EntryRecordExact | leveldb-core/src/sstable.rs:251-284 | the record of an entry byte for byte; keys shorter than eight bytes have none |
| SstableLaws.TableAcceptedIff | leveldb-core/src/sstable.rs:264-288 | a table is accepted iff its footer, its index block and every block the index names are |
| SstableLaws.TableRefused | leveldb-core/src/sstable.rs:264-274 | the first failure in reading order is the error of the table |
| TableWriter.BlockRoundTrip | leveldb-core/src/sstable.rs:188-246 | a block decodes to its keys and values for any prefix lengths and restart array |
| TableWriter.AcceptedEntriesTile | leveldb-core/src/sstable.rs:218-246 | an accepted area of arbitrary bytes is tiled by its entries, at most one for three bytes, no key longer than the area |
| TableWriter.SuffixFromRestart | leveldb-core/src/sstable.rs:188-191 | decoding from an entry that shares nothing gives exactly the entries from there on |
| TableFile.InternalKeyRoundTrip | leveldb-core/src/sstable.rs:251-260 | user key, 56-bit sequence and type survive the trailer |
| TableFile.TrailerSplits | leveldb-core/src/sstable.rs:251-260 | only type byte 0 is a deletion, the other bytes are the sequence number |
| TableFile.BlockAcceptedIff | leveldb-core/src/sstable.rs:94-186 | a block is read iff the bytes at its handle are a body, a type and their checksum, and the body stands for the block |
| TableFile.ReadRegion | leveldb-core/src/sstable.rs:94-186 | a block found where its handle says is read as what it stands for |
| TableFile.BlockRefused | leveldb-core/src/sstable.rs:94-186 | why a block is refused: extent, checksum, compression type, decompression, in this order |
| TableFile.HandleRoundTrip | leveldb-core/src/sstable.rs:53-57 | a handle reads back and takes at most twenty bytes |
| TableFile.FooterRoundTrip | leveldb-core/src/sstable.rs:59-90 | any two handles fit the footer, and the index handle reads back |
| TableFile.MagicChecked | leveldb-core/src/sstable.rs:60-82 | the wrong magic is the error iff the last eight bytes differ from it |
| TableFile.TableReads | leveldb-core/src/sstable.rs:264-288 | wherever the blocks lie, a table reads as the rows of its indexed blocks, in index order |
| TableFile.TableRoundTrip | leveldb-core/src/sstable.rs:264-288 | a built table reads as exactly the rows written |
| TableFile.PlainTableRoundTrip | leveldb-core/src/sstable.rs:264-288 | for any rows in any grouping a table file exists and reads as these rows |
| TableFile.SnappyTableRoundTrip | leveldb-core/src/sstable.rs:157-173 | a table of Snappy blocks reads as the rows that were compressed |
| TableFile.CollectAccepts | leveldb-core/src/sstable.rs:271-287 | a table's index is accepted iff every block it names is; the first failing block is the error |
| TableFile.RecordsAreEntries | leveldb-core/src/sstable.rs:264-288 | of any bytes accepted as a table: a record is surfaced iff an entry of a data block the index names holds it |
| TableFile.TombstoneWithValue | leveldb-core/src/sstable.rs:275-284 | a table that holds any tombstone with a value reads as that tombstone with that value |
| TableFile.AcceptedTombstonesEmptyIff | leveldb-core/src/sstable.rs:264-288 | of any bytes accepted as a table: its tombstones are empty iff no entry with type byte 0 has a value |
| TableFile.TombstonesEmptyIff | leveldb-core/src/sstable.rs:275-284 | tombstones read from a built table are empty iff none was stored with a value |
| History.LiveView | leveldb-forensic/tests/differential_ccl.rs:110-141 | one pass keeps the highest sequence of each key, however keys are named, and drops tombstones |
| History.NewestIsFirst | leveldb-forensic/tests/differential_ccl.rs:127-131 | of several records of a key with the highest sequence the first one found is kept |
| History.MergedViewIsReplay | leveldb-core/tests/oracle.rs:109-117 | the merged view is the replay of the history, in whatever order and however often its writes are found |
| History.AllRecoveredIsWritten | leveldb-core/src/lib.rs:69-96 | every write of written logs and tables surfaces, superseded and deleted ones included, file by file |
| History.RecoveredViewIsReplay | leveldb-core/src/lib.rs:69-96 | the view of records recovered from written logs and tables, in any order, is the replay of their history, writes present in two files included |
| Values.DecodeUtf16Le | leveldb-forensic/src/value.rs:53-78 | the decoding loop computes text and lossy flag of the specification |
| Values.DecodeUnitsExact | leveldb-forensic/src/value.rs:63-71 | re-encoding gives the code units back except unpaired surrogates, which become U+FFFD |
| Values.Utf16Exact | leveldb-forensic/src/value.rs:53-78 | lossy iff odd length or an unpaired surrogate; otherwise encoding the text gives the body |
| Values.TextRoundTrip | leveldb-forensic/src/value.rs:63-71 | encoding any text and decoding it gives the text and loses nothing |
| Values.TypePrefixedExact | leveldb-forensic/src/value.rs:95-108 | raw bytes kept; lossy exactly when defective; otherwise encoding and text determine the raw bytes |
| Values.TypePrefixedDecoded | leveldb-forensic/src/value.rs:95-108 | what every prefix decodes to, character by character, unknown prefixes and the empty value included |
| Values.SessionDecoded | leveldb-forensic/src/value.rs:113-120 | the same for session values, UTF-16 without a prefix included |
| Values.SessionPrefixAmbiguous | leveldb-forensic/src/value.rs:110-120 | with and without prefix a session value decodes alike |
| Values.SessionTextDeterminesUpToPrefix | leveldb-forensic/src/value.rs:110-120 | what looks like a clean session value is it or its form with or without the prefix |
| Values.ViewDeterminesIff | leveldb-forensic/src/value.rs:110-120 | encoding, text and lossy flag tell a session value from every other iff nothing was lost and it has no second form |
| Values.TextNeverDetermines | leveldb-forensic/src/value.rs:95-108 | text alone never tells a prefixed value from every other one |
| LocalStorage.MetaExact | leveldb-forensic/src/localstorage.rs:66-86 | metadata is read iff the first field is the timestamp and the next, if it is field 2, the size |
| LocalStorage.Decode | leveldb-forensic/src/localstorage.rs:92-155 | one decoded record for each raw record, in order |
| LocalStorage.NothingLost | leveldb-forensic/src/localstorage.rs:92-155 | sequence, flag and the exact key can be rebuilt from every decoded record, live values from their raw bytes |
| LocalStorage.CleanTextSuffices | leveldb-forensic/src/localstorage.rs:122-135 | clean script keys and values are determined by encoding and text alone |
| LocalStorage.LineNeverDeterminesKey | leveldb4n6/src/render.rs:190-207 | for every data record another key gives the same line |
| LocalStorage.Classification | leveldb-forensic/src/localstorage.rs:92-155 | exactly which keys are metadata and which are data |
| LocalStorage.MetaShown | leveldb-forensic/src/localstorage.rs:95-121 | live metadata shows a timestamp and a size iff its fields begin with them; cleared metadata shows 0 and none |
| LocalStorage.DataShown | leveldb-forensic/src/localstorage.rs:122-141 | a data record shows the origin, script key and value of its bytes, a tombstone the empty value |
| SessionStorage.DecodeSession | leveldb-forensic/src/sessionstorage.rs:74-132 | the two passes compute the join and decode every record in order |
| SessionStorage.FirstLinkWins | leveldb-forensic/src/sessionstorage.rs:74-92 | the host of a map is that of the first live well-formed link, none iff there is no link |
| SessionStorage.JoinIsFirstWins | leveldb-forensic/src/sessionstorage.rs:108-123 | the same for the host of every map entry, links before or behind it |
| SessionStorage.JoinIgnoresMapOrder | leveldb-forensic/src/sessionstorage.rs:74-132 | a decoded record depends on its raw record and the ordered links alone |
| SessionStorage.SessionKeyRebuilt | leveldb-forensic/src/sessionstorage.rs:95-132 | sequence, flag and exact key can be rebuilt; live map values keep their raw bytes |
| SessionStorage.MapLineDeterminesIff | leveldb4n6/src/render.rs:327-345 | the line of a live map entry tells its value from every other iff the decode lost nothing and there is no second form |
| SessionStorage.SessionClassification | leveldb-forensic/src/sessionstorage.rs:63-132 | exactly which keys are namespaces and which are map entries |
| SessionStorage.LinkExact | leveldb-forensic/src/sessionstorage.rs:74-92 | which record links which map to which host |
| SessionStorage.NamespaceShown | leveldb-forensic/src/sessionstorage.rs:96-107 | a namespace record shows guid and host of its key and the text of its value as the map |
| SessionStorage.MapShown | leveldb-forensic/src/sessionstorage.rs:108-127 | a map entry shows map and script key of its key, the joined host, and its value, a tombstone the empty value |
| SessionStorage.OtherShown | leveldb-forensic/src/sessionstorage.rs:105-130 | every other record shows its key |
| SessionStorage.JoinIsWhatIsShown | leveldb-forensic/src/sessionstorage.rs:74-107 | the join links exactly the maps and hosts that live namespace records with a valid value show |
| Jsonl.RenderHex | leveldb4n6/src/render.rs:19-25 | the loop writes two digits a byte |
| Jsonl.RenderJsonString | leveldb4n6/src/render.rs:28-46 | the loop writes the escaped, quoted string |
| Jsonl.RenderRaw | leveldb4n6/src/render.rs:97-109 | the loop appends one line a record |
| Jsonl.UnhexOfHex | leveldb4n6/src/render.rs:19-25 | hex text determines the bytes |
| Jsonl.HexSpelling | leveldb4n6/src/render.rs:19-25 | two lower-case digits a byte, the high one first |
| Jsonl.EscapeSpelling | leveldb4n6/src/render.rs:28-46 | how each character is written |
| Jsonl.DecimalCanonical | leveldb4n6/src/render.rs:97-109 | numbers have no leading zeros |
| Jsonl.LineSpelling | leveldb4n6/src/render.rs:97-109 | the line character by character around its five values |
| Jsonl.JsonStringRoundTrip | leveldb4n6/src/render.rs:28-46 | unescaping gives the string back, the closing quote is found only at the end, no character below U+0020 |
| Jsonl.LineRoundTrip | leveldb4n6/src/render.rs:97-109 | a line parses back to origin text, sequence, flag, key and value |
| Jsonl.FileRoundTrip | leveldb4n6/src/render.rs:97-109 | the output has exactly one line a record and each parses back to its record |
| Jsonl.LinesTerminated | leveldb4n6/src/render.rs:97-109 | every line ends with a newline, the last one included |

## Left out

- Reading directories, file order by path, command-line arguments: file-system and command-line plumbing.
- The insides of crc32c, Snappy, protobuf decoding and lossy UTF-8: arbitrary functions in the model.
- Text and CSV rendering: the first is lossy by design, quoting of the second lives in another library.
- The text of the JSONL lines of Local and Session Storage: they are modelled by the fields they show, of which LocalStorage.LineNeverDeterminesKey and SessionStorage.MapLineDeterminesIff say what is lost; their quoting is that of the raw lines.
- Error payloads and messages: errors are tags.
- The fall-back branches for 32-bit targets: a `usize` is taken to be 64 bits wide.
- Capacity reservations: not observable in the results; the size that drives the one in the entry loop is bounded in TableWriter.AcceptedEntriesTile.
- LogCorruption.BrokenRecordsLoseTheirPayloads: does not cover an empty payload whose header became all zero in front of other records of its block, where the scan gives up the block; LogAbandon.BrokenCostsOneIff and LogAbandon.AbandonedBlock do, for one record. No batch is empty, so the versions in Wal have no such condition.
- Wal.WalDamage: says nothing about what is read between the two kept parts, because the overwritten bytes are arbitrary and may hold records of their own.
- History.LiveView: keeps raw values; the repository computes this view in its differential test, where the values are decoded texts.
