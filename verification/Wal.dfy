/** Logs of write batches: what the reader recovers from a whole, torn, padded or damaged log file. */
module Wal {
  import opened Bytes
  import opened Batches
  import opened Log
  import opened LogWriter
  import opened LogDamage
  import opened LogCorruption
  import opened Sequences

  predicate AllEncodable(batches: seq<WriteBatch>) {
    forall i :: 0 <= i < |batches| ==> Encodable(batches[i])
  }

  function EncodeAll(batches: seq<WriteBatch>): (payloads: seq<bytes>)
    requires AllEncodable(batches)
    ensures |payloads| == |batches|
  {
    seq(|batches|, i requires 0 <= i < |batches| => EncodeBatch(batches[i]))
  }

  /** The log file a writer produces for these batches. */
  function LogFile(crc: Crc32c, batches: seq<WriteBatch>): bytes
    requires AllEncodable(batches)
  {
    WriteLog(crc, EncodeAll(batches))
  }

  /** One record for every operation of every batch, in order. */
  function RecordsOfAll(batches: seq<WriteBatch>, origin: string): seq<Record> {
    if batches == [] then [] else RecordsOf(batches[0], origin) + RecordsOfAll(batches[1..], origin)
  }

  lemma {:induction false} DecodeAll(batches: seq<WriteBatch>, origin: string)
    requires AllEncodable(batches)
    ensures AllRecords(EncodeAll(batches), origin) == RecordsOfAll(batches, origin)
  {
    hide EncodeBatch, RecordsOf, BatchRecords;
    if batches != [] {
      BatchRoundTrip(batches[0], origin);
      DecodeAll(batches[1..], origin);
      assert EncodeAll(batches) == [EncodeBatch(batches[0])] + EncodeAll(batches[1..]);
    }
  }

  lemma {:induction false} RecordsOfAllConcat(a: seq<WriteBatch>, b: seq<WriteBatch>, origin: string)
    ensures RecordsOfAll(a + b, origin) == RecordsOfAll(a, origin) + RecordsOfAll(b, origin)
  {
    hide RecordsOf;
    if a == [] {
      assert a + b == b;
    } else {
      RecordsOfAllConcat(a[1..], b, origin);
      ConcatTail(a, b);
      Associative(RecordsOf(a[0], origin), RecordsOfAll(a[1..], origin), RecordsOfAll(b, origin));
    }
  }

  /** Reading a written log returns one record an operation, in order, with its sequence number,
      key, value and deletion flag, over however many blocks the batches are fragmented. */
  lemma WalRoundTrip(crc: Crc32c, batches: seq<WriteBatch>, origin: string)
    requires AllEncodable(batches)
    ensures LogRecords(crc, LogFile(crc, batches), origin) == RecordsOfAll(batches, origin)
  {
    LogRoundTrip(crc, EncodeAll(batches));
    DecodeAll(batches, origin);
  }

  /** Of any byte prefix of a log exactly the batches wholly inside it are recovered. */
  lemma WalTornTail(crc: Crc32c, batches: seq<WriteBatch>, n: nat, origin: string) returns (k: nat)
    requires AllEncodable(batches) && n <= |LogFile(crc, batches)|
    ensures k <= |batches| && |LogFile(crc, batches[..k])| <= n
    ensures k < |batches| ==> n < |LogFile(crc, batches[..k + 1])|
    ensures LogRecords(crc, LogFile(crc, batches)[..n], origin) == RecordsOfAll(batches[..k], origin)
  {
    hide WriteLog, EncodeBatch, Payloads;
    k := |batches|;
    assert batches[..k] == batches;
    EmptyLog(crc);
    assert EncodeAll(batches[..0]) == [];
    while n < |LogFile(crc, batches[..k])|
      invariant k <= |batches|
      invariant k < |batches| ==> n < |LogFile(crc, batches[..k + 1])|
      decreases k
    {
      k := k - 1;
    }
    assert EncodeAll(batches[..k]) == EncodeAll(batches)[..k];
    if k < |batches| {
      assert EncodeAll(batches[..k + 1]) == EncodeAll(batches)[..k + 1];
    }
    TornTail(crc, EncodeAll(batches), n, k);
    DecodeAll(batches[..k], origin);
  }

  lemma EmptyLog(crc: Crc32c)
    ensures WriteLog(crc, []) == []
  {
  }

  /** Zero bytes behind a complete log, as preallocated files have them, change nothing. */
  lemma WalZeroTail(crc: Crc32c, batches: seq<WriteBatch>, n: nat, origin: string)
    requires AllEncodable(batches)
    ensures LogRecords(crc, LogFile(crc, batches) + Zeros(n), origin) == RecordsOfAll(batches, origin)
  {
    ZeroTailIgnored(crc, EncodeAll(batches), n);
    DecodeAll(batches, origin);
  }

  /** One physical record whose checksum fails costs exactly the batch it belongs to. */
  lemma WalBadRecord(crc: Crc32c, batches: seq<WriteBatch>, b: nat, f: nat, image: bytes, origin: string)
    requires AllEncodable(batches) && b < |batches|
    requires var payloads := EncodeAll(batches);
             var cs := Fragments(payloads[b], RoomAfterAll(payloads[..b], BLOCK_SIZE), true);
             f < |cs| && Broken(crc, cs[f], image)
    ensures var at := RecordStart(crc, EncodeAll(batches), b, f);
            && at + |image| <= |LogFile(crc, batches)|
            && LogRecords(crc, Splice(LogFile(crc, batches), at, image), origin)
               == RecordsOfAll(batches[..b], origin) + RecordsOfAll(batches[b + 1..], origin)
  {
    hide Fragments, EncodeBatch, Splice, Broken, Payloads, RecordStart;
    var payloads := EncodeAll(batches);
    OneBrokenRecord(crc, payloads, b, f, image);
    var rest := batches[..b] + batches[b + 1..];
    assert EncodeAll(rest) == payloads[..b] + payloads[b + 1..];
    DecodeAll(rest, origin);
    RecordsOfAllConcat(batches[..b], batches[b + 1..], origin);
  }

  /** Any number of physical records whose checksums fail: what is recovered is what the batches
      without a broken record hold. */
  lemma WalBrokenRecords(crc: Crc32c, batches: seq<WriteBatch>, s: bytes, origin: string)
    requires AllEncodable(batches) && MangledLog(crc, EncodeAll(batches), BLOCK_SIZE, s)
    ensures LogRecords(crc, s, origin) == SurvivingRecords(crc, batches, BLOCK_SIZE, s, origin)
  {
    hide MangledLog, Survivors, EncodeBatch, SurvivingRecords;
    NoEmptyPayload(crc, EncodeAll(batches), BLOCK_SIZE, s);
    BrokenRecordsLoseTheirPayloads(crc, EncodeAll(batches), s);
    DecodeSurvivors(crc, batches, BLOCK_SIZE, s, origin);
  }

  /** The bytes of the first batch, and those of the others behind them. */
  lemma MangledBatches(crc: Crc32c, batches: seq<WriteBatch>, room: nat, s: bytes)
    requires room <= BLOCK_SIZE && batches != [] && AllEncodable(batches)
    requires MangledLog(crc, EncodeAll(batches), room, s)
    ensures var payload := EncodeBatch(batches[0]);
            var cs, n := Fragments(payload, room, true), |WritePayload(crc, payload, room)|;
            && Fits(cs, room) && n <= |s| && Mangled(crc, cs, room, s[..n])
            && AllEncodable(batches[1..])
            && MangledLog(crc, EncodeAll(batches[1..]), RoomAfterPayload(payload, room), s[n..])
  {
    hide Mangled, Fragments, Fits, EncodeBatch, WritePayload, RoomAfterPayload;
    FragmentsFit(EncodeBatch(batches[0]), room, true);
    assert EncodeAll(batches)[1..] == EncodeAll(batches[1..]);
  }

  /** The records of the batches all of whose physical records are as written. */
  function SurvivingRecords(crc: Crc32c, batches: seq<WriteBatch>, room: nat, s: bytes, origin: string): seq<Record>
    requires room <= BLOCK_SIZE && AllEncodable(batches) && MangledLog(crc, EncodeAll(batches), room, s)
    decreases |batches|
  {
    if batches == [] then []
    else
      var payload := EncodeBatch(batches[0]);
      var cs, n := Fragments(payload, room, true), |WritePayload(crc, payload, room)|;
      MangledBatches(crc, batches, room, s);
      hide MangledLog, Mangled, Fragments, Fits, EncodeBatch, WritePayload, RoomAfterPayload;
      (if Unbroken(crc, cs, room, s[..n]) then RecordsOf(batches[0], origin) else [])
      + SurvivingRecords(crc, batches[1..], RoomAfterPayload(payload, room), s[n..], origin)
  }

  lemma {:induction false} DecodeSurvivors(crc: Crc32c, batches: seq<WriteBatch>, room: nat, s: bytes, origin: string)
    requires room <= BLOCK_SIZE && AllEncodable(batches) && MangledLog(crc, EncodeAll(batches), room, s)
    ensures AllRecords(Survivors(crc, EncodeAll(batches), room, s), origin)
            == SurvivingRecords(crc, batches, room, s, origin)
    decreases |batches|
  {
    hide Fragments, EncodeBatch, RecordsOf, BatchRecords, Unbroken, Mangled;
    if batches != [] {
      var payload := EncodeBatch(batches[0]);
      var n, behind := |WritePayload(crc, payload, room)|, RoomAfterPayload(payload, room);
      FragmentsFit(payload, room, true);
      assert EncodeAll(batches)[1..] == EncodeAll(batches[1..]);
      DecodeSurvivors(crc, batches[1..], behind, s[n..], origin);
      BatchRoundTrip(batches[0], origin);
      var head := if Unbroken(crc, Fragments(payload, room, true), room, s[..n]) then [payload] else [];
      FlatMapConcat(BatchParser(origin), head, Survivors(crc, EncodeAll(batches[1..]), behind, s[n..]));
      FlatMapSingle(BatchParser(origin), payload);
    }
  }

  /** Any range of bytes replaced by any others: the batches that ended before it and the batches
      that begin in a block behind it are recovered in full. */
  lemma WalDamage(crc: Crc32c, batches: seq<WriteBatch>, lo: nat, hi: nat, junk: bytes, i: nat, j: nat, origin: string)
    requires AllEncodable(batches) && lo <= hi <= |LogFile(crc, batches)| && |junk| == hi - lo
    requires i <= |batches| && |LogFile(crc, batches[..i])| <= lo
    requires j <= |batches| && (j < |batches| ==> NextBlock(hi) <= PayloadStart(crc, EncodeAll(batches), j))
    ensures var log := LogFile(crc, batches);
            exists middle ::
              LogRecords(crc, log[..lo] + junk + log[hi..], origin)
              == RecordsOfAll(batches[..i], origin) + middle + RecordsOfAll(batches[j..], origin)
  {
    hide EncodeBatch, Payloads, PayloadStart, WriteLog, NextBlock;
    var payloads, log := EncodeAll(batches), LogFile(crc, batches);
    assert EncodeAll(batches[..i]) == payloads[..i] && EncodeAll(batches[j..]) == payloads[j..];
    DamageConfined(crc, payloads, lo, hi, junk, i, j);
    var lost :| Payloads(crc, log[..lo] + junk + log[hi..]) == payloads[..i] + lost + payloads[j..];
    FlatMapConcat(BatchParser(origin), payloads[..i] + lost, payloads[j..]);
    FlatMapConcat(BatchParser(origin), payloads[..i], lost);
    DecodeAll(batches[..i], origin);
    DecodeAll(batches[j..], origin);
  }
}
