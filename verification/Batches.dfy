/** The WriteBatch carried by a logical log record: a best-effort parser and the format's encoder. */
module Batches {
  import opened Bytes
  import opened Cursors
  import opened Sequences

  const OP_DELETE: byte := 0
  const OP_VALUE: byte := 1
  const BATCH_HEADER_LEN := 12
  const MAX_SEQUENCE: u64 := U64_LIMIT - 1

  datatype Op = Put(key: bytes, value: bytes) | Delete(key: bytes)
  datatype WriteBatch = WriteBatch(base: u64, ops: seq<Op>)

  /** The sequence number of operation `i`: a saturating addition. */
  function SequenceOf(base: u64, i: nat): u64 {
    Min(base + i, MAX_SEQUENCE)
  }

  function RecordOf(op: Op, sequence: u64, origin: string): Record {
    match op
    case Put(key, value) => Record(key, value, sequence, false, origin)
    case Delete(key) => Record(key, [], sequence, true, origin)
  }

  // ---------------------------------------------------------------- the parser

  datatype OpRead = OpRead(op: Op, used: nat)

  /** The operation at the front of `s`, or None at the first structural inconsistency. */
  function NextOp(s: bytes): (r: Option<OpRead>)
    ensures r.Some? ==> r.value.used <= |s|
  {
    if s == [] || (s[0] != OP_VALUE && s[0] != OP_DELETE) then None
    else
      var key := PrefixedRead(s[1..]);
      if key.out.Err? then None
      else if s[0] == OP_DELETE then Some(OpRead(Delete(key.out.value), 1 + key.used))
      else
        var value := PrefixedRead(s[1 + key.used..]);
        if value.out.Err? then None
        else Some(OpRead(Put(key.out.value, value.out.value), 1 + key.used + value.used))
  }

  function OpRecords(s: bytes, base: u64, i: nat, count: nat, origin: string): seq<Record>
    decreases count - i
  {
    if i >= count then []
    else
      match NextOp(s)
      case None => []
      case Some(r) => [RecordOf(r.op, SequenceOf(base, i), origin)] + OpRecords(s[r.used..], base, i + 1, count, origin)
  }

  /** Every operation of a batch up to the first one that cannot be decoded. */
  function BatchRecords(batch: bytes, origin: string): seq<Record> {
    if |batch| < BATCH_HEADER_LEN then []
    else OpRecords(batch[BATCH_HEADER_LEN..], Le64(batch[..8]), 0, Le32(batch[8..12]), origin)
  }

  lemma OpRecordsStep(s: bytes, base: u64, i: nat, count: nat, origin: string, records: seq<Record>)
    requires i < count
    ensures NextOp(s).None? ==> records + OpRecords(s, base, i, count, origin) == records
    ensures NextOp(s).Some? ==>
              var r := NextOp(s).value;
              var head := RecordOf(r.op, SequenceOf(base, i), origin);
              var tail := OpRecords(s[r.used..], base, i + 1, count, origin);
              records + OpRecords(s, base, i, count, origin) == (records + [head]) + tail
  {
    hide NextOp, RecordOf;
    if NextOp(s).Some? {
      var r := NextOp(s).value;
      var head := RecordOf(r.op, SequenceOf(base, i), origin);
      var tail := OpRecords(s[r.used..], base, i + 1, count, origin);
      Associative(records, [head], tail);
    }
  }

  method ParseWriteBatch(batch: bytes, origin: string, out: seq<Record>) returns (records: seq<Record>)
    ensures records == out + BatchRecords(batch, origin)
  {
    hide NextOp, OpRecords, RecordOf, SequenceOf, Le;
    records := out;
    if |batch| < BATCH_HEADER_LEN {
      return;
    }
    var cur := new Cursor(batch);
    var base := cur.ReadU64Le();
    if base.Err? {
      return;
    }
    var count := cur.ReadU32Le();
    Window(batch, 8, 0, 4);
    if count.Err? {
      return;
    }
    ghost var all := out + BatchRecords(batch, origin);
    var i := 0;
    while i < count.value
      invariant cur.Valid() && fresh(cur)
      invariant i <= count.value
      invariant records + OpRecords(cur.Rest(), base.value, i, count.value, origin) == all
    {
      OpRecordsStep(cur.Rest(), base.value, i, count.value, origin, records);
      var op := ReadOp(cur);
      if op.None? {
        return;
      }
      records := records + [RecordOf(op.value, SequenceOf(base.value, i), origin)];
      i := i + 1;
    }
    OpRecordsDone(cur.Rest(), base.value, i, count.value, origin);
  }

  lemma OpRecordsDone(s: bytes, base: u64, i: nat, count: nat, origin: string)
    requires i >= count
    ensures OpRecords(s, base, i, count, origin) == []
  {
  }

  /** The loop's reads: a type byte, a key and, for a put, a value. Any failure ends the batch. */
  method ReadOp(cur: Cursor) returns (op: Option<Op>)
    requires cur.Valid()
    modifies cur
    ensures cur.Valid()
    ensures op.None? <==> NextOp(old(cur.Rest())).None?
    ensures op.Some? ==>
              var r := NextOp(old(cur.Rest())).value;
              op.value == r.op && cur.Rest() == old(cur.Rest())[r.used..]
  {
    hide PrefixedRead;
    ghost var s := cur.Rest();
    var kind := cur.ReadU8();
    if kind.Err? || (kind.value != OP_VALUE && kind.value != OP_DELETE) {
      return None;
    }
    ghost var k := PrefixedRead(s[1..]);
    var key := cur.ReadLengthPrefixed();
    if key.Err? {
      return None;
    }
    Drop(s, 1, k.used);
    if kind.value == OP_DELETE {
      return Some(Delete(key.value));
    }
    ghost var v := PrefixedRead(s[1 + k.used..]);
    var value := cur.ReadLengthPrefixed();
    if value.Err? {
      return None;
    }
    Drop(s, 1 + k.used, v.used);
    return Some(Put(key.value, value.value));
  }

  // ---------------------------------------------------------------- the format's encoder

  function EncodeOp(op: Op): bytes {
    match op
    case Put(key, value) => [1] + EncodePrefixed(key) + EncodePrefixed(value)
    case Delete(key) => [0] + EncodePrefixed(key)
  }

  function EncodeOps(ops: seq<Op>): bytes {
    if ops == [] then [] else EncodeOp(ops[0]) + EncodeOps(ops[1..])
  }

  predicate Encodable(b: WriteBatch) {
    && |b.ops| < U32_LIMIT
    && forall i :: 0 <= i < |b.ops| ==> OpEncodable(b.ops[i])
  }

  predicate OpEncodable(op: Op) {
    |op.key| < U64_LIMIT && (op.Put? ==> |op.value| < U64_LIMIT)
  }

  function EncodeBatch(b: WriteBatch): (s: bytes)
    requires Encodable(b)
    ensures |s| >= BATCH_HEADER_LEN
  {
    ToLe(b.base, 8) + ToLe(|b.ops|, 4) + EncodeOps(b.ops)
  }

  /** What a batch means: one record an operation, in order. Sequence numbers count up from the base
      and saturate; a deletion has no value. */
  function RecordsOf(b: WriteBatch, origin: string): (rs: seq<Record>)
    ensures |rs| == |b.ops|
  {
    seq(|b.ops|, i requires 0 <= i < |b.ops| =>
      Record(b.ops[i].key, if b.ops[i].Put? then b.ops[i].value else [],
             Min(b.base + i, 0xFFFF_FFFF_FFFF_FFFF), b.ops[i].Delete?, origin))
  }

  lemma NextOpOfPut(k: bytes, v: bytes, key: bytes, value: bytes, rest: bytes)
    requires PrefixedRead(k + (v + rest)) == Read(Ok(key), |k|)
    requires PrefixedRead(v + rest) == Read(Ok(value), |v|)
    ensures NextOp([1] + k + v + rest) == Some(OpRead(Put(key, value), 1 + |k| + |v|))
  {
    hide PrefixedRead;
    var s := [1] + k + v + rest;
    assert s[1..] == k + (v + rest);
    assert s[1 + |k|..] == v + rest;
  }

  lemma NextOpOfDelete(k: bytes, key: bytes, rest: bytes)
    requires PrefixedRead(k + rest) == Read(Ok(key), |k|)
    ensures NextOp([0] + k + rest) == Some(OpRead(Delete(key), 1 + |k|))
  {
    hide PrefixedRead;
    assert ([0] + k + rest)[1..] == k + rest;
  }

  lemma NextOpRoundTrip(op: Op, rest: bytes)
    requires OpEncodable(op)
    ensures NextOp(EncodeOp(op) + rest) == Some(OpRead(op, |EncodeOp(op)|))
  {
    hide NextOp, PrefixedRead, EncodePrefixed;
    match op {
      case Delete(key) =>
        PrefixedRoundTrip(key, rest);
        NextOpOfDelete(EncodePrefixed(key), key, rest);
      case Put(key, value) =>
        var k, v := EncodePrefixed(key), EncodePrefixed(value);
        PrefixedRoundTrip(key, v + rest);
        PrefixedRoundTrip(value, rest);
        NextOpOfPut(k, v, key, value, rest);
    }
  }

  lemma RecordMeaning(op: Op, base: u64, i: nat, origin: string)
    ensures RecordOf(op, SequenceOf(base, i), origin)
            == Record(op.key, if op.Put? then op.value else [], Min(base + i, 0xFFFF_FFFF_FFFF_FFFF), op.Delete?,
                      origin)
  {
  }

  lemma RecordsOfFrom(b: WriteBatch, origin: string, i: nat)
    requires i < |b.ops|
    ensures RecordsOf(b, origin)[i..]
            == [RecordOf(b.ops[i], SequenceOf(b.base, i), origin)] + RecordsOf(b, origin)[i + 1..]
  {
    RecordMeaning(b.ops[i], b.base, i, origin);
    hide RecordOf, SequenceOf;
  }

  lemma {:induction false} OpsRoundTrip(b: WriteBatch, i: nat, origin: string)
    requires Encodable(b) && i <= |b.ops|
    ensures OpRecords(EncodeOps(b.ops[i..]), b.base, i, |b.ops|, origin) == RecordsOf(b, origin)[i..]
    decreases |b.ops| - i
  {
    hide NextOp, EncodeOp, RecordOf, SequenceOf, RecordsOf;
    if i < |b.ops| {
      var op, rest := b.ops[i], EncodeOps(b.ops[i + 1..]);
      Drop(b.ops, i, 1);
      NextOpRoundTrip(op, rest);
      DropConcat(EncodeOp(op), rest, 0);
      assert rest[0..] == rest;
      OpsRoundTrip(b, i + 1, origin);
      RecordsOfFrom(b, origin, i);
    }
  }

  /** Parsing an encoded batch returns one record an operation, in order, with sequence `base + i`. */
  lemma BatchRoundTrip(b: WriteBatch, origin: string)
    requires Encodable(b)
    ensures BatchRecords(EncodeBatch(b), origin) == RecordsOf(b, origin)
  {
    var s := EncodeBatch(b);
    WidthLimits();
    LeRoundTrip(b.base, 8);
    LeRoundTrip(|b.ops|, 4);
    assert s[..8] == ToLe(b.base, 8);
    assert s[8..12] == ToLe(|b.ops|, 4);
    assert s[12..] == EncodeOps(b.ops) == EncodeOps(b.ops[0..]);
    OpsRoundTrip(b, 0, origin);
  }

  // ---------------------------------------------------------------- which records a batch holds

  /** The bytes begin with an operation, `used` bytes long: a type byte 1, a key and a value, or a
      type byte 0 and a key. */
  ghost predicate IsOp(s: bytes, op: Op, used: nat) {
    s != [] &&
    match op
    case Put(key, value) =>
      s[0] == 1 && exists m: nat :: IsPrefixed(s[1..], key, m) && 1 + m <= used <= |s|
                                    && IsPrefixed(s[1 + m..], value, used - 1 - m)
    case Delete(key) => s[0] == 0 && used >= 1 && IsPrefixed(s[1..], key, used - 1)
  }

  /** An operation is decoded iff there is one. */
  lemma NextOpExact(s: bytes, op: Op, used: nat)
    ensures NextOp(s) == Some(OpRead(op, used)) <==> IsOp(s, op, used)
  {
    hide PrefixedRead, IsPrefixed;
    if s != [] {
      match op {
        case Delete(key) =>
          if used >= 1 {
            PrefixedExact(s[1..], key, used - 1);
          }
        case Put(key, value) =>
          NextPutExact(s, key, value, used);
      }
    }
  }

  lemma NextPutExact(s: bytes, key: bytes, value: bytes, used: nat)
    requires s != []
    ensures NextOp(s) == Some(OpRead(Put(key, value), used)) <==> IsOp(s, Put(key, value), used)
  {
    hide PrefixedRead, IsPrefixed;
    if NextOp(s) == Some(OpRead(Put(key, value), used)) {
      var m := PrefixedRead(s[1..]).used;
      PrefixedExact(s[1..], key, m);
      PrefixedExact(s[1 + m..], value, used - 1 - m);
    }
    if IsOp(s, Put(key, value), used) {
      var m: nat :| IsPrefixed(s[1..], key, m) && 1 + m <= used <= |s| && IsPrefixed(s[1 + m..], value, used - 1 - m);
      PrefixedExact(s[1..], key, m);
      PrefixedExact(s[1 + m..], value, used - 1 - m);
    }
  }

  /** The bytes are these operations one after another, and then `rest`. */
  ghost predicate HoldsOps(s: bytes, ops: seq<Op>, rest: bytes)
    decreases |ops|
  {
    if ops == [] then rest == s
    else exists used: nat :: used <= |s| && IsOp(s, ops[0], used) && HoldsOps(s[used..], ops[1..], rest)
  }

  ghost predicate HoldsNoOp(s: bytes) {
    forall op, used: nat :: !IsOp(s, op, used)
  }

  lemma NoOpIsNone(s: bytes)
    ensures NextOp(s).None? <==> HoldsNoOp(s)
  {
    hide NextOp, IsOp;
    if NextOp(s).None? {
      forall op, used: nat
        ensures !IsOp(s, op, used)
      {
        NextOpExact(s, op, used);
      }
    } else {
      NextOpExact(s, NextOp(s).value.op, NextOp(s).value.used);
    }
  }

  lemma {:induction false} OpRecordsExact(s: bytes, base: u64, i: nat, count: nat, origin: string)
    returns (ops: seq<Op>, rest: bytes)
    requires i <= count
    ensures HoldsOps(s, ops, rest)
    ensures i + |ops| <= count && (i + |ops| < count ==> HoldsNoOp(rest))
    ensures |OpRecords(s, base, i, count, origin)| == |ops|
    ensures forall j :: 0 <= j < |ops| ==>
              OpRecords(s, base, i, count, origin)[j] == RecordOf(ops[j], SequenceOf(base, i + j), origin)
    decreases count - i
  {
    hide NextOp, IsOp, HoldsNoOp, RecordOf, SequenceOf;
    NoOpIsNone(s);
    if i == count || NextOp(s).None? {
      ops, rest := [], s;
    } else {
      var r := NextOp(s).value;
      NextOpExact(s, r.op, r.used);
      var later;
      later, rest := OpRecordsExact(s[r.used..], base, i + 1, count, origin);
      ops := [r.op] + later;
      assert ops[1..] == later;
      forall j | 0 < j < |ops|
        ensures ops[j] == later[j - 1] && i + j == i + 1 + (j - 1)
      {
      }
    }
  }

  /** For arbitrary bytes: the records are those of the operations that stand one after another behind
      the header, as many as the batch claims or up to the first place that holds none. */
  lemma BatchExact(batch: bytes, origin: string) returns (ops: seq<Op>, rest: bytes)
    ensures |batch| < 12 ==> BatchRecords(batch, origin) == []
    ensures |batch| >= 12 ==>
              && HoldsOps(batch[12..], ops, rest)
              && |ops| <= Le(batch[8..12]) && (|ops| < Le(batch[8..12]) ==> HoldsNoOp(rest))
              && BatchRecords(batch, origin) == RecordsOf(WriteBatch(Le64(batch[..8]), ops), origin)
  {
    hide OpRecords, HoldsOps, HoldsNoOp, Le, RecordOf, SequenceOf;
    ops, rest := [], [];
    if |batch| >= 12 {
      var base := Le64(batch[..8]);
      ops, rest := OpRecordsExact(batch[12..], base, 0, Le32(batch[8..12]), origin);
      forall i | 0 <= i < |ops|
        ensures BatchRecords(batch, origin)[i] == RecordsOf(WriteBatch(base, ops), origin)[i]
      {
        RecordMeaning(ops[i], base, i, origin);
      }
    }
  }

  // ---------------------------------------------------------------- laws for arbitrary bytes

  lemma NextOpLocal(s: bytes, t: bytes)
    requires NextOp(s).Some?
    ensures NextOp(s + t) == NextOp(s)
  {
    hide PrefixedRead;
    var key := PrefixedRead(s[1..]);
    PrefixedLocal(s[1..], t);
    assert (s + t)[1..] == s[1..] + t;
    if s[0] == OP_VALUE {
      PrefixedLocal(s[1 + key.used..], t);
      assert (s + t)[1 + key.used..] == s[1 + key.used..] + t;
    }
  }

  lemma NextOpUsed(s: bytes)
    requires NextOp(s).Some?
    ensures NextOp(s).value.used <= |s|
  {
  }

  lemma {:induction false} OpRecordsMonotone(s: bytes, t: bytes, base: u64, i: nat, count: nat, origin: string)
    ensures OpRecords(s, base, i, count, origin) <= OpRecords(s + t, base, i, count, origin)
    decreases count - i
  {
    hide NextOp, RecordOf, SequenceOf;
    if i < count && NextOp(s).Some? {
      NextOpLocal(s, t);
      NextOpUsed(s);
      var used := NextOp(s).value.used;
      OpRecordsMonotone(s[used..], t, base, i + 1, count, origin);
      assert (s + t)[used..] == s[used..] + t;
    }
  }

  /** What is read from a truncated batch is a prefix of what is read from the whole batch. */
  lemma BatchPrefixMonotone(batch: bytes, n: nat, origin: string)
    requires n <= |batch|
    ensures BatchRecords(batch[..n], origin) <= BatchRecords(batch, origin)
  {
    if n >= BATCH_HEADER_LEN {
      assert batch[..n][..8] == batch[..8];
      assert batch[..n][8..12] == batch[8..12];
      assert batch[..n][12..] + batch[n..] == batch[12..];
      OpRecordsMonotone(batch[..n][12..], batch[n..], Le64(batch[..8]), 0, Le32(batch[8..12]), origin);
    }
  }

  /** Key and value bytes, and two bytes an operation for its type and first length. */
  function Weight(records: seq<Record>): nat {
    if records == [] then 0
    else |records[0].key| + |records[0].value| + 2 + Weight(records[1..])
  }

  lemma {:induction false} WeightConcat(a: seq<Record>, b: seq<Record>)
    ensures Weight(a + b) == Weight(a) + Weight(b)
  {
    if a == [] {
      assert a + b == b;
    } else {
      WeightConcat(a[1..], b);
      ConcatTail(a, b);
    }
  }

  lemma NextOpWeight(s: bytes)
    requires NextOp(s).Some?
    ensures var r := NextOp(s).value;
            2 + |r.op.key| + (if r.op.Put? then |r.op.value| else 0) <= r.used
  {
  }

  lemma {:induction false} OpRecordsLaws(s: bytes, base: u64, i: nat, count: nat, origin: string)
    ensures var rs := OpRecords(s, base, i, count, origin);
            && Weight(rs) <= |s|
            && (rs == [] || |rs| <= count - i)
    ensures var rs := OpRecords(s, base, i, count, origin);
            forall j :: 0 <= j < |rs| ==>
              rs[j].sequence == SequenceOf(base, i + j) && (rs[j].deleted ==> rs[j].value == [])
    decreases count - i
  {
    hide NextOp, SequenceOf;
    if i < count && NextOp(s).Some? {
      var r := NextOp(s).value;
      NextOpWeight(s);
      OpRecordsLaws(s[r.used..], base, i + 1, count, origin);
      var head := RecordOf(r.op, SequenceOf(base, i), origin);
      var tail := OpRecords(s[r.used..], base, i + 1, count, origin);
      assert ([head] + tail)[1..] == tail;
      forall j | 0 < j < 1 + |tail|
        ensures ([head] + tail)[j] == tail[j - 1] && tail[j - 1].sequence == SequenceOf(base, i + 1 + (j - 1))
      {
      }
    }
  }

  lemma {:induction false} WeightCount(records: seq<Record>)
    ensures 2 * |records| <= Weight(records)
  {
    if records != [] {
      WeightCount(records[1..]);
    }
  }

  /** For arbitrary bytes, whatever count and lengths they claim: record `i` has sequence
      min(base + i, 2^64 - 1), a tombstone has no value, and the output weighs no more than the
      operations area, so there is at most one record for every two bytes of it. */
  lemma BatchLaws(batch: bytes, origin: string)
    ensures var rs := BatchRecords(batch, origin);
            rs != [] ==> && Weight(rs) + BATCH_HEADER_LEN <= |batch|
                         && 2 * |rs| + BATCH_HEADER_LEN <= |batch|
                         && |rs| <= Le32(batch[8..12])
    ensures var rs := BatchRecords(batch, origin);
            forall i :: 0 <= i < |rs| ==>
              rs[i].sequence == Min(Le64(batch[..8]) + i, MAX_SEQUENCE) && (rs[i].deleted ==> rs[i].value == [])
  {
    if |batch| >= BATCH_HEADER_LEN {
      OpRecordsLaws(batch[12..], Le64(batch[..8]), 0, Le32(batch[8..12]), origin);
      WeightCount(BatchRecords(batch, origin));
    }
  }
}
