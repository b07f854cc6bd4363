/** The write-ahead log reader: a scan for physical records inside 32 KiB blocks, an automaton that
    reassembles their fragments, and the batch parser applied to every reassembled payload. */
module Log {
  import opened Bytes
  import opened Batches
  import opened Sequences

  const BLOCK_SIZE := 32768
  const HEADER_SIZE := 7
  const REC_FULL: byte := 1
  const REC_FIRST: byte := 2
  const REC_MIDDLE: byte := 3
  const REC_LAST: byte := 4

  /** The checksum a writer stores: the masked crc32c of the type byte followed by the data. */
  function RecordCrc(crc: Crc32c, kind: byte, data: bytes): u32 {
    MaskCrc(crc([kind] + data))
  }

  // ---------------------------------------------------------------- the block scan

  /** A physical record the scan accepts; `intact` tells whether its checksum matches. */
  datatype Physical = Physical(kind: byte, data: bytes, intact: bool)

  /** The physical record at the front of `s` when `room` bytes of the current block are left, or
      None when the rest of the block is abandoned: too short, a zero header, or a length that lies. */
  function NextPhysical(crc: Crc32c, s: bytes, room: nat): (r: Option<Physical>)
    ensures r.Some? ==> HEADER_SIZE + |r.value.data| <= Min(room, |s|)
  {
    var left := Min(room, |s|);
    if left < HEADER_SIZE then None
    else
      var stored, length, kind := Le32(s[..4]), Le(s[4..6]), s[6];
      if kind == 0 && length == 0 && stored == 0 then None
      else if HEADER_SIZE + length > left then None
      else
        var data := s[HEADER_SIZE..HEADER_SIZE + length];
        Some(Physical(kind, data, RecordCrc(crc, kind, data) == stored))
  }

  /** Which physical record stands at the front of a file's rest, byte for byte: a four-byte checksum, a
      two-byte length, a type byte and the data, all inside the block and not an all-zero header. It
      is intact iff the checksum is the masked crc32c of the type byte and the data behind it. */
  lemma PhysicalExact(crc: Crc32c, s: bytes, room: nat, p: Physical)
    ensures NextPhysical(crc, s, room) == Some(p) <==>
            && 7 + |p.data| <= Min(room, |s|)
            && s[..7] != Zeros(7)
            && Le(s[4..6]) == |p.data| && s[6] == p.kind && s[7..7 + |p.data|] == p.data
            && (p.intact <==> Le(s[..4]) == MaskCrc(crc(s[6..7 + |p.data|])))
  {
    hide MaskCrc;
    if 7 <= Min(room, |s|) {
      ZeroHeader(s);
      var n := Le(s[4..6]);
      if 7 + n <= |s| {
        assert [s[6]] + s[7..7 + n] == s[6..7 + n];
      }
    }
  }

  lemma ZeroHeader(s: bytes)
    requires |s| >= 7
    ensures s[6] == 0 && Le(s[4..6]) == 0 && Le(s[..4]) == 0 <==> s[..7] == Zeros(7)
  {
    LittleEndian(s[..4]);
    LittleEndian(s[4..6]);
    assert s[..7] == [s[0], s[1], s[2], s[3], s[4], s[5], s[6]];
    assert Zeros(7) == [0, 0, 0, 0, 0, 0, 0];
  }

  /** Every physical record accepted in `s`, which begins with the last `room` bytes of a block. */
  function Scan(crc: Crc32c, s: bytes, room: nat): seq<Physical>
    requires room <= BLOCK_SIZE
    decreases |s|, BLOCK_SIZE - room
  {
    if s == [] then []
    else
      match NextPhysical(crc, s, room)
      case Some(p) =>
        var size := HEADER_SIZE + |p.data|;
        [p] + Scan(crc, s[size..], room - size)
      case None =>
        if |s| <= room then [] else Scan(crc, s[room..], BLOCK_SIZE)
  }

  // ---------------------------------------------------------------- the reassembly automaton

  datatype State = State(fragment: bytes, inRecord: bool)

  const IDLE := State([], false)

  /** One physical record: the next state, and the payload it completes, if any. */
  function Step(st: State, p: Physical): (State, seq<bytes>) {
    if p.kind == REC_FULL then
      (IDLE, if p.intact then [p.data] else [])
    else if p.kind == REC_FIRST then
      (if p.intact then State(p.data, true) else IDLE, [])
    else if p.kind == REC_MIDDLE then
      (if st.inRecord && p.intact then State(st.fragment + p.data, true) else IDLE, [])
    else if p.kind == REC_LAST then
      (IDLE, if st.inRecord && p.intact then [st.fragment + p.data] else [])
    else
      (IDLE, [])
  }

  datatype Outcome = Outcome(state: State, payloads: seq<bytes>)

  function Run(st: State, ps: seq<Physical>): Outcome
    decreases |ps|
  {
    if ps == [] then Outcome(st, [])
    else
      var (next, emitted) := Step(st, ps[0]);
      var rest := Run(next, ps[1..]);
      Outcome(rest.state, emitted + rest.payloads)
  }

  lemma RunNothing(st: State)
    ensures Run(st, []) == Outcome(st, [])
  {
  }

  lemma {:induction false} RunConcat(st: State, a: seq<Physical>, b: seq<Physical>)
    ensures var x := Run(st, a);
            var y := Run(x.state, b);
            Run(st, a + b) == Outcome(y.state, x.payloads + y.payloads)
    decreases |a|
  {
    hide Step;
    if a == [] {
      assert a + b == b;
    } else {
      var (next, emitted) := Step(st, a[0]);
      RunConcat(next, a[1..], b);
      ConcatTail(a, b);
      Associative(emitted, Run(next, a[1..]).payloads, Run(Run(next, a[1..]).state, b).payloads);
    }
  }

  // ---------------------------------------------------------------- the whole reader

  function BatchParser(origin: string): bytes -> seq<Record> {
    batch => BatchRecords(batch, origin)
  }

  function AllRecords(payloads: seq<bytes>, origin: string): seq<Record> {
    FlatMap(BatchParser(origin), payloads)
  }

  /** The logical records of a log file: the payloads handed to the batch parser. */
  function Payloads(crc: Crc32c, buf: bytes): seq<bytes> {
    Run(IDLE, Scan(crc, buf, BLOCK_SIZE)).payloads
  }

  function LogRecords(crc: Crc32c, buf: bytes, origin: string): seq<Record> {
    AllRecords(Payloads(crc, buf), origin)
  }

  /** What is still to come when the reader stands at `s` in state `st`. */
  ghost function Remaining(crc: Crc32c, st: State, s: bytes, room: nat, origin: string): seq<Record>
    requires room <= BLOCK_SIZE
  {
    AllRecords(Run(st, Scan(crc, s, room)).payloads, origin)
  }

  lemma RunFirst(st: State, p: Physical, rest: seq<Physical>)
    ensures var (next, emitted) := Step(st, p);
            var later := Run(next, rest);
            Run(st, [p] + rest) == Outcome(later.state, emitted + later.payloads)
  {
    hide Step;
    assert ([p] + rest)[1..] == rest;
  }

  lemma ScanStep(crc: Crc32c, st: State, s: bytes, room: nat, p: Physical)
    requires room <= BLOCK_SIZE && NextPhysical(crc, s, room) == Some(p)
    ensures var size := HEADER_SIZE + |p.data|;
            var (next, emitted) := Step(st, p);
            Run(st, Scan(crc, s, room)).payloads == emitted + Run(next, Scan(crc, s[size..], room - size)).payloads
  {
    hide NextPhysical, Step;
    var rest := Scan(crc, s[HEADER_SIZE + |p.data|..], room - (HEADER_SIZE + |p.data|));
    RunFirst(st, p, rest);
  }

  lemma RemainingStep(crc: Crc32c, st: State, s: bytes, room: nat, p: Physical, origin: string, records: seq<Record>)
    requires room <= BLOCK_SIZE && NextPhysical(crc, s, room) == Some(p)
    ensures var size := HEADER_SIZE + |p.data|;
            var (next, emitted) := Step(st, p);
            records + Remaining(crc, st, s, room, origin)
            == (records + AllRecords(emitted, origin)) + Remaining(crc, next, s[size..], room - size, origin)
  {
    hide NextPhysical, Step, Scan, FlatMap;
    ScanStep(crc, st, s, room, p);
    var (next, emitted) := Step(st, p);
    var later := Run(next, Scan(crc, s[HEADER_SIZE + |p.data|..], room - HEADER_SIZE - |p.data|)).payloads;
    FlatMapConcat(BatchParser(origin), emitted, later);
  }

  /** What the scan loop computes from its block slice is the record at the front of the remaining file. */
  lemma BlockWindow(crc: Crc32c, buf: bytes, start: nat, pos: nat)
    requires start <= |buf| && pos <= Min(BLOCK_SIZE, |buf| - start)
    ensures var block := buf[start..Min(start + BLOCK_SIZE, |buf|)];
            var front := NextPhysical(crc, buf[start + pos..], BLOCK_SIZE - pos);
            if pos + HEADER_SIZE > |block| then front == None
            else
              var header := block[pos..pos + HEADER_SIZE];
              var stored, length, kind := Le32(header[..4]), Le(header[4..6]), header[6];
              var dataStart := pos + HEADER_SIZE;
              if (kind == 0 && length == 0 && stored == 0) || dataStart + length > |block| then front == None
              else
                var data := block[dataStart..dataStart + length];
                front == Some(Physical(kind, data, RecordCrc(crc, kind, data) == stored))
  {
    hide Le, RecordCrc;
    var end, at := Min(start + BLOCK_SIZE, |buf|), start + pos;
    if at + HEADER_SIZE <= end {
      SliceOfSlice(buf, start, end, pos, pos + HEADER_SIZE);
      SliceOfSlice(buf, at, at + HEADER_SIZE, 0, 4);
      SliceOfSlice(buf, at, at + HEADER_SIZE, 4, 6);
      Window(buf, at, 0, 4);
      Window(buf, at, 4, 6);
      var length := Le(buf[at + 4..at + 6]);
      if at + HEADER_SIZE + length <= end {
        SliceOfSlice(buf, start, end, pos + HEADER_SIZE, pos + HEADER_SIZE + length);
        Window(buf, at, HEADER_SIZE, HEADER_SIZE + length);
      }
    }
  }

  /** The scan of a block ends at `pos`. */
  predicate Stops(block: bytes, pos: nat)
    requires pos <= |block|
  {
    pos + HEADER_SIZE > |block| ||
    var header := block[pos..pos + HEADER_SIZE];
    var length := Le(header[4..6]);
    || (header[6] == 0 && length == 0 && Le32(header[..4]) == 0)
    || pos + HEADER_SIZE + length > |block|
  }

  lemma AbandonBlock(crc: Crc32c, st: State, buf: bytes, start: nat, pos: nat, origin: string)
    requires start < |buf| && pos <= Min(BLOCK_SIZE, |buf| - start)
    requires Stops(buf[start..Min(start + BLOCK_SIZE, |buf|)], pos)
    ensures Remaining(crc, st, buf[start + pos..], BLOCK_SIZE - pos, origin)
            == Remaining(crc, st, buf[Min(start + BLOCK_SIZE, |buf|)..], BLOCK_SIZE, origin)
  {
    BlockWindow(crc, buf, start, pos);
    var s, room := buf[start + pos..], BLOCK_SIZE - pos;
    if |s| <= room {
      assert Scan(crc, s, room) == [];
      assert start + BLOCK_SIZE >= |buf|;
    } else {
      assert s[room..] == buf[start + BLOCK_SIZE..];
    }
  }

  lemma AcceptRecord(crc: Crc32c, st: State, buf: bytes, start: nat, pos: nat, data: bytes,
                     origin: string, records: seq<Record>)
    requires start <= |buf| && pos <= Min(BLOCK_SIZE, |buf| - start)
    requires !Stops(buf[start..Min(start + BLOCK_SIZE, |buf|)], pos)
    requires var block := buf[start..Min(start + BLOCK_SIZE, |buf|)];
             var header := block[pos..pos + HEADER_SIZE];
             data == block[pos + HEADER_SIZE..pos + HEADER_SIZE + Le(header[4..6])]
    ensures var block := buf[start..Min(start + BLOCK_SIZE, |buf|)];
            var header, end := block[pos..pos + HEADER_SIZE], pos + HEADER_SIZE + |data|;
            var p := Physical(header[6], data, RecordCrc(crc, header[6], data) == Le32(header[..4]));
            var (next, emitted) := Step(st, p);
            records + Remaining(crc, st, buf[start + pos..], BLOCK_SIZE - pos, origin)
            == (records + AllRecords(emitted, origin))
               + Remaining(crc, next, buf[start + end..], BLOCK_SIZE - end, origin)
  {
    hide NextPhysical, Remaining, AllRecords, Step;
    var block := buf[start..Min(start + BLOCK_SIZE, |buf|)];
    var header, end := block[pos..pos + HEADER_SIZE], pos + HEADER_SIZE + |data|;
    var p := Physical(header[6], data, RecordCrc(crc, header[6], data) == Le32(header[..4]));
    assert NextPhysical(crc, buf[start + pos..], BLOCK_SIZE - pos) == Some(p) by {
      BlockWindow(crc, buf, start, pos);
    }
    assert buf[start + pos..][HEADER_SIZE + |data|..] == buf[start + end..];
    RemainingStep(crc, st, buf[start + pos..], BLOCK_SIZE - pos, p, origin, records);
  }

  lemma LogRecordsIsRemaining(crc: Crc32c, buf: bytes, origin: string)
    ensures LogRecords(crc, buf, origin) == Remaining(crc, IDLE, buf, BLOCK_SIZE, origin)
    ensures forall st :: Remaining(crc, st, [], BLOCK_SIZE, origin) == []
  {
  }

  lemma NoPayload(records: seq<Record>, origin: string)
    ensures records + AllRecords([], origin) == records
  {
  }

  lemma OnePayload(payload: bytes, origin: string)
    ensures AllRecords([payload], origin) == BatchRecords(payload, origin)
  {
    FlatMapSingle(BatchParser(origin), payload);
  }

  method ParseLog(crc: Crc32c, buf: bytes, origin: string) returns (records: seq<Record>)
    ensures records == LogRecords(crc, buf, origin)
  {
    hide Remaining, AllRecords, LogRecords, BatchRecords, RecordCrc, Le;
    records := [];
    var fragment: bytes := [];
    var inRecord := false;
    ghost var all := LogRecords(crc, buf, origin);
    LogRecordsIsRemaining(crc, buf, origin);
    var blockStart := 0;
    while blockStart < |buf|
      invariant blockStart <= |buf|
      invariant !inRecord ==> fragment == []
      invariant all == records + Remaining(crc, State(fragment, inRecord), buf[blockStart..], BLOCK_SIZE, origin)
    {
      var blockEnd := Min(blockStart + BLOCK_SIZE, |buf|);
      var block := buf[blockStart..blockEnd];
      var pos := 0;
      while pos + HEADER_SIZE <= |block|
        invariant pos <= |block|
        invariant !inRecord ==> fragment == []
        invariant all
                  == records
                     + Remaining(crc, State(fragment, inRecord), buf[blockStart + pos..], BLOCK_SIZE - pos, origin)
        decreases |block| - pos
      {
        var header := block[pos..pos + HEADER_SIZE];
        var stored, length, kind := Le32(header[..4]), Le(header[4..6]), header[6];
        if kind == 0 && length == 0 && stored == 0 {
          break;
        }
        var dataStart := pos + HEADER_SIZE;
        var dataEnd := dataStart + length;
        if dataEnd > |block| {
          break;
        }
        var data := block[dataStart..dataEnd];
        var intact := RecordCrc(crc, kind, data) == stored;
        AcceptRecord(crc, State(fragment, inRecord), buf, blockStart, pos, data, origin, records);
        pos := dataEnd;
        NoPayload(records, origin);
        assert [] + data == data;
        if kind == REC_FULL {
          fragment := [];
          inRecord := false;
          if intact {
            records := ParseWriteBatch(data, origin, records);
            OnePayload(data, origin);
          }
        } else if kind == REC_FIRST {
          fragment := [];
          if intact {
            fragment := fragment + data;
            inRecord := true;
          } else {
            inRecord := false;
          }
        } else if kind == REC_MIDDLE {
          if inRecord && intact {
            fragment := fragment + data;
          } else {
            inRecord := false;
            fragment := [];
          }
        } else if kind == REC_LAST {
          if inRecord && intact {
            fragment := fragment + data;
            records := ParseWriteBatch(fragment, origin, records);
            OnePayload(fragment, origin);
          }
          fragment := [];
          inRecord := false;
        } else {
          inRecord := false;
          fragment := [];
        }
      }
      AbandonBlock(crc, State(fragment, inRecord), buf, blockStart, pos, origin);
      blockStart := blockEnd;
    }
    assert buf[blockStart..] == [];
  }
}
