/** The writer's side of the log format: how a payload is cut into physical records and laid out in
    blocks. The reader is proved against it: the round trip and the effect of truncation. */
module LogWriter {
  import opened Bytes
  import opened Log
  import opened Sequences

  /** A physical record to be written. One for a new block goes to the next block; the short rest of the
      current block is zero-filled. */
  datatype Chunk = Chunk(newBlock: bool, kind: byte, data: bytes)

  /** A record's bytes: the masked crc32c of type and data, the length, the type, the data. */
  function EncodePhysical(crc: Crc32c, c: Chunk): (s: bytes)
    ensures |s| == HEADER_SIZE + |c.data|
  {
    ToLe(MaskCrc(crc([c.kind] + c.data)), 4) + ToLe(|c.data|, 2) + [c.kind] + c.data
  }

  function Pad(c: Chunk, room: nat): nat {
    if c.newBlock then room else 0
  }

  /** Room behind the record when `room` bytes of the block were left before it; negative if it does not fit. */
  function RoomBehind(c: Chunk, room: nat): int {
    (if c.newBlock then BLOCK_SIZE else room) - HEADER_SIZE - |c.data|
  }

  predicate Fits(cs: seq<Chunk>, room: nat) {
    && room <= BLOCK_SIZE
    && (cs != [] ==>
          && (cs[0].newBlock ==> room < HEADER_SIZE)
          && REC_FULL <= cs[0].kind <= REC_LAST
          && RoomBehind(cs[0], room) >= 0
          && Fits(cs[1..], RoomBehind(cs[0], room)))
  }

  function RoomAfter(cs: seq<Chunk>, room: nat): (r: nat)
    requires Fits(cs, room)
    ensures r <= BLOCK_SIZE
  {
    if cs == [] then room else RoomAfter(cs[1..], RoomBehind(cs[0], room))
  }

  function Layout(crc: Crc32c, cs: seq<Chunk>, room: nat): bytes
    requires Fits(cs, room)
  {
    if cs == [] then []
    else Zeros(Pad(cs[0], room)) + EncodePhysical(crc, cs[0]) + Layout(crc, cs[1..], RoomBehind(cs[0], room))
  }

  /** Bytes the first fragment takes when `room` bytes of the block are left. */
  function Available(room: nat): nat
    requires room <= BLOCK_SIZE
  {
    (if room < HEADER_SIZE then BLOCK_SIZE else room) - HEADER_SIZE
  }

  /** How the format cuts a payload: as much as the block takes, then on in the next block. With
      exactly seven bytes left the first fragment is empty. */
  function Fragments(data: bytes, room: nat, begin: bool): (cs: seq<Chunk>)
    requires room <= BLOCK_SIZE
    ensures cs != []
    decreases |data|, room
  {
    var newBlock, available := room < HEADER_SIZE, Available(room);
    if |data| <= available then [Chunk(newBlock, if begin then REC_FULL else REC_LAST, data)]
    else
      [Chunk(newBlock, if begin then REC_FIRST else REC_MIDDLE, data[..available])]
      + Fragments(data[available..], 0, false)
  }

  lemma {:induction false} FragmentsFit(data: bytes, room: nat, begin: bool)
    requires room <= BLOCK_SIZE
    ensures Fits(Fragments(data, room, begin), room)
    decreases |data|, room
  {
    var available := Available(room);
    var cs := Fragments(data, room, begin);
    if |data| > available {
      FragmentsFit(data[available..], 0, false);
      assert cs[1..] == Fragments(data[available..], 0, false);
    } else {
      assert cs[1..] == [];
    }
  }

  /** Room left in the block after a payload was written. */
  function RoomAfterPayload(payload: bytes, room: nat): (r: nat)
    requires room <= BLOCK_SIZE
    ensures r <= BLOCK_SIZE
  {
    FragmentsFit(payload, room, true);
    RoomAfter(Fragments(payload, room, true), room)
  }

  function WritePayload(crc: Crc32c, payload: bytes, room: nat): bytes
    requires room <= BLOCK_SIZE
  {
    FragmentsFit(payload, room, true);
    Layout(crc, Fragments(payload, room, true), room)
  }

  /** A log written from a position with `room` bytes left in the block. */
  function WriteFrom(crc: Crc32c, payloads: seq<bytes>, room: nat): bytes
    requires room <= BLOCK_SIZE
  {
    if payloads == [] then []
    else WritePayload(crc, payloads[0], room) + WriteFrom(crc, payloads[1..], RoomAfterPayload(payloads[0], room))
  }

  function RoomAfterAll(payloads: seq<bytes>, room: nat): (r: nat)
    requires room <= BLOCK_SIZE
    ensures r <= BLOCK_SIZE
  {
    if payloads == [] then room else RoomAfterAll(payloads[1..], RoomAfterPayload(payloads[0], room))
  }

  /** A whole log file. */
  function WriteLog(crc: Crc32c, payloads: seq<bytes>): bytes {
    WriteFrom(crc, payloads, BLOCK_SIZE)
  }

  // ---------------------------------------------------------------- the scan of a written log

  lemma ReadBack(crc: Crc32c, c: Chunk, rest: bytes, room: nat)
    requires REC_FULL <= c.kind && HEADER_SIZE + |c.data| <= room <= BLOCK_SIZE
    ensures NextPhysical(crc, EncodePhysical(crc, c) + rest, room) == Some(Physical(c.kind, c.data, true))
  {
    var s := EncodePhysical(crc, c) + rest;
    WidthLimits();
    LeRoundTrip(RecordCrc(crc, c.kind, c.data), 4);
    LeRoundTrip(|c.data|, 2);
    assert s[..4] == ToLe(RecordCrc(crc, c.kind, c.data), 4);
    assert s[4..6] == ToLe(|c.data|, 2);
    assert s[HEADER_SIZE..HEADER_SIZE + |c.data|] == c.data;
  }

  /** The scan accepts a record with a matching checksum iff the bytes there are exactly what a
      writer stores for it, the all-zero header aside. */
  lemma IntactIffEncoded(crc: Crc32c, s: bytes, room: nat, kind: byte, data: bytes)
    requires room <= BLOCK_SIZE && REC_FULL <= kind
    ensures NextPhysical(crc, s, room) == Some(Physical(kind, data, true)) <==>
            HEADER_SIZE + |data| <= room && EncodePhysical(crc, Chunk(false, kind, data)) <= s
  {
    var size, c := HEADER_SIZE + |data|, Chunk(false, kind, data);
    if size <= room && EncodePhysical(crc, c) <= s {
      ReadBack(crc, c, s[size..], room);
      assert s == EncodePhysical(crc, c) + s[size..];
    }
    if NextPhysical(crc, s, room) == Some(Physical(kind, data, true)) {
      ToLeOfLe(s[..4]);
      ToLeOfLe(s[4..6]);
      assert s[..size] == s[..4] + s[4..6] + [s[6]] + s[HEADER_SIZE..size];
    }
  }

  /** The short rest of a block is skipped whatever it holds. */
  lemma ScanSkipsPad(crc: Crc32c, pad: bytes, rest: bytes)
    requires |pad| < HEADER_SIZE
    ensures Scan(crc, pad + rest, |pad|) == Scan(crc, rest, BLOCK_SIZE)
  {
    assert (pad + rest)[|pad|..] == rest;
  }

  function Written(cs: seq<Chunk>): (ps: seq<Physical>)
    ensures |ps| == |cs|
  {
    seq(|cs|, i requires 0 <= i < |cs| => Physical(cs[i].kind, cs[i].data, true))
  }

  lemma ScanBehindPad(crc: Crc32c, c: Chunk, pad: bytes, rest: bytes, room: nat)
    requires room <= BLOCK_SIZE && |pad| == Pad(c, room) && (c.newBlock ==> room < HEADER_SIZE)
    ensures Scan(crc, pad + rest, room) == Scan(crc, rest, if c.newBlock then BLOCK_SIZE else room)
  {
    hide Scan;
    if c.newBlock {
      ScanSkipsPad(crc, pad, rest);
    } else {
      assert pad + rest == rest;
    }
  }

  lemma ScanFront(crc: Crc32c, image: bytes, rest: bytes, room: nat, p: Physical)
    requires |image| == HEADER_SIZE + |p.data| <= room <= BLOCK_SIZE
    requires NextPhysical(crc, image + rest, room) == Some(p)
    ensures Scan(crc, image + rest, room) == [p] + Scan(crc, rest, room - |image|)
  {
    hide NextPhysical;
    assert (image + rest)[|image|..] == rest;
  }

  lemma ScanRecord(crc: Crc32c, c: Chunk, pad: bytes, image: bytes, rest: bytes, room: nat, p: Physical)
    requires room <= BLOCK_SIZE && |pad| == Pad(c, room) && (c.newBlock ==> room < HEADER_SIZE)
    requires RoomBehind(c, room) >= 0 && |image| == HEADER_SIZE + |c.data|
    requires |p.data| == |c.data|
    requires NextPhysical(crc, image + rest, RoomBehind(c, room) + |image|) == Some(p)
    ensures Scan(crc, pad + image + rest, room) == [p] + Scan(crc, rest, RoomBehind(c, room))
  {
    hide Scan, NextPhysical, Pad;
    ScanFront(crc, image, rest, RoomBehind(c, room) + |image|, p);
    ScanBehindPad(crc, c, pad, image + rest, room);
    Associative(pad, image, rest);
  }

  /** The scan accepts exactly the records that were laid out, then goes on with what follows them. */
  lemma {:induction false} ScanLayout(crc: Crc32c, cs: seq<Chunk>, room: nat, rest: bytes)
    requires Fits(cs, room)
    ensures Scan(crc, Layout(crc, cs, room) + rest, room) == Written(cs) + Scan(crc, rest, RoomAfter(cs, room))
    decreases |cs|
  {
    hide NextPhysical, EncodePhysical, Scan;
    if cs == [] {
      assert Layout(crc, cs, room) + rest == rest;
    } else {
      var c, behind := cs[0], RoomBehind(cs[0], room);
      var pad, image, tail := Zeros(Pad(c, room)), EncodePhysical(crc, c), Layout(crc, cs[1..], behind);
      var p := Physical(c.kind, c.data, true);
      ReadBack(crc, c, tail + rest, behind + |image|);
      ScanRecord(crc, c, pad, image, tail + rest, room, p);
      ScanLayout(crc, cs[1..], behind, rest);
      assert pad + image + tail + rest == pad + image + (tail + rest);
      assert Written(cs) == [p] + Written(cs[1..]);
    }
  }

  // ---------------------------------------------------------------- reassembly of a written payload

  lemma {:induction false} RunFragments(st: State, data: bytes, room: nat, begin: bool)
    requires room <= BLOCK_SIZE
    ensures Run(st, Written(Fragments(data, room, begin)))
            == Outcome(IDLE, if begin then [data] else if st.inRecord then [st.fragment + data] else [])
    decreases |data|, room
  {
    hide Run;
    var available := Available(room);
    var cs := Fragments(data, room, begin);
    RunCons(st, cs[0], cs[1..]);
    assert cs == [cs[0]] + cs[1..];
    if |data| <= available {
      assert cs[1..] == [];
    } else {
      var head, tail := data[..available], data[available..];
      assert cs[1..] == Fragments(tail, 0, false);
      RunFragments(Step(st, Physical(cs[0].kind, head, true)).0, tail, 0, false);
      assert head + tail == data;
      assert (st.fragment + head) + tail == st.fragment + data;
    }
  }

  lemma RunCons(st: State, c: Chunk, cs: seq<Chunk>)
    ensures var (next, emitted) := Step(st, Physical(c.kind, c.data, true));
            var later := Run(next, Written(cs));
            Run(st, Written([c] + cs)) == Outcome(later.state, emitted + later.payloads)
    ensures var (next, emitted) := Step(st, Physical(c.kind, c.data, true));
            cs == [] ==> Run(st, Written([c] + cs)) == Outcome(next, emitted)
  {
    assert Written([c] + cs) == [Physical(c.kind, c.data, true)] + Written(cs);
  }

  /** Behind any bytes already read, a written log yields its payloads and then what follows it. */
  lemma {:induction false} RunWritten(crc: Crc32c, st: State, payloads: seq<bytes>, room: nat, rest: bytes)
    requires room <= BLOCK_SIZE
    ensures var after := RoomAfterAll(payloads, room);
            var out := Run(st, Scan(crc, WriteFrom(crc, payloads, room) + rest, room));
            var next := Run(if payloads == [] then st else IDLE, Scan(crc, rest, after));
            out == Outcome(next.state, payloads + next.payloads)
    decreases |payloads|
  {
    hide Scan, Layout, Fragments, Run, RoomAfter, Written;
    if payloads == [] {
      assert WriteFrom(crc, payloads, room) + rest == rest;
    } else {
      var cs, behind := Fragments(payloads[0], room, true), RoomAfterPayload(payloads[0], room);
      FragmentsFit(payloads[0], room, true);
      var tail := WriteFrom(crc, payloads[1..], behind) + rest;
      assert WriteFrom(crc, payloads, room) + rest == Layout(crc, cs, room) + tail;
      ScanLayout(crc, cs, room, tail);
      RunFragments(st, payloads[0], room, true);
      RunConcat(st, Written(cs), Scan(crc, tail, behind));
      RunWritten(crc, IDLE, payloads[1..], behind, rest);
      assert payloads == [payloads[0]] + payloads[1..];
    }
  }

  /** However the format fragments them over blocks, the payloads written are the payloads read. */
  lemma LogRoundTrip(crc: Crc32c, payloads: seq<bytes>)
    ensures Payloads(crc, WriteLog(crc, payloads)) == payloads
  {
    RunWritten(crc, IDLE, payloads, BLOCK_SIZE, []);
    assert WriteLog(crc, payloads) + [] == WriteLog(crc, payloads);
  }

  // ---------------------------------------------------------------- written logs, byte for byte

  /** What a written log of one payload looks like on disk: up to 32761 bytes one record of type 1;
      over three blocks records of types 2, 3 and 4, the first two of 32761 bytes. */
  lemma OnDisk(crc: Crc32c, payload: bytes)
    ensures |payload| <= 32761 ==> WriteLog(crc, [payload]) == EncodePhysical(crc, Chunk(false, 1, payload))
    ensures 65522 < |payload| <= 98283 ==>
              WriteLog(crc, [payload])
              == EncodePhysical(crc, Chunk(false, 2, payload[..32761]))
                 + EncodePhysical(crc, Chunk(true, 3, payload[32761..65522]))
                 + EncodePhysical(crc, Chunk(true, 4, payload[65522..]))
  {
    hide EncodePhysical, Zeros;
    FragmentsFit(payload, BLOCK_SIZE, true);
    var cs := Fragments(payload, BLOCK_SIZE, true);
    assert [payload][1..] == [];
    assert WriteFrom(crc, [], RoomAfterPayload(payload, BLOCK_SIZE)) == [];
    assert WriteLog(crc, [payload]) == Layout(crc, cs, BLOCK_SIZE) + [] == Layout(crc, cs, BLOCK_SIZE);
    if |payload| <= 32761 {
      assert cs == [Chunk(false, REC_FULL, payload)];
      LayoutOfOne(crc, cs[0], BLOCK_SIZE);
    } else if 65522 < |payload| <= 98283 {
      ThreeChunks(payload);
      LayoutOfThree(crc, payload[..32761], payload[32761..65522], payload[65522..]);
    }
  }

  lemma LayoutOfOne(crc: Crc32c, c: Chunk, room: nat)
    requires Fits([c], room) && !c.newBlock
    ensures Layout(crc, [c], room) == EncodePhysical(crc, c)
  {
    hide EncodePhysical;
    assert [c][1..] == [] && Zeros(0) == [];
    assert [] + EncodePhysical(crc, c) + [] == EncodePhysical(crc, c);
  }

  lemma ThreeChunks(payload: bytes)
    requires 65522 < |payload| <= 98283
    ensures Fragments(payload, BLOCK_SIZE, true)
            == [Chunk(false, REC_FIRST, payload[..32761]), Chunk(true, REC_MIDDLE, payload[32761..65522]),
                Chunk(true, REC_LAST, payload[65522..])]
  {
    var tail := payload[32761..];
    assert tail[..32761] == payload[32761..65522] && tail[32761..] == payload[65522..];
    assert Fragments(tail[32761..], 0, false) == [Chunk(true, REC_LAST, tail[32761..])];
    assert Fragments(tail, 0, false)
        == [Chunk(true, REC_MIDDLE, tail[..32761])] + Fragments(tail[32761..], 0, false);
  }

  lemma LayoutOfThree(crc: Crc32c, a: bytes, b: bytes, c: bytes)
    requires |a| == 32761 && |b| == 32761 && |c| <= 32761
    ensures var cs := [Chunk(false, REC_FIRST, a), Chunk(true, REC_MIDDLE, b), Chunk(true, REC_LAST, c)];
            && Fits(cs, BLOCK_SIZE)
            && Layout(crc, cs, BLOCK_SIZE)
               == EncodePhysical(crc, cs[0]) + EncodePhysical(crc, cs[1]) + EncodePhysical(crc, cs[2])
  {
    hide EncodePhysical;
    var cs := [Chunk(false, REC_FIRST, a), Chunk(true, REC_MIDDLE, b), Chunk(true, REC_LAST, c)];
    assert cs[1..] == [cs[1], cs[2]] && cs[1..][1..] == [cs[2]] && [cs[2]][1..] == [];
    assert Zeros(0) == [];
    assert Fits([cs[2]], 0) && Fits([cs[1], cs[2]], 0);
    var x, y, z := EncodePhysical(crc, cs[0]), EncodePhysical(crc, cs[1]), EncodePhysical(crc, cs[2]);
    assert Layout(crc, [], RoomBehind(cs[2], 0)) == [];
    assert Layout(crc, [cs[2]], 0) == [] + z + [] == z;
    assert Layout(crc, [cs[1], cs[2]], 0) == [] + y + z == y + z;
    assert [] + x + (y + z) == x + y + z;
  }
}
