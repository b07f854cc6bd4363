/** A written log in which any number of physical records were altered so that their checksums fail,
    their length fields intact: exactly the payloads with an altered record are lost. */
module LogCorruption {
  import opened Bytes
  import opened Log
  import opened LogLaws
  import opened LogWriter
  import opened LogDamage
  import opened Sequences

  /** On-disk bytes in place of record c: the length field holds, the checksum does not match. */
  predicate Broken(crc: Crc32c, c: Chunk, image: bytes) {
    && |image| == HEADER_SIZE + |c.data|
    && image[4..6] == ToLe(|c.data|, 2)
    && MaskCrc(crc(image[6..])) != Le32(image[..4])
  }

  /** The bytes in place of the first record, its block padding aside. */
  function Image(cs: seq<Chunk>, room: nat, s: bytes): (image: bytes)
    requires cs != [] && Pad(cs[0], room) + HEADER_SIZE + |cs[0].data| <= |s|
    ensures |image| == HEADER_SIZE + |cs[0].data|
  {
    s[Pad(cs[0], room)..][..HEADER_SIZE + |cs[0].data|]
  }

  function BehindFirst(cs: seq<Chunk>, room: nat, s: bytes): bytes
    requires cs != [] && Pad(cs[0], room) + HEADER_SIZE + |cs[0].data| <= |s|
  {
    s[Pad(cs[0], room)..][HEADER_SIZE + |cs[0].data|..]
  }

  /** s has the shape of the layout of cs; each record is as written or broken, padding is arbitrary. */
  predicate Mangled(crc: Crc32c, cs: seq<Chunk>, room: nat, s: bytes)
    requires Fits(cs, room)
    decreases |cs|
  {
    if cs == [] then s == []
    else
      && Pad(cs[0], room) + HEADER_SIZE + |cs[0].data| <= |s|
      && (Image(cs, room, s) == EncodePhysical(crc, cs[0]) || Broken(crc, cs[0], Image(cs, room, s)))
      && Mangled(crc, cs[1..], RoomBehind(cs[0], room), BehindFirst(cs, room, s))
  }

  /** Every record is as written. */
  predicate Unbroken(crc: Crc32c, cs: seq<Chunk>, room: nat, s: bytes)
    requires Fits(cs, room) && Mangled(crc, cs, room, s)
    decreases |cs|
  {
    cs == [] ||
    (&& Image(cs, room, s) == EncodePhysical(crc, cs[0])
     && Unbroken(crc, cs[1..], RoomBehind(cs[0], room), BehindFirst(cs, room, s)))
  }

  /** What the scan makes of one record; an all-zero header reads as padding. */
  function SeenRecord(crc: Crc32c, image: bytes): seq<Physical>
    requires |image| >= HEADER_SIZE
  {
    var stored, kind, data := Le32(image[..4]), image[6], image[HEADER_SIZE..];
    if kind == 0 && data == [] && stored == 0 then []
    else [Physical(kind, data, RecordCrc(crc, kind, data) == stored)]
  }

  function Seen(crc: Crc32c, cs: seq<Chunk>, room: nat, s: bytes): seq<Physical>
    requires Fits(cs, room) && Mangled(crc, cs, room, s)
    decreases |cs|
  {
    if cs == [] then []
    else SeenRecord(crc, Image(cs, room, s)) + Seen(crc, cs[1..], RoomBehind(cs[0], room), BehindFirst(cs, room, s))
  }

  /** An all-zero header is taken for the padding of a block, whose rest is then given up. */
  predicate ReadsAsPadding(image: bytes) {
    image == Zeros(HEADER_SIZE)
  }

  /** Records without data stand only at the very end of a block. */
  predicate Tight(cs: seq<Chunk>, room: nat)
    requires Fits(cs, room)
    decreases |cs|
  {
    cs == [] || ((cs[0].data == [] ==> RoomBehind(cs[0], room) == 0) && Tight(cs[1..], RoomBehind(cs[0], room)))
  }

  lemma {:induction false} FragmentsTight(data: bytes, room: nat, begin: bool)
    requires room <= BLOCK_SIZE && data != []
    ensures Fits(Fragments(data, room, begin), room) && Tight(Fragments(data, room, begin), room)
    decreases |data|, room
  {
    FragmentsFit(data, room, begin);
    var available := Available(room);
    var cs := Fragments(data, room, begin);
    if |data| > available {
      FragmentsTight(data[available..], 0, false);
      assert cs[1..] == Fragments(data[available..], 0, false);
    }
  }

  lemma EncodedImage(crc: Crc32c, c: Chunk)
    requires |c.data| < 0x1_0000
    ensures var image := EncodePhysical(crc, c);
            && image[4..6] == ToLe(|c.data|, 2) && image[6] == c.kind && image[HEADER_SIZE..] == c.data
            && Le32(image[..4]) == RecordCrc(crc, c.kind, c.data)
    ensures REC_FULL <= c.kind ==> SeenRecord(crc, EncodePhysical(crc, c)) == [Physical(c.kind, c.data, true)]
  {
    WidthLimits();
    LeRoundTrip(RecordCrc(crc, c.kind, c.data), 4);
    var a, b := ToLe(RecordCrc(crc, c.kind, c.data), 4), ToLe(|c.data|, 2);
    assert (a + b + [c.kind] + c.data)[..4] == a;
    assert (a + b + [c.kind] + c.data)[4..6] == b;
  }

  /** A record of the right length is seen whatever else was done to it, unless it became padding. */
  lemma NextOfImage(crc: Crc32c, image: bytes, rest: bytes, room: nat)
    requires HEADER_SIZE <= |image| <= room <= BLOCK_SIZE && image[4..6] == ToLe(|image| - HEADER_SIZE, 2)
    ensures NextPhysical(crc, image + rest, room)
            == if SeenRecord(crc, image) == [] then None else Some(SeenRecord(crc, image)[0])
  {
    hide Le, ToLe;
    var s := image + rest;
    WidthLimits();
    LeRoundTrip(|image| - HEADER_SIZE, 2);
    assert s[..4] == image[..4] && s[4..6] == image[4..6];
    assert s[HEADER_SIZE..|image|] == image[HEADER_SIZE..];
  }

  /** Behind a record that became an all-zero header at the end of a block or of the log, nothing
      more is lost. */
  lemma ScanBecamePadding(crc: Crc32c, c: Chunk, pad: bytes, image: bytes, rest: bytes, room: nat)
    requires room <= BLOCK_SIZE && |pad| == Pad(c, room) && (c.newBlock ==> room < HEADER_SIZE)
    requires |image| == HEADER_SIZE && c.data == [] && RoomBehind(c, room) >= 0
    requires RoomBehind(c, room) < HEADER_SIZE || rest == []
    requires NextPhysical(crc, image + rest, RoomBehind(c, room) + HEADER_SIZE).None?
    ensures Scan(crc, pad + image + rest, room) == Scan(crc, rest, RoomBehind(c, room))
  {
    hide NextPhysical, Scan, Pad, RoomBehind;
    RoomBehindFits(c, room);
    ScanPaddingRecord(crc, image, rest, RoomBehind(c, room));
    ScanBehindPad(crc, c, pad, image + rest, room);
    Associative(pad, image, rest);
  }

  lemma ScanImage(crc: Crc32c, c: Chunk, pad: bytes, image: bytes, rest: bytes, room: nat)
    requires room <= BLOCK_SIZE && |pad| == Pad(c, room) && (c.newBlock ==> room < HEADER_SIZE)
    requires RoomBehind(c, room) >= 0
    requires ReadsAsPadding(image) ==> RoomBehind(c, room) < HEADER_SIZE || rest == []
    requires |image| == HEADER_SIZE + |c.data| && image[4..6] == ToLe(|c.data|, 2)
    ensures Scan(crc, pad + image + rest, room) == SeenRecord(crc, image) + Scan(crc, rest, RoomBehind(c, room))
  {
    hide SeenRecord, NextPhysical, Scan, ToLe, RoomBehind, Pad;
    var front := RoomBehind(c, room) + |image|;
    RoomBehindFits(c, room);
    NextOfImage(crc, image, rest, front);
    SeenShape(crc, image);
    if SeenRecord(crc, image) == [] {
      ScanBecamePadding(crc, c, pad, image, rest, room);
      assert [] + Scan(crc, rest, RoomBehind(c, room)) == Scan(crc, rest, RoomBehind(c, room));
    } else {
      var p := SeenRecord(crc, image)[0];
      ScanRecord(crc, c, pad, image, rest, room, p);
      assert SeenRecord(crc, image) == [p];
    }
  }

  lemma RoomBehindFits(c: Chunk, room: nat)
    requires room <= BLOCK_SIZE
    ensures RoomBehind(c, room) + HEADER_SIZE + |c.data| == if c.newBlock then BLOCK_SIZE else room
  {
  }

  lemma SeenShape(crc: Crc32c, image: bytes)
    requires |image| >= HEADER_SIZE && image[4..6] == ToLe(|image| - HEADER_SIZE, 2)
    ensures var seen := SeenRecord(crc, image);
            if seen == [] then ReadsAsPadding(image) && |image| == HEADER_SIZE
            else |seen| == 1 && |seen[0].data| == |image| - HEADER_SIZE
  {
    if SeenRecord(crc, image) == [] {
      ToLeOfLe(image[..4]);
      assert image == image[..4] + image[4..6] + [image[6]];
      assert ToLe(0, 4) == Zeros(4) && ToLe(0, 2) == Zeros(2);
    }
  }

  lemma ScanPaddingRecord(crc: Crc32c, image: bytes, rest: bytes, behind: nat)
    requires |image| == HEADER_SIZE && behind + HEADER_SIZE <= BLOCK_SIZE
    requires behind < HEADER_SIZE || rest == []
    requires NextPhysical(crc, image + rest, behind + HEADER_SIZE).None?
    ensures Scan(crc, image + rest, behind + HEADER_SIZE) == Scan(crc, rest, behind)
  {
    if |rest| > behind {
      DropConcat(image, rest, behind);
    }
  }

  lemma LengthHolds(crc: Crc32c, c: Chunk, image: bytes)
    requires |c.data| < 0x1_0000 && (image == EncodePhysical(crc, c) || Broken(crc, c, image))
    ensures image[4..6] == ToLe(|c.data|, 2)
  {
    EncodedImage(crc, c);
  }

  /** A single record, not turned into padding with more of the log behind it in its block. */
  predicate SingleRecordHolds(cs: seq<Chunk>, room: nat, s: bytes, rest: bytes)
    requires Fits(cs, room)
  {
    && |cs| == 1 && |s| == Pad(cs[0], room) + HEADER_SIZE + |cs[0].data|
    && (ReadsAsPadding(Image(cs, room, s)) ==> RoomAfter(cs, room) < HEADER_SIZE || rest == [])
  }

  lemma {:induction false} ScanMangled(crc: Crc32c, cs: seq<Chunk>, room: nat, s: bytes, rest: bytes)
    requires Fits(cs, room) && Mangled(crc, cs, room, s)
    requires Tight(cs, room) || SingleRecordHolds(cs, room, s, rest)
    ensures Scan(crc, s + rest, room) == Seen(crc, cs, room, s) + Scan(crc, rest, RoomAfter(cs, room))
    decreases |cs|
  {
    hide NextPhysical, EncodePhysical, Scan, SeenRecord, Image, BehindFirst, Broken;
    if cs == [] {
      assert s + rest == rest;
    } else {
      var c := cs[0];
      var pad, image, tail := s[..Pad(c, room)], Image(cs, room, s), BehindFirst(cs, room, s);
      LengthHolds(crc, c, image);
      assert !Tight(cs, room) ==> RoomAfter(cs, room) == RoomBehind(c, room) && tail == [] && tail + rest == rest;
      ScanImage(crc, c, pad, image, tail + rest, room);
      ScanMangled(crc, cs[1..], RoomBehind(c, room), tail, rest);
      Pieces(cs, room, s, rest);
    }
  }

  lemma Pieces(cs: seq<Chunk>, room: nat, s: bytes, rest: bytes)
    requires cs != [] && Pad(cs[0], room) + HEADER_SIZE + |cs[0].data| <= |s|
    ensures s + rest == s[..Pad(cs[0], room)] + Image(cs, room, s) + (BehindFirst(cs, room, s) + rest)
  {
  }

  /** The checksum covers the type byte and the data, which is all of the record from its type on. */
  lemma CrcOfImage(crc: Crc32c, image: bytes)
    requires |image| >= HEADER_SIZE
    ensures RecordCrc(crc, image[6], image[HEADER_SIZE..]) == MaskCrc(crc(image[6..]))
  {
    assert [image[6]] + image[HEADER_SIZE..] == image[6..];
  }

  /** A broken record sets the automaton back, whatever type it now claims. */
  lemma StepBroken(crc: Crc32c, st: State, c: Chunk, image: bytes)
    requires Broken(crc, c, image)
    ensures var out := Run(st, SeenRecord(crc, image));
            out.payloads == [] && (out.state == IDLE || (out.state == st && c.data == []))
  {
    CrcOfImage(crc, image);
    hide RecordCrc, MaskCrc;
    var seen := SeenRecord(crc, image);
    if seen != [] {
      assert seen[1..] == [];
    }
  }

  lemma StepWhole(crc: Crc32c, st: State, c: Chunk)
    requires REC_FULL <= c.kind && |c.data| < 0x1_0000
    ensures var (next, emitted) := Step(st, Physical(c.kind, c.data, true));
            Run(st, SeenRecord(crc, EncodePhysical(crc, c))) == Outcome(next, emitted)
  {
    EncodedImage(crc, c);
    var p := Physical(c.kind, c.data, true);
    assert [p][1..] == [];
  }

  /** One record of a payload, as written or broken: a broken one leaves nothing to continue. */
  lemma RunImage(crc: Crc32c, st: State, c: Chunk, image: bytes)
    requires |c.data| < 0x1_0000 && REC_FULL <= c.kind
    requires image == EncodePhysical(crc, c) || Broken(crc, c, image)
    requires c.data == [] ==> st == IDLE
    ensures var (next, emitted) := Step(st, Physical(c.kind, c.data, image == EncodePhysical(crc, c)));
            Run(st, SeenRecord(crc, image)) == Outcome(next, emitted)
  {
    hide EncodePhysical, SeenRecord, Broken;
    if image == EncodePhysical(crc, c) {
      StepWhole(crc, st, c);
    } else {
      StepBroken(crc, st, c, image);
    }
  }

  /** The reassembly of one payload from records that are each as written or broken. */
  lemma {:induction false} RunMangled(crc: Crc32c, st: State, data: bytes, room: nat, begin: bool, s: bytes)
    requires room <= BLOCK_SIZE && (if begin then st == IDLE else data != [] && room == 0)
    requires !st.inRecord ==> st == IDLE
    requires Fits(Fragments(data, room, begin), room) && Mangled(crc, Fragments(data, room, begin), room, s)
    ensures var cs := Fragments(data, room, begin);
            Run(st, Seen(crc, cs, room, s))
            == Outcome(IDLE, if Unbroken(crc, cs, room, s) && (begin || st.inRecord) then [st.fragment + data] else [])
    decreases |data|, room
  {
    hide EncodePhysical, Broken, Run, Seen, Unbroken, Mangled, Image, BehindFirst, Fits;
    var available := Available(room);
    var cs := Fragments(data, room, begin);
    RunMangledStep(crc, st, cs, room, s);
    var c, image, tail := cs[0], Image(cs, room, s), BehindFirst(cs, room, s);
    assert [] + data == data;
    if |data| <= available {
      assert cs[1..] == [];
    } else {
      var head, more := data[..available], data[available..];
      var next := Step(st, Physical(c.kind, c.data, image == EncodePhysical(crc, c))).0;
      assert cs[1..] == Fragments(more, 0, false);
      FragmentsFit(more, 0, false);
      RunMangled(crc, next, more, 0, false, tail);
      assert (st.fragment + head) + more == st.fragment + data;
      assert head + more == data;
    }
  }

  lemma RunMangledStep(crc: Crc32c, st: State, cs: seq<Chunk>, room: nat, s: bytes)
    requires cs != [] && Fits(cs, room) && Mangled(crc, cs, room, s) && (cs[0].data == [] ==> st == IDLE)
    ensures Pad(cs[0], room) + HEADER_SIZE + |cs[0].data| <= |s|
    ensures var behind, tail := RoomBehind(cs[0], room), BehindFirst(cs, room, s);
            var whole := Image(cs, room, s) == EncodePhysical(crc, cs[0]);
            && Mangled(crc, cs[1..], behind, tail)
            && (Unbroken(crc, cs, room, s) <==> whole && Unbroken(crc, cs[1..], behind, tail))
            && (cs[1..] == [] ==> Unbroken(crc, cs[1..], behind, tail))
            && var (next, emitted) := Step(st, Physical(cs[0].kind, cs[0].data, whole));
            var later := Run(next, Seen(crc, cs[1..], behind, tail));
            && (cs[1..] == [] ==> Run(st, Seen(crc, cs, room, s)) == Outcome(next, emitted))
            && (emitted == [] ==> Run(st, Seen(crc, cs, room, s)) == later)
  {
    hide EncodePhysical, SeenRecord, Broken, Image, BehindFirst, Run;
    var image := Image(cs, room, s);
    var rest := Seen(crc, cs[1..], RoomBehind(cs[0], room), BehindFirst(cs, room, s));
    RunImage(crc, st, cs[0], image);
    RunConcat(st, SeenRecord(crc, image), rest);
    var (next, emitted) := Step(st, Physical(cs[0].kind, cs[0].data, image == EncodePhysical(crc, cs[0])));
    RunNothing(next);
    assert emitted + [] == emitted;
    assert [] + Run(next, rest).payloads == Run(next, rest).payloads;
  }

  // ---------------------------------------------------------------- any number of broken records

  /** s is the log of these payloads, each physical record as written or broken. */
  predicate MangledLog(crc: Crc32c, payloads: seq<bytes>, room: nat, s: bytes)
    requires room <= BLOCK_SIZE
    decreases |payloads|
  {
    if payloads == [] then s == []
    else
      var cs, n := Fragments(payloads[0], room, true), |WritePayload(crc, payloads[0], room)|;
      FragmentsFit(payloads[0], room, true);
      && n <= |s|
      && Mangled(crc, cs, room, s[..n])
      && MangledLog(crc, payloads[1..], RoomAfterPayload(payloads[0], room), s[n..])
  }

  /** The payloads all of whose physical records are as written. */
  function Survivors(crc: Crc32c, payloads: seq<bytes>, room: nat, s: bytes): seq<bytes>
    requires room <= BLOCK_SIZE && MangledLog(crc, payloads, room, s)
    decreases |payloads|
  {
    if payloads == [] then []
    else
      var cs, n := Fragments(payloads[0], room, true), |WritePayload(crc, payloads[0], room)|;
      FragmentsFit(payloads[0], room, true);
      (if Unbroken(crc, cs, room, s[..n]) then [payloads[0]] else [])
      + Survivors(crc, payloads[1..], RoomAfterPayload(payloads[0], room), s[n..])
  }

  /** One payload's bytes, each record as written or broken, in front of anything. */
  lemma ReadMangledPayload(crc: Crc32c, payload: bytes, room: nat, s: bytes, rest: bytes)
    requires room <= BLOCK_SIZE
    requires Fits(Fragments(payload, room, true), room) && Mangled(crc, Fragments(payload, room, true), room, s)
    requires payload != [] || SingleRecordHolds(Fragments(payload, room, true), room, s, rest)
    ensures var later := Run(IDLE, Scan(crc, rest, RoomAfterPayload(payload, room)));
            Run(IDLE, Scan(crc, s + rest, room))
            == Outcome(later.state,
                       (if Unbroken(crc, Fragments(payload, room, true), room, s) then [payload] else [])
                       + later.payloads)
  {
    hide Scan, Mangled, Unbroken, Seen, Fragments, Run;
    var cs := Fragments(payload, room, true);
    if payload != [] {
      FragmentsTight(payload, room, true);
    }
    ScanMangled(crc, cs, room, s, rest);
    RunMangled(crc, IDLE, payload, room, true, s);
    assert [] + payload == payload;
    RunConcat(IDLE, Seen(crc, cs, room, s), Scan(crc, rest, RoomAfterPayload(payload, room)));
  }

  /** The one record of an empty payload is nothing but a header. No such record was zeroed with more
      of the log behind it in its block. */
  predicate HeadersHold(crc: Crc32c, payloads: seq<bytes>, room: nat, s: bytes)
    requires room <= BLOCK_SIZE && MangledLog(crc, payloads, room, s)
    decreases |payloads|
  {
    payloads == [] ||
    var cs, n := Fragments(payloads[0], room, true), |WritePayload(crc, payloads[0], room)|;
    FragmentsFit(payloads[0], room, true);
    && (payloads[0] == [] ==> SingleRecordHolds(cs, room, s[..n], s[n..]))
    && HeadersHold(crc, payloads[1..], RoomAfterPayload(payloads[0], room), s[n..])
  }

  lemma {:induction false} NoEmptyPayload(crc: Crc32c, payloads: seq<bytes>, room: nat, s: bytes)
    requires room <= BLOCK_SIZE && MangledLog(crc, payloads, room, s)
    requires forall i :: 0 <= i < |payloads| ==> payloads[i] != []
    ensures HeadersHold(crc, payloads, room, s)
    decreases |payloads|
  {
    hide Mangled, Fragments, WritePayload, RoomAfterPayload;
    if payloads != [] {
      var n := |WritePayload(crc, payloads[0], room)|;
      NoEmptyPayload(crc, payloads[1..], RoomAfterPayload(payloads[0], room), s[n..]);
    }
  }

  lemma {:induction false} RunSurvivors(crc: Crc32c, payloads: seq<bytes>, room: nat, s: bytes)
    requires room <= BLOCK_SIZE && MangledLog(crc, payloads, room, s) && HeadersHold(crc, payloads, room, s)
    ensures Run(IDLE, Scan(crc, s, room)) == Outcome(IDLE, Survivors(crc, payloads, room, s))
    decreases |payloads|
  {
    hide Scan, Mangled, Unbroken, Fragments, WritePayload, RoomAfterPayload, SingleRecordHolds;
    if payloads == [] {
      ScanNothing(crc, room);
    } else {
      var n, behind := |WritePayload(crc, payloads[0], room)|, RoomAfterPayload(payloads[0], room);
      FragmentsFit(payloads[0], room, true);
      RunSurvivors(crc, payloads[1..], behind, s[n..]);
      ReadMangledPayload(crc, payloads[0], room, s[..n], s[n..]);
      assert s[..n] + s[n..] == s;
    }
  }

  /** Whatever physical records of a log are altered so that their checksums fail (type, checksum
      and data arbitrary, length as written; block padding arbitrary), the payloads read are exactly
      those none of whose records was altered. The record of an empty payload must not become padding. */
  lemma BrokenRecordsLoseTheirPayloads(crc: Crc32c, payloads: seq<bytes>, s: bytes)
    requires MangledLog(crc, payloads, BLOCK_SIZE, s) && HeadersHold(crc, payloads, BLOCK_SIZE, s)
    ensures Payloads(crc, s) == Survivors(crc, payloads, BLOCK_SIZE, s)
  {
    RunSurvivors(crc, payloads, BLOCK_SIZE, s);
  }

  // ---------------------------------------------------------------- a single broken record

  /** Where record f of a layout begins. */
  function Offset(cs: seq<Chunk>, room: nat, f: nat): nat
    requires Fits(cs, room) && f < |cs|
    decreases |cs|
  {
    Pad(cs[0], room) +
    if f == 0 then 0 else HEADER_SIZE + |cs[0].data| + Offset(cs[1..], RoomBehind(cs[0], room), f - 1)
  }

  lemma {:induction false} OffsetInside(crc: Crc32c, cs: seq<Chunk>, room: nat, f: nat)
    requires Fits(cs, room) && f < |cs|
    ensures Offset(cs, room, f) + HEADER_SIZE + |cs[f].data| <= |Layout(crc, cs, room)|
    decreases |cs|
  {
    hide EncodePhysical;
    if f > 0 {
      OffsetInside(crc, cs[1..], RoomBehind(cs[0], room), f - 1);
    }
  }

  function Splice(s: bytes, at: nat, image: bytes): bytes
    requires at + |image| <= |s|
  {
    s[..at] + image + s[at + |image|..]
  }

  lemma SpliceFront(cs: seq<Chunk>, room: nat, pad: bytes, image: bytes, tail: bytes)
    requires cs != [] && |pad| == Pad(cs[0], room) && |image| == HEADER_SIZE + |cs[0].data|
    ensures Image(cs, room, pad + image + tail) == image
    ensures BehindFirst(cs, room, pad + image + tail) == tail
  {
    assert (pad + image + tail)[|pad|..] == image + tail;
  }

  lemma {:induction false} LayoutUnbroken(crc: Crc32c, cs: seq<Chunk>, room: nat)
    requires Fits(cs, room)
    ensures Mangled(crc, cs, room, Layout(crc, cs, room)) && Unbroken(crc, cs, room, Layout(crc, cs, room))
    decreases |cs|
  {
    hide EncodePhysical, Image, BehindFirst, Broken;
    if cs != [] {
      var behind := RoomBehind(cs[0], room);
      LayoutUnbroken(crc, cs[1..], behind);
      SpliceFront(cs, room, Zeros(Pad(cs[0], room)), EncodePhysical(crc, cs[0]), Layout(crc, cs[1..], behind));
    }
  }

  lemma {:induction false} SpliceBroken(crc: Crc32c, cs: seq<Chunk>, room: nat, f: nat, image: bytes)
    requires Fits(cs, room) && f < |cs| && Broken(crc, cs[f], image)
    ensures Offset(cs, room, f) + |image| <= |Layout(crc, cs, room)|
    ensures var s := Splice(Layout(crc, cs, room), Offset(cs, room, f), image);
            Mangled(crc, cs, room, s) && !Unbroken(crc, cs, room, s)
    decreases |cs|
  {
    hide EncodePhysical, Image, BehindFirst, Broken, Splice;
    BrokenLength(crc, cs[f], image);
    OffsetInside(crc, cs, room, f);
    var c, behind, at := cs[0], RoomBehind(cs[0], room), Offset(cs, room, f);
    var pad, first, tail := Zeros(Pad(c, room)), EncodePhysical(crc, c), Layout(crc, cs[1..], behind);
    var s := Splice(Layout(crc, cs, room), at, image);
    if f == 0 {
      BrokenDiffers(crc, c, image);
      LayoutUnbroken(crc, cs[1..], behind);
      SpliceFront(cs, room, pad, image, tail);
      SpliceAt(pad, first, tail, image);
    } else {
      SpliceBroken(crc, cs[1..], behind, f - 1, image);
      SpliceFront(cs, room, pad, first, Splice(tail, at - |pad + first|, image));
      SpliceBehind(pad + first, tail, at, image);
    }
  }

  lemma SpliceAt(pad: bytes, first: bytes, tail: bytes, image: bytes)
    requires |first| == |image|
    ensures Splice(pad + first + tail, |pad|, image) == pad + image + tail
  {
  }

  lemma SpliceBehind(front: bytes, tail: bytes, at: nat, image: bytes)
    requires |front| <= at && at + |image| <= |front| + |tail|
    ensures Splice(front + tail, at, image) == front + Splice(tail, at - |front|, image)
  {
  }

  lemma BrokenLength(crc: Crc32c, c: Chunk, image: bytes)
    requires Broken(crc, c, image)
    ensures |image| == HEADER_SIZE + |c.data|
  {
  }

  lemma BrokenDiffers(crc: Crc32c, c: Chunk, image: bytes)
    requires Broken(crc, c, image) && |c.data| < 0x1_0000
    ensures image != EncodePhysical(crc, c)
  {
    EncodedImage(crc, c);
    CrcOfImage(crc, image);
  }

  /** Where physical record f of payload b stands in the log. */
  function RecordStart(crc: Crc32c, payloads: seq<bytes>, b: nat, f: nat): nat
    requires b < |payloads|
    requires f < |Fragments(payloads[b], RoomAfterAll(payloads[..b], BLOCK_SIZE), true)|
  {
    var room := RoomAfterAll(payloads[..b], BLOCK_SIZE);
    FragmentsFit(payloads[b], room, true);
    |WriteLog(crc, payloads[..b])| + Offset(Fragments(payloads[b], room, true), room, f)
  }

  lemma SpliceInside(e1: bytes, e2: bytes, e3: bytes, at: nat, image: bytes)
    requires at + |image| <= |e2|
    ensures Splice(e1 + (e2 + e3), |e1| + at, image) == e1 + (Splice(e2, at, image) + e3)
  {
  }

  lemma WriteHead(crc: Crc32c, payload: bytes, after: seq<bytes>, room: nat)
    requires room <= BLOCK_SIZE
    ensures WriteFrom(crc, [payload] + after, room)
            == WritePayload(crc, payload, room) + WriteFrom(crc, after, RoomAfterPayload(payload, room))
  {
    assert ([payload] + after)[1..] == after;
  }

  /** A log around one payload, and with other bytes in place of a record of that payload. */
  lemma LogAround(crc: Crc32c, payloads: seq<bytes>, b: nat, f: nat, image: bytes)
    requires b < |payloads|
    requires f < |Fragments(payloads[b], RoomAfterAll(payloads[..b], BLOCK_SIZE), true)|
    requires |image|
             == HEADER_SIZE + |Fragments(payloads[b], RoomAfterAll(payloads[..b], BLOCK_SIZE), true)[f].data|
    ensures var room := RoomAfterAll(payloads[..b], BLOCK_SIZE);
            var cs := Fragments(payloads[b], room, true);
            var e1, e2 := WriteLog(crc, payloads[..b]), WritePayload(crc, payloads[b], room);
            var e3 := WriteFrom(crc, payloads[b + 1..], RoomAfterPayload(payloads[b], room));
            var log, start := WriteLog(crc, payloads), RecordStart(crc, payloads, b, f);
            && Fits(cs, room) && start == |e1| + Offset(cs, room, f)
            && log == e1 + (e2 + e3)
            && Offset(cs, room, f) + |image| <= |e2|
            && Splice(log, start, image) == e1 + (Splice(e2, Offset(cs, room, f), image) + e3)
  {
    hide Fragments, Layout, Fits, Offset, Splice, RoomAfter, RoomAfterAll;
    var room := RoomAfterAll(payloads[..b], BLOCK_SIZE);
    var payload, after, cs := payloads[b], payloads[b + 1..], Fragments(payloads[b], room, true);
    FragmentsFit(payload, room, true);
    OffsetInside(crc, cs, room, f);
    SplitAt(payloads, b);
    SplitOff(payloads, b);
    WriteConcat(crc, payloads[..b], payloads[b..], BLOCK_SIZE);
    WriteHead(crc, payload, after, room);
    SpliceInside(WriteLog(crc, payloads[..b]), WritePayload(crc, payload, room),
                 WriteFrom(crc, after, RoomAfterPayload(payload, room)), Offset(cs, room, f), image);
  }

  lemma SingleSplice(crc: Crc32c, room: nat, image: bytes, rest: bytes)
    requires room <= BLOCK_SIZE && |image| == HEADER_SIZE && !ReadsAsPadding(image)
    ensures var cs := Fragments([], room, true);
            && Fits(cs, room) && |cs| == 1 && Offset(cs, room, 0) + |image| <= |Layout(crc, cs, room)|
            && SingleRecordHolds(cs, room, Splice(Layout(crc, cs, room), Offset(cs, room, 0), image), rest)
  {
    hide EncodePhysical, Splice;
    var cs := Fragments([], room, true);
    FragmentsFit([], room, true);
    var pad, first := Zeros(Pad(cs[0], room)), EncodePhysical(crc, cs[0]);
    assert Layout(crc, cs, room) == pad + first + [];
    SpliceAt(pad, first, [], image);
    SpliceFront(cs, room, pad, image, []);
  }

  lemma EmptyPayloadRecord(room: nat)
    requires room <= BLOCK_SIZE
    ensures var cs := Fragments([], room, true); |cs| == 1 && cs[0].data == []
  {
  }

  /** One bad physical record loses one payload and nothing else, unless it is that of an empty
      payload and now reads as padding. */
  lemma OneBrokenRecord(crc: Crc32c, payloads: seq<bytes>, b: nat, f: nat, image: bytes)
    requires b < |payloads| && (payloads[b] != [] || !ReadsAsPadding(image))
    requires f < |Fragments(payloads[b], RoomAfterAll(payloads[..b], BLOCK_SIZE), true)|
    requires Broken(crc, Fragments(payloads[b], RoomAfterAll(payloads[..b], BLOCK_SIZE), true)[f], image)
    ensures RecordStart(crc, payloads, b, f) + |image| <= |WriteLog(crc, payloads)|
    ensures Payloads(crc, Splice(WriteLog(crc, payloads), RecordStart(crc, payloads, b, f), image))
            == payloads[..b] + payloads[b + 1..]
  {
    hide Scan, Mangled, Unbroken, Fragments, Layout, Fits, Offset, Broken, Run, Splice, RoomAfter, RoomAfterAll,
      SingleRecordHolds, ReadsAsPadding;
    var first, after, room := payloads[..b], payloads[b + 1..], RoomAfterAll(payloads[..b], BLOCK_SIZE);
    var payload, behind := payloads[b], RoomAfterPayload(payloads[b], room);
    var cs := Fragments(payload, room, true);
    BrokenLength(crc, cs[f], image);
    LogAround(crc, payloads, b, f, image);
    SpliceBroken(crc, cs, room, f, image);
    var e3 := WriteFrom(crc, after, behind);
    var bad := Splice(WritePayload(crc, payload, room), Offset(cs, room, f), image);
    if payload == [] {
      EmptyPayloadRecord(room);
      SingleSplice(crc, room, image, e3);
    }
    RunWritten(crc, IDLE, first, BLOCK_SIZE, bad + e3);
    ReadMangledPayload(crc, payload, room, bad, e3);
    RunWritten(crc, IDLE, after, behind, []);
    assert e3 + [] == e3;
    ScanNothing(crc, RoomAfterAll(after, behind));
    RunNothing(IDLE);
  }
}
