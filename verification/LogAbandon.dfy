/** A written log in which the scan abandons a block: one record's length now lies, or its header was
    zeroed. The automaton is not reset, so fragments from both sides of the gap may be joined. */
module LogAbandon {
  import opened Bytes
  import opened Log
  import opened LogLaws
  import opened LogWriter
  import opened LogDamage
  import opened LogCorruption
  import opened Sequences

  // ---------------------------------------------------------------- the scan skips to the next block

  /** How many chunks come before the first one that begins a block. */
  function ToNextBlock(cs: seq<Chunk>): (k: nat)
    ensures k <= |cs|
  {
    if cs == [] || cs[0].newBlock then 0 else 1 + ToNextBlock(cs[1..])
  }

  lemma {:induction false} ScanFromBlockEnd(crc: Crc32c, cs: seq<Chunk>, room: nat)
    requires Fits(cs, room)
    ensures var s := Layout(crc, cs, room);
            (if |s| <= room then [] else Scan(crc, s[room..], BLOCK_SIZE)) == Written(cs[ToNextBlock(cs)..])
    decreases |cs|
  {
    hide Scan, EncodePhysical, Fits, Layout, RoomAfter, Written;
    FitsRoom(cs, room);
    if cs == [] {
      EmptyLayout(crc, room);
    } else {
      LayoutCons(crc, cs, room);
      var s, behind := Layout(crc, cs, room), RoomBehind(cs[0], room);
      var image, tail := EncodePhysical(crc, cs[0]), Layout(crc, cs[1..], behind);
      if cs[0].newBlock {
        ScanLayout(crc, cs, room, []);
        ScanNothing(crc, RoomAfter(cs, room));
        NewBlockOnlyWhenShort(cs, room);
        assert s + [] == s && cs[0..] == cs && Written(cs) + [] == Written(cs);
        Associative(Zeros(room), image, tail);
        DropConcat(Zeros(room), image + tail, 0);
        assert (image + tail)[0..] == image + tail;
        ScanSkipsPad(crc, Zeros(room), image + tail);
      } else {
        ScanFromBlockEnd(crc, cs[1..], behind);
        Drop(cs, 1, ToNextBlock(cs[1..]));
        assert s == image + tail;
        if |s| > room {
          DropConcat(image, tail, behind);
        }
      }
    }
  }

  lemma FitsRoom(cs: seq<Chunk>, room: nat)
    requires Fits(cs, room)
    ensures room <= BLOCK_SIZE
  {
  }

  lemma ScanSkipsBlock(crc: Crc32c, image: bytes, tail: bytes, behind: nat)
    requires |image| >= HEADER_SIZE && behind + |image| <= BLOCK_SIZE
    requires NextPhysical(crc, image + tail, behind + |image|).None?
    ensures Scan(crc, image + tail, behind + |image|)
            == if |tail| <= behind then [] else Scan(crc, tail[behind..], BLOCK_SIZE)
  {
    hide NextPhysical, Scan;
    ScanUnfold(crc, image + tail, behind + |image|);
    if |tail| > behind {
      DropConcat(image, tail, behind);
    }
  }

  /** At a record the scan rejects, everything up to the next block is lost and nothing more. */
  lemma ScanAbandons(crc: Crc32c, image: bytes, cs: seq<Chunk>, behind: nat)
    requires Fits(cs, behind) && |image| >= HEADER_SIZE && behind + |image| <= BLOCK_SIZE
    requires NextPhysical(crc, image + Layout(crc, cs, behind), behind + |image|).None?
    ensures Scan(crc, image + Layout(crc, cs, behind), behind + |image|) == Written(cs[ToNextBlock(cs)..])
  {
    hide NextPhysical, Scan, Layout, Fits, ToNextBlock, Written;
    ScanSkipsBlock(crc, image, Layout(crc, cs, behind), behind);
    ScanFromBlockEnd(crc, cs, behind);
  }

  // ---------------------------------------------------------------- what the fragments carry

  /** Bytes of a payload in front of its fragment f: fragments in between fill whole blocks. */
  function Cut(room: nat, f: nat): nat
    requires room <= BLOCK_SIZE
  {
    if f == 0 then 0 else Available(room) + (f - 1) * (BLOCK_SIZE - HEADER_SIZE)
  }

  lemma FragmentsCons(data: bytes, room: nat, begin: bool)
    requires room <= BLOCK_SIZE
    ensures var cs := Fragments(data, room, begin);
            if |data| <= Available(room) then
              |cs| == 1 && cs[0] == Chunk(room < HEADER_SIZE, if begin then REC_FULL else REC_LAST, data)
            else
              && cs[0] == Chunk(room < HEADER_SIZE, if begin then REC_FIRST else REC_MIDDLE, data[..Available(room)])
              && cs[1..] == Fragments(data[Available(room)..], 0, false)
  {
  }

  lemma CutStep(room: nat, f: nat)
    requires room <= BLOCK_SIZE && f > 0
    ensures Cut(room, f) == Available(room) + Cut(0, f - 1)
  {
  }

  /** The fragments behind fragment f are those of the bytes behind it, written from a new block. */
  lemma {:induction false} FragmentsBehind(data: bytes, room: nat, begin: bool, f: nat)
    requires room <= BLOCK_SIZE && f + 1 < |Fragments(data, room, begin)|
    ensures Cut(room, f + 1) <= |data|
    ensures Fragments(data, room, begin)[f + 1..] == Fragments(data[Cut(room, f + 1)..], 0, false)
    decreases f
  {
    hide Fragments, Cut;
    FragmentsCons(data, room, begin);
    CutStep(room, f + 1);
    var cs, rest := Fragments(data, room, begin), data[Available(room)..];
    if f == 0 {
      CutNothing(0);
    } else {
      FragmentsBehind(rest, 0, false, f - 1);
      assert cs[f + 1..] == cs[1..][f..];
      Drop(data, Available(room), Cut(0, f));
    }
  }

  lemma CutNothing(room: nat)
    requires room <= BLOCK_SIZE
    ensures Cut(room, 0) == 0
  {
  }

  /** After the first f fragments of a payload the automaton holds their bytes. */
  lemma {:induction false} RunPrefix(st: State, data: bytes, room: nat, begin: bool, f: nat)
    requires room <= BLOCK_SIZE && f < |Fragments(data, room, begin)| && (if begin then st == IDLE else st.inRecord)
    ensures Cut(room, f) <= |data|
    ensures Run(st, Written(Fragments(data, room, begin)[..f]))
            == Outcome(if f == 0 then st else State(st.fragment + data[..Cut(room, f)], true), [])
    decreases f
  {
    hide Run, Fragments, Cut, Written;
    CutNothing(room);
    var cs := Fragments(data, room, begin);
    if f == 0 {
      assert cs[..0] == [];
      WrittenNothing();
      RunNothing(st);
    } else {
      FragmentsCons(data, room, begin);
      CutStep(room, f);
      var head, rest := data[..Available(room)], data[Available(room)..];
      var next := Step(st, Physical(cs[0].kind, head, true)).0;
      assert [] + head == head;
      assert next == State(st.fragment + head, true);
      RunPrefix(next, rest, 0, false, f - 1);
      CutNothing(0);
      RunCons(st, cs[0], cs[1..][..f - 1]);
      assert cs[..f] == [cs[0]] + cs[1..][..f - 1];
      var more := rest[..Cut(0, f - 1)];
      assert head + more == data[..Cut(room, f)];
      Associative(st.fragment, head, more);
      assert f == 1 ==> more == [] && (st.fragment + head) + [] == st.fragment + head;
    }
  }

  lemma WrittenNothing()
    ensures Written([]) == []
  {
  }

  /** Payloads that begin in the rest of a block, and what of the last one lies behind the block. */
  datatype Skipped = Skipped(lost: nat, tail: Option<bytes>)

  function SkipBlock(payloads: seq<bytes>, room: nat): (s: Skipped)
    requires room <= BLOCK_SIZE
    ensures s.lost <= |payloads| && (s.tail.Some? ==> s.lost > 0)
    decreases |payloads|
  {
    if payloads == [] || room < HEADER_SIZE then Skipped(0, None)
    else
      var available := Available(room);
      if |payloads[0]| > available then Skipped(1, Some(payloads[0][available..]))
      else
        var s := SkipBlock(payloads[1..], available - |payloads[0]|);
        s.(lost := s.lost + 1)
  }

  lemma ToNextBlockSkips(c: Chunk, cs: seq<Chunk>)
    ensures var all := [c] + cs;
            all[ToNextBlock(all)..] == if c.newBlock then all else cs[ToNextBlock(cs)..]
  {
    assert ([c] + cs)[1..] == cs;
  }

  lemma ChunksNothing(room: nat)
    requires room <= BLOCK_SIZE
    ensures LogChunks([], room) == [] && RoomAfterAll([], room) == room
  {
  }

  /** The chunks behind the block: the rest of the payload that straddles its end, if any, and the
      payloads that begin there. */
  function ChunksBehind(payloads: seq<bytes>, room: nat): seq<Chunk>
    requires room <= BLOCK_SIZE
  {
    var s := SkipBlock(payloads, room);
    (if s.tail.Some? then Fragments(s.tail.value, 0, false) else [])
    + LogChunks(payloads[s.lost..], RoomAfterAll(payloads[..s.lost], room))
  }

  lemma ChunksBehindSkip(payloads: seq<bytes>, room: nat)
    requires HEADER_SIZE <= room <= BLOCK_SIZE && payloads != [] && |payloads[0]| <= Available(room)
    ensures ChunksBehind(payloads, room) == ChunksBehind(payloads[1..], RoomAfterPayload(payloads[0], room))
  {
    hide LogChunks, Fragments;
    var behind := RoomAfterPayload(payloads[0], room);
    SingleRoom(payloads[0], room);
    var k := SkipBlock(payloads[1..], behind).lost;
    Drop(payloads, 1, k);
    assert payloads[..1 + k][1..] == payloads[1..][..k];
  }

  lemma ChunksBehindNone(payloads: seq<bytes>, room: nat)
    requires room <= BLOCK_SIZE && (payloads == [] || room < HEADER_SIZE)
    ensures ChunksBehind(payloads, room) == LogChunks(payloads, room)
  {
    hide LogChunks;
    assert payloads[0..] == payloads && payloads[..0] == [];
    ChunksNothing(room);
    assert [] + LogChunks(payloads, room) == LogChunks(payloads, room);
  }

  lemma {:induction false} NextBlockChunks(payloads: seq<bytes>, room: nat)
    requires room <= BLOCK_SIZE
    ensures LogChunks(payloads, room)[ToNextBlock(LogChunks(payloads, room))..] == ChunksBehind(payloads, room)
    decreases |payloads|
  {
    hide Fragments, ToNextBlock, ChunksBehind;
    if payloads == [] {
      ChunksNothing(room);
      ChunksBehindNone(payloads, room);
    } else {
      var frags, behind := Fragments(payloads[0], room, true), RoomAfterPayload(payloads[0], room);
      var later := LogChunks(payloads[1..], behind);
      FragmentsCons(payloads[0], room, true);
      assert LogChunks(payloads, room) == [frags[0]] + (frags[1..] + later);
      ToNextBlockSkips(frags[0], frags[1..] + later);
      if room < HEADER_SIZE {
        ChunksBehindNone(payloads, room);
      } else if |payloads[0]| > Available(room) {
        StraddlingChunks(payloads, room);
      } else {
        assert frags[1..] + later == later;
        NextBlockChunks(payloads[1..], behind);
        ChunksBehindSkip(payloads, room);
      }
    }
  }

  lemma ChunksCons(payloads: seq<bytes>, room: nat)
    requires room <= BLOCK_SIZE && payloads != []
    ensures LogChunks(payloads, room)
            == Fragments(payloads[0], room, true) + LogChunks(payloads[1..], RoomAfterPayload(payloads[0], room))
  {
  }

  lemma RoomAfterOne(payloads: seq<bytes>, room: nat)
    requires room <= BLOCK_SIZE && payloads != []
    ensures RoomAfterAll(payloads[..1], room) == RoomAfterPayload(payloads[0], room)
  {
    assert payloads[..1][1..] == [];
  }

  lemma StraddlingChunks(payloads: seq<bytes>, room: nat)
    requires HEADER_SIZE <= room <= BLOCK_SIZE && payloads != [] && |payloads[0]| > Available(room)
    ensures LogChunks(payloads, room)[ToNextBlock(LogChunks(payloads, room))..] == ChunksBehind(payloads, room)
  {
    hide Fragments, ToNextBlock, LogChunks, RoomAfterAll, RoomAfterPayload;
    var frags, behind := Fragments(payloads[0], room, true), RoomAfterPayload(payloads[0], room);
    var tail := payloads[0][Available(room)..];
    var more := Fragments(tail, 0, false) + LogChunks(payloads[1..], behind);
    FragmentsCons(payloads[0], room, true);
    ContinuesInNewBlock(tail);
    ChunksCons(payloads, room);
    Associative([frags[0]], frags[1..], LogChunks(payloads[1..], behind));
    assert frags == [frags[0]] + frags[1..];
    ToNextBlockSkips(frags[0], more);
    assert more == [more[0]] + more[1..];
    ToNextBlockSkips(more[0], more[1..]);
    RoomAfterOne(payloads, room);
  }

  lemma RunFromNextBlock(st: State, payloads: seq<bytes>, room: nat)
    requires room <= BLOCK_SIZE
    ensures var cs, s := LogChunks(payloads, room), SkipBlock(payloads, room);
            Run(st, Written(cs[ToNextBlock(cs)..])).payloads
            == (if st.inRecord && s.tail.Some? then [st.fragment + s.tail.value] else []) + payloads[s.lost..]
  {
    hide Run, Written, LogChunks, Fragments, SkipBlock, ToNextBlock, RoomAfterAll;
    NextBlockChunks(payloads, room);
    var s := SkipBlock(payloads, room);
    var rest, roomThere := payloads[s.lost..], RoomAfterAll(payloads[..s.lost], room);
    if s.tail.Some? {
      RunTailThenLog(st, s.tail.value, rest, roomThere);
    } else {
      RunChunks(st, rest, roomThere);
      assert [] + LogChunks(rest, roomThere) == LogChunks(rest, roomThere);
      assert [] + rest == rest;
    }
  }

  lemma SingleRoom(payload: bytes, room: nat)
    requires HEADER_SIZE <= room <= BLOCK_SIZE && |payload| <= room - HEADER_SIZE
    ensures RoomAfterPayload(payload, room) == room - HEADER_SIZE - |payload|
  {
    var cs := Fragments(payload, room, true);
    FragmentsFit(payload, room, true);
    FragmentsCons(payload, room, true);
    assert cs[1..] == [];
    assert RoomAfter(cs, room) == RoomAfter([], RoomBehind(cs[0], room));
  }

  /** From any state, the physical records of whole payloads emit these payloads. */
  lemma {:induction false} RunChunks(st: State, payloads: seq<bytes>, room: nat)
    requires room <= BLOCK_SIZE
    ensures Run(st, Written(LogChunks(payloads, room))).payloads == payloads
    decreases |payloads|
  {
    hide Run, Fragments;
    if payloads == [] {
      assert Written(LogChunks(payloads, room)) == [];
      RunNothing(st);
    } else {
      var frags, behind := Fragments(payloads[0], room, true), RoomAfterPayload(payloads[0], room);
      var later := LogChunks(payloads[1..], behind);
      RunFragments(st, payloads[0], room, true);
      RunChunks(IDLE, payloads[1..], behind);
      RunConcat(st, Written(frags), Written(later));
      assert Written(frags + later) == Written(frags) + Written(later);
      assert payloads == [payloads[0]] + payloads[1..];
    }
  }

  lemma RunTailThenLog(st: State, tail: bytes, payloads: seq<bytes>, room: nat)
    requires room <= BLOCK_SIZE
    ensures Run(st, Written(Fragments(tail, 0, false) + LogChunks(payloads, room))).payloads
            == (if st.inRecord then [st.fragment + tail] else []) + payloads
  {
    hide Run, Fragments, LogChunks;
    RunFragments(st, tail, 0, false);
    RunChunks(IDLE, payloads, room);
    var a, b := Fragments(tail, 0, false), LogChunks(payloads, room);
    RunConcat(st, Written(a), Written(b));
    assert Written(a + b) == Written(a) + Written(b);
  }

  // ---------------------------------------------------------------- the outcome

  /** What comes out behind the payloads finished before the abandoned record: at most one payload
      nobody wrote, joined over the gap, then the payloads that begin behind the block. */
  function AfterGap(payload: bytes, room: nat, f: nat, after: seq<bytes>): seq<bytes>
    requires room <= BLOCK_SIZE && f < |Fragments(payload, room, true)|
  {
    RunPrefix(IDLE, payload, room, true, f);
    var head := payload[..Cut(room, f)];
    if f + 1 < |Fragments(payload, room, true)| then
      FragmentsBehind(payload, room, true, f);
      (if f > 0 then [head + payload[Cut(room, f + 1)..]] else []) + after
    else
      var s := SkipBlock(after, RoomAfterPayload(payload, room));
      (if f > 0 && s.tail.Some? then [head + s.tail.value] else []) + after[s.lost..]
  }

  lemma RunAfterGap(payload: bytes, room: nat, f: nat, after: seq<bytes>)
    requires room <= BLOCK_SIZE && f < |Fragments(payload, room, true)|
    ensures var cs := Fragments(payload, room, true);
            var rest := cs[f + 1..] + LogChunks(after, RoomAfterPayload(payload, room));
            Run(IDLE, Written(cs[..f]) + Written(rest[ToNextBlock(rest)..])).payloads
            == AfterGap(payload, room, f, after)
  {
    hide Run, Written, LogChunks, Fragments;
    var cs, behind := Fragments(payload, room, true), RoomAfterPayload(payload, room);
    var rest := cs[f + 1..] + LogChunks(after, behind);
    RunPrefix(IDLE, payload, room, true, f);
    var st := Run(IDLE, Written(cs[..f])).state;
    RunConcat(IDLE, Written(cs[..f]), Written(rest[ToNextBlock(rest)..]));
    assert [] + payload[..Cut(room, f)] == payload[..Cut(room, f)];
    if f + 1 < |cs| {
      FragmentsBehind(payload, room, true, f);
      var tail := payload[Cut(room, f + 1)..];
      ContinuesInNewBlock(tail);
      assert rest[0] == Fragments(tail, 0, false)[0] && rest[0..] == rest;
      RunTailThenLog(st, tail, after, behind);
    } else {
      assert rest == LogChunks(after, behind);
      RunFromNextBlock(st, after, behind);
    }
  }

  lemma ContinuesInNewBlock(tail: bytes)
    ensures Fragments(tail, 0, false) != [] && Fragments(tail, 0, false)[0].newBlock
  {
  }

  /** Room in the block where record f begins. */
  function RoomAt(cs: seq<Chunk>, room: nat, f: nat): nat
    requires Fits(cs, room) && f < |cs|
    decreases |cs|
  {
    if f == 0 then (if cs[0].newBlock then BLOCK_SIZE else room) else RoomAt(cs[1..], RoomBehind(cs[0], room), f - 1)
  }

  /** A layout up to record f and from it on. */
  lemma {:induction false} LayoutAtRecord(crc: Crc32c, cs: seq<Chunk>, room: nat, f: nat)
    requires Fits(cs, room) && f < |cs|
    ensures Fits(cs[..f], room)
    ensures var there := RoomAfter(cs[..f], room);
            && Fits(cs[f..], there)
            && Layout(crc, cs, room) == Layout(crc, cs[..f], room) + Layout(crc, cs[f..], there)
            && RoomAfter(cs, room) == RoomAfter(cs[f..], there)
            && Offset(cs, room, f) == |Layout(crc, cs[..f], room)| + Pad(cs[f], there)
            && RoomAt(cs, room, f) == if cs[f].newBlock then BLOCK_SIZE else there
    decreases f
  {
    hide EncodePhysical, Layout, Fits, RoomAfter, RoomBehind, Pad, Zeros;
    LayoutCons(crc, cs, room);
    NewBlockOnlyWhenShort(cs, room);
    if f == 0 {
      assert cs[..0] == [] && cs[0..] == cs;
      EmptyLayout(crc, room);
    } else {
      var behind := RoomBehind(cs[0], room);
      LayoutAtRecord(crc, cs[1..], behind, f - 1);
      assert cs[..f][1..] == cs[1..][..f - 1];
      Drop(cs, 1, f - 1);
      FitsPrefix(cs, room, f);
      LayoutCons(crc, cs[..f], room);
      var front := Zeros(Pad(cs[0], room)) + EncodePhysical(crc, cs[0]);
      var there := RoomAfter(cs[1..][..f - 1], behind);
      Associative(front, Layout(crc, cs[1..][..f - 1], behind), Layout(crc, cs[f..], there));
    }
  }

  lemma FitsPrefix(cs: seq<Chunk>, room: nat, f: nat)
    requires 0 < f <= |cs| && Fits(cs, room) && Fits(cs[1..][..f - 1], RoomBehind(cs[0], room))
    ensures Fits(cs[..f], room)
  {
    assert cs[..f][1..] == cs[1..][..f - 1];
  }

  /** The scan gives up the block at the first record of a layout. */
  lemma ScanGapFirst(crc: Crc32c, cs: seq<Chunk>, room: nat, image: bytes, more: seq<Chunk>)
    requires cs != [] && Fits(cs, room) && |image| == HEADER_SIZE + |cs[0].data| && Fits(more, RoomAfter(cs, room))
    requires Fits(cs[1..] + more, RoomBehind(cs[0], room))
    requires NextPhysical(crc, image + Layout(crc, cs[1..] + more, RoomBehind(cs[0], room)),
                          if cs[0].newBlock then BLOCK_SIZE else room).None?
    ensures var rest := cs[1..] + more;
            var pad := Zeros(Pad(cs[0], room));
            Scan(crc, pad + (image + Layout(crc, rest, RoomBehind(cs[0], room))), room)
            == Written(rest[ToNextBlock(rest)..])
  {
    hide NextPhysical, Scan, Layout, Fits, RoomAfter, Written;
    var behind := RoomBehind(cs[0], room);
    NewBlockOnlyWhenShort(cs, room);
    ScanAbandons(crc, image, cs[1..] + more, behind);
    ScanBehindPad(crc, cs[0], Zeros(Pad(cs[0], room)), image + Layout(crc, cs[1..] + more, behind), room);
  }

  lemma NewBlockOnlyWhenShort(cs: seq<Chunk>, room: nat)
    requires cs != [] && Fits(cs, room)
    ensures room <= BLOCK_SIZE && RoomBehind(cs[0], room) >= 0 && (cs[0].newBlock ==> room < HEADER_SIZE)
  {
  }

  /** The bytes from record f on, with `image` in its place and `last` behind everything. */
  lemma SpliceAtRecord(front: bytes, pad: bytes, first: bytes, tail: bytes, image: bytes, last: bytes)
    requires |first| == |image|
    ensures var s := Splice(front + (pad + first + tail), |front| + |pad|, image) + last;
            s == front + (pad + (image + (tail + last))) && s[|front| + |pad|..] == image + (tail + last)
  {
  }

  /** A layout read up to record f, where the scan gives up the block. */
  lemma ScanToGap(crc: Crc32c, cs: seq<Chunk>, room: nat, f: nat, image: bytes, more: seq<Chunk>)
    requires Fits(cs, room) && f < |cs| && |image| == HEADER_SIZE + |cs[f].data| && Fits(more, RoomAfter(cs, room))
    requires Offset(cs, room, f) + |image| <= |Layout(crc, cs, room)|
    requires var s := Splice(Layout(crc, cs, room), Offset(cs, room, f), image)
                      + Layout(crc, more, RoomAfter(cs, room));
             NextPhysical(crc, s[Offset(cs, room, f)..], RoomAt(cs, room, f)).None?
    ensures var s := Splice(Layout(crc, cs, room), Offset(cs, room, f), image)
                     + Layout(crc, more, RoomAfter(cs, room));
            var rest := cs[f + 1..] + more;
            Scan(crc, s, room) == Written(cs[..f]) + Written(rest[ToNextBlock(rest)..])
  {
    hide NextPhysical, Scan, EncodePhysical, Layout, Fits, RoomAfter, Splice, Written, Offset, RoomAt;
    LayoutAtRecord(crc, cs, room, f);
    var there, part := RoomAfter(cs[..f], room), cs[f..];
    assert part[1..] == cs[f + 1..];
    LayoutCons(crc, part, there);
    var behind := RoomBehind(part[0], there);
    var front, pad, first := Layout(crc, cs[..f], room), Zeros(Pad(part[0], there)), EncodePhysical(crc, part[0]);
    var tail, last := Layout(crc, part[1..], behind), Layout(crc, more, RoomAfter(cs, room));
    SpliceAtRecord(front, pad, first, tail, image, last);
    LayoutConcat(crc, part[1..], more, behind);
    ScanGapFirst(crc, part, there, image, more);
    ScanLayout(crc, cs[..f], room, pad + (image + (tail + last)));
  }

  /** With `image` in place of record f of payload b, the scan gives up the block there: the length
      lies, or the header was zeroed. */
  predicate Abandons(crc: Crc32c, payloads: seq<bytes>, b: nat, f: nat, image: bytes) {
    b < |payloads| &&
    var room := RoomAfterAll(payloads[..b], BLOCK_SIZE);
    var cs := Fragments(payloads[b], room, true);
    FragmentsFit(payloads[b], room, true);
    && f < |cs| && |image| == HEADER_SIZE + |cs[f].data|
    && var at := RecordStart(crc, payloads, b, f);
    && at + |image| <= |WriteLog(crc, payloads)|
    && NextPhysical(crc, Splice(WriteLog(crc, payloads), at, image)[at..], RoomAt(cs, room, f)).None?
  }

  /** The payloads finished before the gap are kept, those that begin in the rest of the block are
      lost although they are intact, and a payload cut at the gap is joined to what continues behind it. */
  lemma AbandonedBlock(crc: Crc32c, payloads: seq<bytes>, b: nat, f: nat, image: bytes)
    requires Abandons(crc, payloads, b, f, image)
    ensures Payloads(crc, Splice(WriteLog(crc, payloads), RecordStart(crc, payloads, b, f), image))
            == payloads[..b] + AfterGap(payloads[b], RoomAfterAll(payloads[..b], BLOCK_SIZE), f, payloads[b + 1..])
  {
    hide Scan, Fragments, Layout, Fits, Offset, Run, NextPhysical, RoomAfter, Splice, AfterGap, RoomAt, LogChunks;
    var first, after, room := payloads[..b], payloads[b + 1..], RoomAfterAll(payloads[..b], BLOCK_SIZE);
    var payload, behind := payloads[b], RoomAfterPayload(payloads[b], room);
    var cs, more := Fragments(payload, room, true), LogChunks(after, behind);
    FragmentsFit(payload, room, true);
    LogAround(crc, payloads, b, f, image);
    LogIsLayout(crc, after, behind);
    var e2, at := WritePayload(crc, payload, room), Offset(cs, room, f);
    var bad := Splice(e2, at, image) + WriteFrom(crc, after, behind);
    SpliceLength(e2, at, image);
    DropConcat(WriteLog(crc, first), bad, at);
    ScanToGap(crc, cs, room, f, image, more);
    RunWritten(crc, IDLE, first, BLOCK_SIZE, bad);
    RunAfterGap(payload, room, f, after);
  }

  lemma SpliceLength(s: bytes, at: nat, image: bytes)
    requires at + |image| <= |s|
    ensures |Splice(s, at, image)| == |s|
  {
  }

  /** Payloads behind the damaged one that are lost with it. */
  function LostBehind(payload: bytes, room: nat, f: nat, after: seq<bytes>): (n: nat)
    requires room <= BLOCK_SIZE && f < |Fragments(payload, room, true)|
    ensures n <= |after|
  {
    if f + 1 < |Fragments(payload, room, true)| then 0 else SkipBlock(after, RoomAfterPayload(payload, room)).lost
  }

  /** The gap lies inside a payload and the next block begins with a continuation. */
  predicate JoinsOverGap(payload: bytes, room: nat, f: nat, after: seq<bytes>)
    requires room <= BLOCK_SIZE && f < |Fragments(payload, room, true)|
  {
    f > 0 && (f + 1 < |Fragments(payload, room, true)| || SkipBlock(after, RoomAfterPayload(payload, room)).tail.Some?)
  }

  /** An abandoned block only loses payloads iff the gap does not lie inside a payload whose
      successor in the next block is a continuation; otherwise a payload nobody wrote comes out. */
  lemma OnlyLosesIff(crc: Crc32c, payloads: seq<bytes>, b: nat, f: nat, image: bytes)
    requires Abandons(crc, payloads, b, f, image)
    ensures var payload, room, after := payloads[b], RoomAfterAll(payloads[..b], BLOCK_SIZE), payloads[b + 1..];
            Payloads(crc, Splice(WriteLog(crc, payloads), RecordStart(crc, payloads, b, f), image))
            == payloads[..b] + after[LostBehind(payload, room, f, after)..]
            <==> !JoinsOverGap(payload, room, f, after)
  {
    var payload, room, after := payloads[b], RoomAfterAll(payloads[..b], BLOCK_SIZE), payloads[b + 1..];
    AbandonedBlock(crc, payloads, b, f, image);
    hide Payloads, Splice, RecordStart, Abandons, WriteLog, Fragments, SkipBlock, Cut;
    var kept := after[LostBehind(payload, room, f, after)..];
    assert [] + kept == kept && after[0..] == after;
    assert JoinsOverGap(payload, room, f, after) ==> |AfterGap(payload, room, f, after)| == |kept| + 1;
    assert !JoinsOverGap(payload, room, f, after) ==> AfterGap(payload, room, f, after) == kept;
  }

  // ---------------------------------------------------------------- when nothing intact is lost

  /** Chance restores the payload the gap swallows: the fragments in front of the gap hold the very
      bytes its first fragment lost. */
  predicate JoinRestores(payload: bytes, room: nat, f: nat, after: seq<bytes>)
    requires room <= BLOCK_SIZE && f < |Fragments(payload, room, true)|
  {
    var behind := RoomAfterPayload(payload, room);
    RunPrefix(IDLE, payload, room, true, f);
    && f > 0 && after != [] && HEADER_SIZE <= behind && |after[0]| > Available(behind)
    && after[0][..Available(behind)] == payload[..Cut(room, f)]
  }

  /** The gap holds no record of another payload: the damaged one goes on in the next block, nothing
      was written behind it, or no header fits behind it in its block. */
  predicate GapHoldsNoOther(payload: bytes, room: nat, f: nat, after: seq<bytes>)
    requires room <= BLOCK_SIZE && f < |Fragments(payload, room, true)|
  {
    f + 1 < |Fragments(payload, room, true)| || after == [] || RoomAfterPayload(payload, room) < HEADER_SIZE
  }

  lemma SkipBlockCases(payloads: seq<bytes>, room: nat)
    requires room <= BLOCK_SIZE
    ensures var s := SkipBlock(payloads, room);
            && (s.lost == 0 <==> payloads == [] || room < HEADER_SIZE)
            && (s.lost == 1 && s.tail.Some? <==>
                  payloads != [] && HEADER_SIZE <= room && |payloads[0]| > Available(room))
            && (s.lost == 1 && s.tail.Some? ==> s.tail.value == payloads[0][Available(room)..])
  {
  }

  lemma JoinedIsWhole(head: bytes, whole: bytes, cut: nat)
    requires cut <= |whole|
    ensures head + whole[cut..] == whole <==> whole[..cut] == head
  {
    assert whole == whole[..cut] + whole[cut..];
    if head + whole[cut..] == whole {
      assert |head| == cut && (head + whole[cut..])[..cut] == head;
    }
  }

  lemma KeepsAllBehind<T>(first: seq<T>, made: seq<T>, after: seq<T>, lost: nat)
    requires lost <= |after| && |made| <= 1
    ensures (exists extra :: first + (made + after[lost..]) == first + extra + after) <==>
            lost == 0 || (lost == 1 && made == [after[0]])
    ensures first + (made + after[lost..]) == first + after <==>
            (lost == 0 && made == []) || (lost == 1 && made == [after[0]])
  {
    var out := first + (made + after[lost..]);
    if lost == 0 {
      assert out == first + made + after;
    }
    if lost == 1 && made == [after[0]] {
      assert out == first + [] + after;
    }
    if extra :| out == first + extra + after {
      assert made + after[lost..] == out[|first|..] == extra + after;
      if lost == 1 {
        assert (made + after[lost..])[0] == made[0] && extra == [] && (extra + after)[0] == after[0];
      }
    }
    if out == first + after {
      assert out == first + [] + after;
      assert made + after[lost..] == out[|first|..] == after;
    }
  }

  /** Every other payload is emitted iff the gap holds no record of another one, chance aside; and
      nothing but these is emitted iff, moreover, the gap does not lie between two fragments. */
  lemma IntactKeptIff(crc: Crc32c, payloads: seq<bytes>, b: nat, f: nat, image: bytes)
    requires Abandons(crc, payloads, b, f, image)
    ensures var payload, room, after := payloads[b], RoomAfterAll(payloads[..b], BLOCK_SIZE), payloads[b + 1..];
            var out := Payloads(crc, Splice(WriteLog(crc, payloads), RecordStart(crc, payloads, b, f), image));
            var kept := GapHoldsNoOther(payload, room, f, after) || JoinRestores(payload, room, f, after);
            && ((exists extra :: out == payloads[..b] + extra + after) <==> kept)
            && (out == payloads[..b] + after <==> kept && (f + 1 < |Fragments(payload, room, true)| ==> f == 0))
  {
    var payload, room, after := payloads[b], RoomAfterAll(payloads[..b], BLOCK_SIZE), payloads[b + 1..];
    AbandonedBlock(crc, payloads, b, f, image);
    GapOutcome(payload, room, f, after);
    hide Payloads, Splice, RecordStart, Abandons, WriteLog, AfterGap, GapHoldsNoOther, JoinRestores, JoinsOverGap;
    var lost := LostBehind(payload, room, f, after);
    var made :| AfterGap(payload, room, f, after) == made + after[lost..] && IsMade(payload, room, f, after, made);
    KeepsAllBehind(payloads[..b], made, after, lost);
  }

  /** What the gap adds, if anything, in front of the payloads that are kept behind it. */
  predicate IsMade(payload: bytes, room: nat, f: nat, after: seq<bytes>, made: seq<bytes>)
    requires room <= BLOCK_SIZE && f < |Fragments(payload, room, true)|
  {
    && |made| == (if JoinsOverGap(payload, room, f, after) then 1 else 0)
    && (LostBehind(payload, room, f, after) == 1 && made != [] ==>
          (made == [after[0]] <==> JoinRestores(payload, room, f, after)))
  }

  lemma GapOutcome(payload: bytes, room: nat, f: nat, after: seq<bytes>)
    requires room <= BLOCK_SIZE && f < |Fragments(payload, room, true)|
    ensures var lost := LostBehind(payload, room, f, after);
            && (lost == 0 <==> GapHoldsNoOther(payload, room, f, after))
            && (JoinRestores(payload, room, f, after) && !GapHoldsNoOther(payload, room, f, after) ==>
                  lost == 1 && JoinsOverGap(payload, room, f, after))
            && exists made :: AfterGap(payload, room, f, after) == made + after[lost..]
                              && IsMade(payload, room, f, after, made)
  {
    hide Fragments, Cut, SkipBlock;
    var lost := LostBehind(payload, room, f, after);
    RunPrefix(IDLE, payload, room, true, f);
    var head := payload[..Cut(room, f)];
    var made: seq<bytes> := [];
    if f + 1 < |Fragments(payload, room, true)| {
      FragmentsBehind(payload, room, true, f);
      made := if f > 0 then [head + payload[Cut(room, f + 1)..]] else [];
      assert after[0..] == after;
    } else {
      var behind := RoomAfterPayload(payload, room);
      SkipBlockCases(after, behind);
      var s := SkipBlock(after, behind);
      made := if f > 0 && s.tail.Some? then [head + s.tail.value] else [];
      if s.lost == 1 && s.tail.Some? {
        JoinedIsWhole(head, after[0], Available(behind));
      }
    }
    assert AfterGap(payload, room, f, after) == made + after[lost..];
    assert IsMade(payload, room, f, after, made);
  }

  lemma SpliceBehindAt(log: bytes, at: nat, image: bytes)
    requires at + |image| <= |log|
    ensures at <= |Splice(log, at, image)|
    ensures Splice(log, at, image)[at..] == image + log[at + |image|..]
  {
  }

  lemma ZeroHeaderStops(crc: Crc32c, rest: bytes, room: nat)
    requires room <= BLOCK_SIZE
    ensures NextPhysical(crc, Zeros(HEADER_SIZE) + rest, room).None?
  {
    var s := Zeros(HEADER_SIZE) + rest;
    LeZeros(4);
    LeZeros(2);
    assert s[..4] == Zeros(4) && s[4..6] == Zeros(2);
  }

  /** One record whose checksum fails, its length kept, costs exactly its payload iff it does not
      read as padding, or there is no record of another payload behind it in its block. Only the
      record of an empty payload can read as padding with more behind it. */
  lemma BrokenCostsOneIff(crc: Crc32c, payloads: seq<bytes>, b: nat, f: nat, image: bytes)
    requires b < |payloads|
    requires f < |Fragments(payloads[b], RoomAfterAll(payloads[..b], BLOCK_SIZE), true)|
    requires Broken(crc, Fragments(payloads[b], RoomAfterAll(payloads[..b], BLOCK_SIZE), true)[f], image)
    ensures RecordStart(crc, payloads, b, f) + |image| <= |WriteLog(crc, payloads)|
    ensures var room := RoomAfterAll(payloads[..b], BLOCK_SIZE);
            Payloads(crc, Splice(WriteLog(crc, payloads), RecordStart(crc, payloads, b, f), image))
            == payloads[..b] + payloads[b + 1..]
            <==> payloads[b] != [] || !ReadsAsPadding(image) || payloads[b + 1..] == []
                 || RoomAfterPayload(payloads[b], room) < HEADER_SIZE
  {
    hide Payloads, Splice, Fragments, Broken, WriteLog, RoomAfterAll, RoomAt, Offset, Fits, RecordStart, NextPhysical;
    var room := RoomAfterAll(payloads[..b], BLOCK_SIZE);
    BrokenLength(crc, Fragments(payloads[b], room, true)[f], image);
    if payloads[b] != [] || !ReadsAsPadding(image) {
      OneBrokenRecord(crc, payloads, b, f, image);
    } else {
      EmptyPayloadRecord(room);
      ZeroedAbandons(crc, payloads, b, image);
      IntactKeptIff(crc, payloads, b, f, image);
    }
  }

  lemma ZeroedAbandons(crc: Crc32c, payloads: seq<bytes>, b: nat, image: bytes)
    requires b < |payloads| && payloads[b] == [] && |image| == HEADER_SIZE && ReadsAsPadding(image)
    ensures Abandons(crc, payloads, b, 0, image)
  {
    hide Splice, Fragments, WriteLog, RoomAfterAll, RoomAt, Offset, Fits, NextPhysical;
    var room := RoomAfterAll(payloads[..b], BLOCK_SIZE);
    EmptyPayloadRecord(room);
    FragmentsFit([], room, true);
    LogAround(crc, payloads, b, 0, image);
    var log, at := WriteLog(crc, payloads), RecordStart(crc, payloads, b, 0);
    SpliceBehindAt(log, at, image);
    RoomAtFits(Fragments([], room, true), room, 0);
    ZeroHeaderStops(crc, log[at + |image|..], RoomAt(Fragments([], room, true), room, 0));
  }

  lemma {:induction false} RoomAtFits(cs: seq<Chunk>, room: nat, f: nat)
    requires Fits(cs, room) && f < |cs|
    ensures RoomAt(cs, room, f) <= BLOCK_SIZE
    decreases f
  {
    if f > 0 {
      RoomAtFits(cs[1..], RoomBehind(cs[0], room), f - 1);
    }
  }

  /** Whatever bytes stand in place of a record, a length that lies but still fits its block included:
      the payloads before the damaged one and those that begin in a later block are read. */
  lemma AnyRecordConfined(crc: Crc32c, payloads: seq<bytes>, b: nat, f: nat, image: bytes, j: nat)
    requires b < |payloads| && j <= |payloads|
    requires f < |Fragments(payloads[b], RoomAfterAll(payloads[..b], BLOCK_SIZE), true)|
    requires |image|
             == HEADER_SIZE + |Fragments(payloads[b], RoomAfterAll(payloads[..b], BLOCK_SIZE), true)[f].data|
    requires j < |payloads| ==>
               NextBlock(RecordStart(crc, payloads, b, f) + |image|) <= PayloadStart(crc, payloads, j)
    ensures var start := RecordStart(crc, payloads, b, f);
            && start + |image| <= |WriteLog(crc, payloads)|
            && exists middle ::
                 Payloads(crc, Splice(WriteLog(crc, payloads), start, image)) == payloads[..b] + middle + payloads[j..]
  {
    hide Payloads, Fragments, WriteFrom, RoomAfterAll, Offset, Fits, NextBlock, PayloadStart;
    LogAround(crc, payloads, b, f, image);
    var log, start := WriteLog(crc, payloads), RecordStart(crc, payloads, b, f);
    assert start + |image| <= |log|;
    DamageConfined(crc, payloads, start, start + |image|, image, b, j);
  }

  // ---------------------------------------------------------------- two consequences

  const FULL_FRAGMENT := BLOCK_SIZE - HEADER_SIZE

  /** The largest length a header can claim fits no block. */
  predicate LengthLies(image: bytes) {
    |image| >= HEADER_SIZE && Le(image[4..6]) == 0xFFFF
  }

  lemma LyingLengthStops(crc: Crc32c, image: bytes, rest: bytes, room: nat)
    requires LengthLies(image) && room <= BLOCK_SIZE
    ensures NextPhysical(crc, image + rest, room).None?
  {
    assert (image + rest)[4..6] == image[4..6];
  }

  lemma LogOfFull(payload: bytes)
    requires |payload| <= FULL_FRAGMENT
    ensures |Fragments(payload, BLOCK_SIZE, true)| == 1
    ensures Fragments(payload, BLOCK_SIZE, true)[0] == Chunk(false, REC_FULL, payload)
    ensures RoomAfterPayload(payload, BLOCK_SIZE) == FULL_FRAGMENT - |payload|
  {
    FragmentsCons(payload, BLOCK_SIZE, true);
    SingleRoom(payload, BLOCK_SIZE);
  }

  /** A lying length in the very first record. */
  lemma FirstAbandons(crc: Crc32c, p: bytes, rest: seq<bytes>, image: bytes)
    requires |p| <= FULL_FRAGMENT && |image| == HEADER_SIZE + |p| && LengthLies(image)
    ensures Abandons(crc, [p] + rest, 0, 0, image) && RecordStart(crc, [p] + rest, 0, 0) == 0
  {
    hide NextPhysical, Splice, Fragments, Layout, Fits, EncodePhysical;
    var payloads, cs := [p] + rest, Fragments(p, BLOCK_SIZE, true);
    assert payloads[..0] == [];
    LogOfFull(p);
    FragmentsFit(p, BLOCK_SIZE, true);
    WriteHead(crc, p, rest, BLOCK_SIZE);
    OffsetInside(crc, cs, BLOCK_SIZE, 0);
    var log := WriteLog(crc, payloads);
    SpliceFirst(log, image);
    LyingLengthStops(crc, image, log[|image|..], BLOCK_SIZE);
  }

  lemma NothingAfterGap(p: bytes, q: bytes)
    requires |p| + |q| + 2 * HEADER_SIZE <= BLOCK_SIZE
    ensures |Fragments(p, BLOCK_SIZE, true)| == 1 && AfterGap(p, BLOCK_SIZE, 0, [q]) == []
  {
    hide Fragments;
    FragmentsCons(p, BLOCK_SIZE, true);
    SingleRoom(p, BLOCK_SIZE);
    assert [q][1..] == [];
    assert SkipBlock([q], FULL_FRAGMENT - |p|) == Skipped(1, None);
  }

  /** Not every intact batch is emitted: when the length of one record lies, the intact record
      behind it in the same block is lost with it. */
  lemma IntactNeighbourLost(crc: Crc32c, p: bytes, q: bytes, image: bytes)
    requires |p| + |q| + 2 * HEADER_SIZE <= BLOCK_SIZE && |image| == HEADER_SIZE + |p| && LengthLies(image)
    ensures |image| <= |WriteLog(crc, [p, q])| && Payloads(crc, WriteLog(crc, [p, q])) == [p, q]
    ensures Payloads(crc, Splice(WriteLog(crc, [p, q]), 0, image)) == []
  {
    var payloads := [p, q];
    assert payloads == [p] + [q] && payloads[..0] == [] && payloads[1..] == [q];
    hide Payloads, NextPhysical, Splice, WriteLog, Fragments, AfterGap, RecordStart;
    LogRoundTrip(crc, payloads);
    FirstAbandons(crc, p, [q], image);
    AbandonedBlock(crc, payloads, 0, 0, image);
    NothingAfterGap(p, q);
  }

  lemma WriteNothing(crc: Crc32c, room: nat)
    requires room <= BLOCK_SIZE
    ensures WriteFrom(crc, [], room) == [] && RoomAfterAll([], room) == room
  {
  }

  lemma SpliceFirst(log: bytes, image: bytes)
    requires |image| <= |log|
    ensures Splice(log, 0, image)[0..] == image + log[|image|..]
  {
  }

  lemma ThreeFragments(p: bytes)
    requires |p| > 2 * FULL_FRAGMENT
    ensures var cs := Fragments(p, BLOCK_SIZE, true);
            && |cs| >= 3 && Fits(cs, BLOCK_SIZE)
            && cs[0] == Chunk(false, REC_FIRST, p[..FULL_FRAGMENT])
            && cs[1] == Chunk(true, REC_MIDDLE, p[FULL_FRAGMENT..2 * FULL_FRAGMENT])
            && Offset(cs, BLOCK_SIZE, 1) == BLOCK_SIZE && RoomAt(cs, BLOCK_SIZE, 1) == BLOCK_SIZE
  {
    hide Fragments;
    var cs, rest := Fragments(p, BLOCK_SIZE, true), p[FULL_FRAGMENT..];
    FragmentsFit(p, BLOCK_SIZE, true);
    FragmentsCons(p, BLOCK_SIZE, true);
    FragmentsCons(rest, 0, false);
    FragmentsSome(rest[FULL_FRAGMENT..], 0, false);
    assert cs[1..][0] == cs[1] && cs[1..][1..] == cs[2..];
    assert rest[..FULL_FRAGMENT] == p[FULL_FRAGMENT..2 * FULL_FRAGMENT];
  }

  lemma FragmentsSome(data: bytes, room: nat, begin: bool)
    requires room <= BLOCK_SIZE
    ensures Fragments(data, room, begin) != []
  {
  }

  /** A payload nobody wrote is emitted: over three blocks or more, when the length of the middle
      record lies, the fragments before and behind it are joined although each checksum matches. */
  lemma JoinedOverGap(crc: Crc32c, p: bytes, image: bytes)
    requires |p| > 2 * FULL_FRAGMENT && |image| == BLOCK_SIZE && LengthLies(image)
    ensures BLOCK_SIZE + |image| <= |WriteLog(crc, [p])|
    ensures Payloads(crc, Splice(WriteLog(crc, [p]), BLOCK_SIZE, image))
            == [p[..FULL_FRAGMENT] + p[2 * FULL_FRAGMENT..]] != [p]
  {
    hide Payloads, NextPhysical, Splice, WriteFrom, Fragments, Offset, RoomAt, Fits, Layout;
    var payloads, cs := [p], Fragments(p, BLOCK_SIZE, true);
    assert payloads[..0] == [] && payloads[1..] == [];
    ThreeFragments(p);
    FragmentsFit(p, BLOCK_SIZE, true);
    WriteHead(crc, p, [], BLOCK_SIZE);
    assert payloads == [p] + [];
    WriteNothing(crc, BLOCK_SIZE);
    OffsetInside(crc, cs, BLOCK_SIZE, 1);
    var log := WriteLog(crc, payloads);
    assert RecordStart(crc, payloads, 0, 1) == BLOCK_SIZE;
    SpliceBehindAt(log, BLOCK_SIZE, image);
    LyingLengthStops(crc, image, log[BLOCK_SIZE + |image|..], BLOCK_SIZE);
    AbandonedBlock(crc, payloads, 0, 1, image);
    assert Cut(BLOCK_SIZE, 1) == FULL_FRAGMENT && Cut(BLOCK_SIZE, 2) == 2 * FULL_FRAGMENT;
    var made := p[..FULL_FRAGMENT] + p[2 * FULL_FRAGMENT..];
    assert AfterGap(p, BLOCK_SIZE, 1, []) == [made] + [];
    assert |made| != |p|;
    assert [made][0] != [p][0];
  }
}
