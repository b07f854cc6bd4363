/** What is left of a written log after damage: truncation, zero filling, and any range of bytes
    overwritten with others. */
module LogDamage {
  import opened Bytes
  import opened Log
  import opened LogLaws
  import opened LogWriter
  import opened Sequences

  // ---------------------------------------------------------------- logs as one list of chunks

  function LogChunks(payloads: seq<bytes>, room: nat): seq<Chunk>
    requires room <= BLOCK_SIZE
  {
    if payloads == [] then []
    else Fragments(payloads[0], room, true) + LogChunks(payloads[1..], RoomAfterPayload(payloads[0], room))
  }

  lemma LayoutCons(crc: Crc32c, cs: seq<Chunk>, room: nat)
    requires cs != [] && Fits(cs, room)
    ensures var behind := RoomBehind(cs[0], room);
            && behind >= 0 && Fits(cs[1..], behind)
            && RoomAfter(cs, room) == RoomAfter(cs[1..], behind)
            && Layout(crc, cs, room)
               == Zeros(Pad(cs[0], room)) + EncodePhysical(crc, cs[0]) + Layout(crc, cs[1..], behind)
  {
  }

  lemma {:induction false} FitsConcat(a: seq<Chunk>, b: seq<Chunk>, room: nat)
    requires Fits(a, room) && Fits(b, RoomAfter(a, room))
    ensures Fits(a + b, room)
    decreases |a|
  {
    if a == [] {
      assert a + b == b;
    } else {
      FitsConcat(a[1..], b, RoomBehind(a[0], room));
      assert (a + b)[1..] == a[1..] + b;
    }
  }

  lemma {:induction false} LayoutConcat(crc: Crc32c, a: seq<Chunk>, b: seq<Chunk>, room: nat)
    requires Fits(a, room) && Fits(b, RoomAfter(a, room))
    ensures Fits(a + b, room)
    ensures RoomAfter(a + b, room) == RoomAfter(b, RoomAfter(a, room))
    ensures Layout(crc, a + b, room) == Layout(crc, a, room) + Layout(crc, b, RoomAfter(a, room))
    decreases |a|
  {
    hide EncodePhysical, Fits, Layout, RoomAfter, RoomBehind;
    FitsConcat(a, b, room);
    if a == [] {
      assert a + b == b;
      EmptyLayout(crc, room);
    } else {
      LayoutCons(crc, a, room);
      LayoutCons(crc, a + b, room);
      assert (a + b)[1..] == a[1..] + b;
      var behind := RoomBehind(a[0], room);
      LayoutConcat(crc, a[1..], b, behind);
      var front := Zeros(Pad(a[0], room)) + EncodePhysical(crc, a[0]);
      var x, y := Layout(crc, a[1..], behind), Layout(crc, b, RoomAfter(a, room));
      assert front + (x + y) == front + x + y;
    }
  }

  lemma {:induction false} LogIsLayout(crc: Crc32c, payloads: seq<bytes>, room: nat)
    requires room <= BLOCK_SIZE
    ensures Fits(LogChunks(payloads, room), room)
    ensures RoomAfter(LogChunks(payloads, room), room) == RoomAfterAll(payloads, room)
    ensures Layout(crc, LogChunks(payloads, room), room) == WriteFrom(crc, payloads, room)
    decreases |payloads|
  {
    hide Layout, Fits, RoomAfter, Fragments;
    if payloads == [] {
      EmptyLayout(crc, room);
    } else {
      var cs, behind := Fragments(payloads[0], room, true), RoomAfterPayload(payloads[0], room);
      FragmentsFit(payloads[0], room, true);
      LogIsLayout(crc, payloads[1..], behind);
      LayoutConcat(crc, cs, LogChunks(payloads[1..], behind), room);
    }
  }

  lemma EmptyLayout(crc: Crc32c, room: nat)
    requires room <= BLOCK_SIZE
    ensures Fits([], room) && RoomAfter([], room) == room && Layout(crc, [], room) == []
  {
  }

  lemma {:induction false} WriteConcat(crc: Crc32c, a: seq<bytes>, b: seq<bytes>, room: nat)
    requires room <= BLOCK_SIZE
    ensures WriteFrom(crc, a + b, room) == WriteFrom(crc, a, room) + WriteFrom(crc, b, RoomAfterAll(a, room))
    ensures RoomAfterAll(a + b, room) == RoomAfterAll(b, RoomAfterAll(a, room))
    decreases |a|
  {
    hide WritePayload, RoomAfterPayload;
    if a == [] {
      assert a + b == b;
    } else {
      WriteConcat(crc, a[1..], b, RoomAfterPayload(a[0], room));
      assert (a + b)[1..] == a[1..] + b;
    }
  }

  // ---------------------------------------------------------------- zero filling

  lemma LeZeros(n: nat)
    ensures Le(Zeros(n)) == 0
  {
    if n > 0 {
      LeZeros(n - 1);
      assert Zeros(n)[1..] == Zeros(n - 1);
    }
  }

  lemma {:induction false} ScanZeros(crc: Crc32c, n: nat, room: nat)
    requires room <= BLOCK_SIZE
    ensures Scan(crc, Zeros(n), room) == []
    decreases n, BLOCK_SIZE - room
  {
    LeZeros(4);
    LeZeros(2);
    if n >= HEADER_SIZE {
      assert Zeros(n)[..4] == Zeros(4) && Zeros(n)[4..6] == Zeros(2);
    }
    assert NextPhysical(crc, Zeros(n), room) == None;
    if n > room {
      ScanZeros(crc, n - room, BLOCK_SIZE);
      assert Zeros(n)[room..] == Zeros(n - room);
    }
  }

  /** Preallocated file space changes nothing: any number of zero bytes may follow a written log. */
  lemma ZeroTailIgnored(crc: Crc32c, payloads: seq<bytes>, n: nat)
    ensures Payloads(crc, WriteLog(crc, payloads) + Zeros(n)) == payloads
  {
    ScanZeros(crc, n, RoomAfterAll(payloads, BLOCK_SIZE));
    RunWritten(crc, IDLE, payloads, BLOCK_SIZE, Zeros(n));
  }

  // ---------------------------------------------------------------- truncation

  lemma TornRecord(crc: Crc32c, c: Chunk, n: nat, room: nat)
    requires HEADER_SIZE + |c.data| <= room <= BLOCK_SIZE && n < HEADER_SIZE + |c.data|
    ensures Scan(crc, EncodePhysical(crc, c)[..n], room) == []
  {
    var image := EncodePhysical(crc, c);
    if n >= HEADER_SIZE {
      WidthLimits();
      LeRoundTrip(|c.data|, 2);
      assert image[..n][4..6] == ToLe(|c.data|, 2);
    }
    assert NextPhysical(crc, image[..n], room) == None;
  }

  lemma TornFirst(crc: Crc32c, c: Chunk, n: nat, room: nat)
    requires Fits([c], room) && n < Pad(c, room) + HEADER_SIZE + |c.data|
    ensures Scan(crc, (Zeros(Pad(c, room)) + EncodePhysical(crc, c))[..n], room) == []
  {
    hide EncodePhysical, Scan;
    var pad, image := Zeros(Pad(c, room)), EncodePhysical(crc, c);
    if n <= |pad| {
      assert (pad + image)[..n] == Zeros(n);
      ScanZeros(crc, n, room);
    } else {
      var m := n - |pad|;
      assert (pad + image)[..n] == pad + image[..m];
      TornRecord(crc, c, m, RoomBehind(c, room) + |image|);
      if c.newBlock {
        ScanSkipsPad(crc, pad, image[..m]);
      } else {
        assert pad + image[..m] == image[..m];
      }
    }
  }

  /** A prefix of a layout scans to the records that lie wholly inside it. */
  lemma {:induction false} TornLayout(crc: Crc32c, cs: seq<Chunk>, room: nat, n: nat) returns (k: nat)
    requires Fits(cs, room) && n <= |Layout(crc, cs, room)|
    ensures k <= |cs| && (k < |cs| <==> n < |Layout(crc, cs, room)|)
    ensures Scan(crc, Layout(crc, cs, room)[..n], room) == Written(cs)[..k]
    decreases |cs|
  {
    hide NextPhysical, EncodePhysical, Scan;
    if cs == [] {
      ScanNothing(crc, room);
      k := 0;
    } else {
      var c, behind := cs[0], RoomBehind(cs[0], room);
      var pad, image, tail := Zeros(Pad(c, room)), EncodePhysical(crc, c), Layout(crc, cs[1..], behind);
      if n < |pad| + |image| {
        k := 0;
        assert Layout(crc, cs, room)[..n] == (pad + image)[..n];
        TornFirst(crc, c, n, room);
      } else {
        var m := n - |pad| - |image|;
        k := TornLayout(crc, cs[1..], behind, m);
        k := k + 1;
        var p := Physical(c.kind, c.data, true);
        ReadBack(crc, c, tail[..m], behind + |image|);
        ScanRecord(crc, c, pad, image, tail[..m], room, p);
        assert Layout(crc, cs, room)[..n] == pad + image + tail[..m];
        assert Written(cs) == [p] + Written(cs[1..]);
      }
    }
  }

  lemma {:induction false} RunTorn(st: State, data: bytes, room: nat, begin: bool, k: nat)
    requires room <= BLOCK_SIZE && k < |Fragments(data, room, begin)|
    ensures Run(st, Written(Fragments(data, room, begin))[..k]).payloads == []
    decreases |data|, room
  {
    var cs := Fragments(data, room, begin);
    if k > 0 {
      var available := Available(room);
      var p := Physical(cs[0].kind, cs[0].data, true);
      assert cs[1..] == Fragments(data[available..], 0, false);
      RunTorn(Step(st, p).0, data[available..], 0, false, k - 1);
      assert Written(cs)[..k] == [p] + Written(cs[1..])[..k - 1];
    }
  }

  /** A crash may cut a log anywhere: exactly the payloads whose last fragment was written are read. */
  lemma TornTail(crc: Crc32c, payloads: seq<bytes>, n: nat, k: nat)
    requires n <= |WriteLog(crc, payloads)| && k <= |payloads|
    requires |WriteLog(crc, payloads[..k])| <= n
    requires k < |payloads| ==> n < |WriteLog(crc, payloads[..k + 1])|
    ensures Payloads(crc, WriteLog(crc, payloads)[..n]) == payloads[..k]
  {
    hide Scan, Layout, Fragments, RoomAfter;
    var done, room := payloads[..k], RoomAfterAll(payloads[..k], BLOCK_SIZE);
    var m := n - |WriteLog(crc, done)|;
    SplitAt(payloads, k);
    WriteConcat(crc, done, payloads[k..], BLOCK_SIZE);
    var rest := WriteFrom(crc, payloads[k..], room)[..m];
    assert WriteLog(crc, payloads)[..n] == WriteLog(crc, done) + rest;
    RunWritten(crc, IDLE, done, BLOCK_SIZE, rest);
    if k == |payloads| {
      assert rest == [];
      ScanNothing(crc, room);
    } else {
      var next: bytes := payloads[k];
      SplitOff(payloads, k);
      assert [next][1..] == [];
      WriteConcat(crc, done, [next], BLOCK_SIZE);
      FragmentsFit(next, room, true);
      assert rest == WritePayload(crc, next, room)[..m];
      var whole := TornLayout(crc, Fragments(next, room, true), room, m);
      RunTorn(IDLE, next, room, true, whole);
    }
  }

  // ---------------------------------------------------------------- overwritten bytes

  /** Where the first header of payload j stands. */
  function PayloadStart(crc: Crc32c, payloads: seq<bytes>, j: nat): nat
    requires j <= |payloads|
  {
    var room := RoomAfterAll(payloads[..j], BLOCK_SIZE);
    |WriteLog(crc, payloads[..j])| + (if room < HEADER_SIZE then room else 0)
  }

  lemma PadFirst(crc: Crc32c, payloads: seq<bytes>, room: nat, m: nat)
    requires room <= BLOCK_SIZE && payloads != [] && m <= (if room < HEADER_SIZE then room else 0)
    ensures m <= |WriteFrom(crc, payloads, room)| && WriteFrom(crc, payloads, room)[..m] == Zeros(m)
  {
    var cs := Fragments(payloads[0], room, true);
    FragmentsFit(payloads[0], room, true);
    assert Zeros(Pad(cs[0], room))[..m] == Zeros(m);
  }

  /** Bytes of a written log behind a block boundary: leftover fragments of payloads that began
      before it, then the payloads that begin behind it, undisturbed. */
  lemma SuffixScan(crc: Crc32c, payloads: seq<bytes>, hi: nat, j: nat) returns (left: seq<Physical>)
    requires j <= |payloads| && hi <= |WriteLog(crc, payloads)| && hi % BLOCK_SIZE == 0
    requires hi <= PayloadStart(crc, payloads, j)
    ensures var room := RoomAfterAll(payloads[..j], BLOCK_SIZE);
            Scan(crc, WriteLog(crc, payloads)[hi..], BLOCK_SIZE)
            == left + Scan(crc, WriteFrom(crc, payloads[j..], room), room)
  {
    hide Scan, Layout, Fragments, RoomAfter, Fits;
    var log, first, room := WriteLog(crc, payloads), payloads[..j], RoomAfterAll(payloads[..j], BLOCK_SIZE);
    var e1, e2 := WriteLog(crc, first), WriteFrom(crc, payloads[j..], room);
    var cs := LogChunks(first, BLOCK_SIZE);
    SplitAt(payloads, j);
    WriteConcat(crc, first, payloads[j..], BLOCK_SIZE);
    LogIsLayout(crc, first, BLOCK_SIZE);
    ScanLayout(crc, cs, BLOCK_SIZE, e2);
    assert log[..hi] + log[hi..] == log;
    SplitAtBoundary(crc, log[..hi], log[hi..]);
    var k: nat;
    if hi <= |e1| {
      assert log[..hi] == e1[..hi];
      k := TornLayout(crc, cs, BLOCK_SIZE, hi);
    } else {
      var m := hi - |e1|;
      k := |cs|;
      assert payloads[j..] != [];
      PadFirst(crc, payloads[j..], room, m);
      assert log[..hi] == e1 + Zeros(m);
      ScanLayout(crc, cs, BLOCK_SIZE, Zeros(m));
      ScanZeros(crc, m, room);
      assert Scan(crc, log[..hi], BLOCK_SIZE) == Written(cs)[..k];
    }
    left := Written(cs)[k..];
    Cancel(Written(cs)[..k], left, Scan(crc, e2, room), Scan(crc, log[hi..], BLOCK_SIZE));
  }

  lemma Cancel<T>(a: seq<T>, b: seq<T>, c: seq<T>, d: seq<T>)
    requires (a + b) + c == a + d
    ensures d == b + c
  {
    assert d == (a + d)[|a|..];
    assert b + c == ((a + b) + c)[|a|..];
  }

  lemma SplitAtBoundary(crc: Crc32c, x: bytes, y: bytes)
    requires |x| % BLOCK_SIZE == 0
    ensures Scan(crc, x + y, BLOCK_SIZE) == Scan(crc, x, BLOCK_SIZE) + Scan(crc, y, BLOCK_SIZE)
  {
    if x == [] {
      assert x + y == y;
    } else {
      ScanSplitsAtBlocks(crc, x, y, BLOCK_SIZE, |x| / BLOCK_SIZE - 1);
    }
  }

  /** Bytes of a written log up to a block boundary replaced by arbitrary bytes: every payload that
      ended before them and every payload that begins behind them is still read, in order; what is
      lost or made up lies between the two. */
  lemma BlockDamageConfined(crc: Crc32c, payloads: seq<bytes>, lo: nat, hi: nat, junk: bytes, i: nat, j: nat)
    requires lo <= hi <= |WriteLog(crc, payloads)| && |junk| == hi - lo
    requires hi % BLOCK_SIZE == 0 || hi == |WriteLog(crc, payloads)|
    requires i <= |payloads| && |WriteLog(crc, payloads[..i])| <= lo
    requires j <= |payloads| && hi <= PayloadStart(crc, payloads, j)
    ensures var log := WriteLog(crc, payloads);
            exists middle :: Payloads(crc, log[..lo] + junk + log[hi..]) == payloads[..i] + middle + payloads[j..]
  {
    hide Scan, Layout, Fragments, RoomAfter, RoomAfterAll, WriteFrom, PayloadStart, Run;
    var log := WriteLog(crc, payloads);
    var damaged := log[..lo] + junk + log[hi..];
    WritePrefix(crc, payloads, i);
    if j == |payloads| {
      var behind := KeepsFinished(crc, payloads, i, damaged);
      assert payloads[..i] + behind + payloads[j..] == payloads[..i] + behind;
    } else {
      StartsInside(crc, payloads, j);
      var front, roomJ := log[..lo] + junk, RoomAfterAll(payloads[..j], BLOCK_SIZE);
      var tail := WriteFrom(crc, payloads[j..], roomJ);
      var z := KeepsFinished(crc, payloads, i, front);
      var st := Run(IDLE, Scan(crc, front, BLOCK_SIZE)).state;
      SplitAtBoundary(crc, front, log[hi..]);
      RunConcat(IDLE, Scan(crc, front, BLOCK_SIZE), Scan(crc, log[hi..], BLOCK_SIZE));
      var left := SuffixScan(crc, payloads, hi, j);
      RunConcat(st, left, Scan(crc, tail, roomJ));
      RunWritten(crc, Run(st, left).state, payloads[j..], roomJ, []);
      ScanNothing(crc, RoomAfterAll(payloads[j..], roomJ));
      assert tail + [] == tail;
      RunNothing(IDLE);
      var y := Run(st, left).payloads;
      assert Payloads(crc, damaged) == (payloads[..i] + z) + (y + (payloads[j..] + []));
      assert Payloads(crc, damaged) == payloads[..i] + (z + y) + payloads[j..];
    }
  }

  /** The first block boundary at or behind a place of the file. */
  function NextBlock(pos: nat): (next: nat)
    ensures pos <= next < pos + BLOCK_SIZE && next % BLOCK_SIZE == 0
  {
    (pos + BLOCK_SIZE - 1) / BLOCK_SIZE * BLOCK_SIZE
  }

  /** Any range of bytes replaced by any others, wherever it begins and ends: every payload that
      ended before it and every payload that begins in a block behind it is still read, in order. */
  lemma DamageConfined(crc: Crc32c, payloads: seq<bytes>, lo: nat, hi: nat, junk: bytes, i: nat, j: nat)
    requires lo <= hi <= |WriteLog(crc, payloads)| && |junk| == hi - lo
    requires i <= |payloads| && |WriteLog(crc, payloads[..i])| <= lo
    requires j <= |payloads| && (j < |payloads| ==> NextBlock(hi) <= PayloadStart(crc, payloads, j))
    ensures var log := WriteLog(crc, payloads);
            exists middle :: Payloads(crc, log[..lo] + junk + log[hi..]) == payloads[..i] + middle + payloads[j..]
  {
    hide WriteFrom, PayloadStart, Payloads, NextBlock, RoomAfterAll;
    var log := WriteLog(crc, payloads);
    var next := if j < |payloads| then NextBlock(hi) else |log|;
    if j < |payloads| {
      StartsInside(crc, payloads, j);
    } else {
      EndsAt(crc, payloads);
    }
    BlockDamageConfined(crc, payloads, lo, next, junk + log[hi..next], i, j);
    assert log[..lo] + (junk + log[hi..next]) + log[next..] == log[..lo] + junk + log[hi..];
  }

  lemma EndsAt(crc: Crc32c, payloads: seq<bytes>)
    ensures |WriteLog(crc, payloads)| <= PayloadStart(crc, payloads, |payloads|)
  {
    assert payloads[..|payloads|] == payloads;
  }

  /** A file that begins with the bytes of the first i payloads yields these first. */
  lemma KeepsFinished(crc: Crc32c, payloads: seq<bytes>, i: nat, buf: bytes) returns (behind: seq<bytes>)
    requires i <= |payloads| && WriteLog(crc, payloads[..i]) <= buf
    ensures Payloads(crc, buf) == payloads[..i] + behind
  {
    hide Scan, WriteFrom;
    var first := payloads[..i];
    var rest := buf[|WriteLog(crc, first)|..];
    RunWritten(crc, IDLE, first, BLOCK_SIZE, rest);
    assert buf == WriteLog(crc, first) + rest;
    behind := Run(IDLE, Scan(crc, rest, RoomAfterAll(first, BLOCK_SIZE))).payloads;
  }

  lemma StartsInside(crc: Crc32c, payloads: seq<bytes>, j: nat)
    requires j < |payloads|
    ensures PayloadStart(crc, payloads, j) < |WriteLog(crc, payloads)|
  {
    var first, room := payloads[..j], RoomAfterAll(payloads[..j], BLOCK_SIZE);
    SplitAt(payloads, j);
    WriteConcat(crc, first, payloads[j..], BLOCK_SIZE);
    FragmentsFit(payloads[j], room, true);
    assert payloads[j..][0] == payloads[j];
  }

  lemma WritePrefix(crc: Crc32c, payloads: seq<bytes>, i: nat)
    requires i <= |payloads|
    ensures WriteLog(crc, payloads[..i]) <= WriteLog(crc, payloads)
  {
    SplitAt(payloads, i);
    WriteConcat(crc, payloads[..i], payloads[i..], BLOCK_SIZE);
  }
}
