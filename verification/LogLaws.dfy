/** What the log reader guarantees on arbitrary bytes: reassembly accepts exactly a grammar of
    fragments, the output never outweighs the input, and blocks are scanned independently. */
module LogLaws {
  import opened Bytes
  import opened Batches
  import opened Log
  import opened Sequences

  // ---------------------------------------------------------------- the grammar of fragments

  predicate Intact(p: Physical, kind: byte) {
    p.kind == kind && p.intact
  }

  /** ps[i..n] is a FIRST followed by MIDDLEs only, every one with a matching checksum. */
  predicate IsOpen(ps: seq<Physical>, i: nat, n: nat)
    requires n <= |ps|
  {
    i < n && Intact(ps[i], REC_FIRST) && forall m :: i < m < n ==> Intact(ps[m], REC_MIDDLE)
  }

  /** ps[i..j] is one logical record: FULL, or FIRST MIDDLE* LAST, every fragment intact. */
  predicate IsRecord(ps: seq<Physical>, i: nat, j: nat)
    requires j <= |ps|
  {
    || (j == i + 1 && Intact(ps[i], REC_FULL))
    || (i + 2 <= j && IsOpen(ps, i, j - 1) && Intact(ps[j - 1], REC_LAST))
  }

  function Joined(ps: seq<Physical>): bytes {
    if ps == [] then [] else ps[0].data + Joined(ps[1..])
  }

  lemma {:induction false} JoinedSnoc(ps: seq<Physical>, p: Physical)
    ensures Joined(ps + [p]) == Joined(ps) + p.data
  {
    if ps == [] {
      assert [p][1..] == [];
    } else {
      JoinedSnoc(ps[1..], p);
      assert (ps + [p])[1..] == ps[1..] + [p];
    }
  }

  datatype Span = Span(from: nat, to: nat)

  function Joins(ps: seq<Physical>, spans: seq<Span>): seq<bytes>
    requires forall k :: 0 <= k < |spans| ==> spans[k].from <= spans[k].to <= |ps|
  {
    seq(|spans|, k requires 0 <= k < |spans| => Joined(ps[spans[k].from..spans[k].to]))
  }

  /** `spans` lists every logical record inside ps[..n], in order and without overlap. */
  ghost predicate AllSpans(ps: seq<Physical>, spans: seq<Span>, n: nat)
    requires n <= |ps|
  {
    && (forall k :: 0 <= k < |spans| ==> spans[k].to <= n && IsRecord(ps, spans[k].from, spans[k].to))
    && (forall k, l :: 0 <= k < l < |spans| ==> spans[k].to <= spans[l].from)
    && (forall i: nat, j: nat :: j <= n && IsRecord(ps, i, j) ==> Span(i, j) in spans)
  }

  lemma AddSpan(ps: seq<Physical>, spans: seq<Span>, i: nat, j: nat)
    requires 0 < j <= |ps| && AllSpans(ps, spans, j - 1) && IsRecord(ps, i, j)
    requires forall k :: 0 <= k < |spans| ==> spans[k].to <= i
    requires forall i': nat :: IsRecord(ps, i', j) ==> i' == i
    ensures AllSpans(ps, spans + [Span(i, j)], j)
    ensures Joins(ps, spans + [Span(i, j)]) == Joins(ps, spans) + [Joined(ps[i..j])]
  {
    var more := spans + [Span(i, j)];
    forall i': nat, j': nat | j' <= j && IsRecord(ps, i', j')
      ensures Span(i', j') in more
    {
      if j' < j {
        assert Span(i', j') in spans;
      } else {
        assert more[|spans|] == Span(i', j');
      }
    }
  }

  lemma RunSnoc(ps: seq<Physical>, n: nat)
    requires n < |ps|
    ensures var before := Run(IDLE, ps[..n]);
            var (next, emitted) := Step(before.state, ps[n]);
            Run(IDLE, ps[..n + 1]) == Outcome(next, before.payloads + emitted)
  {
    SplitOff(ps, n);
    RunConcat(IDLE, ps[..n], [ps[n]]);
    assert [ps[n]][1..] == [];
  }

  /** The open record starts at i, behind every span, and its fragments so far are `fragment`. */
  ghost predicate Holds(ps: seq<Physical>, spans: seq<Span>, n: nat, i: nat, fragment: bytes)
    requires n <= |ps|
  {
    && IsOpen(ps, i, n)
    && fragment == Joined(ps[i..n])
    && (forall i': nat :: IsOpen(ps, i', n) ==> i' == i)
    && (forall k :: 0 <= k < |spans| ==> spans[k].to <= i)
  }

  /** After n physical records the automaton has emitted the records of ps[..n] and holds the open one. */
  ghost predicate Tracks(ps: seq<Physical>, spans: seq<Span>, n: nat)
    requires n <= |ps|
  {
    var out := Run(IDLE, ps[..n]);
    && AllSpans(ps, spans, n)
    && out.payloads == Joins(ps, spans)
    && (if out.state.inRecord then exists i: nat :: Holds(ps, spans, n, i, out.state.fragment)
        else out.state.fragment == [] && forall i: nat :: !IsOpen(ps, i, n))
  }

  lemma JoinedOne(p: Physical)
    ensures Joined([p]) == p.data
  {
    assert [p][1..] == [];
  }

  lemma KeepSpans(ps: seq<Physical>, spans: seq<Span>, j: nat)
    requires 0 < j <= |ps| && AllSpans(ps, spans, j - 1)
    requires forall i: nat :: !IsRecord(ps, i, j)
    ensures AllSpans(ps, spans, j)
  {
  }

  /** What is open after one more physical record, and which records it closes. */
  lemma OpenStep(ps: seq<Physical>, n: nat, j: nat)
    requires n < |ps| && j == n + 1
    ensures forall i: nat :: IsOpen(ps, i, j) <==>
              if i == n then Intact(ps[n], REC_FIRST) else IsOpen(ps, i, n) && Intact(ps[n], REC_MIDDLE)
    ensures forall i: nat :: IsRecord(ps, i, j) <==>
              if i == n then Intact(ps[n], REC_FULL) else IsOpen(ps, i, n) && Intact(ps[n], REC_LAST)
    ensures forall i: nat :: IsOpen(ps, i, n) ==> i < n
  {
  }

  lemma TracksStep(ps: seq<Physical>, spans: seq<Span>, n: nat) returns (more: seq<Span>)
    requires n < |ps| && Tracks(ps, spans, n)
    ensures Tracks(ps, more, n + 1)
  {
    hide Run, IsOpen, IsRecord, Joins, Joined;
    RunSnoc(ps, n);
    OpenStep(ps, n, n + 1);
    var st, p, j := Run(IDLE, ps[..n]).state, ps[n], n + 1;
    more := spans;
    if Intact(p, REC_FULL) {
      assert ps[n..j] == [p];
      JoinedOne(p);
      AddSpan(ps, spans, n, j);
      more := spans + [Span(n, j)];
    } else if Intact(p, REC_FIRST) {
      assert ps[n..j] == [p];
      JoinedOne(p);
      KeepSpans(ps, spans, j);
      assert Holds(ps, spans, j, n, p.data);
    } else if st.inRecord && (Intact(p, REC_MIDDLE) || Intact(p, REC_LAST)) {
      var i: nat :| Holds(ps, spans, n, i, st.fragment);
      SliceSnoc(ps, i, n);
      JoinedSnoc(ps[i..n], p);
      if p.kind == REC_LAST {
        AddSpan(ps, spans, i, j);
        more := spans + [Span(i, j)];
      } else {
        KeepSpans(ps, spans, j);
        assert IsOpen(ps, i, j);
        assert Holds(ps, spans, j, i, st.fragment + p.data);
      }
    } else {
      KeepSpans(ps, spans, j);
    }
  }

  lemma {:induction false} TracksAll(ps: seq<Physical>, n: nat) returns (spans: seq<Span>)
    requires n <= |ps|
    ensures Tracks(ps, spans, n)
  {
    if n == 0 {
      spans := [];
    } else {
      spans := TracksAll(ps, n - 1);
      spans := TracksStep(ps, spans, n - 1);
    }
  }

  /** The payloads of a log are exactly its logical records, in order: intact FULLs and intact
      FIRST MIDDLE* LAST runs, each with its fragments joined; nothing is emitted twice or skipped. */
  lemma ReassemblyRefinesGrammar(ps: seq<Physical>)
    ensures exists spans :: AllSpans(ps, spans, |ps|) && Run(IDLE, ps).payloads == Joins(ps, spans)
  {
    var spans := TracksAll(ps, |ps|);
    assert ps[..|ps|] == ps;
  }

  // ---------------------------------------------------------------- conservation

  /** Bytes of the physical records themselves, headers included. */
  function Extent(ps: seq<Physical>): nat {
    if ps == [] then 0 else HEADER_SIZE + |ps[0].data| + Extent(ps[1..])
  }

  lemma {:induction false} ScanExtent(crc: Crc32c, s: bytes, room: nat)
    requires room <= BLOCK_SIZE
    ensures Extent(Scan(crc, s, room)) <= |s|
    decreases |s|, BLOCK_SIZE - room
  {
    hide NextPhysical, Scan;
    if s == [] {
      ScanNothing(crc, room);
    } else {
      ScanUnfold(crc, s, room);
      match NextPhysical(crc, s, room) {
        case Some(p) =>
          var size := HEADER_SIZE + |p.data|;
          ScanExtent(crc, s[size..], room - size);
          assert ([p] + Scan(crc, s[size..], room - size))[1..] == Scan(crc, s[size..], room - size);
        case None =>
          if |s| > room {
            ScanExtent(crc, s[room..], BLOCK_SIZE);
          }
      }
    }
  }

  function TotalSize(payloads: seq<bytes>): nat {
    if payloads == [] then 0 else |payloads[0]| + TotalSize(payloads[1..])
  }

  lemma {:induction false} TotalSizeConcat(a: seq<bytes>, b: seq<bytes>)
    ensures TotalSize(a + b) == TotalSize(a) + TotalSize(b)
  {
    if a == [] {
      assert a + b == b;
    } else {
      TotalSizeConcat(a[1..], b);
      ConcatTail(a, b);
    }
  }

  /** One physical record emits or keeps no more than the fragment at hand and its own data. */
  lemma StepConserves(st: State, p: Physical)
    ensures var (next, emitted) := Step(st, p);
            TotalSize(emitted) + |next.fragment| <= |st.fragment| + |p.data|
  {
  }

  lemma {:induction false} RunConserves(st: State, ps: seq<Physical>)
    ensures var out := Run(st, ps);
            TotalSize(out.payloads) + |out.state.fragment| + HEADER_SIZE * |ps| <= |st.fragment| + Extent(ps)
    decreases |ps|
  {
    if ps != [] {
      var (next, emitted) := Step(st, ps[0]);
      StepConserves(st, ps[0]);
      hide Step;
      RunConserves(next, ps[1..]);
      TotalSizeConcat(emitted, Run(next, ps[1..]).payloads);
    }
  }

  lemma {:induction false} RecordsConserve(payloads: seq<bytes>, origin: string)
    ensures Weight(AllRecords(payloads, origin)) <= TotalSize(payloads)
  {
    if payloads != [] {
      RecordsConserve(payloads[1..], origin);
      BatchLaws(payloads[0], origin);
      WeightConcat(BatchRecords(payloads[0], origin), AllRecords(payloads[1..], origin));
    }
  }

  /** For arbitrary bytes: key and value bytes of all records (two more bytes each), the pending
      fragment and the headers read never exceed the file, whatever counts and lengths it claims. */
  lemma LogConserves(crc: Crc32c, buf: bytes, origin: string)
    ensures var ps := Scan(crc, buf, BLOCK_SIZE);
            Weight(LogRecords(crc, buf, origin)) + |Run(IDLE, ps).state.fragment| + HEADER_SIZE * |ps| <= |buf|
  {
    var ps := Scan(crc, buf, BLOCK_SIZE);
    ScanExtent(crc, buf, BLOCK_SIZE);
    RunConserves(IDLE, ps);
    RecordsConserve(Payloads(crc, buf), origin);
  }

  // ---------------------------------------------------------------- block independence

  lemma NextPhysicalLocal(crc: Crc32c, x: bytes, y: bytes, room: nat)
    requires room <= |x|
    ensures NextPhysical(crc, x + y, room) == NextPhysical(crc, x, room)
  {
    if HEADER_SIZE <= room {
      assert (x + y)[..4] == x[..4];
      assert (x + y)[4..6] == x[4..6];
      var length := Le(x[4..6]);
      if HEADER_SIZE + length <= room {
        assert (x + y)[HEADER_SIZE..HEADER_SIZE + length] == x[HEADER_SIZE..HEADER_SIZE + length];
      }
    }
  }

  /** What is scanned behind a block boundary does not depend on the bytes before it, and vice versa:
      x is the rest of a block and a number of whole blocks. */
  lemma {:induction false} ScanSplitsAtBlocks(crc: Crc32c, x: bytes, y: bytes, room: nat, blocks: nat)
    requires room <= BLOCK_SIZE && |x| == room + blocks * BLOCK_SIZE
    ensures Scan(crc, x + y, room) == Scan(crc, x, room) + Scan(crc, y, BLOCK_SIZE)
    decreases |x|, BLOCK_SIZE - room
  {
    hide NextPhysical, Scan;
    if x == [] {
      assert x + y == y;
      ScanFullBlock(crc, y);
      ScanNothing(crc, room);
    } else {
      NextPhysicalLocal(crc, x, y, room);
      ScanUnfold(crc, x, room);
      ScanUnfold(crc, x + y, room);
      match NextPhysical(crc, x, room) {
        case Some(p) =>
          var size := HEADER_SIZE + |p.data|;
          assert (x + y)[size..] == x[size..] + y;
          ScanSplitsAtBlocks(crc, x[size..], y, room - size, blocks);
        case None =>
          assert (x + y)[room..] == x[room..] + y;
          if blocks > 0 {
            ScanSplitsAtBlocks(crc, x[room..], y, BLOCK_SIZE, blocks - 1);
          } else {
            assert x[room..] + y == y;
            ScanNothing(crc, BLOCK_SIZE);
          }
      }
    }
  }

  lemma ScanUnfold(crc: Crc32c, s: bytes, room: nat)
    requires s != [] && room <= BLOCK_SIZE
    ensures match NextPhysical(crc, s, room)
            case Some(p) =>
              Scan(crc, s, room) == [p] + Scan(crc, s[HEADER_SIZE + |p.data|..], room - HEADER_SIZE - |p.data|)
            case None =>
              Scan(crc, s, room) == if |s| <= room then [] else Scan(crc, s[room..], BLOCK_SIZE)
  {
    hide NextPhysical;
  }

  lemma ScanNothing(crc: Crc32c, room: nat)
    requires room <= BLOCK_SIZE
    ensures Scan(crc, [], room) == []
  {
  }

  lemma ScanFullBlock(crc: Crc32c, y: bytes)
    ensures Scan(crc, y, 0) == Scan(crc, y, BLOCK_SIZE)
  {
    assert y[0..] == y;
  }
}
