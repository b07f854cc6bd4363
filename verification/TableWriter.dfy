/** The table format from the writer's side, and the reader proved against it. */
module TableWriter {
  import opened Bytes
  import opened Cursors
  import opened Sequences
  import opened Sstable

  // ---------------------------------------------------------------- prefix-compressed blocks

  /** An entry to be written: how many bytes it shares with the key before it is the writer's choice. */
  datatype Item = Item(shared: nat, key: bytes, value: bytes)

  predicate ItemFits(item: Item, prev: bytes) {
    && item.shared <= Min(|item.key|, |prev|)
    && item.key[..item.shared] == prev[..item.shared]
    && |item.key| < U32_LIMIT && |item.value| < U32_LIMIT
  }

  predicate ItemsFit(items: seq<Item>, prev: bytes) {
    items == [] || (ItemFits(items[0], prev) && ItemsFit(items[1..], items[0].key))
  }

  function EncodeHeader(shared: u32, nonShared: u32, valueLen: u32): bytes {
    EncodeVar(shared) + EncodeVar(nonShared) + EncodeVar(valueLen)
  }

  function EncodeItem(item: Item, prev: bytes): bytes
    requires ItemFits(item, prev)
  {
    EncodeHeader(item.shared, |item.key| - item.shared, |item.value|) + item.key[item.shared..] + item.value
  }

  function EncodeItems(items: seq<Item>, prev: bytes): bytes
    requires ItemsFit(items, prev)
  {
    if items == [] then [] else EncodeItem(items[0], prev) + EncodeItems(items[1..], items[0].key)
  }

  function EntriesOf(items: seq<Item>): (entries: seq<Entry>)
    ensures |entries| == |items|
  {
    seq(|items|, i requires 0 <= i < |items| => Entry(items[i].key, items[i].value))
  }

  lemma Var32RoundTrip(v: u32, rest: bytes)
    ensures Var32Read(EncodeVar(v) + rest) == Read(Ok(v), |EncodeVar(v)|)
    ensures (EncodeVar(v) + rest)[|EncodeVar(v)|..] == rest
  {
    VarRoundTrip(v, rest);
  }

  lemma HeaderRoundTrip(shared: u32, nonShared: u32, valueLen: u32, rest: bytes)
    ensures var s := EncodeHeader(shared, nonShared, valueLen);
            && HeaderRead(s + rest) == Read(Ok(EntryHeader(shared, nonShared, valueLen)), |s|)
            && (s + rest)[|s|..] == rest
  {
    hide Var32Read, EncodeVar;
    var a, b, c := EncodeVar(shared), EncodeVar(nonShared), EncodeVar(valueLen);
    var s := a + b + c + rest;
    Var32RoundTrip(shared, b + c + rest);
    Var32RoundTrip(nonShared, c + rest);
    Var32RoundTrip(valueLen, rest);
    assert s == a + (b + c + rest);
    assert b + c + rest == b + (c + rest);
    assert s[|a| + |b|..] == c + rest;
  }

  lemma NextItem(item: Item, prev: bytes, rest: bytes)
    requires ItemFits(item, prev)
    ensures var s := EncodeItem(item, prev);
            && NextEntry(s + rest, prev) == Ok(EntryRead(Entry(item.key, item.value), item.shared, |s|))
            && (s + rest)[|s|..] == rest
  {
    hide HeaderRead, EncodeHeader;
    var header := EncodeHeader(item.shared, |item.key| - item.shared, |item.value|);
    var delta := item.key[item.shared..];
    HeaderRoundTrip(item.shared, |item.key| - item.shared, |item.value|, delta + item.value + rest);
    assert EncodeItem(item, prev) + rest == header + (delta + item.value + rest);
    var body := delta + item.value + rest;
    assert body[..|delta|] == delta && body[|delta|..] == item.value + rest;
    assert (item.value + rest)[..|item.value|] == item.value;
    assert prev[..item.shared] + delta == item.key;
  }

  lemma {:induction false} EntriesRoundTrip(items: seq<Item>, prev: bytes)
    requires ItemsFit(items, prev)
    ensures Entries(EncodeItems(items, prev), prev) == Ok(EntriesOf(items))
  {
    hide NextEntry, EncodeItem;
    if items != [] {
      var rest := EncodeItems(items[1..], items[0].key);
      NextItem(items[0], prev, rest);
      NextEntryAdvances(EncodeItem(items[0], prev) + rest, prev);
      EntriesRoundTrip(items[1..], items[0].key);
      assert EntriesOf(items) == [Entry(items[0].key, items[0].value)] + EntriesOf(items[1..]);
    }
  }

  lemma NextEntryAdvances(s: bytes, prev: bytes)
    requires NextEntry(s, prev).Ok?
    ensures s != []
  {
  }

  /** A restart array: any multiple of four bytes whose count fits its field. */
  predicate IsRestartArray(restarts: bytes) {
    |restarts| % 4 == 0 && |restarts| / 4 < U32_LIMIT
  }

  function EncodeBlock(items: seq<Item>, restarts: bytes): bytes
    requires ItemsFit(items, []) && IsRestartArray(restarts)
  {
    EncodeItems(items, []) + restarts + ToLe(|restarts| / 4, 4)
  }

  /** A block decodes to what was put into it, whatever prefix lengths and restart points were chosen. */
  lemma BlockRoundTrip(items: seq<Item>, restarts: bytes)
    requires ItemsFit(items, []) && IsRestartArray(restarts)
    ensures BlockEntries(EncodeBlock(items, restarts)) == Ok(EntriesOf(items))
  {
    hide Entries, EncodeItems;
    var area, block := EncodeItems(items, []), EncodeBlock(items, restarts);
    WidthLimits();
    LeRoundTrip(|restarts| / 4, 4);
    assert block[|block| - 4..] == ToLe(|restarts| / 4, 4);
    assert block[..|area|] == area;
    EntriesRoundTrip(items, []);
  }

  // ---------------------------------------------------------------- blocks of arbitrary bytes

  lemma Var32Local(s: bytes, t: bytes)
    requires Var32Read(s).out.Ok?
    ensures var n := Var32Read(s).used;
            Var32Read(s + t) == Var32Read(s) && Var32Read(s[..n]) == Var32Read(s)
  {
    VarLocal(s, t);
    VarLocal(s, []);
    assert s[..Var32Read(s).used] + [] == s[..Var32Read(s).used];
  }

  lemma HeaderLocal(s: bytes, n: nat)
    requires HeaderRead(s).out.Ok? && HeaderRead(s).used <= n <= |s|
    ensures HeaderRead(s[..n]) == HeaderRead(s)
  {
    hide Var32Read;
    var a := Var32Read(s).used;
    var b := Var32Read(s[a..]).used;
    Var32Prefix(s, n);
    Var32Prefix(s[a..], n - a);
    Var32Prefix(s[a + b..], n - a - b);
    assert s[..n][a..] == s[a..][..n - a];
    assert s[..n][a + b..] == s[a + b..][..n - a - b];
  }

  lemma Var32Prefix(s: bytes, n: nat)
    requires Var32Read(s).out.Ok? && Var32Read(s).used <= n <= |s|
    ensures Var32Read(s[..n]) == Var32Read(s)
  {
    var used := Var32Read(s).used;
    Var32Local(s, []);
    Var32Local(s[..used], s[used..n]);
    assert s[..used] + s[used..n] == s[..n];
  }

  /** An entry's bytes alone decode to it. */
  lemma EntryLocal(s: bytes, prev: bytes)
    requires NextEntry(s, prev).Ok?
    ensures NextEntry(s[..NextEntry(s, prev).value.used], prev) == NextEntry(s, prev)
  {
    hide Var32Read;
    var n := NextEntry(s, prev).value.used;
    var header := HeaderRead(s);
    var h := header.out.value;
    assert header.used + h.nonShared + h.valueLen == n;
    HeaderLocal(s, n);
    assert s[..n][header.used..][..h.nonShared] == s[header.used..][..h.nonShared];
    var rest := s[..n][header.used..][h.nonShared..];
    assert rest == s[header.used..][h.nonShared..][..h.valueLen] && rest[..h.valueLen] == rest;
  }

  lemma EntryBounds(s: bytes, prev: bytes)
    requires NextEntry(s, prev).Ok?
    ensures var r := NextEntry(s, prev).value;
            && 3 + |r.entry.value| <= r.used <= |s|
            && r.shared <= |prev| && |r.entry.key| <= r.shared + r.used
  {
    var header := HeaderRead(s);
    assert 3 <= header.used;
  }

  /** The key in front of entry k. */
  function KeyBefore(entries: seq<Entry>, prev: bytes, k: nat): bytes
    requires k <= |entries|
  {
    if k == 0 then prev else entries[k - 1].key
  }

  function ValueBytes(entries: seq<Entry>): nat {
    if entries == [] then 0 else |entries[0].value| + ValueBytes(entries[1..])
  }

  /** The cuts divide the area into entries: no gap, no overlap, each piece decoding to its entry. */
  ghost predicate Tiles(s: bytes, prev: bytes, entries: seq<Entry>, cuts: seq<nat>) {
    && |cuts| == |entries| + 1 && cuts[0] == 0 && cuts[|entries|] == |s|
    && (forall k :: 0 <= k < |cuts| ==> cuts[k] <= |s|)
    && forall k :: 0 <= k < |entries| ==> TileAt(s, prev, entries, cuts, k)
  }

  ghost predicate TileAt(s: bytes, prev: bytes, entries: seq<Entry>, cuts: seq<nat>, k: nat)
    requires k < |entries| && |cuts| == |entries| + 1
  {
    && cuts[k] + 3 <= cuts[k + 1] <= |s|
    && var piece := NextEntry(s[cuts[k]..cuts[k + 1]], KeyBefore(entries, prev, k));
    && piece.Ok? && piece.value.entry == entries[k] && piece.value.used == cuts[k + 1] - cuts[k]
  }

  lemma EntriesUnfold(s: bytes, prev: bytes)
    requires s != [] && Entries(s, prev).Ok?
    ensures NextEntry(s, prev).Ok?
    ensures var next := NextEntry(s, prev).value;
            && next.used <= |s|
            && Entries(s[next.used..], next.entry.key).Ok?
            && Entries(s, prev).value == [next.entry] + Entries(s[next.used..], next.entry.key).value
  {
    hide HeaderRead;
  }

  /** The cuts of an accepted area: the first entry's end, then the later cuts moved behind it. */
  lemma {:induction false} EntriesTile(s: bytes, prev: bytes) returns (cuts: seq<nat>)
    requires Entries(s, prev).Ok?
    ensures Tiles(s, prev, Entries(s, prev).value, cuts)
    decreases |s|
  {
    hide NextEntry, TileAt;
    if s == [] {
      cuts := [0];
    } else {
      EntriesUnfold(s, prev);
      NextEntryBounds(s, prev);
      var next := NextEntry(s, prev).value;
      var rest := s[next.used..];
      var later := EntriesTile(rest, next.entry.key);
      var tail := Entries(rest, next.entry.key).value;
      var entries := [next.entry] + tail;
      cuts := [0] + seq(|later|, i requires 0 <= i < |later| => later[i] + next.used);
      FirstTile(s, prev, tail, cuts);
      forall k | 0 < k < |entries|
        ensures TileAt(s, prev, entries, cuts, k)
      {
        TileShift(s, prev, next, tail, later, cuts, k);
      }
    }
  }

  lemma FirstTile(s: bytes, prev: bytes, tail: seq<Entry>, cuts: seq<nat>)
    requires NextEntry(s, prev).Ok? && |cuts| == |tail| + 2 && cuts[0] == 0 && cuts[1] == NextEntry(s, prev).value.used
    ensures TileAt(s, prev, [NextEntry(s, prev).value.entry] + tail, cuts, 0)
  {
    EntryLocal(s, prev);
    NextEntryBounds(s, prev);
    assert s[0..cuts[1]] == s[..cuts[1]];
  }

  lemma {:induction false} EntriesBounded(s: bytes, prev: bytes)
    requires Entries(s, prev).Ok?
    ensures var entries := Entries(s, prev).value;
            && ValueBytes(entries) + 3 * |entries| <= |s|
            && forall k :: 0 <= k < |entries| ==> |entries[k].key| <= |prev| + |s|
    decreases |s|
  {
    hide NextEntry;
    if s != [] {
      EntriesUnfold(s, prev);
      EntryBounds(s, prev);
      var next := NextEntry(s, prev).value;
      EntriesBounded(s[next.used..], next.entry.key);
      var tail := Entries(s[next.used..], next.entry.key).value;
      assert ([next.entry] + tail)[1..] == tail;
    }
  }

  /** When a block of arbitrary bytes is accepted, its entries tile the entry area exactly; there is
      at most one for every three bytes and no key, hence no key allocation, exceeds the area. */
  lemma AcceptedEntriesTile(s: bytes, prev: bytes) returns (cuts: seq<nat>)
    requires Entries(s, prev).Ok?
    ensures var entries := Entries(s, prev).value;
            && Tiles(s, prev, entries, cuts)
            && ValueBytes(entries) + 3 * |entries| <= |s|
            && forall k :: 0 <= k < |entries| ==> |entries[k].key| <= |prev| + |s|
  {
    hide Entries, Tiles;
    cuts := EntriesTile(s, prev);
    EntriesBounded(s, prev);
  }

  lemma TileShift(s: bytes, prev: bytes, first: EntryRead, tail: seq<Entry>, later: seq<nat>, cuts: seq<nat>, k: nat)
    requires first.used <= |s| && |cuts| == |tail| + 2 && |later| == |tail| + 1 && 0 < k <= |tail|
    requires cuts[k] == later[k - 1] + first.used && cuts[k + 1] == later[k] + first.used
    requires TileAt(s[first.used..], first.entry.key, tail, later, k - 1)
    ensures TileAt(s, prev, [first.entry] + tail, cuts, k)
  {
    hide NextEntry;
    Window(s, first.used, later[k - 1], later[k]);
  }

  lemma NextEntryBounds(s: bytes, prev: bytes)
    requires NextEntry(s, prev).Ok?
    ensures 3 <= NextEntry(s, prev).value.used <= |s|
  {
  }

  /** An entry that shares nothing is a restart: decoding may begin there with any key in hand. */
  lemma RestartAnywhere(s: bytes, prev: bytes, other: bytes)
    requires s != [] && NextEntry(s, prev).Ok? && NextEntry(s, prev).value.shared == 0
    ensures Entries(s, other) == Entries(s, prev)
  {
    hide HeaderRead;
    assert prev[..0] == other[..0];
    assert NextEntry(s, other) == NextEntry(s, prev);
  }

  /** Entry k of an accepted area shares nothing with the key before it. */
  ghost predicate RestartAt(s: bytes, prev: bytes, entries: seq<Entry>, cuts: seq<nat>, k: nat)
    requires k < |entries| && Tiles(s, prev, entries, cuts)
  {
    var next := NextEntry(s[cuts[k]..], KeyBefore(entries, prev, k));
    next.Ok? && next.value.shared == 0
  }

  /** Decoding may begin at any entry that shares nothing: from there, with an empty key, exactly the
      entries from there on are decoded, whether or not the restart array names the place. */
  lemma SuffixFromRestart(s: bytes, prev: bytes) returns (cuts: seq<nat>)
    requires Entries(s, prev).Ok?
    ensures var entries := Entries(s, prev).value;
            && Tiles(s, prev, entries, cuts)
            && forall k: nat :: k < |entries| && RestartAt(s, prev, entries, cuts, k) ==>
                 Entries(s[cuts[k]..], []) == Ok(entries[k..])
  {
    hide NextEntry, Entries;
    cuts := AcceptedEntriesTile(s, prev);
    var entries := Entries(s, prev).value;
    forall k: nat | k < |entries| && RestartAt(s, prev, entries, cuts, k)
      ensures Entries(s[cuts[k]..], []) == Ok(entries[k..])
    {
      SuffixDecodes(s, prev, cuts, k);
      RestartAnywhere(s[cuts[k]..], KeyBefore(entries, prev, k), []);
    }
  }

  lemma {:induction false} SuffixDecodes(s: bytes, prev: bytes, cuts: seq<nat>, k: nat)
    requires Entries(s, prev).Ok? && Tiles(s, prev, Entries(s, prev).value, cuts)
    requires k < |Entries(s, prev).value|
    ensures cuts[k] < |s|
    ensures var entries := Entries(s, prev).value;
            Entries(s[cuts[k]..], KeyBefore(entries, prev, k)) == Ok(entries[k..])
  {
    hide NextEntry;
    var entries := Entries(s, prev).value;
    assert TileAt(s, prev, entries, cuts, k);
    if k == 0 {
      assert s[0..] == s && entries[0..] == entries;
    } else {
      SuffixDecodes(s, prev, cuts, k - 1);
      assert TileAt(s, prev, entries, cuts, k - 1);
      var before, key, n := s[cuts[k - 1]..], KeyBefore(entries, prev, k - 1), cuts[k] - cuts[k - 1];
      assert before[..n] == s[cuts[k - 1]..cuts[k]];
      EntryExtends(before, n, key);
      assert before[n..] == s[cuts[k]..];
      assert entries[k - 1..] == [entries[k - 1]] + entries[k..];
      var rest := Entries(before[n..], entries[k - 1].key);
      assert Entries(before, key) == Prepend([entries[k - 1]], rest);
      assert rest.value == ([entries[k - 1]] + rest.value)[1..];
    }
  }

  /** An entry decodes the same with more bytes behind it. */
  lemma EntryExtends(s: bytes, n: nat, prev: bytes)
    requires n <= |s| && NextEntry(s[..n], prev).Ok?
    ensures NextEntry(s, prev) == NextEntry(s[..n], prev)
  {
    hide HeaderRead;
    var header := HeaderRead(s[..n]);
    var h := header.out.value;
    HeaderExtends(s, n);
    assert s[header.used..][..h.nonShared] == s[..n][header.used..][..h.nonShared];
    assert s[header.used..][h.nonShared..][..h.valueLen] == s[..n][header.used..][h.nonShared..][..h.valueLen];
  }

  lemma HeaderExtends(s: bytes, n: nat)
    requires n <= |s| && HeaderRead(s[..n]).out.Ok?
    ensures HeaderRead(s) == HeaderRead(s[..n])
  {
    hide Var32Read;
    var t := s[..n];
    var a := Var32Read(t).used;
    var b := Var32Read(t[a..]).used;
    Var32Grow(s, n, 0);
    Var32Grow(s, n, a);
    Var32Grow(s, n, a + b);
    assert t[0..] == t && s[0..] == s;
  }

  lemma Var32Grow(s: bytes, n: nat, at: nat)
    requires at <= n <= |s| && Var32Read(s[..n][at..]).out.Ok?
    ensures Var32Read(s[at..]) == Var32Read(s[..n][at..])
  {
    Var32Local(s[..n][at..], s[n..]);
    assert s[..n][at..] + s[n..] == s[at..];
  }
}
