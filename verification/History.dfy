/** The live view of a database: of everything recovered, the newest record of each key, unless it
    is a tombstone. It is what replaying the history in sequence order gives. */
module History {
  import opened Bytes
  import opened Batches
  import opened Log
  import opened Wal
  import opened Sstable
  import opened TableFile

  // ---------------------------------------------------------------- the merged view

  /** For each key the first record seen with the highest sequence number. A view may name keys by
      anything computed from the raw key, such as origin and displayed text. */
  function Newest<K(==)>(keyOf: bytes -> K, rs: seq<Record>): map<K, Record> {
    if rs == [] then map[]
    else
      var before, r := Newest(keyOf, rs[..|rs| - 1]), rs[|rs| - 1];
      var k := keyOf(r.key);
      if k !in before || r.sequence > before[k].sequence then before[k := r] else before
  }

  /** The newest records that are not tombstones. */
  function Live<K(==)>(newest: map<K, Record>): map<K, bytes> {
    map k | k in newest && !newest[k].deleted :: newest[k].value
  }

  /** One pass over the records keeps the newest of each key; tombstones are dropped at the end. */
  method LiveView<K(==)>(keyOf: bytes -> K, rs: seq<Record>) returns (store: map<K, bytes>)
    ensures store == Live(Newest(keyOf, rs))
  {
    var best: map<K, Record> := map[];
    var i := 0;
    while i < |rs|
      invariant i <= |rs|
      invariant best == Newest(keyOf, rs[..i])
    {
      var r := rs[i];
      assert rs[..i + 1][..i] == rs[..i];
      var k := keyOf(r.key);
      if k !in best || r.sequence > best[k].sequence {
        best := best[k := r];
      }
      i := i + 1;
    }
    assert rs[..|rs|] == rs;
    store := Live(best);
  }

  // ---------------------------------------------------------------- replay

  /** Puts and deletes applied one after another. */
  function Replay<K(==)>(keyOf: bytes -> K, history: seq<Record>): map<K, bytes> {
    if history == [] then map[]
    else
      var before, r := Replay(keyOf, history[..|history| - 1]), history[|history| - 1];
      if r.deleted then before - {keyOf(r.key)} else before[keyOf(r.key) := r.value]
  }

  predicate Increasing(history: seq<Record>) {
    forall i, j :: 0 <= i < j < |history| ==> history[i].sequence < history[j].sequence
  }

  /** Newest picks a member with the key and the highest sequence number among those. */
  ghost predicate Picks<K(!new)>(keyOf: bytes -> K, rs: seq<Record>, newest: map<K, Record>) {
    && (forall r :: r in rs ==> keyOf(r.key) in newest && r.sequence <= newest[keyOf(r.key)].sequence)
    && (forall k :: k in newest ==> newest[k] in rs && keyOf(newest[k].key) == k)
  }

  lemma {:induction false} NewestPicks<K(!new)>(keyOf: bytes -> K, rs: seq<Record>)
    ensures Picks(keyOf, rs, Newest(keyOf, rs))
  {
    if rs != [] {
      var front, last := rs[..|rs| - 1], rs[|rs| - 1];
      NewestPicks(keyOf, front);
      assert rs == front + [last];
      assert forall r :: r in rs <==> r in front || r == last;
    }
  }

  /** Record i is the first one of its key with the highest sequence number. */
  ghost predicate IsChosen<K>(keyOf: bytes -> K, rs: seq<Record>, k: K, i: int) {
    && 0 <= i < |rs| && keyOf(rs[i].key) == k
    && (forall j :: 0 <= j < i && keyOf(rs[j].key) == k ==> rs[j].sequence < rs[i].sequence)
    && (forall j :: i < j < |rs| && keyOf(rs[j].key) == k ==> rs[j].sequence <= rs[i].sequence)
  }

  lemma LastIsChosen<K(!new)>(keyOf: bytes -> K, front: seq<Record>, last: Record)
    requires forall r :: r in front && keyOf(r.key) == keyOf(last.key) ==> r.sequence < last.sequence
    ensures IsChosen(keyOf, front + [last], keyOf(last.key), |front|)
  {
  }

  lemma StaysChosen<K(!new)>(keyOf: bytes -> K, front: seq<Record>, last: Record, k: K, i: int)
    requires IsChosen(keyOf, front, k, i) && (keyOf(last.key) == k ==> last.sequence <= front[i].sequence)
    ensures IsChosen(keyOf, front + [last], k, i)
  {
  }

  /** Of several records of a key with the highest sequence number the first one found is kept. */
  lemma {:induction false} NewestIsFirst<K(!new)>(keyOf: bytes -> K, rs: seq<Record>, k: K)
    requires k in Newest(keyOf, rs)
    ensures exists i :: 0 <= i < |rs| && IsChosen(keyOf, rs, k, i) && rs[i] == Newest(keyOf, rs)[k]
  {
    hide IsChosen;
    var n := |rs| - 1;
    var front, last := rs[..n], rs[n];
    assert rs == front + [last];
    NewestPicks(keyOf, front);
    if keyOf(last.key) == k && (k !in Newest(keyOf, front) || last.sequence > Newest(keyOf, front)[k].sequence) {
      LastIsChosen(keyOf, front, last);
    } else {
      NewestIsFirst(keyOf, front, k);
      var i :| 0 <= i < n && IsChosen(keyOf, front, k, i) && front[i] == Newest(keyOf, front)[k];
      StaysChosen(keyOf, front, last, k, i);
    }
  }

  /** The write a record stands for, whichever file it was found in. */
  function WriteOf(r: Record): Record {
    r.(origin := "")
  }

  function Writes(rs: seq<Record>): set<Record> {
    set r | r in rs :: WriteOf(r)
  }

  /** No two different writes have the same sequence number; the same write may be found repeatedly. */
  predicate OneWriteASequence(rs: seq<Record>) {
    forall a, b :: a in rs && b in rs && a.sequence == b.sequence ==> WriteOf(a) == WriteOf(b)
  }

  lemma SameWriteIn(r: Record, rs: seq<Record>, ts: seq<Record>) returns (t: Record)
    requires r in rs && Writes(rs) <= Writes(ts)
    ensures t in ts && WriteOf(t) == WriteOf(r)
  {
    assert WriteOf(r) in Writes(rs);
    t :| t in ts && WriteOf(t) == WriteOf(r);
  }

  /** What one list of records picks for a key, the other picks as well, but for the file. */
  lemma NewestAgree<K(!new)>(keyOf: bytes -> K, rs: seq<Record>, ts: seq<Record>, k: K)
    requires Writes(rs) == Writes(ts) && OneWriteASequence(rs)
    requires k in Newest(keyOf, rs)
    ensures k in Newest(keyOf, ts) && WriteOf(Newest(keyOf, rs)[k]) == WriteOf(Newest(keyOf, ts)[k])
  {
    hide Newest, Writes;
    NewestPicks(keyOf, rs);
    NewestPicks(keyOf, ts);
    var t := SameWriteIn(Newest(keyOf, rs)[k], rs, ts);
    assert keyOf(t.key) == k;
    var r := SameWriteIn(Newest(keyOf, ts)[k], ts, rs);
    assert keyOf(r.key) == k;
  }

  /** The view depends neither on the order of the records nor on how often a write was found. */
  lemma LiveIgnoresOrder<K(!new)>(keyOf: bytes -> K, rs: seq<Record>, ts: seq<Record>)
    requires Writes(rs) == Writes(ts) && OneWriteASequence(rs)
    ensures Live(Newest(keyOf, rs)) == Live(Newest(keyOf, ts))
  {
    hide Newest, Writes, OneWriteASequence;
    OneWriteCarriesOver(rs, ts);
    forall k | k in Newest(keyOf, rs)
      ensures k in Newest(keyOf, ts) && WriteOf(Newest(keyOf, rs)[k]) == WriteOf(Newest(keyOf, ts)[k])
    {
      NewestAgree(keyOf, rs, ts, k);
    }
    forall k | k in Newest(keyOf, ts)
      ensures k in Newest(keyOf, rs)
    {
      NewestAgree(keyOf, ts, rs, k);
    }
  }

  lemma OneWriteCarriesOver(rs: seq<Record>, ts: seq<Record>)
    requires Writes(rs) == Writes(ts) && OneWriteASequence(rs)
    ensures OneWriteASequence(ts)
  {
    hide Writes;
    forall a, b | a in ts && b in ts && a.sequence == b.sequence
      ensures WriteOf(a) == WriteOf(b)
    {
      var x := SameWriteIn(a, ts, rs);
      var y := SameWriteIn(b, ts, rs);
    }
  }

  lemma LiveUpdate<K>(newest: map<K, Record>, k: K, r: Record)
    ensures Live(newest[k := r]) == if r.deleted then Live(newest) - {k} else Live(newest)[k := r.value]
  {
  }

  lemma {:induction false} ReplayIsLive<K(!new)>(keyOf: bytes -> K, history: seq<Record>)
    requires Increasing(history)
    ensures Replay(keyOf, history) == Live(Newest(keyOf, history))
  {
    hide Live;
    if history == [] {
      LiveOfNothing<K>();
    } else {
      var front, last := history[..|history| - 1], history[|history| - 1];
      ReplayIsLive(keyOf, front);
      NewestPicks(keyOf, front);
      var before, k := Newest(keyOf, front), keyOf(last.key);
      if k in before {
        assert before[k] in front;
      }
      LiveUpdate(before, k, last);
    }
  }

  lemma IncreasingIsOne(history: seq<Record>)
    requires Increasing(history)
    ensures OneWriteASequence(history)
  {
  }

  lemma LiveOfNothing<K>()
    ensures Live<K>(map[]) == map[]
  {
  }

  /** In whatever order and however often the writes of a history are found, keeping the newest of
      each key and dropping tombstones gives the store that replaying the history gives. */
  lemma MergedViewIsReplay<K(!new)>(keyOf: bytes -> K, recovered: seq<Record>, history: seq<Record>)
    requires Increasing(history) && Writes(recovered) == Writes(history)
    ensures Live(Newest(keyOf, recovered)) == Replay(keyOf, history)
  {
    ReplayIsLive(keyOf, history);
    IncreasingIsOne(history);
    LiveIgnoresOrder(keyOf, history, recovered);
  }

  // ---------------------------------------------------------------- from files to the view

  /** A file of a database directory as its writer made it. */
  datatype File =
    | LogOf(batches: seq<WriteBatch>, name: string)
    | TableOf(table: Table, name: string)

  predicate WellWritten(codec: Codec, f: File) {
    match f
    case LogOf(batches, _) => AllEncodable(batches)
    case TableOf(table, _) => WellBuilt(codec, table)
  }

  /** The writes a file holds. */
  function Written(codec: Codec, f: File): seq<Record>
    requires WellWritten(codec, f)
  {
    match f
    case LogOf(batches, name) => RecordsOfAll(batches, name)
    case TableOf(table, name) => RecordsOfBlocks(codec, table.blocks, name)
  }

  /** What the reader makes of its bytes; a table that does not parse is skipped. */
  function Recovered(codec: Codec, f: File): seq<Record>
    requires WellWritten(codec, f)
  {
    match f
    case LogOf(batches, name) => LogRecords(codec.crc, LogFile(codec.crc, batches), name)
    case TableOf(table, name) =>
      var records := TableRecords(codec, TableBytes(codec, table), name);
      if records.Ok? then records.value else []
  }

  function AllWritten(codec: Codec, files: seq<File>): seq<Record>
    requires forall i :: 0 <= i < |files| ==> WellWritten(codec, files[i])
  {
    if files == [] then [] else Written(codec, files[0]) + AllWritten(codec, files[1..])
  }

  function AllRecovered(codec: Codec, files: seq<File>): seq<Record>
    requires forall i :: 0 <= i < |files| ==> WellWritten(codec, files[i])
  {
    if files == [] then [] else Recovered(codec, files[0]) + AllRecovered(codec, files[1..])
  }

  lemma {:induction false} AllRecoveredIsWritten(codec: Codec, files: seq<File>)
    requires forall i :: 0 <= i < |files| ==> WellWritten(codec, files[i])
    ensures AllRecovered(codec, files) == AllWritten(codec, files)
  {
    hide LogRecords, TableRecords, LogFile, RecordsOfAll, RecordsOfBlocks, AllStored, TableBytes;
    if files != [] {
      match files[0] {
        case LogOf(batches, name) => WalRoundTrip(codec.crc, batches, name);
        case TableOf(table, name) => TableRoundTrip(codec, table, name);
      }
      AllRecoveredIsWritten(codec, files[1..]);
    }
  }

  /** A history with increasing sequence numbers, spread over logs and tables in any order, some
      writes perhaps both in a log and in the table flushed from it: the live view of the records
      recovered from the files is the replay of the history. */
  lemma RecoveredViewIsReplay<K(!new)>(codec: Codec, keyOf: bytes -> K, files: seq<File>, history: seq<Record>)
    requires forall i :: 0 <= i < |files| ==> WellWritten(codec, files[i])
    requires Increasing(history) && Writes(AllWritten(codec, files)) == Writes(history)
    ensures Live(Newest(keyOf, AllRecovered(codec, files))) == Replay(keyOf, history)
  {
    AllRecoveredIsWritten(codec, files);
    MergedViewIsReplay(keyOf, AllRecovered(codec, files), history);
  }
}
