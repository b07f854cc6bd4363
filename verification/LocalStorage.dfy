/** Local Storage records: classification of raw keys, and what can be rebuilt from the result. */
module LocalStorage {
  import opened Bytes
  import opened Values

  const META_PREFIX: bytes := [0x4D, 0x45, 0x54, 0x41, 0x3A] // META:
  const DATA_PREFIX: byte := 0x5F // _
  const SEPARATOR: byte := 0

  datatype FieldValue = Varint(v: u64) | OtherWireType
  datatype Field = Field(number: nat, value: FieldValue)

  /** The library routines used: a protobuf field decoder and lossy UTF-8 text. */
  datatype Lib = Lib(protobuf: bytes -> Option<seq<Field>>, lossyText: LossyText)

  datatype Metadata = Metadata(timestamp: u64, size: Option<u64>)

  datatype LocalRecord =
    | Meta(origin: string, timestamp: u64, size: Option<u64>, sequence: u64, deleted: bool)
    | Data(origin: string, scriptKey: StorageValue, value: StorageValue, sequence: u64, deleted: bool)
    | Other(key: bytes, sequence: u64, deleted: bool)

  /** The timestamp must come first as field 1; the size counts only as field 2 right behind it. */
  function ParseMeta(lib: Lib, data: bytes): Option<Metadata> {
    match lib.protobuf(data)
    case None => None
    case Some(fields) =>
      if fields == [] || fields[0].number != 1 || !fields[0].value.Varint? then None
      else
        var hasSize := |fields| > 1 && fields[1].number == 2 && fields[1].value.Varint?;
        var size := if hasSize then Some(fields[1].value.v) else None;
        Some(Metadata(fields[0].value.v, size))
  }

  /** The fields a browser writes for metadata. */
  function MetaFields(m: Metadata): seq<Field> {
    [Field(1, Varint(m.timestamp))] + (match m.size case None => [] case Some(n) => [Field(2, Varint(n))])
  }

  /** Metadata is read iff the fields are those of the metadata, then anything that is not taken for a size. */
  lemma MetaExact(lib: Lib, data: bytes, m: Metadata)
    ensures ParseMeta(lib, data) == Some(m) <==>
            exists rest: seq<Field> ::
              && lib.protobuf(data) == Some(MetaFields(m) + rest)
              && (m.size.None? && rest != [] ==> rest[0].number != 2 || !rest[0].value.Varint?)
  {
    if ParseMeta(lib, data) == Some(m) {
      var fields := lib.protobuf(data).value;
      var rest := fields[|MetaFields(m)|..];
      assert fields == MetaFields(m) + rest;
      assert m.size.None? ==> rest == fields[1..];
    }
  }

  function DecodeOne(lib: Lib, r: Record): LocalRecord {
    if META_PREFIX <= r.key then
      var origin := Latin1Text(r.key[|META_PREFIX|..]);
      if r.deleted then Meta(origin, 0, None, r.sequence, true)
      else
        match ParseMeta(lib, r.value)
        case Some(m) => Meta(origin, m.timestamp, m.size, r.sequence, false)
        case None => Other(r.key, r.sequence, r.deleted)
    else if r.key != [] && r.key[0] == DATA_PREFIX then
      var body := r.key[1..];
      match Position(body, SEPARATOR)
      case Some(nul) =>
        var value := if r.deleted then EMPTY_VALUE else TypePrefixedValue(lib.lossyText, r.value);
        Data(Latin1Text(body[..nul]), TypePrefixedValue(lib.lossyText, body[nul + 1..]), value, r.sequence, r.deleted)
      case None => Other(r.key, r.sequence, r.deleted)
    else Other(r.key, r.sequence, r.deleted)
  }

  method Decode(lib: Lib, records: seq<Record>) returns (out: seq<LocalRecord>)
    ensures |out| == |records|
    ensures forall i :: 0 <= i < |records| ==> out[i] == DecodeOne(lib, records[i])
  {
    hide Latin1Text, TypePrefixedValue, ParseMeta, Position;
    out := [];
    for n := 0 to |records|
      invariant |out| == n
      invariant forall i :: 0 <= i < n ==> out[i] == DecodeOne(lib, records[i])
    {
      var r := records[n];
      if META_PREFIX <= r.key {
        var origin := Latin1Text(r.key[|META_PREFIX|..]);
        if r.deleted {
          out := out + [Meta(origin, 0, None, r.sequence, true)];
        } else {
          match ParseMeta(lib, r.value) {
            case Some(m) => out := out + [Meta(origin, m.timestamp, m.size, r.sequence, false)];
            case None => out := out + [Other(r.key, r.sequence, r.deleted)];
          }
        }
      } else if r.key != [] && r.key[0] == DATA_PREFIX {
        var body := r.key[1..];
        var nul := Position(body, SEPARATOR);
        if nul.Some? {
          assert nul.value < |body| by {
            PositionInside(body, SEPARATOR);
          }
          var origin := Latin1Text(body[..nul.value]);
          var scriptKey := DecodeTypePrefixed(lib.lossyText, body[nul.value + 1..]);
          var value := EMPTY_VALUE;
          if !r.deleted {
            value := DecodeTypePrefixed(lib.lossyText, r.value);
          }
          out := out + [Data(origin, scriptKey, value, r.sequence, r.deleted)];
        } else {
          out := out + [Other(r.key, r.sequence, r.deleted)];
        }
      } else {
        out := out + [Other(r.key, r.sequence, r.deleted)];
      }
    }
  }

  // ---------------------------------------------------------------- nothing of a key is lost

  /** The raw key a decoded record came from. */
  function RebuildKey(d: LocalRecord): bytes
    requires !d.Other? ==> IsLatin1(d.origin)
  {
    match d
    case Meta(origin, _, _, _, _) => META_PREFIX + EncodeLatin1(origin)
    case Data(origin, scriptKey, _, _, _) => [DATA_PREFIX] + EncodeLatin1(origin) + [SEPARATOR] + scriptKey.raw
    case Other(key, _, _) => key
  }

  /** The same from the displayed text of the script key. */
  function RebuildKeyFromText(d: LocalRecord): bytes
    requires d.Data? && IsLatin1(d.origin) && (d.scriptKey.encoding == Latin1 ==> IsLatin1(d.scriptKey.text))
  {
    [DATA_PREFIX] + EncodeLatin1(d.origin) + [SEPARATOR] + EncodeValue(d.scriptKey.encoding, d.scriptKey.text)
  }

  /** Every decoded record keeps sequence number and deletion flag, its exact key can be rebuilt,
      and live data keeps its value bytes. */
  lemma NothingLost(lib: Lib, r: Record)
    ensures var d := DecodeOne(lib, r);
            && d.sequence == r.sequence && d.deleted == r.deleted
            && (!d.Other? ==> IsLatin1(d.origin))
            && RebuildKey(d) == r.key
            && (d.Data? && !r.deleted ==> d.value.raw == r.value)
  {
    hide Latin1Text, TypePrefixedValue, ParseMeta, IsLatin1, EncodeLatin1, Position;
    TypePrefixedRaw(lib.lossyText, r.value);
    if META_PREFIX <= r.key {
      Latin1RoundTrip(r.key[|META_PREFIX|..]);
    } else if r.key != [] && r.key[0] == DATA_PREFIX {
      var nul := Position(r.key[1..], SEPARATOR);
      if nul.Some? {
        DataKeyCut(r.key, nul.value);
        Latin1RoundTrip(r.key[1..][..nul.value]);
        TypePrefixedRaw(lib.lossyText, r.key[1..][nul.value + 1..]);
      }
    }
  }

  lemma TypePrefixedRaw(lossyText: LossyText, raw: bytes)
    ensures TypePrefixedValue(lossyText, raw).raw == raw
  {
    TypePrefixedExact(lossyText, raw);
  }

  /** A value that is exactly what its encoding and text say, when it is not marked lossy. */
  predicate Clean(v: StorageValue) {
    && (v.encoding == Latin1 ==> IsLatin1(v.text))
    && (!v.lossy ==> EncodeValue(v.encoding, v.text) == v.raw)
  }

  /** A script key or value of a data record not marked lossy is determined by its encoding and text
      alone; a clean script key so determines the whole key. */
  lemma CleanTextSuffices(lib: Lib, r: Record)
    requires DecodeOne(lib, r).Data?
    ensures var d := DecodeOne(lib, r);
            && Clean(d.scriptKey) && Clean(d.value)
            && IsLatin1(d.origin)
            && (!d.scriptKey.lossy ==> RebuildKeyFromText(d) == r.key)
  {
    hide Latin1Text, TypePrefixedValue, IsLatin1, EncodeLatin1, EncodeValue, Position, ParseMeta;
    NothingLost(lib, r);
    CleanValue(lib.lossyText, r.value);
    var nul := Position(r.key[1..], SEPARATOR);
    CleanValue(lib.lossyText, r.key[1..][nul.value + 1..]);
    CleanEmpty();
  }

  lemma CleanValue(lossyText: LossyText, raw: bytes)
    ensures Clean(TypePrefixedValue(lossyText, raw))
  {
    TypePrefixedExact(lossyText, raw);
  }

  lemma CleanEmpty()
    ensures Clean(EMPTY_VALUE)
  {
  }

  lemma DataKeyCut(key: bytes, nul: nat)
    requires key != [] && key[0] == DATA_PREFIX && Position(key[1..], SEPARATOR) == Some(nul)
    ensures nul < |key| - 1
    ensures key == [DATA_PREFIX] + key[1..][..nul] + [SEPARATOR] + key[1..][nul + 1..]
  {
    var body := key[1..];
    assert body == body[..nul] + [SEPARATOR] + body[nul + 1..];
    assert key == [DATA_PREFIX] + body;
  }

  /** Which shape a key takes: metadata iff it has the prefix and is a tombstone or carries a
      well-formed timestamp; data iff it begins with `_` and holds a NUL. */
  lemma Classification(lib: Lib, r: Record)
    ensures DecodeOne(lib, r).Meta? <==> META_PREFIX <= r.key && (r.deleted || ParseMeta(lib, r.value).Some?)
    ensures DecodeOne(lib, r).Data? <==> r.key != [] && r.key[0] == DATA_PREFIX && SEPARATOR in r.key
  {
    hide ParseMeta, Latin1Text, TypePrefixedValue;
    if r.key != [] && r.key[0] == DATA_PREFIX {
      assert r.key == [DATA_PREFIX] + r.key[1..];
      assert SEPARATOR in r.key <==> SEPARATOR in r.key[1..];
      if Position(r.key[1..], SEPARATOR).Some? {
        assert SEPARATOR in r.key[1..];
      }
    }
  }

  // ---------------------------------------------------------------- what every record decodes to

  /** The prefixes and the separator, as text. */
  lemma KeySpelling()
    ensures META_PREFIX == Ascii("META:") && [DATA_PREFIX] == Ascii("_") && [SEPARATOR] == [0]
  {
  }

  /** Live metadata shows a timestamp and a size iff the value's fields begin with these; cleared
      metadata shows 0 and none. */
  lemma MetaShown(lib: Lib, r: Record, timestamp: u64, size: Option<u64>)
    requires Ascii("META:") <= r.key
    ensures var origin := Latin1Text(r.key[5..]);
            && (!r.deleted ==>
                  (DecodeOne(lib, r) == Meta(origin, timestamp, size, r.sequence, false)
                   <==> exists rest: seq<Field> ::
                          && lib.protobuf(r.value) == Some(MetaFields(Metadata(timestamp, size)) + rest)
                          && (size.None? && rest != [] ==> rest[0].number != 2 || !rest[0].value.Varint?)))
            && (r.deleted ==> DecodeOne(lib, r) == Meta(origin, 0, None, r.sequence, true))
  {
    KeySpelling();
    MetaExact(lib, r.value, Metadata(timestamp, size));
    hide ParseMeta, Latin1Text, MetaFields;
  }

  lemma DataDecodes(lib: Lib, r: Record, origin: bytes, script: bytes)
    requires SEPARATOR !in origin
    ensures var key := [DATA_PREFIX] + origin + [SEPARATOR] + script;
            var value := if r.deleted then EMPTY_VALUE else TypePrefixedValue(lib.lossyText, r.value);
            DecodeOne(lib, r.(key := key))
            == Data(Latin1Text(origin), TypePrefixedValue(lib.lossyText, script), value, r.sequence, r.deleted)
  {
    hide Latin1Text, TypePrefixedValue, ParseMeta, Position;
    var key, body := [DATA_PREFIX] + origin + [SEPARATOR] + script, origin + [SEPARATOR] + script;
    assert key[0] == DATA_PREFIX && key[1..] == body;
    assert forall i :: 0 <= i < |origin| ==> body[i] == origin[i];
    PositionIs(body, SEPARATOR, |origin|);
    assert body[..|origin|] == origin && body[|origin| + 1..] == script;
  }

  /** A data record shows its origin, script key and value, a tombstone no value: the key is `_`, the
      origin up to the first NUL, and the script key behind it. */
  lemma DataShown(lib: Lib, r: Record, origin: bytes, script: bytes)
    requires 0 !in origin && r.key == Ascii("_") + origin + [0] + script
    ensures DecodeOne(lib, r)
            == Data(Latin1Text(origin), TypePrefixedValue(lib.lossyText, script),
                    if r.deleted then StorageValue("", [], Empty, false) else TypePrefixedValue(lib.lossyText, r.value),
                    r.sequence, r.deleted)
  {
    KeySpelling();
    hide Latin1Text, TypePrefixedValue, DecodeOne;
    DataDecodes(lib, r, origin, script);
    assert r.(key := r.key) == r;
  }

  // ---------------------------------------------------------------- what a line shows

  /** What a JSONL line shows of a record: of a script key its text alone. */
  function Shown(d: LocalRecord): LocalRecord {
    if d.Data? then d.(scriptKey := StorageValue(d.scriptKey.text, [], Empty, false)) else d
  }

  /** The line of a data record never tells its key from every other one: there is always another
      script key that is shown by the same text. */
  lemma LineNeverDeterminesKey(lib: Lib, r: Record) returns (key: bytes)
    requires DecodeOne(lib, r).Data?
    ensures key != r.key && Shown(DecodeOne(lib, r.(key := key))) == Shown(DecodeOne(lib, r))
  {
    hide Latin1Text, TypePrefixedValue, ParseMeta, Position, DecodeOne;
    Classification(lib, r);
    var origin, script := CutDataKey(r.key);
    var other := TextNeverDetermines(lib.lossyText, script);
    key := [DATA_PREFIX] + origin + [SEPARATOR] + other;
    DataDecodes(lib, r, origin, script);
    DataDecodes(lib, r, origin, other);
    assert r.(key := r.key) == r;
    assert key[|origin| + 2..] == other && r.key[|origin| + 2..] == script;
  }

  lemma CutDataKey(key: bytes) returns (origin: bytes, script: bytes)
    requires key != [] && key[0] == DATA_PREFIX && SEPARATOR in key
    ensures SEPARATOR !in origin && key == [DATA_PREFIX] + origin + [SEPARATOR] + script
  {
    assert key == [DATA_PREFIX] + key[1..];
    assert SEPARATOR in key[1..];
    var nul := Position(key[1..], SEPARATOR).value;
    DataKeyCut(key, nul);
    origin, script := key[1..][..nul], key[1..][nul + 1..];
  }
}
