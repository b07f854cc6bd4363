/** Session Storage records: namespaces join hosts to maps in a first pass, a second pass emits
    every record. Strings are modelled as their UTF-8 bytes. */
module SessionStorage {
  import opened Bytes
  import opened Values

  const NAMESPACE_PREFIX: bytes := [0x6E, 0x61, 0x6D, 0x65, 0x73, 0x70, 0x61, 0x63, 0x65, 0x2D] // namespace-
  const MAP_PREFIX: bytes := [0x6D, 0x61, 0x70, 0x2D] // map-
  const DASH: byte := 0x2D

  /** UTF-8 validity and lossy decoding are library routines. */
  datatype Text = Text(valid: bytes -> bool, lossy: bytes -> bytes)

  datatype SessionRecord =
    | Namespace(guid: bytes, host: bytes, mapId: bytes, sequence: u64, deleted: bool)
    | MapEntry(mapId: bytes, mapHost: Option<bytes>, scriptKey: bytes, value: StorageValue,
               sequence: u64, deleted: bool)
    | OtherKey(key: bytes, sequence: u64, deleted: bool)

  datatype Parts = Parts(middle: bytes, tail: bytes)

  /** The second and third part of a key cut at its first two dashes. */
  function Split3(key: bytes): Option<Parts> {
    match Position(key, DASH)
    case None => None
    case Some(p) =>
      var rest := key[p + 1..];
      match Position(rest, DASH)
      case None => None
      case Some(q) => Some(Parts(rest[..q], rest[q + 1..]))
  }

  function ValidSplit(text: Text, key: bytes): Option<Parts> {
    if text.valid(key) then Split3(key) else None
  }

  predicate IsNamespaceKey(key: bytes) {
    NAMESPACE_PREFIX <= key && |key| != |NAMESPACE_PREFIX|
  }

  datatype Link = Link(mapId: bytes, host: bytes)

  /** The host a record contributes to the join: it must be live, well formed, and name a valid map. */
  function LinkOf(text: Text, r: Record): Option<Link> {
    if r.deleted || !IsNamespaceKey(r.key) then None
    else
      match ValidSplit(text, r.key)
      case None => None
      case Some(parts) => if text.valid(r.value) then Some(Link(r.value, parts.tail)) else None
  }

  type Hosts = map<bytes, bytes>

  function AddLink(hosts: Hosts, link: Option<Link>): Hosts {
    match link
    case None => hosts
    case Some(l) => if l.mapId in hosts then hosts else hosts[l.mapId := l.host]
  }

  function HostsOf(text: Text, rs: seq<Record>): Hosts {
    if rs == [] then map[] else AddLink(HostsOf(text, rs[..|rs| - 1]), LinkOf(text, rs[|rs| - 1]))
  }

  function OtherOf(r: Record): SessionRecord {
    OtherKey(r.key, r.sequence, r.deleted)
  }

  function DecodeWith(text: Text, hosts: Hosts, r: Record): SessionRecord {
    if IsNamespaceKey(r.key) then
      match ValidSplit(text, r.key)
      case Some(parts) => Namespace(parts.middle, parts.tail, text.lossy(r.value), r.sequence, r.deleted)
      case None => OtherOf(r)
    else if MAP_PREFIX <= r.key then
      match ValidSplit(text, r.key)
      case Some(parts) =>
        var host := if parts.middle in hosts then Some(hosts[parts.middle]) else None;
        var value := if r.deleted then EMPTY_VALUE else SessionValue(r.value);
        MapEntry(parts.middle, host, parts.tail, value, r.sequence, r.deleted)
      case None => OtherOf(r)
    else OtherOf(r)
  }

  method DecodeSession(text: Text, records: seq<Record>) returns (out: seq<SessionRecord>)
    ensures |out| == |records|
    ensures forall i :: 0 <= i < |records| ==> out[i] == DecodeWith(text, HostsOf(text, records), records[i])
  {
    hide Split3, SessionValue;
    var hostByMap: Hosts := map[];
    for n := 0 to |records|
      invariant hostByMap == HostsOf(text, records[..n])
    {
      var r := records[n];
      assert records[..n + 1][..n] == records[..n];
      assert HostsOf(text, records[..n + 1]) == AddLink(hostByMap, LinkOf(text, r));
      if r.deleted || !(NAMESPACE_PREFIX <= r.key) || |r.key| == |NAMESPACE_PREFIX| {
        continue;
      }
      if text.valid(r.key) {
        var parts := Split3(r.key);
        if parts.Some? && text.valid(r.value) && r.value !in hostByMap {
          hostByMap := hostByMap[r.value := parts.value.tail];
        }
      }
    }
    assert records[..|records|] == records;

    out := [];
    for n := 0 to |records|
      invariant |out| == n
      invariant forall i :: 0 <= i < n ==> out[i] == DecodeWith(text, hostByMap, records[i])
    {
      var r := records[n];
      var parts := ValidSplit(text, r.key);
      if NAMESPACE_PREFIX <= r.key && |r.key| != |NAMESPACE_PREFIX| {
        if parts.Some? {
          out := out + [Namespace(parts.value.middle, parts.value.tail, text.lossy(r.value), r.sequence, r.deleted)];
        } else {
          out := out + [OtherOf(r)];
        }
      } else if MAP_PREFIX <= r.key {
        if parts.Some? {
          var host := if parts.value.middle in hostByMap then Some(hostByMap[parts.value.middle]) else None;
          var value := EMPTY_VALUE;
          if !r.deleted {
            value := DecodeSessionValue(r.value);
          }
          out := out + [MapEntry(parts.value.middle, host, parts.value.tail, value, r.sequence, r.deleted)];
        } else {
          out := out + [OtherOf(r)];
        }
      } else {
        out := out + [OtherOf(r)];
      }
    }
  }

  // ---------------------------------------------------------------- the join

  predicate LinksTo(text: Text, r: Record, mapId: bytes) {
    LinkOf(text, r).Some? && LinkOf(text, r).value.mapId == mapId
  }

  /** Record i is the first live well-formed namespace record naming this map. */
  ghost predicate FirstLink(text: Text, rs: seq<Record>, mapId: bytes, i: nat) {
    && i < |rs| && LinksTo(text, rs[i], mapId)
    && forall j :: 0 <= j < i ==> !LinksTo(text, rs[j], mapId)
  }

  /** The host of a map is that of the first record linking to it; there is none iff no record does. */
  lemma {:induction false} FirstLinkWins(text: Text, rs: seq<Record>, mapId: bytes)
    ensures mapId in HostsOf(text, rs) <==> exists i :: 0 <= i < |rs| && LinksTo(text, rs[i], mapId)
    ensures mapId in HostsOf(text, rs) ==>
              exists i: nat ::
                FirstLink(text, rs, mapId, i) && HostsOf(text, rs)[mapId] == LinkOf(text, rs[i]).value.host
  {
    hide LinkOf;
    if rs != [] {
      var front, last := rs[..|rs| - 1], rs[|rs| - 1];
      FirstLinkWins(text, front, mapId);
      if mapId in HostsOf(text, front) {
        var i: nat :|
          FirstLink(text, front, mapId, i) && HostsOf(text, front)[mapId] == LinkOf(text, front[i]).value.host;
        assert FirstLink(text, rs, mapId, i);
      } else if LinksTo(text, last, mapId) {
        forall j | 0 <= j < |rs| - 1
          ensures !LinksTo(text, rs[j], mapId)
        {
          assert rs[j] == front[j];
        }
        assert FirstLink(text, rs, mapId, |rs| - 1);
      }
    }
  }

  /** A map entry gets the host of the first link to its map, before or behind it in the list, and
      no host iff there is no link. */
  lemma JoinIsFirstWins(text: Text, rs: seq<Record>, r: Record)
    requires DecodeWith(text, HostsOf(text, rs), r).MapEntry?
    ensures var d := DecodeWith(text, HostsOf(text, rs), r);
            && (d.mapHost.None? <==> forall i :: 0 <= i < |rs| ==> !LinksTo(text, rs[i], d.mapId))
            && (d.mapHost.Some? ==>
                  exists i: nat :: FirstLink(text, rs, d.mapId, i) && d.mapHost.value == LinkOf(text, rs[i]).value.host)
  {
    hide LinkOf, ValidSplit;
    FirstLinkWins(text, rs, DecodeWith(text, HostsOf(text, rs), r).mapId);
  }

  /** The links of a list of records, in order. */
  function Links(text: Text, rs: seq<Record>): seq<Link> {
    if rs == [] then []
    else
      var before, link := Links(text, rs[..|rs| - 1]), LinkOf(text, rs[|rs| - 1]);
      if link.Some? then before + [link.value] else before
  }

  function HostsOfLinks(links: seq<Link>): Hosts {
    if links == [] then map[] else AddLink(HostsOfLinks(links[..|links| - 1]), Some(links[|links| - 1]))
  }

  lemma {:induction false} HostsFromLinks(text: Text, rs: seq<Record>)
    ensures HostsOf(text, rs) == HostsOfLinks(Links(text, rs))
  {
    hide LinkOf;
    if rs != [] {
      HostsFromLinks(text, rs[..|rs| - 1]);
      var before, link := Links(text, rs[..|rs| - 1]), LinkOf(text, rs[|rs| - 1]);
      if link.Some? {
        assert (before + [link.value])[..|before|] == before;
      }
    }
  }

  /** What a record decodes to depends on the record and on the ordered links alone: map entries,
      tombstones and malformed keys may stand anywhere. */
  lemma JoinIgnoresMapOrder(text: Text, rs: seq<Record>, ts: seq<Record>, r: Record)
    requires Links(text, rs) == Links(text, ts)
    ensures DecodeWith(text, HostsOf(text, rs), r) == DecodeWith(text, HostsOf(text, ts), r)
  {
    HostsFromLinks(text, rs);
    HostsFromLinks(text, ts);
  }

  // ---------------------------------------------------------------- nothing of a key is lost

  function RebuildSessionKey(d: SessionRecord): bytes {
    match d
    case Namespace(guid, host, _, _, _) => NAMESPACE_PREFIX + guid + [DASH] + host
    case MapEntry(mapId, _, scriptKey, _, _, _) => MAP_PREFIX + mapId + [DASH] + scriptKey
    case OtherKey(key, _, _) => key
  }

  lemma SplitBehindPrefix(prefix: bytes, key: bytes)
    requires prefix != [] && prefix <= key && prefix[|prefix| - 1] == DASH && DASH !in prefix[..|prefix| - 1]
    ensures Split3(key).Some? ==>
              var parts := Split3(key).value;
              && key == prefix + parts.middle + [DASH] + parts.tail
              && DASH !in parts.middle
    ensures Split3(key).Some? <==> DASH in key[|prefix|..]
  {
    hide Position;
    var n, rest := |prefix| - 1, key[|prefix|..];
    FirstDash(prefix, key);
    PositionFinds(rest, DASH);
    if DASH in rest {
      var q := Position(rest, DASH).value;
      CutAt(rest, q);
      assert key == prefix + rest;
      assert prefix + (rest[..q] + [DASH] + rest[q + 1..]) == prefix + rest[..q] + [DASH] + rest[q + 1..];
    }
  }

  lemma FirstDash(prefix: bytes, key: bytes)
    requires prefix != [] && prefix <= key && prefix[|prefix| - 1] == DASH && DASH !in prefix[..|prefix| - 1]
    ensures Position(key, DASH) == Some(|prefix| - 1)
  {
    var n := |prefix| - 1;
    assert forall i :: 0 <= i < n ==> key[i] == prefix[..n][i];
    PositionIs(key, DASH, n);
  }

  lemma CutAt(s: bytes, q: nat)
    requires q < |s|
    ensures s == s[..q] + [s[q]] + s[q + 1..]
  {
  }

  lemma PositionFinds(s: bytes, b: byte)
    ensures Position(s, b).Some? <==> b in s
    ensures b in s ==>
              var p := Position(s, b).value;
              p < |s| && s[p] == b && b !in s[..p]
  {
    if Position(s, b).Some? {
      assert s[Position(s, b).value] in s;
    }
  }

  /** Every decoded record keeps sequence number and deletion flag, and its exact key can be rebuilt. */
  lemma SessionKeyRebuilt(text: Text, hosts: Hosts, r: Record)
    ensures var d := DecodeWith(text, hosts, r);
            && RebuildSessionKey(d) == r.key && d.sequence == r.sequence && d.deleted == r.deleted
            && (d.MapEntry? && !r.deleted ==> d.value.raw == r.value)
  {
    hide Split3, Utf16Value;
    if IsNamespaceKey(r.key) {
      SplitBehindPrefix(NAMESPACE_PREFIX, r.key);
    } else if MAP_PREFIX <= r.key {
      SplitBehindPrefix(MAP_PREFIX, r.key);
      SessionRaw(r.value);
    }
  }

  // ---------------------------------------------------------------- what every record decodes to

  /** The prefixes, as text. */
  lemma KeySpelling()
    ensures NAMESPACE_PREFIX == Ascii("namespace-") && MAP_PREFIX == Ascii("map-") && [DASH] == Ascii("-")
  {
  }

  /** The key is the prefix, a middle without a dash, a dash, and the tail. */
  predicate SplitsAs(key: bytes, prefix: bytes, middle: bytes, tail: bytes) {
    0x2D !in middle && key == prefix + middle + [0x2D] + tail
  }

  lemma SplitExact(prefix: bytes, key: bytes, middle: bytes, tail: bytes)
    requires prefix != [] && prefix <= key && prefix[|prefix| - 1] == DASH && DASH !in prefix[..|prefix| - 1]
    ensures Split3(key) == Some(Parts(middle, tail)) <==> SplitsAs(key, prefix, middle, tail)
  {
    hide Position, Split3;
    SplitBehindPrefix(prefix, key);
    var rest := key[|prefix|..];
    if SplitsAs(key, prefix, middle, tail) {
      assert rest == middle + [0x2D] + tail;
      assert rest[|middle|] == DASH;
      assert DASH in rest;
      var parts := Split3(key).value;
      assert rest == parts.middle + [DASH] + parts.tail;
      FirstCut(middle, tail, parts.middle, parts.tail);
    }
  }

  lemma FirstCut(a: bytes, b: bytes, c: bytes, d: bytes)
    requires DASH !in a && DASH !in c && a + [DASH] + b == c + [DASH] + d
    ensures a == c && b == d
  {
    var s := a + [DASH] + b;
    assert s[|a|] == DASH && s[|c|] == DASH;
    assert s[..|a|] == a && s[..|c|] == c;
    assert s[|a| + 1..] == b && s[|c| + 1..] == d;
  }

  /** Which record links a map to a host: a live one whose key is valid text and splits into prefix, guid
      and host, and whose value is the map's valid name. */
  lemma LinkExact(text: Text, r: Record, mapId: bytes, host: bytes)
    ensures LinkOf(text, r) == Some(Link(mapId, host)) <==>
            && !r.deleted && text.valid(r.key) && text.valid(r.value) && r.value == mapId
            && exists guid :: SplitsAs(r.key, Ascii("namespace-"), guid, host)
  {
    hide Split3, SplitsAs;
    KeySpelling();
    if guid :| SplitsAs(r.key, Ascii("namespace-"), guid, host) {
      PrefixOfSplit(r.key, NAMESPACE_PREFIX, guid, host);
      SplitExact(NAMESPACE_PREFIX, r.key, guid, host);
    }
    if IsNamespaceKey(r.key) && Split3(r.key).Some? {
      SplitExact(NAMESPACE_PREFIX, r.key, Split3(r.key).value.middle, Split3(r.key).value.tail);
    }
  }

  lemma PrefixOfSplit(key: bytes, prefix: bytes, middle: bytes, tail: bytes)
    requires SplitsAs(key, prefix, middle, tail)
    ensures prefix <= key && |key| > |prefix|
  {
  }

  /** A namespace record shows guid and host of its key and the text of its value as the map. */
  lemma NamespaceShown(text: Text, hosts: Hosts, r: Record, guid: bytes, host: bytes)
    requires text.valid(r.key) && SplitsAs(r.key, Ascii("namespace-"), guid, host)
    ensures DecodeWith(text, hosts, r) == Namespace(guid, host, text.lossy(r.value), r.sequence, r.deleted)
  {
    hide Split3, SplitsAs;
    KeySpelling();
    PrefixOfSplit(r.key, NAMESPACE_PREFIX, guid, host);
    SplitExact(NAMESPACE_PREFIX, r.key, guid, host);
  }

  /** A map entry shows map and script key of its key, the host the join has for the map, and its
      value, a tombstone no value. */
  lemma MapShown(text: Text, hosts: Hosts, r: Record, mapId: bytes, script: bytes)
    requires text.valid(r.key) && SplitsAs(r.key, Ascii("map-"), mapId, script)
    ensures DecodeWith(text, hosts, r)
            == MapEntry(mapId, if mapId in hosts then Some(hosts[mapId]) else None, script,
                        if r.deleted then StorageValue("", [], Empty, false) else SessionValue(r.value),
                        r.sequence, r.deleted)
  {
    hide Split3, SplitsAs, SessionValue;
    KeySpelling();
    PrefixOfSplit(r.key, MAP_PREFIX, mapId, script);
    SplitExact(MAP_PREFIX, r.key, mapId, script);
    assert r.key[0] != NAMESPACE_PREFIX[0];
  }

  /** Every other record shows its key. */
  lemma OtherShown(text: Text, hosts: Hosts, r: Record)
    requires !text.valid(r.key)
             || forall middle, tail :: !SplitsAs(r.key, Ascii("namespace-"), middle, tail)
                                       && !SplitsAs(r.key, Ascii("map-"), middle, tail)
    ensures DecodeWith(text, hosts, r) == OtherKey(r.key, r.sequence, r.deleted)
  {
    hide Split3, SplitsAs, SessionValue;
    KeySpelling();
    if Split3(r.key).Some? {
      var parts := Split3(r.key).value;
      if NAMESPACE_PREFIX <= r.key {
        SplitExact(NAMESPACE_PREFIX, r.key, parts.middle, parts.tail);
      } else if MAP_PREFIX <= r.key {
        SplitExact(MAP_PREFIX, r.key, parts.middle, parts.tail);
      }
    }
  }

  /** Where lossy text is the identity on valid bytes, the join links exactly the maps and hosts that
      the live namespace records with a valid value show. */
  lemma JoinIsWhatIsShown(text: Text, hosts: Hosts, r: Record, mapId: bytes, host: bytes)
    requires forall b: bytes :: text.valid(b) ==> text.lossy(b) == b
    ensures LinkOf(text, r) == Some(Link(mapId, host)) <==>
            && !r.deleted && text.valid(r.value)
            && var d := DecodeWith(text, hosts, r); d.Namespace? && d.mapId == mapId && d.host == host
  {
    hide Split3, SessionValue;
  }

  // ---------------------------------------------------------------- what a line shows

  /** What a JSONL line shows of a record: of a map value everything but its raw bytes. */
  function Shown(d: SessionRecord): SessionRecord {
    if d.MapEntry? then d.(value := d.value.(raw := [])) else d
  }

  lemma MapDecodes(text: Text, hosts: Hosts, r: Record, value: bytes)
    requires DecodeWith(text, hosts, r).MapEntry? && !r.deleted
    ensures DecodeWith(text, hosts, r.(value := value))
            == DecodeWith(text, hosts, r).(value := SessionValue(value))
  {
    hide Split3, SessionValue;
  }

  /** The line of a live map entry tells its value from every other one iff the decode lost nothing
      and the value is not one of a bare and a prefixed form. */
  lemma MapLineDeterminesIff(text: Text, hosts: Hosts, r: Record)
    requires DecodeWith(text, hosts, r).MapEntry? && !r.deleted
    ensures (forall value: bytes ::
               Shown(DecodeWith(text, hosts, r.(value := value))) == Shown(DecodeWith(text, hosts, r)) ==>
               value == r.value)
            <==> !SessionValue(r.value).lossy && !HasOtherForm(r.value)
  {
    hide DecodeWith, SessionValue;
    assert r.(value := r.value) == r;
    MapDecodes(text, hosts, r, r.value);
    forall value: bytes
      ensures Shown(DecodeWith(text, hosts, r.(value := value))) == Shown(DecodeWith(text, hosts, r))
              <==> SameView(r.value, value)
    {
      MapDecodes(text, hosts, r, value);
      SessionRaw(value);
      SessionRaw(r.value);
    }
    ViewDeterminesIff(r.value);
  }

  // ---------------------------------------------------------------- classification

  /** Which shape a key takes: it must be valid UTF-8, carry the prefix and hold another dash behind it. */
  lemma SessionClassification(text: Text, hosts: Hosts, r: Record)
    ensures DecodeWith(text, hosts, r).Namespace? <==>
              NAMESPACE_PREFIX <= r.key && text.valid(r.key) && DASH in r.key[|NAMESPACE_PREFIX|..]
    ensures DecodeWith(text, hosts, r).MapEntry? <==>
              MAP_PREFIX <= r.key && text.valid(r.key) && DASH in r.key[|MAP_PREFIX|..]
  {
    hide Split3, SessionValue;
    if NAMESPACE_PREFIX <= r.key {
      SplitBehindPrefix(NAMESPACE_PREFIX, r.key);
      assert r.key[0] != MAP_PREFIX[0];
    } else if MAP_PREFIX <= r.key {
      SplitBehindPrefix(MAP_PREFIX, r.key);
    }
  }
}
