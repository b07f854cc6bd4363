/** Decoded storage values: UTF-16-LE, Latin-1 and type-prefixed strings, and what they determine. */
module Values {
  import opened Bytes

  type u16 = u: int | 0 <= u < 0x1_0000

  const REPLACEMENT: char := '\U{FFFD}'

  datatype Encoding = Utf16Le | Latin1 | Empty | Unknown(prefix: byte)

  /** The raw bytes are always kept; `lossy` marks every substitution. */
  datatype StorageValue = StorageValue(text: string, raw: bytes, encoding: Encoding, lossy: bool)

  const EMPTY_VALUE := StorageValue("", [], Empty, false)

  /** The lossy UTF-8 rendering of malformed values is a library routine. */
  type LossyText = bytes -> string

  // ---------------------------------------------------------------- UTF-16

  predicate IsHigh(u: u16) {
    0xD800 <= u < 0xDC00
  }

  predicate IsLow(u: u16) {
    0xDC00 <= u < 0xE000
  }

  function Unit(low: int, high: int): u16
    requires 0 <= low < 256 && 0 <= high < 256
  {
    low + 256 * high
  }

  /** The whole code units of a body; a trailing odd byte belongs to none. */
  function Units(body: bytes): (us: seq<u16>)
    ensures |us| == |body| / 2
  {
    seq(|body| / 2, i requires 0 <= i < |body| / 2 => Unit(body[2 * i], body[2 * i + 1]))
  }

  datatype Scalar = Scalar(value: Option<char>, used: nat)

  /** The next character of a code unit sequence; None for an unpaired surrogate, which uses one unit. */
  function NextScalar(us: seq<u16>): (s: Scalar)
    requires us != []
    ensures 1 <= s.used <= |us|
  {
    var u := us[0];
    if !IsHigh(u) && !IsLow(u) then Scalar(Some(u as char), 1)
    else if IsHigh(u) && |us| > 1 && IsLow(us[1]) then
      Scalar(Some(SurrogatePair(u, us[1])), 2)
    else Scalar(None, 1)
  }

  datatype Decoded = Decoded(text: string, lossy: bool)

  function DecodeUnits(us: seq<u16>): Decoded {
    if us == [] then Decoded("", false)
    else
      var s := NextScalar(us);
      var rest := DecodeUnits(us[s.used..]);
      match s.value
      case Some(c) => Decoded([c] + rest.text, rest.lossy)
      case None => Decoded([REPLACEMENT] + rest.text, true)
  }

  function Utf16Value(body: bytes, raw: bytes): StorageValue {
    var d := DecodeUnits(Units(body));
    StorageValue(d.text, raw, Utf16Le, d.lossy || |body| % 2 != 0)
  }

  lemma DecodeStep(us: seq<u16>, i: nat, text: string)
    requires i < |us|
    ensures var s := NextScalar(us[i..]);
            var c := if s.value.Some? then s.value.value else REPLACEMENT;
            && i + s.used <= |us| && s.used >= 1
            && text + DecodeUnits(us[i..]).text == (text + [c]) + DecodeUnits(us[i + s.used..]).text
            && DecodeUnits(us[i..]).lossy == (s.value.None? || DecodeUnits(us[i + s.used..]).lossy)
  {
    hide NextScalar;
    NextUsed(us[i..]);
    var s := NextScalar(us[i..]);
    assert us[i..][s.used..] == us[i + s.used..];
  }

  lemma DecodeDone(us: seq<u16>, text: string)
    ensures text + DecodeUnits(us[|us|..]).text == text && !DecodeUnits(us[|us|..]).lossy
  {
  }

  method DecodeUtf16Le(body: bytes, raw: bytes) returns (v: StorageValue)
    ensures v == Utf16Value(body, raw)
  {
    hide Units, NextScalar, DecodeUnits;
    var lossy := false;
    var units := Units(body);
    if |body| % 2 != 0 {
      lossy := true;
    }
    var text: string := "";
    var i := 0;
    assert units[0..] == units;
    assert text + DecodeUnits(units).text == DecodeUnits(units).text;
    while i < |units|
      invariant i <= |units|
      invariant DecodeUnits(units).text == text + DecodeUnits(units[i..]).text
      invariant (DecodeUnits(units).lossy || |body| % 2 != 0) == (lossy || DecodeUnits(units[i..]).lossy)
    {
      DecodeStep(units, i, text);
      var next := NextScalar(units[i..]);
      match next.value {
        case Some(c) =>
          text := text + [c];
        case None =>
          text := text + [REPLACEMENT];
          lossy := true;
      }
      i := i + next.used;
    }
    DecodeDone(units, text);
    return StorageValue(text, raw, Utf16Le, lossy);
  }

  function EncodeScalar(c: char): seq<u16> {
    var v := c as int;
    if v < 0x1_0000 then [v]
    else [0xD800 + (v - 0x1_0000) / 0x400, 0xDC00 + (v - 0x1_0000) % 0x400]
  }

  function EncodeUnits(text: string): seq<u16> {
    if text == "" then [] else EncodeScalar(text[0]) + EncodeUnits(text[1..])
  }

  /** A surrogate without its partner next to it. */
  predicate Unpaired(us: seq<u16>, i: nat)
    requires i < |us|
  {
    || (IsHigh(us[i]) && !(i + 1 < |us| && IsLow(us[i + 1])))
    || (IsLow(us[i]) && !(i > 0 && IsHigh(us[i - 1])))
  }

  lemma EncodeNext(us: seq<u16>)
    requires us != []
    ensures var s := NextScalar(us);
            s.value.Some? ==> EncodeScalar(s.value.value) == us[..s.used]
  {
    if IsHigh(us[0]) && |us| > 1 && IsLow(us[1]) {
      var high: int, low: int := us[0] as int - 0xD800, us[1] as int - 0xDC00;
      assert (high * 0x400 + low) / 0x400 == high && (high * 0x400 + low) % 0x400 == low;
    }
  }

  lemma UnpairedBehind(us: seq<u16>, i: nat)
    requires us != [] && NextScalar(us).used <= i < |us|
    ensures Unpaired(us, i) <==> Unpaired(us[NextScalar(us).used..], i - NextScalar(us).used)
  {
  }

  lemma UnpairedFront(us: seq<u16>, i: nat)
    requires us != [] && i < NextScalar(us).used
    ensures Unpaired(us, i) <==> NextScalar(us).value.None?
  {
  }

  /** Re-encoding decoded text gives the code units back, except that exactly the unpaired
      surrogates have become U+FFFD; `lossy` tells whether there was one. */
  lemma {:induction false} DecodeUnitsExact(us: seq<u16>)
    ensures var d := DecodeUnits(us);
            && |EncodeUnits(d.text)| == |us|
            && (forall i :: 0 <= i < |us| ==> EncodeUnits(d.text)[i] == if Unpaired(us, i) then 0xFFFD else us[i])
            && (d.lossy <==> exists i :: 0 <= i < |us| && Unpaired(us, i))
  {
    hide Unpaired, NextScalar, EncodeScalar;
    if us != [] {
      var s, d := NextScalar(us), DecodeUnits(us);
      NextUsed(us);
      var tail := us[s.used..];
      DecodeUnitsExact(tail);
      EncodeNext(us);
      EncodeReplacement();
      var rest := EncodeUnits(DecodeUnits(tail).text);
      assert d.text[1..] == DecodeUnits(tail).text;
      assert EncodeUnits(d.text) == (if s.value.Some? then us[..s.used] else [0xFFFD]) + rest;
      forall i | 0 <= i < |us|
        ensures EncodeUnits(d.text)[i] == if Unpaired(us, i) then 0xFFFD else us[i]
        ensures Unpaired(us, i) <==> if i < s.used then s.value.None? else Unpaired(tail, i - s.used)
      {
        if i < s.used {
          UnpairedFront(us, i);
        } else {
          UnpairedBehind(us, i);
        }
      }
      if d.lossy {
        if s.value.None? {
          assert Unpaired(us, 0);
        } else {
          var i :| 0 <= i < |tail| && Unpaired(tail, i);
          assert Unpaired(us, i + s.used);
        }
      }
    }
  }

  lemma NextUsed(us: seq<u16>)
    requires us != []
    ensures 1 <= NextScalar(us).used <= |us|
    ensures NextScalar(us).value.None? ==> NextScalar(us).used == 1
  {
  }

  lemma EncodeReplacement()
    ensures EncodeScalar(REPLACEMENT) == [0xFFFD]
  {
  }

  function UnitBytes(us: seq<u16>): (s: bytes)
    ensures |s| == 2 * |us|
  {
    seq(2 * |us|, i requires 0 <= i < 2 * |us| => if i % 2 == 0 then us[i / 2] % 256 else us[i / 2] / 256)
  }

  function EncodeUtf16Le(text: string): bytes {
    UnitBytes(EncodeUnits(text))
  }

  lemma UnitSplits(low: int, high: int)
    requires 0 <= low < 256 && 0 <= high < 256
    ensures Unit(low, high) % 256 == low && Unit(low, high) / 256 == high
  {
  }

  lemma UnitBytesOfUnits(body: bytes)
    requires |body| % 2 == 0
    ensures UnitBytes(Units(body)) == body
  {
    hide Unit;
    forall i | 0 <= i < |body|
      ensures UnitBytes(Units(body))[i] == body[i]
    {
      var k := i / 2;
      UnitSplits(body[2 * k], body[2 * k + 1]);
      assert Units(body)[k] == Unit(body[2 * k], body[2 * k + 1]);
    }
  }

  /** A UTF-16-LE decode is lossy iff the body has odd length or an unpaired surrogate; when it is
      not, encoding the text gives the body back. */
  lemma Utf16Exact(body: bytes, raw: bytes)
    ensures var v := Utf16Value(body, raw);
            && v.raw == raw
            && (v.lossy <==> |body| % 2 != 0 || exists i :: 0 <= i < |Units(body)| && Unpaired(Units(body), i))
            && |EncodeUnits(v.text)| == |body| / 2
            && (!v.lossy ==> EncodeUtf16Le(v.text) == body)
  {
    hide Unpaired, EncodeUnits, UnitBytes, Units;
    DecodeUnitsExact(Units(body));
    var v := Utf16Value(body, raw);
    if !v.lossy {
      assert EncodeUnits(v.text) == Units(body);
      UnitBytesOfUnits(body);
    }
  }

  // ---------------------------------------------------------------- Latin-1

  /** Every byte is one code point. */
  function Latin1Text(body: bytes): (text: string)
    ensures |text| == |body|
  {
    seq(|body|, i requires 0 <= i < |body| => body[i] as char)
  }

  predicate IsLatin1(text: string) {
    forall i :: 0 <= i < |text| ==> text[i] as int < 256
  }

  function EncodeLatin1(text: string): bytes
    requires IsLatin1(text)
  {
    seq(|text|, i requires 0 <= i < |text| => text[i] as int)
  }

  lemma Latin1RoundTrip(body: bytes)
    ensures IsLatin1(Latin1Text(body)) && EncodeLatin1(Latin1Text(body)) == body
  {
  }

  // ---------------------------------------------------------------- prefixed values

  function Latin1Value(body: bytes, raw: bytes): StorageValue {
    StorageValue(Latin1Text(body), raw, Latin1, false)
  }

  function TypePrefixedValue(lossyText: LossyText, raw: bytes): StorageValue {
    if raw == [] then EMPTY_VALUE
    else if raw[0] == 0 then Utf16Value(raw[1..], raw)
    else if raw[0] == 1 then Latin1Value(raw[1..], raw)
    else StorageValue(lossyText(raw), raw, Unknown(raw[0]), true)
  }

  function SessionValue(raw: bytes): StorageValue {
    if raw == [] then EMPTY_VALUE
    else if raw[0] == 0 then Utf16Value(raw[1..], raw)
    else if raw[0] == 1 then Latin1Value(raw[1..], raw)
    else Utf16Value(raw, raw)
  }

  method DecodeTypePrefixed(lossyText: LossyText, raw: bytes) returns (v: StorageValue)
    ensures v == TypePrefixedValue(lossyText, raw)
  {
    hide Utf16Value, Latin1Text;
    if raw == [] {
      return EMPTY_VALUE;
    }
    if raw[0] == 0 {
      v := DecodeUtf16Le(raw[1..], raw);
    } else if raw[0] == 1 {
      v := Latin1Value(raw[1..], raw);
    } else {
      v := StorageValue(lossyText(raw), raw, Unknown(raw[0]), true);
    }
  }

  method DecodeSessionValue(raw: bytes) returns (v: StorageValue)
    ensures v == SessionValue(raw)
  {
    hide Utf16Value, Latin1Text;
    if raw == [] {
      return EMPTY_VALUE;
    }
    if raw[0] == 0 {
      v := DecodeUtf16Le(raw[1..], raw);
    } else if raw[0] == 1 {
      v := Latin1Value(raw[1..], raw);
    } else {
      v := DecodeUtf16Le(raw, raw);
    }
  }

  /** What a clean decode came from, by encoding and text alone. */
  function EncodeValue(encoding: Encoding, text: string): bytes
    requires encoding == Latin1 ==> IsLatin1(text)
  {
    match encoding
    case Utf16Le => [0] + EncodeUtf16Le(text)
    case Latin1 => [1] + EncodeLatin1(text)
    case Empty => []
    case Unknown(prefix) => [prefix]
  }

  /** The raw bytes are kept in every case, and a value not marked lossy can be rebuilt from its
      encoding and text alone; it is marked lossy iff its prefix is unknown or its UTF-16 body defective. */
  lemma TypePrefixedExact(lossyText: LossyText, raw: bytes)
    ensures var v := TypePrefixedValue(lossyText, raw);
            && v.raw == raw
            && (v.encoding == Latin1 ==> IsLatin1(v.text))
            && (!v.lossy ==> EncodeValue(v.encoding, v.text) == raw)
            && (v.lossy <==> raw != [] && raw[0] != 1 && (raw[0] == 0 ==> Utf16Value(raw[1..], raw).lossy))
  {
    hide EncodeUtf16Le, Latin1Text, IsLatin1;
    if raw != [] {
      assert raw == [raw[0]] + raw[1..];
      Utf16Exact(raw[1..], raw);
      Latin1RoundTrip(raw[1..]);
    }
  }

  // ---------------------------------------------------------------- what every prefix decodes to

  /** The text spells the code units of the body, a unit without its partner as U+FFFD; any of these
      and an odd last byte make the value lossy. */
  ghost predicate IsUtf16Of(v: StorageValue, body: bytes) {
    && v.encoding == Utf16Le
    && |EncodeUnits(v.text)| == |body| / 2
    && (forall k :: 0 <= k < |body| / 2 ==>
          EncodeUnits(v.text)[k] == if Unpaired(Units(body), k) then 0xFFFD else Unit(body[2 * k], body[2 * k + 1]))
    && (v.lossy <==> |body| % 2 == 1 || exists k :: 0 <= k < |Units(body)| && Unpaired(Units(body), k))
  }

  /** The text has one character of the same number for every byte of the body. */
  predicate IsLatin1Of(v: StorageValue, body: bytes) {
    && v.encoding == Latin1 && !v.lossy && |v.text| == |body|
    && forall k :: 0 <= k < |body| ==> v.text[k] as int == body[k]
  }

  lemma Utf16Decoded(body: bytes, raw: bytes)
    ensures IsUtf16Of(Utf16Value(body, raw), body) && Utf16Value(body, raw).raw == raw
  {
    hide Unpaired, EncodeUnits, Unit;
    DecodeUnitsExact(Units(body));
  }

  lemma Latin1Decoded(body: bytes, raw: bytes)
    ensures IsLatin1Of(Latin1Value(body, raw), body) && Latin1Value(body, raw).raw == raw
  {
  }

  /** Every type-prefixed value: nothing for no bytes, UTF-16 behind a 0, Latin-1 behind a 1, and
      otherwise the lossy text of all bytes, marked with the prefix. */
  lemma TypePrefixedDecoded(lossyText: LossyText, raw: bytes)
    ensures var v := TypePrefixedValue(lossyText, raw);
            && v.raw == raw
            && (raw == [] ==> v == StorageValue("", [], Empty, false))
            && (raw != [] && raw[0] == 0 ==> IsUtf16Of(v, raw[1..]))
            && (raw != [] && raw[0] == 1 ==> IsLatin1Of(v, raw[1..]))
            && (raw != [] && raw[0] > 1 ==> v == StorageValue(lossyText(raw), raw, Unknown(raw[0]), true))
  {
    hide IsUtf16Of, IsLatin1Of, Utf16Value, Latin1Value;
    if raw != [] {
      Utf16Decoded(raw[1..], raw);
      Latin1Decoded(raw[1..], raw);
    }
  }

  /** Every session value: nothing for no bytes, Latin-1 behind a 1, otherwise UTF-16, behind a 0 or bare. */
  lemma SessionDecoded(raw: bytes)
    ensures var v := SessionValue(raw);
            && v.raw == raw
            && (raw == [] ==> v == StorageValue("", [], Empty, false))
            && (raw != [] && raw[0] == 0 ==> IsUtf16Of(v, raw[1..]))
            && (raw != [] && raw[0] == 1 ==> IsLatin1Of(v, raw[1..]))
            && (raw != [] && raw[0] > 1 ==> IsUtf16Of(v, raw))
  {
    hide IsUtf16Of, IsLatin1Of, Utf16Value, Latin1Value;
    if raw != [] {
      Utf16Decoded(raw[1..], raw);
      Utf16Decoded(raw, raw);
      Latin1Decoded(raw[1..], raw);
    }
  }

  /** A session value with and without its UTF-16 prefix decodes alike, so encoding and text do not
      determine its raw bytes; only the retained raw bytes do. */
  lemma SessionPrefixAmbiguous(body: bytes)
    requires body != [] && body[0] > 1
    ensures var bare, prefixed := SessionValue(body), SessionValue([0] + body);
            && bare.raw != prefixed.raw
            && bare == prefixed.(raw := body)
  {
    assert ([0] + body)[1..] == body;
    assert |[0] + body| != |body|;
  }

  /** One is the other behind an explicit UTF-16 prefix. */
  predicate PrefixedForm(a: bytes, b: bytes) {
    b != [] && b[0] > 1 && a == [0] + b
  }

  lemma CleanSession(raw: bytes)
    requires !SessionValue(raw).lossy && raw != []
    ensures var v := SessionValue(raw);
            if raw[0] == 1 then v.encoding == Latin1 && IsLatin1(v.text) && EncodeLatin1(v.text) == raw[1..]
            else v.encoding == Utf16Le && EncodeUtf16Le(v.text) == if raw[0] == 0 then raw[1..] else raw
  {
    hide EncodeUtf16Le, Latin1Text, EncodeLatin1, IsLatin1, Utf16Value;
    if raw[0] == 1 {
      Latin1RoundTrip(raw[1..]);
    } else {
      var body := if raw[0] == 0 then raw[1..] else raw;
      Utf16Exact(body, raw);
      Utf16Tag(body, raw);
    }
  }

  lemma Utf16Tag(body: bytes, raw: bytes)
    ensures Utf16Value(body, raw).encoding == Utf16Le
  {
  }

  // ---------------------------------------------------------------- values that look alike

  /** All that a rendering without the raw bytes shows of a session value. */
  predicate SameView(a: bytes, b: bytes) {
    SessionValue(a) == SessionValue(b).(raw := a)
  }

  lemma SessionRaw(raw: bytes)
    ensures SessionValue(raw).raw == raw
  {
  }

  lemma PrefixedLooksAlike(a: bytes, b: bytes)
    requires PrefixedForm(a, b)
    ensures SameView(a, b) && SameView(b, a)
  {
    hide Utf16Value;
    SessionPrefixAmbiguous(b);
    SessionRaw(a);
    SessionRaw(b);
  }

  lemma CleanAlike(a: bytes, b: bytes)
    requires !SessionValue(a).lossy && SameView(a, b)
    ensures a == b || PrefixedForm(a, b) || PrefixedForm(b, a)
  {
    hide EncodeUtf16Le, Latin1Text, EncodeLatin1, IsLatin1, Utf16Value;
    if a != [] {
      CleanSession(a);
      assert a == [a[0]] + a[1..];
    }
    if b != [] {
      CleanSession(b);
      assert b == [b[0]] + b[1..];
    }
  }

  /** What looks like a session value whose decode lost nothing is the value itself or its form with
      or without the optional prefix, and these do look alike. */
  lemma SessionTextDeterminesUpToPrefix(a: bytes, b: bytes)
    requires !SessionValue(a).lossy
    ensures SameView(a, b) <==> a == b || PrefixedForm(a, b) || PrefixedForm(b, a)
  {
    hide SessionValue;
    if SameView(a, b) {
      CleanAlike(a, b);
    } else if PrefixedForm(a, b) {
      PrefixedLooksAlike(a, b);
    } else if PrefixedForm(b, a) {
      PrefixedLooksAlike(b, a);
    } else if a == b {
      SessionRaw(a);
    }
  }

  /** The same text when an unpaired surrogate is another one of its kind. */
  lemma {:induction false} UnpairedLooksAlike(us: seq<u16>, i: nat, u: u16)
    requires i < |us| && Unpaired(us, i) && IsHigh(u) == IsHigh(us[i]) && IsLow(u) == IsLow(us[i])
    ensures DecodeUnits(us[i := u]) == DecodeUnits(us)
    decreases |us|
  {
    hide NextScalar, Unpaired;
    var other := us[i := u];
    SameScalar(us, i, u);
    NextUsed(us);
    var used := NextScalar(us).used;
    if i < used {
      assert other[1..] == us[1..];
    } else {
      UnpairedBehind(us, i);
      UnpairedLooksAlike(us[used..], i - used, u);
      assert other[used..] == us[used..][i - used := u];
    }
  }

  lemma SameScalar(us: seq<u16>, i: nat, u: u16)
    requires i < |us| && Unpaired(us, i) && IsHigh(u) == IsHigh(us[i]) && IsLow(u) == IsLow(us[i])
    ensures NextScalar(us[i := u]) == NextScalar(us)
    ensures i < NextScalar(us).used ==> i == 0 && NextScalar(us) == Scalar(None, 1)
  {
  }

  /** Another byte of the same length that differs. */
  function Flip(b: byte): (c: byte)
    ensures c != b
  {
    (b + 1) % 256
  }

  lemma LowByteKeepsKind(low: byte, high: byte)
    ensures IsHigh(Unit(Flip(low), high)) == IsHigh(Unit(low, high))
    ensures IsLow(Unit(Flip(low), high)) == IsLow(Unit(low, high))
  {
  }

  lemma UnitsUpdate(body: bytes, i: nat, b: byte)
    requires i < |body| / 2
    ensures Units(body[2 * i := b]) == Units(body)[i := Unit(b, body[2 * i + 1])]
  {
    hide Unit;
  }

  lemma UnitsOfOdd(body: bytes, b: byte)
    requires |body| % 2 == 1
    ensures Units(body[|body| - 1 := b]) == Units(body) == Units(body[..|body| - 1])
  {
    hide Unit;
  }

  /** Every lossy UTF-16 body has a twin: another body of the same length with the same text. */
  lemma LossyTwin(body: bytes, raw: bytes) returns (twin: bytes)
    requires Utf16Value(body, raw).lossy
    ensures twin != body && Utf16Value(twin, raw) == Utf16Value(body, raw)
  {
    hide Unit, DecodeUnits, Unpaired, Units, EncodeUtf16Le, EncodeUnits;
    Utf16Exact(body, raw);
    if |body| % 2 == 1 {
      var last := |body| - 1;
      twin := body[last := Flip(body[last])];
      UnitsOfOdd(body, twin[last]);
      assert twin[last] != body[last];
    } else {
      var i :| 0 <= i < |Units(body)| && Unpaired(Units(body), i);
      twin := body[2 * i := Flip(body[2 * i])];
      UnitsUpdate(body, i, twin[2 * i]);
      UnitAt(body, i);
      LowByteKeepsKind(body[2 * i], body[2 * i + 1]);
      UnpairedLooksAlike(Units(body), i, Unit(twin[2 * i], body[2 * i + 1]));
      assert twin[2 * i] != body[2 * i];
    }
  }

  lemma UnitAt(body: bytes, i: nat)
    requires i < |body| / 2
    ensures Units(body)[i] == Unit(body[2 * i], body[2 * i + 1])
  {
  }

  /** A value that is the bare or the prefixed form of another one. */
  predicate HasOtherForm(a: bytes) {
    (a != [] && a[0] > 1) || (|a| > 1 && a[0] == 0 && a[1] > 1)
  }

  lemma OtherFormLooksAlike(a: bytes) returns (b: bytes)
    requires HasOtherForm(a)
    ensures b != a && SameView(a, b)
  {
    if a[0] > 1 {
      b := [0] + a;
      PrefixedLooksAlike(b, a);
      assert |b| != |a|;
    } else {
      b := a[1..];
      assert a == [0] + b;
      PrefixedLooksAlike(a, b);
    }
  }

  lemma LossyLooksAlike(a: bytes) returns (b: bytes)
    requires SessionValue(a).lossy && !HasOtherForm(a)
    ensures b != a && SameView(a, b)
  {
    hide Utf16Value;
    assert a != [] && a[0] == 0;
    var twin := LossyTwin(a[1..], a);
    b := [0] + twin;
    assert a == [0] + a[1..] && b[1..] == twin;
    assert b != a;
    Utf16SameView(twin, a, b);
  }

  lemma Utf16SameView(body: bytes, a: bytes, b: bytes)
    ensures Utf16Value(body, a) == Utf16Value(body, b).(raw := a)
  {
  }

  /** A session value can be told from every other one by encoding, text and lossy flag iff its
      decode lost nothing and it is not one of a bare and a prefixed form. */
  lemma ViewDeterminesIff(a: bytes)
    ensures (forall b: bytes :: SameView(a, b) ==> b == a) <==> !SessionValue(a).lossy && !HasOtherForm(a)
  {
    hide SessionValue;
    if HasOtherForm(a) {
      var b := OtherFormLooksAlike(a);
      assert SameView(a, b);
    } else if SessionValue(a).lossy {
      var b := LossyLooksAlike(a);
      assert SameView(a, b);
    } else {
      forall b: bytes | SameView(a, b)
        ensures b == a
      {
        SessionTextDeterminesUpToPrefix(a, b);
      }
    }
  }

  // ---------------------------------------------------------------- any text, from its encoding

  lemma EncodeScalarDecodes(c: char, rest: seq<u16>)
    ensures NextScalar(EncodeScalar(c) + rest) == Scalar(Some(c), |EncodeScalar(c)|)
  {
    var v := c as int;
    if v >= 0x1_0000 {
      var w := v - 0x1_0000;
      assert w / 0x400 * 0x400 + w % 0x400 == w;
      assert w / 0x400 < 0x400;
    }
  }

  lemma EncodeScalarShape(c: char)
    ensures 1 <= |EncodeScalar(c)| <= 2
  {
  }

  /** Encoding any text and decoding it gives the text, and loses nothing. */
  lemma {:induction false} TextRoundTrip(text: string)
    ensures DecodeUnits(EncodeUnits(text)) == Decoded(text, false)
  {
    hide EncodeScalar, NextScalar;
    if text == "" {
    } else {
      var first, rest := EncodeScalar(text[0]), EncodeUnits(text[1..]);
      EncodeScalarShape(text[0]);
      EncodeScalarDecodes(text[0], rest);
      TextRoundTrip(text[1..]);
      assert (first + rest)[|first|..] == rest;
      assert text == [text[0]] + text[1..];
    }
  }

  lemma UnitsOfUnitBytes(us: seq<u16>)
    ensures Units(UnitBytes(us)) == us
  {
  }

  lemma Utf16OfText(text: string, raw: bytes)
    ensures Utf16Value(EncodeUtf16Le(text), raw) == StorageValue(text, raw, Utf16Le, false)
  {
    hide EncodeUnits, DecodeUnits, Units, UnitBytes;
    TextRoundTrip(text);
    UnitsOfUnitBytes(EncodeUnits(text));
    EvenLength(EncodeUnits(text));
  }

  lemma EvenLength(us: seq<u16>)
    ensures |UnitBytes(us)| % 2 == 0
  {
  }

  /** One more or one less odd byte does not change the text. */
  lemma OddByteTwin(body: bytes, raw: bytes) returns (twin: bytes)
    ensures |twin| != |body| && Utf16Value(twin, raw).text == Utf16Value(body, raw).text
  {
    hide Units, DecodeUnits;
    if |body| % 2 == 1 {
      twin := body[..|body| - 1];
      UnitsOfOdd(body, 0);
    } else {
      twin := body + [0];
      UnitsOfOdd(twin, 0);
      assert twin[..|body|] == body;
    }
  }

  /** The text of a prefixed value alone never tells it from every other one: an unprefixed or
      Latin-1 value has a UTF-16 form, a UTF-16 value one more or one less odd byte. */
  lemma TextNeverDetermines(lossyText: LossyText, raw: bytes) returns (other: bytes)
    ensures other != raw
    ensures TypePrefixedValue(lossyText, other).text == TypePrefixedValue(lossyText, raw).text
  {
    hide EncodeUtf16Le, Latin1Text, Utf16Value;
    if raw != [] && raw[0] == 0 {
      var twin := OddByteTwin(raw[1..], raw);
      other := [0] + twin;
      assert other[1..] == twin && |other| == 1 + |twin|;
      Utf16SameView(twin, other, raw);
    } else {
      var text := TypePrefixedValue(lossyText, raw).text;
      other := [0] + EncodeUtf16Le(text);
      Utf16OfText(text, other);
      assert other[1..] == EncodeUtf16Le(text);
      assert other[0] == 0;
    }
  }
}
