/** The JSONL view of raw records, and the parser that reads it back (RFC 8259, sections 6 and 7). */
module Jsonl {
  import opened Bytes
  import opened Sequences

  // ---------------------------------------------------------------- rendering

  const HEX_DIGITS := "0123456789abcdef"

  function HexDigit(n: nat): char
    requires n < 16
  {
    HEX_DIGITS[n]
  }

  function HexByte(b: byte): string {
    [HexDigit(b / 16), HexDigit(b % 16)]
  }

  function Hex(s: bytes): string {
    if s == [] then "" else HexByte(s[0]) + Hex(s[1..])
  }

  method RenderHex(s: bytes) returns (text: string)
    ensures text == Hex(s)
  {
    hide HexByte;
    text := "";
    assert s[0..] == s;
    for i := 0 to |s|
      invariant text + Hex(s[i..]) == Hex(s)
    {
      text := text + HexByte(s[i]);
      assert s[i..][1..] == s[i + 1..];
    }
  }

  /** Quotes, backslashes and the three usual controls by name, other controls as four hex digits. */
  function EscapeChar(c: char): string {
    if c == '"' then "\\\""
    else if c == '\\' then "\\\\"
    else if c == '\n' then "\\n"
    else if c == '\r' then "\\r"
    else if c == '\t' then "\\t"
    else if c < ' ' then "\\u00" + HexByte(c as int)
    else [c]
  }

  function Escape(s: string): string {
    if s == "" then "" else EscapeChar(s[0]) + Escape(s[1..])
  }

  function JsonString(s: string): string {
    "\"" + Escape(s) + "\""
  }

  method RenderJsonString(s: string) returns (text: string)
    ensures text == JsonString(s)
  {
    hide EscapeChar;
    text := "\"";
    assert s[0..] == s;
    for i := 0 to |s|
      invariant text + Escape(s[i..]) == "\"" + Escape(s)
    {
      text := text + EscapeChar(s[i]);
      assert s[i..][1..] == s[i + 1..];
    }
    text := text + "\"";
  }

  function Decimal(n: nat): string {
    if n < 10 then [HexDigit(n)] else Decimal(n / 10) + [HexDigit(n % 10)]
  }

  function BoolText(b: bool): string {
    if b then "true" else "false"
  }

  const ORIGIN_FIELD := "{\"origin_file\":"
  const SEQUENCE_FIELD := ",\"seq\":"
  const DELETED_FIELD := ",\"deleted\":"
  const KEY_FIELD := ",\"key_hex\":"
  const VALUE_FIELD := ",\"value_hex\":"

  /** The line's frame around five rendered fields. */
  function Line(origin: string, sequence: string, deleted: string, key: string, value: string): string {
    ORIGIN_FIELD + origin
    + (SEQUENCE_FIELD + sequence + (DELETED_FIELD + deleted + (KEY_FIELD + key + (VALUE_FIELD + value + "}"))))
  }

  /** One record as one line, its newline aside. */
  function RawLine(r: Record): string {
    Line(JsonString(r.origin), Decimal(r.sequence), BoolText(r.deleted),
         JsonString(Hex(r.key)), JsonString(Hex(r.value)))
  }

  function RawLines(rs: seq<Record>): string {
    if rs == [] then "" else RawLine(rs[0]) + "\n" + RawLines(rs[1..])
  }

  method RenderRaw(rs: seq<Record>, out: string) returns (text: string)
    ensures text == out + RawLines(rs)
  {
    hide Line, JsonString, Hex, Decimal;
    text := out;
    assert rs[0..] == rs;
    for i := 0 to |rs|
      invariant text + RawLines(rs[i..]) == out + RawLines(rs)
    {
      var r := rs[i];
      var origin := RenderJsonString(r.origin);
      var key := RenderHex(r.key);
      var jsonKey := RenderJsonString(key);
      var value := RenderHex(r.value);
      var jsonValue := RenderJsonString(value);
      assert rs[i..][1..] == rs[i + 1..];
      text := text + Line(origin, Decimal(r.sequence), BoolText(r.deleted), jsonKey, jsonValue) + "\n";
    }
  }

  // ---------------------------------------------------------------- reading it back

  datatype Token<T> = Token(value: T, rest: string)

  function Expect(literal: string, s: string): Option<string> {
    if literal <= s then Some(s[|literal|..]) else None
  }

  function DigitValue(c: char): Option<nat> {
    if '0' <= c <= '9' then Some(c as int - '0' as int)
    else if 'a' <= c <= 'f' then Some(c as int - 'a' as int + 10)
    else if 'A' <= c <= 'F' then Some(c as int - 'A' as int + 10)
    else None
  }

  function HexPair(s: string): Option<byte>
    requires |s| >= 2
  {
    var high, low := DigitValue(s[0]), DigitValue(s[1]);
    if high.Some? && low.Some? then Some(PairValue(high.value, low.value)) else None
  }

  function PairValue(high: nat, low: nat): byte
    requires high < 16 && low < 16
  {
    high * 16 + low
  }

  /** The code unit of four hex digits. */
  function UnicodeEscape(s: string): Option<nat>
    requires |s| >= 4
  {
    var high, low := HexPair(s), HexPair(s[2..]);
    if high.Some? && low.Some? then Some(high.value * 256 + low.value) else None
  }

  /** The character an escape sequence stands for, the backslash already read. */
  function ReadEscape(s: string): Option<Token<char>> {
    if s == "" then None
    else if s[0] == '"' || s[0] == '\\' || s[0] == '/' then Some(Token(s[0], s[1..]))
    else if s[0] == 'b' then Some(Token('\U{8}', s[1..]))
    else if s[0] == 'f' then Some(Token('\U{C}', s[1..]))
    else if s[0] == 'n' then Some(Token('\n', s[1..]))
    else if s[0] == 'r' then Some(Token('\r', s[1..]))
    else if s[0] == 't' then Some(Token('\t', s[1..]))
    else if s[0] == 'u' && |s| >= 5 then ReadUnicode(s[1..])
    else None
  }

  /** A code unit outside the surrogates, or a surrogate pair of two escapes. */
  function ReadUnicode(s: string): Option<Token<char>>
    requires |s| >= 4
  {
    var unit := UnicodeEscape(s);
    if unit.None? then None
    else if unit.value < 0xD800 || 0xE000 <= unit.value < 0x1_0000 then Some(Token(unit.value as char, s[4..]))
    else if unit.value < 0xDC00 && |s| >= 10 && s[4] == '\\' && s[5] == 'u' then
      var low := UnicodeEscape(s[6..]);
      if low.Some? && 0xDC00 <= low.value < 0xE000 then
        Some(Token(SurrogatePair(unit.value, low.value), s[10..]))
      else None
    else None
  }

  /** The text of a string up to its closing quote; bare controls are not allowed. */
  function ReadBody(s: string): (r: Option<Token<string>>)
    decreases |s|
  {
    if s == "" || s[0] < ' ' then None
    else if s[0] == '"' then Some(Token("", s[1..]))
    else if s[0] == '\\' then
      match ReadEscape(s[1..])
      case None => None
      case Some(c) => if |c.rest| < |s| then Follow(c.value, ReadBody(c.rest)) else None
    else Follow(s[0], ReadBody(s[1..]))
  }

  function Follow(c: char, r: Option<Token<string>>): Option<Token<string>> {
    match r
    case None => None
    case Some(t) => Some(Token([c] + t.value, t.rest))
  }

  function ReadString(s: string): Option<Token<string>> {
    if s == "" || s[0] != '"' then None else ReadBody(s[1..])
  }

  function ReadDigits(s: string, acc: nat): Token<nat> {
    if s != "" && '0' <= s[0] <= '9' then ReadDigits(s[1..], 10 * acc + (s[0] as int - '0' as int)) else Token(acc, s)
  }

  function ReadNumber(s: string): Option<Token<nat>> {
    if s == "" || !('0' <= s[0] <= '9') then None else Some(ReadDigits(s, 0))
  }

  function ReadBool(s: string): Option<Token<bool>> {
    if "true" <= s then Some(Token(true, s[4..]))
    else if "false" <= s then Some(Token(false, s[5..]))
    else None
  }

  function Unhex(s: string): Option<bytes> {
    if s == "" then Some([])
    else if |s| == 1 then None
    else
      var b, rest := HexPair(s), Unhex(s[2..]);
      if b.Some? && rest.Some? then Some([b.value] + rest.value) else None
  }

  function ReadHexString(s: string): Option<Token<bytes>> {
    match ReadString(s)
    case None => None
    case Some(t) =>
      match Unhex(t.value)
      case None => None
      case Some(b) => Some(Token(b, t.rest))
  }

  datatype RawView = RawView(origin: string, sequence: nat, deleted: bool, key: bytes, value: bytes)

  /** A field: its name, then its value. */
  function Field<T>(name: string, read: string -> Option<Token<T>>, s: string): Option<Token<T>> {
    match Expect(name, s)
    case None => None
    case Some(rest) => read(rest)
  }

  function ReadLine(s: string): Option<RawView> {
    var origin := Field(ORIGIN_FIELD, ReadString, s);
    if origin.None? then None
    else
      var sequence := Field(SEQUENCE_FIELD, ReadNumber, origin.value.rest);
      if sequence.None? then None
      else
        var deleted := Field(DELETED_FIELD, ReadBool, sequence.value.rest);
        if deleted.None? then None
        else
          var key := Field(KEY_FIELD, ReadHexString, deleted.value.rest);
          if key.None? then None
          else
            var value := Field(VALUE_FIELD, ReadHexString, key.value.rest);
            if value.None? || value.value.rest != "}" then None
            else
              Some(RawView(origin.value.value, sequence.value.value, deleted.value.value,
                           key.value.value, value.value.value))
  }

  /** The newline-terminated lines of a text. */
  function Lines(text: string, line: string): seq<string>
    decreases |text|
  {
    if text == "" then (if line == "" then [] else [line])
    else if text[0] == '\n' then [line] + Lines(text[1..], "")
    else Lines(text[1..], line + [text[0]])
  }

  // ---------------------------------------------------------------- strings

  lemma HexDigitValue(n: nat)
    requires n < 16
    ensures DigitValue(HexDigit(n)) == Some(n)
    ensures HexDigit(n) >= '0' && HexDigit(n) != '"' && HexDigit(n) != '\\'
    ensures n < 10 ==> '0' <= HexDigit(n) <= '9' && HexDigit(n) as int - '0' as int == n
  {
  }

  lemma HexByteValue(b: byte, rest: string)
    ensures HexPair(HexByte(b) + rest) == Some(b)
  {
    HexDigitValue(b / 16);
    HexDigitValue(b % 16);
  }

  lemma UnicodeControl(b: byte, rest: string)
    ensures UnicodeEscape("00" + HexByte(b) + rest) == Some(b)
    ensures ("00" + HexByte(b) + rest)[4..] == rest
  {
    hide HexPair;
    var s := "00" + HexByte(b) + rest;
    HexByteValue(b, rest);
    HexByteValue(0, HexByte(b) + rest);
    assert s == HexByte(0) + (HexByte(b) + rest);
    assert s[2..] == HexByte(b) + rest;
  }

  lemma HexByteLength(b: byte)
    ensures |HexByte(b)| == 2
  {
  }

  predicate IsNamed(c: char) {
    c == '"' || c == '\\' || c == '\n' || c == '\r' || c == '\t'
  }

  lemma ReadNamed(c: char, rest: string)
    requires IsNamed(c)
    ensures ReadBody(EscapeChar(c) + rest) == Follow(c, ReadBody(rest))
  {
    var s := EscapeChar(c) + rest;
    assert s[1..][1..] == rest;
  }

  lemma ReadControl(c: char, rest: string)
    requires c < ' ' && !IsNamed(c)
    ensures ReadBody(EscapeChar(c) + rest) == Follow(c, ReadBody(rest))
  {
    hide HexByte, UnicodeEscape;
    HexByteLength(c as int);
    var t := "00" + HexByte(c as int) + rest;
    UnicodeControl(c as int, rest);
    assert EscapeChar(c) + rest == "\\" + ("u" + t);
    ReadUnicodeControl(c as int, t);
    ReadBehindBackslash("u" + t);
  }

  lemma ReadUnicodeControl(v: nat, t: string)
    requires v < 0x20 && |t| >= 4 && UnicodeEscape(t) == Some(v)
    ensures ReadEscape("u" + t) == Some(Token(v as char, t[4..]))
  {
    hide UnicodeEscape;
    assert ("u" + t)[1..] == t;
  }

  lemma ReadBehindBackslash(s: string)
    requires ReadEscape(s).Some? && |ReadEscape(s).value.rest| <= |s|
    ensures ReadBody("\\" + s) == Follow(ReadEscape(s).value.value, ReadBody(ReadEscape(s).value.rest))
  {
    hide ReadEscape;
    assert ("\\" + s)[1..] == s;
  }

  lemma EscapePrintable(c: char)
    ensures forall i :: 0 <= i < |EscapeChar(c)| ==> EscapeChar(c)[i] >= ' '
  {
    if c < ' ' {
      HexDigitValue(c as int / 16);
      HexDigitValue(c as int % 16);
    }
  }

  /** An escaped character is read back as itself, and nothing else of the text is touched. */
  lemma ReadEscapedChar(c: char, rest: string)
    ensures ReadBody(EscapeChar(c) + rest) == Follow(c, ReadBody(rest))
  {
    if IsNamed(c) {
      ReadNamed(c, rest);
    } else if c < ' ' {
      ReadControl(c, rest);
    } else {
      assert (EscapeChar(c) + rest)[1..] == rest;
    }
  }

  lemma {:induction false} ReadEscaped(s: string, rest: string)
    ensures ReadBody(Escape(s) + "\"" + rest) == Some(Token(s, rest))
    ensures forall i :: 0 <= i < |Escape(s)| ==> Escape(s)[i] >= ' '
  {
    hide EscapeChar;
    if s == "" {
      assert Escape(s) + "\"" + rest == "\"" + rest;
      assert ("\"" + rest)[1..] == rest;
    } else {
      var tail := Escape(s[1..]) + "\"" + rest;
      assert Escape(s) + "\"" + rest == EscapeChar(s[0]) + tail;
      hide ReadBody;
      ReadEscapedChar(s[0], tail);
      EscapePrintable(s[0]);
      ReadEscaped(s[1..], rest);
      assert s == [s[0]] + s[1..];
    }
  }

  /** A rendered string reads back as itself; its closing quote is found at its end and nowhere
      before it, whatever follows; it holds no character below U+0020. */
  lemma JsonStringRoundTrip(s: string, rest: string)
    ensures ReadString(JsonString(s) + rest) == Some(Token(s, rest))
    ensures forall i :: 0 <= i < |JsonString(s)| ==> JsonString(s)[i] >= ' '
  {
    hide Escape, ReadBody;
    ReadEscaped(s, rest);
    assert (JsonString(s) + rest)[1..] == Escape(s) + "\"" + rest;
  }

  /** How every character is written inside a string: the short escapes by name, other controls as
      four lower-case hex digits, everything else as itself. */
  lemma EscapeSpelling(c: char)
    ensures c == '"' ==> EscapeChar(c) == ['\\', '"']
    ensures c == '\\' ==> EscapeChar(c) == ['\\', '\\']
    ensures c == '\n' ==> EscapeChar(c) == ['\\', 'n']
    ensures c == '\r' ==> EscapeChar(c) == ['\\', 'r']
    ensures c == '\t' ==> EscapeChar(c) == ['\\', 't']
    ensures c < ' ' && c != '\n' && c != '\r' && c != '\t' ==>
              EscapeChar(c) == ['\\', 'u', '0', '0', LowerHex(c as int / 16), LowerHex(c as int % 16)]
    ensures c >= ' ' && c != '"' && c != '\\' ==> EscapeChar(c) == [c]
  {
    if c < ' ' {
      LowerHexDigits(c as int / 16);
      LowerHexDigits(c as int % 16);
    }
  }

  function LowerHex(n: nat): char
    requires n < 16
  {
    if n < 10 then ('0' as int + n) as char else ('a' as int + n - 10) as char
  }

  lemma LowerHexDigits(n: nat)
    requires n < 16
    ensures HexDigit(n) == LowerHex(n)
  {
  }

  /** Hex text has two lower-case digits a byte, the high one first. */
  lemma {:induction false} HexSpelling(s: bytes)
    ensures |Hex(s)| == 2 * |s|
    ensures forall i :: 0 <= i < |s| ==>
              Hex(s)[2 * i] == LowerHex(s[i] / 16) && Hex(s)[2 * i + 1] == LowerHex(s[i] % 16)
  {
    hide HexDigit, LowerHex;
    if s != [] {
      HexByteSpelling(s[0]);
      HexSpelling(s[1..]);
      hide HexByte;
      forall i | 0 <= i < |s|
        ensures Hex(s)[2 * i] == LowerHex(s[i] / 16) && Hex(s)[2 * i + 1] == LowerHex(s[i] % 16)
      {
        if i > 0 {
          PairAt(HexByte(s[0]), Hex(s[1..]), i);
          assert s[i] == s[1..][i - 1];
        }
      }
    }
  }

  lemma HexByteSpelling(b: byte)
    ensures HexByte(b) == [LowerHex(b / 16), LowerHex(b % 16)]
  {
    LowerHexDigits(b / 16);
    LowerHexDigits(b % 16);
  }

  lemma PairAt(first: string, rest: string, i: nat)
    requires |first| == 2 && 0 < i && 2 * i <= |rest|
    ensures (first + rest)[2 * i] == rest[2 * (i - 1)] && (first + rest)[2 * i + 1] == rest[2 * (i - 1) + 1]
  {
  }

  // ---------------------------------------------------------------- numbers, flags, bytes

  /** A number is written without leading zeros. */
  lemma {:induction false} DecimalCanonical(n: nat)
    ensures Decimal(n) != "" && (Decimal(n)[0] == '0' ==> n == 0 && Decimal(n) == "0")
  {
    hide HexDigit;
    if n < 10 {
      LowerHexDigits(n);
    } else {
      DecimalCanonical(n / 10);
    }
  }

  lemma ReadDigit(d: nat, rest: string, acc: nat)
    requires d < 10
    ensures '0' <= HexDigit(d) <= '9'
    ensures ReadDigits([HexDigit(d)] + rest, acc) == ReadDigits(rest, 10 * acc + d)
  {
    HexDigitValue(d);
    assert ([HexDigit(d)] + rest)[1..] == rest;
  }

  lemma {:induction false} ReadDecimal(n: nat, rest: string)
    ensures ReadDigits(Decimal(n) + rest, 0) == ReadDigits(rest, n)
    ensures Decimal(n) != "" && forall i :: 0 <= i < |Decimal(n)| ==> '0' <= Decimal(n)[i] <= '9'
  {
    hide HexDigit, ReadDigits;
    if n < 10 {
      ReadDigit(n, rest, 0);
    } else {
      ReadDigit(n % 10, rest, n / 10);
      ReadDecimal(n / 10, [HexDigit(n % 10)] + rest);
      Associative(Decimal(n / 10), [HexDigit(n % 10)], rest);
    }
  }

  lemma NumberRoundTrip(n: nat, rest: string)
    requires rest == "" || !('0' <= rest[0] <= '9')
    ensures ReadNumber(Decimal(n) + rest) == Some(Token(n, rest))
    ensures forall i :: 0 <= i < |Decimal(n)| ==> Decimal(n)[i] >= ' '
  {
    ReadDecimal(n, rest);
  }

  lemma BoolRoundTrip(b: bool, rest: string)
    ensures ReadBool(BoolText(b) + rest) == Some(Token(b, rest))
    ensures forall i :: 0 <= i < |BoolText(b)| ==> BoolText(b)[i] >= ' '
  {
    var s := BoolText(b) + rest;
    assert s[|BoolText(b)|..] == rest;
    assert s[0] == (if b then 't' else 'f') && "true"[0] == 't';
  }

  lemma {:induction false} UnhexOfHex(s: bytes)
    ensures Unhex(Hex(s)) == Some(s)
  {
    if s != [] {
      HexByteValue(s[0], Hex(s[1..]));
      UnhexOfHex(s[1..]);
      assert Hex(s)[2..] == Hex(s[1..]);
      assert s == [s[0]] + s[1..];
    }
  }

  lemma HexStringRoundTrip(s: bytes, rest: string)
    ensures ReadHexString(JsonString(Hex(s)) + rest) == Some(Token(s, rest))
  {
    hide JsonString, ReadString;
    JsonStringRoundTrip(Hex(s), rest);
    UnhexOfHex(s);
  }

  // ---------------------------------------------------------------- lines and files

  lemma FieldRoundTrip<T>(name: string, read: string -> Option<Token<T>>, image: string, value: T, rest: string)
    requires read(image + rest) == Some(Token(value, rest))
    ensures Field(name, read, name + image + rest) == Some(Token(value, rest))
  {
    assert name + image + rest == name + (image + rest);
    assert (name + (image + rest))[|name|..] == image + rest;
  }

  function ViewOf(r: Record): RawView {
    RawView(r.origin, r.sequence, r.deleted, r.key, r.value)
  }

  lemma Absorb(front: string, name: string, image: string, rest: string)
    ensures front + (name + image + rest) == front + name + image + rest
  {
  }

  /** The line, character by character outside of its five values. */
  lemma LineSpelling(r: Record)
    ensures RawLine(r)
            == "{\"origin_file\":" + JsonString(r.origin) + ",\"seq\":" + Decimal(r.sequence)
               + ",\"deleted\":" + (if r.deleted then "true" else "false")
               + ",\"key_hex\":" + JsonString(Hex(r.key)) + ",\"value_hex\":" + JsonString(Hex(r.value)) + "}"
  {
    hide JsonString, Decimal, Hex;
    FieldNames();
    hide ORIGIN_FIELD, SEQUENCE_FIELD, DELETED_FIELD, KEY_FIELD, VALUE_FIELD;
    var key, value := JsonString(Hex(r.key)), JsonString(Hex(r.value));
    var last := VALUE_FIELD + value + "}";
    var front := ORIGIN_FIELD + JsonString(r.origin);
    var numbered := front + SEQUENCE_FIELD + Decimal(r.sequence);
    var flagged := numbered + DELETED_FIELD + BoolText(r.deleted);
    Absorb(front, SEQUENCE_FIELD, Decimal(r.sequence), DELETED_FIELD + BoolText(r.deleted) + (KEY_FIELD + key + last));
    Absorb(numbered, DELETED_FIELD, BoolText(r.deleted), KEY_FIELD + key + last);
    Absorb(flagged, KEY_FIELD, key, last);
    Absorb(flagged + KEY_FIELD + key, VALUE_FIELD, value, "}");
  }

  lemma FieldNames()
    ensures ORIGIN_FIELD == "{\"origin_file\":" && SEQUENCE_FIELD == ",\"seq\":" && DELETED_FIELD == ",\"deleted\":"
    ensures KEY_FIELD == ",\"key_hex\":" && VALUE_FIELD == ",\"value_hex\":"
  {
  }

  /** Hex digits need no escape. */
  lemma HexUnescaped(s: bytes)
    ensures JsonString(Hex(s)) == "\"" + Hex(s) + "\""
  {
    hide Hex, Escape;
    HexSpelling(s);
    forall i | 0 <= i < |Hex(s)|
      ensures Hex(s)[i] >= ' ' && Hex(s)[i] != '"' && Hex(s)[i] != '\\'
    {
      var digit := if i % 2 == 0 then s[i / 2] / 16 else s[i / 2] % 16;
      assert Hex(s)[i] == Hex(s)[2 * (i / 2) + i % 2] == LowerHex(digit);
    }
    Unescaped(Hex(s));
  }

  lemma {:induction false} Unescaped(s: string)
    requires forall i :: 0 <= i < |s| ==> s[i] >= ' ' && s[i] != '"' && s[i] != '\\'
    ensures Escape(s) == s
  {
    if s != "" {
      Unescaped(s[1..]);
      assert s == [s[0]] + s[1..];
    }
  }

  /** A rendered line parses back to the record's origin text, sequence, flag, key and value. */
  lemma LineRoundTrip(r: Record)
    ensures ReadLine(RawLine(r)) == Some(ViewOf(r))
  {
    hide ReadString, ReadNumber, ReadBool, ReadHexString, JsonString, Decimal, BoolText, Hex, Field;
    var e := "}";
    var value := VALUE_FIELD + JsonString(Hex(r.value)) + e;
    var key := KEY_FIELD + JsonString(Hex(r.key)) + value;
    var deleted := DELETED_FIELD + BoolText(r.deleted) + key;
    var sequence := SEQUENCE_FIELD + Decimal(r.sequence) + deleted;
    JsonStringRoundTrip(r.origin, sequence);
    NumberRoundTrip(r.sequence, deleted);
    BoolRoundTrip(r.deleted, key);
    HexStringRoundTrip(r.key, value);
    HexStringRoundTrip(r.value, e);
    FieldRoundTrip(ORIGIN_FIELD, ReadString, JsonString(r.origin), r.origin, sequence);
    FieldRoundTrip(SEQUENCE_FIELD, ReadNumber, Decimal(r.sequence), r.sequence as nat, deleted);
    FieldRoundTrip(DELETED_FIELD, ReadBool, BoolText(r.deleted), r.deleted, key);
    FieldRoundTrip(KEY_FIELD, ReadHexString, JsonString(Hex(r.key)), r.key, value);
    FieldRoundTrip(VALUE_FIELD, ReadHexString, JsonString(Hex(r.value)), r.value, e);
  }

  predicate Printable(s: string) {
    forall i :: 0 <= i < |s| ==> s[i] >= ' '
  }

  lemma PrintableField(name: string, image: string, rest: string)
    requires Printable(name) && Printable(image) && Printable(rest)
    ensures Printable(name + image + rest)
  {
  }

  lemma FieldNamesPrintable()
    ensures Printable(ORIGIN_FIELD) && Printable(SEQUENCE_FIELD) && Printable(DELETED_FIELD)
    ensures Printable(KEY_FIELD) && Printable(VALUE_FIELD) && Printable("}")
  {
  }

  lemma LinePrintable(r: Record)
    ensures Printable(RawLine(r))
  {
    hide JsonString, Decimal, BoolText, Hex, ReadString, ReadNumber, ReadBool;
    JsonStringRoundTrip(r.origin, "");
    NumberRoundTrip(r.sequence, "");
    BoolRoundTrip(r.deleted, "");
    JsonStringRoundTrip(Hex(r.key), "");
    JsonStringRoundTrip(Hex(r.value), "");
    FieldNamesPrintable();
    var value := VALUE_FIELD + JsonString(Hex(r.value)) + "}";
    var key := KEY_FIELD + JsonString(Hex(r.key)) + value;
    var deleted := DELETED_FIELD + BoolText(r.deleted) + key;
    var sequence := SEQUENCE_FIELD + Decimal(r.sequence) + deleted;
    assert Printable(JsonString(r.origin)) && Printable(JsonString(Hex(r.key))) && Printable(JsonString(Hex(r.value)));
    assert Printable(Decimal(r.sequence)) && Printable(BoolText(r.deleted));
    hide Printable;
    PrintableField(VALUE_FIELD, JsonString(Hex(r.value)), "}");
    PrintableField(KEY_FIELD, JsonString(Hex(r.key)), value);
    PrintableField(DELETED_FIELD, BoolText(r.deleted), key);
    PrintableField(SEQUENCE_FIELD, Decimal(r.sequence), deleted);
    PrintableField(ORIGIN_FIELD, JsonString(r.origin), sequence);
  }

  lemma {:induction false} LinesStep(line: string, more: string, rest: string)
    requires Printable(more)
    ensures Lines(more + "\n" + rest, line) == [line + more] + Lines(rest, "")
    decreases |more|
  {
    var text := more + "\n" + rest;
    if more == "" {
      assert text[1..] == rest && line + more == line;
    } else {
      LinesStep(line + [more[0]], more[1..], rest);
      assert text[1..] == more[1..] + "\n" + rest;
      assert line + more == (line + [more[0]]) + more[1..];
    }
  }

  /** Every line, the last one included, ends with a newline. */
  lemma {:induction false} LinesTerminated(rs: seq<Record>)
    ensures rs != [] ==> RawLines(rs) != "" && RawLines(rs)[|RawLines(rs)| - 1] == '\n'
    ensures rs == [] ==> RawLines(rs) == ""
  {
    hide RawLine;
    if rs != [] {
      LinesTerminated(rs[1..]);
    }
  }

  /** The rendered file has one line a record, in order, and each parses back to its record. */
  lemma {:induction false} FileRoundTrip(rs: seq<Record>)
    ensures var lines := Lines(RawLines(rs), "");
            && |lines| == |rs|
            && forall i :: 0 <= i < |rs| ==> lines[i] == RawLine(rs[i]) && ReadLine(lines[i]) == Some(ViewOf(rs[i]))
  {
    hide RawLine, ReadLine;
    if rs != [] {
      LinePrintable(rs[0]);
      LinesStep("", RawLine(rs[0]), RawLines(rs[1..]));
      LineRoundTrip(rs[0]);
      FileRoundTrip(rs[1..]);
      assert "" + RawLine(rs[0]) == RawLine(rs[0]);
      forall i | 0 <= i < |rs|
        ensures Lines(RawLines(rs), "")[i] == RawLine(rs[i]) && ReadLine(RawLine(rs[i])) == Some(ViewOf(rs[i]))
      {
        if i > 0 {
          assert rs[i] == rs[1..][i - 1];
        }
      }
    }
  }
}
