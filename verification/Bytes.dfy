/** Bytes, fixed-width little-endian integers, LEB128 varints and the masked checksum:
    the vocabulary shared by the log reader and the table reader. */
module Bytes {

  const U32_LIMIT := 0x1_0000_0000
  const U64_LIMIT := 0x1_0000_0000_0000_0000

  type byte = b: int | 0 <= b < 256
  type u32 = v: int | 0 <= v < U32_LIMIT
  type u64 = v: int | 0 <= v < U64_LIMIT
  type bytes = seq<byte>

  /** crc32c is a library routine; every theorem holds for an arbitrary function in its place. */
  type Crc32c = bytes -> u32

  datatype Option<+T> = None | Some(value: T)

  datatype Error =
    | UnexpectedEof
    | BadVarint
    | LengthOutOfRange
    | BadTableMagic
    | BadBlockCrc
    | UnknownCompression

  datatype Result<+T> = Ok(value: T) | Err(error: Error) {
    predicate IsFailure() {
      Err?
    }

    function PropagateFailure<U>(): Result<U>
      requires Err?
    {
      Err(error)
    }

    function Extract(): T
      requires Ok?
    {
      value
    }
  }

  /** One record as the reader surfaces it. */
  datatype Record = Record(key: bytes, value: bytes, sequence: u64, deleted: bool, origin: string)

  function Min(a: int, b: int): int {
    if a < b then a else b
  }

  function Zeros(n: nat): (s: bytes)
    ensures |s| == n
  {
    seq(n, _ => 0)
  }

  /** The first place of b in s. */
  function Position(s: bytes, b: byte): (p: Option<nat>)
    ensures p.Some? ==> p.value < |s| && s[p.value] == b && forall i :: 0 <= i < p.value ==> s[i] != b
    ensures p.None? ==> forall i :: 0 <= i < |s| ==> s[i] != b
  {
    if s == [] then None
    else if s[0] == b then Some(0)
    else
      match Position(s[1..], b)
      case None => None
      case Some(i) => Some(i + 1)
  }

  lemma PositionIs(s: bytes, b: byte, n: nat)
    requires n < |s| && s[n] == b && forall i :: 0 <= i < n ==> s[i] != b
    ensures Position(s, b) == Some(n)
  {
    var p := Position(s, b);
    assert p.Some?;
  }

  lemma PositionInside(s: bytes, b: byte)
    ensures Position(s, b).Some? ==> Position(s, b).value < |s|
  {
  }

  /** The bytes of a text of ASCII characters. */
  function Ascii(text: string): (s: bytes)
    requires forall i :: 0 <= i < |text| ==> text[i] as int < 128
    ensures |s| == |text|
  {
    seq(|text|, i requires 0 <= i < |text| => text[i] as int)
  }

  /** The character a UTF-16 surrogate pair stands for. */
  function SurrogatePair(high: nat, low: nat): char
    requires 0xD800 <= high < 0xDC00 <= low < 0xE000
  {
    (0x1_0000 + (high - 0xD800) * 0x400 + (low - 0xDC00)) as char
  }

  // ---------------------------------------------------------------- little-endian integers

  function Le(s: bytes): nat {
    if s == [] then 0 else s[0] + 256 * Le(s[1..])
  }

  function ToLe(v: nat, n: nat): (s: bytes)
    ensures |s| == n
  {
    if n == 0 then [] else [v % 256] + ToLe(v / 256, n - 1)
  }

  function Pow256(n: nat): nat {
    if n == 0 then 1 else 256 * Pow256(n - 1)
  }

  /** Reading back what was written gives the same integer. */
  lemma {:induction false} LeRoundTrip(v: nat, n: nat)
    requires v < Pow256(n)
    ensures Le(ToLe(v, n)) == v
  {
    if n > 0 {
      LeRoundTrip(v / 256, n - 1);
      assert ToLe(v, n)[1..] == ToLe(v / 256, n - 1);
    }
  }

  lemma {:induction false} LeBound(s: bytes)
    ensures Le(s) < Pow256(|s|)
  {
    if s != [] {
      LeBound(s[1..]);
    }
  }

  /** A fixed-width integer determines the bytes it was read from. */
  lemma {:induction false} ToLeOfLe(s: bytes)
    ensures ToLe(Le(s), |s|) == s
  {
    if s == [] {
    } else {
      ToLeOfLe(s[1..]);
      LowByte(s[0], Le(s[1..]));
      assert s == [s[0]] + s[1..];
    }
  }

  lemma LowByte(b: byte, v: nat)
    ensures (b + 256 * v) % 256 == b && (b + 256 * v) / 256 == v
  {
  }

  /** The byte order in numbers. */
  lemma LittleEndian(s: bytes)
    ensures |s| == 2 ==> Le(s) == s[0] as int + 0x100 * s[1] as int
    ensures |s| == 4 ==> Le(s) == s[0] as int + 0x100 * s[1] as int + 0x1_0000 * s[2] as int + 0x100_0000 * s[3] as int
    ensures |s| == 8 ==> Le(s) == Le(s[..4]) + 0x1_0000_0000 * Le(s[4..])
  {
    if |s| == 2 || |s| == 4 || |s| == 8 {
      LeConcat(s[..|s| / 2], s[|s| / 2..]);
      SplitInHalf(s);
      WidthLimits();
      LeOfTwo(s[..2]);
      if |s| == 4 {
        LeOfTwo(s[2..]);
        assert Pow256(2) == 0x1_0000;
      } else if |s| == 2 {
        LeOfTwo(s);
      }
    }
  }

  lemma SplitInHalf(s: bytes)
    ensures s == s[..|s| / 2] + s[|s| / 2..]
  {
  }

  lemma LeOfTwo(s: bytes)
    requires |s| == 2
    ensures Le(s) == s[0] as int + 0x100 * s[1] as int
  {
    assert s[1..][1..] == [] && Le([]) == 0;
    assert Le(s[1..]) == s[1];
  }

  lemma {:induction false} LeConcat(a: bytes, b: bytes)
    ensures Le(a + b) == Le(a) + Pow256(|a|) * Le(b)
  {
    if a == [] {
      assert a + b == b;
    } else {
      LeConcat(a[1..], b);
      assert (a + b)[1..] == a[1..] + b;
      Distribute(a[0], Le(a[1..]), Pow256(|a| - 1), Le(b));
    }
  }

  lemma Distribute(first: nat, rest: nat, power: nat, value: nat)
    ensures first + 256 * (rest + power * value) == first + 256 * rest + 256 * power * value
  {
  }

  lemma WidthLimits()
    ensures Pow256(2) == 0x1_0000
    ensures Pow256(4) == U32_LIMIT
    ensures Pow256(8) == U64_LIMIT
  {
    assert Pow256(3) == 0x100_0000;
    assert Pow256(5) == 0x100 * U32_LIMIT;
    assert Pow256(7) == 0x100_0000 * U32_LIMIT;
  }

  function Le32(s: bytes): u32
    requires |s| == 4
  {
    LeBound(s);
    WidthLimits();
    Le(s)
  }

  function Le64(s: bytes): u64
    requires |s| == 8
  {
    LeBound(s);
    WidthLimits();
    Le(s)
  }

  // ---------------------------------------------------------------- varints

  datatype VarInt = VarInt(value: nat, used: nat)

  /** LEB128: seven bits a byte, low group first, at most `limit` bytes. */
  function Leb128(s: bytes, limit: nat): (r: Option<VarInt>)
    ensures r.Some? ==> 1 <= r.value.used <= Min(limit, |s|)
  {
    if s == [] || limit == 0 then None
    else if s[0] < 128 then Some(VarInt(s[0], 1))
    else
      match Leb128(s[1..], limit - 1)
      case None => None
      case Some(v) => Some(VarInt(s[0] - 128 + 128 * v.value, v.used + 1))
  }

  const MAX_VARINT_LEN := 10

  /** A 64-bit varint: at most ten bytes; bits of the tenth byte beyond bit 63 are shifted out. */
  function DecodeVar(s: bytes): (r: Option<VarInt>)
    ensures r.Some? ==> 1 <= r.value.used <= Min(MAX_VARINT_LEN, |s|)
    ensures r.Some? ==> r.value.value < U64_LIMIT
  {
    match Leb128(s, MAX_VARINT_LEN)
    case None => None
    case Some(v) => Some(v.(value := v.value % U64_LIMIT))
  }

  function EncodeVar(v: nat): (s: bytes)
    ensures s != []
  {
    if v < 128 then [v] else [128 + v % 128] + EncodeVar(v / 128)
  }

  function Pow128(n: nat): nat {
    if n == 0 then 1 else 128 * Pow128(n - 1)
  }

  lemma {:induction false} EncodeVarLength(v: nat, n: nat)
    requires 1 <= n && v < Pow128(n)
    ensures |EncodeVar(v)| <= n
  {
    if v >= 128 {
      assert n > 1;
      EncodeVarLength(v / 128, n - 1);
    }
  }

  lemma EncodeVarFits(v: u64)
    ensures |EncodeVar(v)| <= MAX_VARINT_LEN
  {
    assert Pow128(5) == 0x8_0000_0000;
    assert Pow128(9) == 0x8_0000_0000 * 0x1000_0000;
    EncodeVarLength(v, 10);
  }

  lemma {:induction false} Leb128RoundTrip(v: nat, rest: bytes, limit: nat)
    requires |EncodeVar(v)| <= limit
    ensures Leb128(EncodeVar(v) + rest, limit) == Some(VarInt(v, |EncodeVar(v)|))
  {
    var s := EncodeVar(v) + rest;
    if v >= 128 {
      Leb128RoundTrip(v / 128, rest, limit - 1);
      assert s[1..] == EncodeVar(v / 128) + rest;
    }
  }

  /** A 64-bit value written as a varint reads back, whatever follows it. */
  lemma VarRoundTrip(v: u64, rest: bytes)
    ensures DecodeVar(EncodeVar(v) + rest) == Some(VarInt(v, |EncodeVar(v)|))
    ensures |EncodeVar(v)| <= MAX_VARINT_LEN
  {
    EncodeVarFits(v);
    Leb128RoundTrip(v, rest, MAX_VARINT_LEN);
  }

  lemma {:induction false} Leb128Local(s: bytes, t: bytes, limit: nat)
    requires Leb128(s, limit).Some?
    ensures Leb128(s + t, limit) == Leb128(s, limit)
    ensures var n := Leb128(s, limit).value.used; Leb128(s[..n], limit) == Leb128(s, limit)
  {
    assert (s + t)[0] == s[0];
    if s[0] >= 128 {
      Leb128Local(s[1..], t, limit - 1);
      assert (s + t)[1..] == s[1..] + t;
      var n := Leb128(s, limit).value.used;
      assert s[..n][1..] == s[1..][..n - 1];
    }
  }

  /** The number whose base-128 digits, lowest first, are the low seven bits of these bytes. */
  function Groups(s: bytes): nat {
    if s == [] then 0 else Groups(s[..|s| - 1]) + s[|s| - 1] % 128 * Pow128(|s| - 1)
  }

  lemma {:induction false} GroupsCons(s: bytes)
    requires s != []
    ensures Groups(s) == s[0] % 128 + 128 * Groups(s[1..])
  {
    var n := |s| - 1;
    if n == 0 {
      assert s[1..] == [];
      assert Groups(s[..0]) == 0;
    } else {
      GroupsCons(s[..n]);
      assert s[..n][1..] == s[1..][..n - 1];
      assert s[n] % 128 * Pow128(n) == 128 * (s[n] % 128 * Pow128(n - 1));
    }
  }

  /** The first n bytes are a varint: every byte but the last has its high bit set. */
  predicate IsVarint(s: bytes, n: nat) {
    1 <= n <= |s| && s[n - 1] < 128 && forall i :: 0 <= i < n - 1 ==> s[i] >= 128
  }

  lemma {:induction false} Leb128Exact(s: bytes, limit: nat, n: nat)
    ensures Leb128(s, limit).Some? && Leb128(s, limit).value.used == n <==> n <= limit && IsVarint(s, n)
    ensures IsVarint(s, n) && n <= limit ==> Leb128(s, limit).value.value == Groups(s[..n])
    decreases |s|
  {
    if s == [] || limit == 0 {
      assert !IsVarint([], n);
    } else {
      VarintCons(s, n);
      hide IsVarint;
      if s[0] < 128 {
        assert s[..1] == [s[0]] && [s[0]][..0] == [];
      } else if n > 0 {
        Leb128Exact(s[1..], limit - 1, n - 1);
        if IsVarint(s, n) {
          GroupsCons(s[..n]);
          assert s[..n][1..] == s[1..][..n - 1];
        }
      }
    }
  }

  lemma VarintCons(s: bytes, n: nat)
    requires s != []
    ensures IsVarint(s, n) <==> if s[0] < 128 then n == 1 else n >= 2 && IsVarint(s[1..], n - 1)
    ensures IsVarint(s, n) ==> 1 <= n <= |s|
  {
    if s[0] >= 128 && n >= 2 {
      if IsVarint(s[1..], n - 1) {
        forall i | 0 <= i < n - 1
          ensures s[i] >= 128
        {
          assert i > 0 ==> s[i] == s[1..][i - 1];
        }
      }
    }
  }

  /** Which bytes are a 64-bit varint and which number they stand for: at most ten bytes up to the
      first without the high bit, seven bits a byte, what exceeds 64 bits dropped. Canonical or not. */
  lemma VarExact(s: bytes, n: nat)
    ensures DecodeVar(s).Some? && DecodeVar(s).value.used == n <==> n <= 10 && IsVarint(s, n)
    ensures n <= 10 && IsVarint(s, n) ==> DecodeVar(s).value.value == Groups(s[..n]) % 0x1_0000_0000_0000_0000
  {
    Leb128Exact(s, MAX_VARINT_LEN, n);
  }

  /** A successful varint read consumes 1 to 10 bytes and depends on no byte after them. */
  lemma VarLocal(s: bytes, t: bytes)
    requires DecodeVar(s).Some?
    ensures 1 <= DecodeVar(s).value.used <= 10
    ensures DecodeVar(s[..DecodeVar(s).value.used] + t) == DecodeVar(s)
    ensures DecodeVar(s + t) == DecodeVar(s)
  {
    Leb128Local(s, t, MAX_VARINT_LEN);
    var n := DecodeVar(s).value.used;
    Leb128Local(s[..n], t, MAX_VARINT_LEN);
  }

  // ---------------------------------------------------------------- masked checksum

  const CRC_MASK_DELTA: u32 := 0xa282_ead8

  function RotateLeft17(c: u32): u32 {
    c % 0x8000 * 0x2_0000 + c / 0x8000
  }

  /** A rotation by 17 bits and a wrapping addition. */
  function MaskCrc(c: u32): u32 {
    (RotateLeft17(c) + CRC_MASK_DELTA) % U32_LIMIT
  }

  function UnmaskCrc(m: u32): u32 {
    var r := (m + U32_LIMIT - CRC_MASK_DELTA) % U32_LIMIT;
    r % 0x2_0000 * 0x8000 + r / 0x2_0000
  }

  lemma WrapBack(r: u32)
    ensures ((r + CRC_MASK_DELTA) % U32_LIMIT + U32_LIMIT - CRC_MASK_DELTA) % U32_LIMIT == r
  {
  }

  lemma RotatedParts(c: u32)
    ensures RotateLeft17(c) % 0x2_0000 == c / 0x8000
    ensures RotateLeft17(c) / 0x2_0000 == c % 0x8000
  {
  }

  /** The mask in numbers: the low 15 bits go on top of the high 17, then a constant is added. */
  lemma MaskCrcRotates(high: nat, low: nat)
    requires high < 0x2_0000 && low < 0x8000
    ensures MaskCrc(high * 0x8000 + low) == (low * 0x2_0000 + high + 0xa282_ead8) % 0x1_0000_0000
  {
  }

  /** Masking loses nothing: comparing masked checksums is comparing checksums. */
  lemma MaskCrcInvertible(c: u32)
    ensures UnmaskCrc(MaskCrc(c)) == c
  {
    hide RotateLeft17;
    RotatedParts(c);
    WrapBack(RotateLeft17(c));
  }
}
