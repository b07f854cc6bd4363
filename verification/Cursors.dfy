/** The bounds-checked cursor both readers are built on. Each read is specified by a function of
    the bytes still ahead of the cursor: what it returns and how far the cursor moves, also when it fails. */
module Cursors {
  import opened Bytes

  datatype Read<+T> = Read(out: Result<T>, used: nat)

  function TakeRead(s: bytes, n: nat): Read<bytes> {
    if n <= |s| then Read(Ok(s[..n]), n) else Read(Err(UnexpectedEof), 0)
  }

  function U8Read(s: bytes): Read<byte> {
    if 1 <= |s| then Read(Ok(s[0]), 1) else Read(Err(UnexpectedEof), 0)
  }

  function U32Read(s: bytes): Read<u32> {
    if 4 <= |s| then Read(Ok(Le32(s[..4])), 4) else Read(Err(UnexpectedEof), 0)
  }

  function U64Read(s: bytes): Read<u64> {
    if 8 <= |s| then Read(Ok(Le64(s[..8])), 8) else Read(Err(UnexpectedEof), 0)
  }

  function Var64Read(s: bytes): Read<u64> {
    match DecodeVar(s)
    case None => Read(Err(BadVarint), 0)
    case Some(v) => Read(Ok(v.value), v.used)
  }

  /** The cursor has already moved past the varint when its value turns out too large. */
  function Var32Read(s: bytes): Read<u32> {
    match DecodeVar(s)
    case None => Read(Err(BadVarint), 0)
    case Some(v) => Read(if v.value < U32_LIMIT then Ok(v.value) else Err(BadVarint), v.used)
  }

  /** A lying length is refused before anything is taken; the cursor stays behind the length. */
  function PrefixedRead(s: bytes): Read<bytes> {
    match DecodeVar(s)
    case None => Read(Err(BadVarint), 0)
    case Some(v) =>
      if v.value > |s| - v.used then Read(Err(LengthOutOfRange), v.used)
      else Read(Ok(s[v.used..v.used + v.value]), v.used + v.value)
  }

  class Cursor {
    const buf: bytes
    var pos: nat

    ghost predicate Valid()
      reads this
    {
      pos <= |buf|
    }

    ghost function Rest(): bytes
      requires Valid()
      reads this
    {
      buf[pos..]
    }

    constructor (buf: bytes)
      ensures this.buf == buf && pos == 0
      ensures Valid() && Rest() == buf
    {
      this.buf := buf;
      pos := 0;
    }

    method Take(n: nat) returns (r: Result<bytes>)
      requires Valid()
      modifies this
      ensures Valid() && old(pos) <= pos
      ensures Read(r, pos - old(pos)) == TakeRead(old(Rest()), n)
      ensures Rest() == old(Rest())[pos - old(pos)..]
    {
      if pos + n > |buf| {
        return Err(UnexpectedEof);
      }
      var slice := buf[pos..pos + n];
      assert slice == Rest()[..n];
      pos := pos + n;
      return Ok(slice);
    }

    method ReadU8() returns (r: Result<byte>)
      requires Valid()
      modifies this
      ensures Valid() && old(pos) <= pos
      ensures Read(r, pos - old(pos)) == U8Read(old(Rest()))
      ensures Rest() == old(Rest())[pos - old(pos)..]
    {
      var b :- Take(1);
      return Ok(b[0]);
    }

    method ReadU32Le() returns (r: Result<u32>)
      requires Valid()
      modifies this
      ensures Valid() && old(pos) <= pos
      ensures Read(r, pos - old(pos)) == U32Read(old(Rest()))
      ensures Rest() == old(Rest())[pos - old(pos)..]
    {
      var b :- Take(4);
      return Ok(Le32(b));
    }

    method ReadU64Le() returns (r: Result<u64>)
      requires Valid()
      modifies this
      ensures Valid() && old(pos) <= pos
      ensures Read(r, pos - old(pos)) == U64Read(old(Rest()))
      ensures Rest() == old(Rest())[pos - old(pos)..]
    {
      var b :- Take(8);
      return Ok(Le64(b));
    }

    method ReadVarintU64() returns (r: Result<u64>)
      requires Valid()
      modifies this
      ensures Valid() && old(pos) <= pos
      ensures Read(r, pos - old(pos)) == Var64Read(old(Rest()))
      ensures Rest() == old(Rest())[pos - old(pos)..]
    {
      var decoded := DecodeVar(buf[pos..]);
      match decoded {
        case None =>
          return Err(BadVarint);
        case Some(v) =>
          pos := pos + v.used;
          return Ok(v.value);
      }
    }

    method ReadVarintU32() returns (r: Result<u32>)
      requires Valid()
      modifies this
      ensures Valid() && old(pos) <= pos
      ensures Read(r, pos - old(pos)) == Var32Read(old(Rest()))
      ensures Rest() == old(Rest())[pos - old(pos)..]
    {
      var v :- ReadVarintU64();
      if v >= U32_LIMIT {
        return Err(BadVarint);
      }
      return Ok(v);
    }

    method ReadLengthPrefixed() returns (r: Result<bytes>)
      requires Valid()
      modifies this
      ensures Valid() && old(pos) <= pos
      ensures Read(r, pos - old(pos)) == PrefixedRead(old(Rest()))
      ensures Rest() == old(Rest())[pos - old(pos)..]
    {
      var len :- ReadVarintU64();
      var available := |buf| - pos;
      if len > available {
        return Err(LengthOutOfRange);
      }
      ghost var s, n := old(Rest()), pos - old(pos);
      assert s[n..][..len] == s[n..n + len];
      r := Take(len);
    }
  }

  // ---------------------------------------------------------------- what the reads accept

  /** The bytes begin with a varint of n bytes that stands for v. */
  predicate HasVarint(s: bytes, n: nat, v: nat) {
    n <= 10 && IsVarint(s, n) && v == Groups(s[..n]) % 0x1_0000_0000_0000_0000
  }

  /** A 64-bit varint is read iff there is one, and a failure does not move the cursor. */
  lemma Var64Exact(s: bytes, n: nat, v: u64)
    ensures Var64Read(s) == Read(Ok(v), n) <==> HasVarint(s, n, v)
    ensures Var64Read(s).out.Err? ==> Var64Read(s) == Read(Err(BadVarint), 0)
  {
    hide IsVarint, Groups, DecodeVar;
    VarExact(s, n);
  }

  /** A 32-bit varint is read iff there is one below 2^32; behind a larger one the cursor has moved. */
  lemma Var32Exact(s: bytes, n: nat, v: u64)
    ensures v < 0x1_0000_0000 ==> (Var32Read(s) == Read(Ok(v), n) <==> HasVarint(s, n, v))
    ensures v >= 0x1_0000_0000 && HasVarint(s, n, v) ==> Var32Read(s) == Read(Err(BadVarint), n)
    ensures Var32Read(s).out.Err? ==> Var32Read(s).out.error == BadVarint
  {
    hide IsVarint, Groups, DecodeVar;
    VarExact(s, n);
  }

  /** The bytes begin with the length of `body` as a varint and then `body`, `used` bytes in all. */
  ghost predicate IsPrefixed(s: bytes, body: bytes, used: nat) {
    exists n: nat :: HasVarint(s, n, |body|) && used == n + |body| <= |s| && s[n..used] == body
  }

  lemma VarintUnique(s: bytes, m: nat, v: nat, n: nat, w: nat)
    requires HasVarint(s, m, v) && HasVarint(s, n, w)
    ensures m == n && v == w
  {
    hide Groups, DecodeVar, IsVarint;
    VarExact(s, m);
    VarExact(s, n);
  }

  /** Which bytes are read as a length-prefixed body: non-canonical lengths included. */
  lemma PrefixedExact(s: bytes, body: bytes, used: nat)
    ensures PrefixedRead(s) == Read(Ok(body), used) <==> IsPrefixed(s, body, used)
  {
    hide IsVarint, Groups, DecodeVar;
    if PrefixedRead(s) == Read(Ok(body), used) {
      var v := DecodeVar(s).value;
      VarExact(s, v.used);
      assert HasVarint(s, v.used, |body|);
    }
    if IsPrefixed(s, body, used) {
      var n: nat :| HasVarint(s, n, |body|) && used == n + |body| <= |s| && s[n..used] == body;
      VarExact(s, n);
    }
  }

  /** A length beyond the end is refused with the cursor behind it; anything else that fails has no varint. */
  lemma PrefixedRefused(s: bytes, n: nat, v: nat)
    ensures HasVarint(s, n, v) && v > |s| - n ==> PrefixedRead(s) == Read(Err(LengthOutOfRange), n)
    ensures PrefixedRead(s).out == Err(BadVarint) <==> !exists m: nat, w: nat :: HasVarint(s, m, w)
    ensures PrefixedRead(s).out == Err(BadVarint) ==> PrefixedRead(s).used == 0
  {
    hide IsVarint, Groups, DecodeVar;
    VarExact(s, n);
    if DecodeVar(s).Some? {
      VarExact(s, DecodeVar(s).value.used);
      assert HasVarint(s, DecodeVar(s).value.used, DecodeVar(s).value.value);
    } else if m: nat, w: nat :| HasVarint(s, m, w) {
      VarExact(s, m);
    }
  }

  /** The fixed-width reads in numbers. */
  lemma FixedReads(s: bytes, n: nat)
    ensures TakeRead(s, n) == if n <= |s| then Read(Ok(s[..n]), n) else Read(Err(UnexpectedEof), 0)
    ensures |s| >= 1 ==> U8Read(s) == Read(Ok(s[0]), 1)
    ensures |s| >= 4 ==> U32Read(s) == Read(Ok(Le(s[..4])), 4)
    ensures |s| >= 8 ==> U64Read(s) == Read(Ok(Le(s[..8])), 8)
    ensures |s| < 8 ==> U64Read(s) == Read(Err(UnexpectedEof), 0)
    ensures |s| < 4 ==> U32Read(s) == Read(Err(UnexpectedEof), 0)
    ensures |s| < 1 ==> U8Read(s) == Read(Err(UnexpectedEof), 0)
  {
    WidthLimits();
    if |s| >= 4 {
      LeBound(s[..4]);
    }
    if |s| >= 8 {
      LeBound(s[..8]);
    }
  }

  // ---------------------------------------------------------------- laws of the reads

  datatype Request = Take(n: nat) | U8 | U32 | U64 | Var64 | Var32 | Prefixed

  /** How far one read moves the cursor, whether it succeeds or not. */
  function Used(req: Request, s: bytes): nat {
    match req
    case Take(n) => TakeRead(s, n).used
    case U8 => U8Read(s).used
    case U32 => U32Read(s).used
    case U64 => U64Read(s).used
    case Var64 => Var64Read(s).used
    case Var32 => Var32Read(s).used
    case Prefixed => PrefixedRead(s).used
  }

  lemma UsedInBounds(req: Request, s: bytes)
    ensures Used(req, s) <= |s|
  {
  }

  /** The position after a run of reads over `buf` that starts at `pos`. */
  function PositionAfter(buf: bytes, pos: nat, reqs: seq<Request>): nat
    requires pos <= |buf|
    decreases |reqs|
  {
    if reqs == [] then pos
    else
      UsedInBounds(reqs[0], buf[pos..]);
      PositionAfter(buf, pos + Used(reqs[0], buf[pos..]), reqs[1..])
  }

  /** Over any sequence of reads, failed ones included, the position never leaves the buffer,
      and no later read takes it behind where an earlier one left it. */
  lemma {:induction false} PositionMonotone(buf: bytes, pos: nat, reqs: seq<Request>, k: nat)
    requires pos <= |buf| && k <= |reqs|
    ensures pos <= PositionAfter(buf, pos, reqs[..k]) <= PositionAfter(buf, pos, reqs) <= |buf|
    decreases |reqs|
  {
    hide Used;
    if reqs == [] {
      assert reqs[..k] == [];
    } else {
      UsedInBounds(reqs[0], buf[pos..]);
      var next := pos + Used(reqs[0], buf[pos..]);
      if k == 0 {
        PositionMonotone(buf, next, reqs[1..], 0);
      } else {
        PositionMonotone(buf, next, reqs[1..], k - 1);
        assert reqs[..k][1..] == reqs[1..][..k - 1];
      }
    }
  }

  function EncodePrefixed(s: bytes): bytes {
    EncodeVar(|s|) + s
  }

  /** Reading a length-prefixed encoding returns its body and stops exactly behind it. */
  lemma PrefixedRoundTrip(s: bytes, rest: bytes)
    requires |s| < U64_LIMIT
    ensures PrefixedRead(EncodePrefixed(s) + rest) == Read(Ok(s), |EncodePrefixed(s)|)
    ensures (EncodePrefixed(s) + rest)[|EncodePrefixed(s)|..] == rest
  {
    VarRoundTrip(|s|, s + rest);
    assert EncodePrefixed(s) + rest == EncodeVar(|s|) + (s + rest);
  }

  /** A successful length-prefixed read depends on no byte behind it. */
  lemma PrefixedLocal(s: bytes, t: bytes)
    requires PrefixedRead(s).out.Ok?
    ensures PrefixedRead(s + t) == PrefixedRead(s)
  {
    VarLocal(s, t);
    var v := DecodeVar(s).value;
    assert (s + t)[v.used..v.used + v.value] == s[v.used..v.used + v.value];
  }
}
