/** The primitive layer the backend delegates to: `bincode::DefaultOptions`
    (bincode 1.x), which writes integers as little-endian varints and the
    rest as fixed-width little-endian values. This module is an assumption
    about that library, not code of the repository; every writer is paired
    with a reader and a lemma that the reader undoes it.

    Varint layout of a `u64` (also used for every `usize` length prefix):
    a value up to 250 is its own single byte; otherwise a tag byte 251, 252
    or 253 is followed by the value in 2, 4 or 8 little-endian bytes. An
    `i64` is zigzag-mapped to a `u64` first. A `bool` and a `u8` are one
    byte, an `f64` is its 8 bit-pattern bytes, and a string is the varint
    length of its UTF-8 bytes followed by those bytes. */
module Bincode {
  import opened Wrappers
  import opened Bytes
  import Utf8

  const U64_BOUND: nat := 0x1_0000_0000_0000_0000
  type u64 = n: int | 0 <= n < 0x1_0000_0000_0000_0000
  type i64 = n: int | -0x8000_0000_0000_0000 <= n < 0x8000_0000_0000_0000

  const SINGLE_BYTE_MAX: byte := 250
  const U16_BYTE: byte := 251
  const U32_BYTE: byte := 252
  const U64_BYTE: byte := 253

  /** bincode's `ErrorKind`, as far as reading can raise it; `InvalidType`
      stands for the custom error a visitor raises when it is handed a
      kind of value it does not accept. */
  datatype DecodeError =
    | UnexpectedEof
    | InvalidBoolEncoding(found: byte)
    | InvalidVarintTag(tag: byte)
    | InvalidUtf8Encoding
    | InvalidType

  lemma Pow256Widths()
    ensures Pow256(2) == 0x1_0000 && Pow256(4) == 0x1_0000_0000
    ensures Pow256(8) == U64_BOUND
  {
    assert Pow256(1) == 0x100;
    assert Pow256(3) == 0x100_0000;
    assert Pow256(5) == 0x100_0000_0000;
    assert Pow256(6) == 0x1_0000_0000_0000;
    assert Pow256(7) == 0x100_0000_0000_0000;
  }

  // ---- unsigned varint ----

  function WriteU64(n: u64): (r: seq<byte>)
    ensures 1 <= |r| <= 9
  {
    if n <= SINGLE_BYTE_MAX as int then [n]
    else if n < 0x1_0000 then [U16_BYTE] + LittleEndian(n, 2)
    else if n < 0x1_0000_0000 then [U32_BYTE] + LittleEndian(n, 4)
    else [U64_BYTE] + LittleEndian(n, 8)
  }

  /** `w` little-endian bytes at `p`. */
  function ReadFixed(s: seq<byte>, p: nat, w: nat): (r: Result<(nat, nat), DecodeError>)
    requires p <= |s|
    ensures r.Ok? ==> r.value.0 < Pow256(w) && r.value.1 == p + w <= |s|
    ensures r.Err? ==> r.error == UnexpectedEof
  {
    if p + w <= |s| then Ok((FromLittleEndian(s[p..p + w]), p + w)) else Err(UnexpectedEof)
  }

  /** Reads a varint `u64` at `p`: the value and the position after it.
      Non-shortest forms (a tag followed by a small value) are accepted. */
  function ReadU64(s: seq<byte>, p: nat): (r: Result<(u64, nat), DecodeError>)
    requires p <= |s|
    ensures r.Ok? ==> p < r.value.1 <= |s|
  {
    Pow256Widths();
    if p == |s| then Err(UnexpectedEof)
    else if s[p] <= SINGLE_BYTE_MAX then Ok((s[p], p + 1))
    else
      var w := if s[p] == U16_BYTE then 2 else if s[p] == U32_BYTE then 4 else 8;
      if s[p] > U64_BYTE then Err(InvalidVarintTag(s[p]))
      else
        match ReadFixed(s, p + 1, w)
        case Err(e) => Err(e)
        case Ok((n, q)) => Ok((n, q))
  }

  lemma ReadWriteU64(n: u64, s: seq<byte>, p: nat)
    requires At(s, p, WriteU64(n))
    ensures ReadU64(s, p) == Ok((n, p + |WriteU64(n)|))
  {
    Pow256Widths();
    var e := WriteU64(n);
    assert s[p] == e[0];
    if n > SINGLE_BYTE_MAX as int {
      var w := |e| - 1;
      AtSplit(s, p, [e[0]], e[1..]);
      assert e == [e[0]] + e[1..];
      assert e[1..] == LittleEndian(n, w);
      LittleEndianRoundTrip(n, w);
    }
  }

  /** A varint followed by more bytes: the varint reads back, and the
      rest starts right after it. */
  lemma ReadPrefix(n: u64, rest: seq<byte>, s: seq<byte>, p: nat)
    requires At(s, p, WriteU64(n) + rest)
    ensures ReadU64(s, p) == Ok((n, p + |WriteU64(n)|)) && At(s, p + |WriteU64(n)|, rest)
    ensures p + |WriteU64(n)| + |rest| <= |s|
  {
    AtSplit(s, p, WriteU64(n), rest);
    ReadWriteU64(n, s, p);
  }

  // ---- signed integers: zigzag, then varint ----

  function ZigZag(i: i64): u64
  {
    if i >= 0 then 2 * i else -2 * i - 1
  }

  function UnZigZag(n: u64): i64
  {
    if n % 2 == 0 then n / 2 else -((n + 1) / 2)
  }

  function WriteI64(i: i64): seq<byte>
  {
    WriteU64(ZigZag(i))
  }

  function ReadI64(s: seq<byte>, p: nat): (r: Result<(i64, nat), DecodeError>)
    requires p <= |s|
    ensures r.Ok? ==> p < r.value.1 <= |s|
  {
    match ReadU64(s, p)
    case Err(e) => Err(e)
    case Ok((n, q)) => Ok((UnZigZag(n), q))
  }

  lemma ZigZagRoundTrip(i: i64)
    ensures UnZigZag(ZigZag(i)) == i
  {
    if i < 0 {
      assert ZigZag(i) % 2 == 1;
    }
  }

  lemma ReadWriteI64(i: i64, s: seq<byte>, p: nat)
    requires At(s, p, WriteI64(i))
    ensures ReadI64(s, p) == Ok((i, p + |WriteI64(i)|))
  {
    ReadWriteU64(ZigZag(i), s, p);
    ZigZagRoundTrip(i);
  }

  // ---- single bytes ----

  function WriteBool(b: bool): seq<byte>
  {
    [if b then 1 else 0]
  }

  function ReadBool(s: seq<byte>, p: nat): (r: Result<(bool, nat), DecodeError>)
    requires p <= |s|
    ensures r.Ok? ==> r.value.1 == p + 1 <= |s|
  {
    if p == |s| then Err(UnexpectedEof)
    else if s[p] == 0 then Ok((false, p + 1))
    else if s[p] == 1 then Ok((true, p + 1))
    else Err(InvalidBoolEncoding(s[p]))
  }

  lemma ReadWriteBool(b: bool, s: seq<byte>, p: nat)
    requires At(s, p, WriteBool(b))
    ensures ReadBool(s, p) == Ok((b, p + 1))
  {
    assert s[p] == WriteBool(b)[0];
  }

  function WriteU8(b: byte): seq<byte>
  {
    [b]
  }

  // ---- f64: the 8 bytes of the bit pattern ----

  function WriteF64(bits: u64): seq<byte>
  {
    LittleEndian(bits, 8)
  }

  function ReadF64(s: seq<byte>, p: nat): (r: Result<(u64, nat), DecodeError>)
    requires p <= |s|
    ensures r.Ok? ==> r.value.1 == p + 8 <= |s|
  {
    Pow256Widths();
    match ReadFixed(s, p, 8)
    case Err(e) => Err(e)
    case Ok((n, q)) => Ok((n, q))
  }

  lemma ReadWriteF64(bits: u64, s: seq<byte>, p: nat)
    requires At(s, p, WriteF64(bits))
    ensures ReadF64(s, p) == Ok((bits, p + 8))
  {
    Pow256Widths();
    LittleEndianRoundTrip(bits, 8);
  }

  // ---- length-prefixed byte runs and strings ----

  /** `n` raw bytes at `p`. */
  function ReadBytes(s: seq<byte>, p: nat, n: nat): (r: Result<(seq<byte>, nat), DecodeError>)
    requires p <= |s|
    ensures r.Ok? ==> r.value.1 == p + n <= |s| && r.value.0 == s[p..p + n]
    ensures r.Err? ==> r.error == UnexpectedEof && |s| < p + n
  {
    if p + n <= |s| then Ok((s[p..p + n], p + n)) else Err(UnexpectedEof)
  }

  function WriteStr(t: string): seq<byte>
    requires |Utf8.Encode(t)| < U64_BOUND
  {
    WriteU64(|Utf8.Encode(t)|) + Utf8.Encode(t)
  }

  /** A length, that many bytes, and their UTF-8 validation. */
  function ReadString(s: seq<byte>, p: nat): (r: Result<(string, nat), DecodeError>)
    requires p <= |s|
    ensures r.Ok? ==> p < r.value.1 <= |s|
  {
    match ReadU64(s, p)
    case Err(e) => Err(e)
    case Ok((n, q)) =>
      match ReadBytes(s, q, n)
      case Err(e) => Err(e)
      case Ok((raw, q')) =>
        match Utf8.Decode(raw)
        case None => Err(InvalidUtf8Encoding)
        case Some(t) => Ok((t, q'))
  }

  lemma ReadWriteStr(t: string, s: seq<byte>, p: nat)
    requires |Utf8.Encode(t)| < U64_BOUND
    requires At(s, p, WriteStr(t))
    ensures ReadString(s, p) == Ok((t, p + |WriteStr(t)|))
  {
    var raw := Utf8.Encode(t);
    assert WriteStr(t) == WriteU64(|raw|) + raw;
    Utf8.DecodeEncode(t);
    ReadRawString(|raw|, raw, t, s, p);
  }

  /** A length `n`, then `n` bytes that validate as `t`. */
  lemma ReadRawString(n: u64, raw: seq<byte>, t: string, s: seq<byte>, p: nat)
    requires n == |raw| && At(s, p, WriteU64(n) + raw) && Utf8.Decode(raw) == Some(t)
    ensures ReadString(s, p) == Ok((t, p + |WriteU64(n) + raw|))
  {
    ReadPrefix(n, raw, s, p);
    ReadStringParts(s, p, p + |WriteU64(n)|, raw, t);
  }

  lemma ReadStringParts(s: seq<byte>, p: nat, q: nat, raw: seq<byte>, t: string)
    requires p <= |s| && ReadU64(s, p) == Ok((|raw|, q)) && At(s, q, raw)
    requires Utf8.Decode(raw) == Some(t)
    ensures ReadString(s, p) == Ok((t, q + |raw|))
  {
    assert ReadBytes(s, q, |raw|) == Ok((raw, q + |raw|));
  }
}
