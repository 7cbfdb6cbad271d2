/** UTF-8 (RFC 3629) as used for the bytes of a string: a Rust `str` is
    written as its UTF-8 bytes, and reading a `String` back validates
    them the way `String::from_utf8` does (shortest form only, no
    surrogate code points, nothing above U+10FFFF). */
module Utf8 {
  import opened Wrappers
  import opened Bytes

  predicate IsContinuation(b: byte)
  {
    0x80 <= b < 0xC0
  }

  /** The one to four bytes of one scalar value. */
  function EncodeChar(c: char): (r: seq<byte>)
    ensures 1 <= |r| <= 4
    ensures (|r| == 1) == (c as int < 0x80)
  {
    var n := c as int;
    if n < 0x80 then [n]
    else if n < 0x800 then [0xC0 + n / 64, 0x80 + n % 64]
    else if n < 0x1_0000 then [0xE0 + n / 4096, 0x80 + n / 64 % 64, 0x80 + n % 64]
    else [0xF0 + n / 0x4_0000, 0x80 + n / 4096 % 64, 0x80 + n / 64 % 64, 0x80 + n % 64]
  }

  function Encode(s: string): seq<byte>
  {
    if s == [] then [] else EncodeChar(s[0]) + Encode(s[1..])
  }

  /** Reads the scalar value that `b` starts with, and how many bytes it
      took; `None` when `b` does not start with a well-formed sequence. */
  function DecodeChar(b: seq<byte>): (r: Option<(char, nat)>)
    requires |b| > 0
    ensures r.Some? ==> 1 <= r.value.1 <= |b|
  {
    var b0 := b[0] as int;
    if b0 < 0x80 then Some((b0 as char, 1))
    else if 0xC2 <= b0 < 0xE0 then
      if |b| >= 2 && IsContinuation(b[1])
      then Some((((b0 - 0xC0) * 64 + (b[1] as int - 0x80)) as char, 2))
      else None
    else if 0xE0 <= b0 < 0xF0 then
      if |b| >= 3 && IsContinuation(b[1]) && IsContinuation(b[2]) then
        var n := (b0 - 0xE0) * 4096 + (b[1] as int - 0x80) * 64 + (b[2] as int - 0x80);
        if 0x800 <= n && !(0xD800 <= n < 0xE000) then Some((n as char, 3)) else None
      else None
    else if 0xF0 <= b0 < 0xF5 then
      if |b| >= 4 && IsContinuation(b[1]) && IsContinuation(b[2]) && IsContinuation(b[3]) then
        var n := (b0 - 0xF0) * 0x4_0000 + (b[1] as int - 0x80) * 4096 + (b[2] as int - 0x80) * 64 + (b[3] as int - 0x80);
        if 0x1_0000 <= n < 0x11_0000 then Some((n as char, 4)) else None
      else None
    else None
  }

  function Decode(b: seq<byte>): Option<string>
    decreases |b|
  {
    if b == [] then Some([])
    else
      match DecodeChar(b)
      case None => None
      case Some((c, k)) =>
        match Decode(b[k..])
        case None => None
        case Some(rest) => Some([c] + rest)
  }

  lemma DecodeEncodeChar(c: char, rest: seq<byte>)
    ensures DecodeChar(EncodeChar(c) + rest) == Some((c, |EncodeChar(c)|))
  {
    var n := c as int;
    var b := EncodeChar(c) + rest;
    if n < 0x80 {
      assert b[0] == n;
    } else if n < 0x800 {
      Digits2(n);
      assert b[0] == 0xC0 + n / 64 && b[1] == 0x80 + n % 64;
    } else if n < 0x1_0000 {
      Digits3(n);
      assert b[0] == 0xE0 + n / 4096 && b[1] == 0x80 + n / 64 % 64 && b[2] == 0x80 + n % 64;
    } else {
      Digits4(n);
      assert b[0] == 0xF0 + n / 0x4_0000 && b[1] == 0x80 + n / 4096 % 64;
      assert b[2] == 0x80 + n / 64 % 64 && b[3] == 0x80 + n % 64;
    }
  }

  lemma Digits2(n: nat)
    ensures n == (n / 64) * 64 + n % 64
  {
  }

  lemma Digits3(n: nat)
    ensures n == (n / 4096) * 4096 + (n / 64 % 64) * 64 + n % 64
  {
    var m := n / 64;
    assert n == m * 64 + n % 64;
    assert m == (m / 64) * 64 + m % 64;
    assert m / 64 == n / 4096;
  }

  lemma Digits4(n: nat)
    ensures n == (n / 0x4_0000) * 0x4_0000 + (n / 4096 % 64) * 4096 + (n / 64 % 64) * 64 + n % 64
  {
    var m := n / 64;
    Digits3(m);
    assert m / 4096 == n / 0x4_0000;
    assert m / 64 == n / 4096;
  }

  /** Decoding undoes encoding. */
  lemma {:induction false} DecodeEncode(s: string)
    ensures Decode(Encode(s)) == Some(s)
  {
    if s != [] {
      var e := EncodeChar(s[0]);
      var b := e + Encode(s[1..]);
      assert Encode(s) == b;
      DecodeEncodeChar(s[0], Encode(s[1..]));
      assert b[|e|..] == Encode(s[1..]);
      DecodeEncode(s[1..]);
      assert [s[0]] + s[1..] == s;
    }
  }

  /** The base-64 digits of a number assembled from digits. */
  lemma Compose2(x: int, d1: int)
    requires 0 <= x && 0 <= d1 < 64
    ensures (x * 64 + d1) / 64 == x && (x * 64 + d1) % 64 == d1
  {
  }

  lemma Compose3(x: int, d1: int, d2: int)
    requires 0 <= x && 0 <= d1 < 64 && 0 <= d2 < 64
    ensures var n := x * 4096 + d1 * 64 + d2;
      n / 64 == x * 64 + d1 && n % 64 == d2 && n / 4096 == x && n / 64 % 64 == d1
  {
    var n := x * 4096 + d1 * 64 + d2;
    assert n == (x * 64 + d1) * 64 + d2;
    Compose2(x * 64 + d1, d2);
    Compose2(x, d1);
    assert n / 4096 == n / 64 / 64;
  }

  lemma Compose4(x: int, d1: int, d2: int, d3: int)
    requires 0 <= x && 0 <= d1 < 64 && 0 <= d2 < 64 && 0 <= d3 < 64
    ensures var n := x * 0x4_0000 + d1 * 4096 + d2 * 64 + d3;
      n % 64 == d3 && n / 64 % 64 == d2 && n / 4096 % 64 == d1 && n / 0x4_0000 == x
  {
    var n := x * 0x4_0000 + d1 * 4096 + d2 * 64 + d3;
    var m := x * 4096 + d1 * 64 + d2;
    assert n == m * 64 + d3;
    Compose2(m, d3);
    Compose3(x, d1, d2);
    assert n / 4096 == m / 64 by {
      assert n / 4096 == n / 64 / 64;
    }
    assert n / 0x4_0000 == m / 4096 by {
      assert n / 0x4_0000 == n / 64 / 4096;
    }
  }

  lemma EncodeDecodeChar(b: seq<byte>)
    requires |b| > 0 && DecodeChar(b).Some?
    ensures EncodeChar(DecodeChar(b).value.0) == b[..DecodeChar(b).value.1]
  {
    var b0 := b[0] as int;
    if b0 < 0x80 {
    } else if b0 < 0xE0 {
      EncodeDecode2(b);
    } else if b0 < 0xF0 {
      EncodeDecode3(b);
    } else {
      EncodeDecode4(b);
    }
  }

  lemma EncodeDecode2(b: seq<byte>)
    requires |b| > 0 && DecodeChar(b).Some? && 0x80 <= b[0] < 0xE0
    ensures EncodeChar(DecodeChar(b).value.0) == b[..2] && DecodeChar(b).value.1 == 2
  {
    var b0, d1 := b[0] as int, b[1] as int - 0x80;
    var n := DecodeChar(b).value.0 as int;
    assert n == (b0 - 0xC0) * 64 + d1;
    Compose2(b0 - 0xC0, d1);
  }

  lemma EncodeDecode3(b: seq<byte>)
    requires |b| > 0 && DecodeChar(b).Some? && 0xE0 <= b[0] < 0xF0
    ensures EncodeChar(DecodeChar(b).value.0) == b[..3] && DecodeChar(b).value.1 == 3
  {
    var b0, d1, d2 := b[0] as int, b[1] as int - 0x80, b[2] as int - 0x80;
    var n := DecodeChar(b).value.0 as int;
    assert n == (b0 - 0xE0) * 4096 + d1 * 64 + d2;
    Compose3(b0 - 0xE0, d1, d2);
  }

  lemma EncodeDecode4(b: seq<byte>)
    requires |b| > 0 && DecodeChar(b).Some? && 0xF0 <= b[0]
    ensures EncodeChar(DecodeChar(b).value.0) == b[..4] && DecodeChar(b).value.1 == 4
  {
    var b0, d1, d2, d3 := b[0] as int, b[1] as int - 0x80, b[2] as int - 0x80, b[3] as int - 0x80;
    var n := DecodeChar(b).value.0 as int;
    assert n == (b0 - 0xF0) * 0x4_0000 + d1 * 4096 + d2 * 64 + d3;
    Compose4(b0 - 0xF0, d1, d2, d3);
  }

  /** Decoding accepts nothing but the encoding of what it returns. */
  lemma {:induction false} EncodeDecode(b: seq<byte>, s: string)
    requires Decode(b) == Some(s)
    ensures Encode(s) == b
    decreases |b|
  {
    if b != [] {
      var (c, k) := DecodeChar(b).value;
      EncodeDecodeChar(b);
      var rest :| Decode(b[k..]) == Some(rest) && s == [c] + rest;
      EncodeDecode(b[k..], rest);
      assert s[1..] == rest;
      assert b == b[..k] + b[k..];
    }
  }
}
