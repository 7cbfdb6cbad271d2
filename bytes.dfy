/** Bytes, fixed-width little-endian integers and the "occurs at" relation
    that lets an encoding be placed anywhere inside a larger buffer. */
module Bytes {

  type byte = b: int | 0 <= b < 256

  /** `w` occurs in `s` starting at position `p`. */
  predicate At(s: seq<byte>, p: nat, w: seq<byte>)
  {
    p + |w| <= |s| && s[p..p + |w|] == w
  }

  lemma AtSplit(s: seq<byte>, p: nat, a: seq<byte>, b: seq<byte>)
    requires At(s, p, a + b)
    ensures At(s, p, a) && At(s, p + |a|, b)
  {
    assert s[p..p + |a|] == (a + b)[..|a|];
    assert s[p + |a|..p + |a| + |b|] == (a + b)[|a|..];
  }

  function Pow256(w: nat): (r: nat)
    ensures r >= 1
  {
    if w == 0 then 1 else 256 * Pow256(w - 1)
  }

  /** The `w` low-order bytes of `n`, least significant first. */
  function LittleEndian(n: nat, w: nat): (r: seq<byte>)
    ensures |r| == w
  {
    if w == 0 then [] else [n % 256] + LittleEndian(n / 256, w - 1)
  }

  /** The number whose little-endian bytes are `bs`; it always fits in `|bs|` bytes. */
  function FromLittleEndian(bs: seq<byte>): (n: nat)
    ensures n < Pow256(|bs|)
  {
    if bs == [] then 0 else bs[0] + 256 * FromLittleEndian(bs[1..])
  }

  lemma {:induction false} LittleEndianRoundTrip(n: nat, w: nat)
    requires n < Pow256(w)
    ensures FromLittleEndian(LittleEndian(n, w)) == n
  {
    if w > 0 {
      LittleEndianRoundTrip(n / 256, w - 1);
      assert LittleEndian(n, w)[1..] == LittleEndian(n / 256, w - 1);
    }
  }

  /** The parts written one after another. */
  function Concat(parts: seq<seq<byte>>): seq<byte>
  {
    if parts == [] then [] else Concat(parts[..|parts| - 1]) + parts[|parts| - 1]
  }

  lemma AppendAssociates(a: seq<byte>, b: seq<byte>, c: seq<byte>)
    ensures (a + b) + c == a + (b + c)
  {
  }

  lemma {:induction false} ConcatFront(parts: seq<seq<byte>>)
    requires |parts| > 0
    ensures Concat(parts) == parts[0] + Concat(parts[1..])
  {
    var n := |parts|;
    if n == 1 {
      assert parts[1..] == [];
      assert parts[..0] == [];
    } else {
      var init := parts[..n - 1];
      ConcatFront(init);
      assert init[1..] == parts[1..][..n - 2];
      AppendAssociates(parts[0], Concat(init[1..]), parts[n - 1]);
    }
  }

  /** The same split, starting at any index. */
  lemma ConcatFrom(parts: seq<seq<byte>>, k: nat)
    requires k < |parts|
    ensures Concat(parts[k..]) == parts[k] + Concat(parts[k + 1..])
    ensures |Concat(parts[k..])| == |parts[k]| + |Concat(parts[k + 1..])|
  {
    ConcatFront(parts[k..]);
    assert parts[k..][1..] == parts[k + 1..];
  }
}
