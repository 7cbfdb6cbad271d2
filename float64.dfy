/** IEEE 754 binary64 values, kept opaque as their bit patterns. The only
    arithmetic the backend needs is Rust's `as f64` on a `u64` or an `i64`
    (what `Value::as_f64` does to an integer number): the integer rounded
    to the nearest double, ties to even. */
module Float64 {
  import opened Bincode

  const FRACTION: nat := 0x10_0000_0000_0000   // 2^52, one unit of the exponent field
  const SIGN: nat := 0x8000_0000_0000_0000     // 2^63, the sign bit
  const EXPONENT_BIAS: nat := 1023

  /** The exponent field is not all ones: neither an infinity nor a NaN. */
  predicate IsFinite(bits: u64)
  {
    bits / FRACTION % 0x800 != 0x7FF
  }

  type FiniteBits = bits: u64 | IsFinite(bits)

  function Pow2(e: nat): (r: nat)
    ensures r >= 1
  {
    if e == 0 then 1 else 2 * Pow2(e - 1)
  }

  lemma {:induction false} Pow2Add(a: nat, b: nat)
    ensures Pow2(a + b) == Pow2(a) * Pow2(b)
  {
    if b > 0 {
      Pow2Add(a, b - 1);
    }
  }

  lemma {:induction false} Pow2Monotone(a: nat, b: nat)
    requires a <= b
    ensures Pow2(a) <= Pow2(b)
  {
    if a < b {
      Pow2Monotone(a, b - 1);
    }
  }

  lemma Pow2Constants()
    ensures Pow2(52) == FRACTION && Pow2(53) == 2 * FRACTION && Pow2(64) == U64_BOUND
  {
    assert Pow2(16) == 0x1_0000;
    Pow2Add(16, 16);
    Pow2Add(32, 16);
    Pow2Add(48, 4);
    assert Pow2(4) == 16;
    Pow2Add(52, 12);
    assert Pow2(12) == 0x1000;
  }

  /** The position of the highest set bit. */
  function Log2(n: nat): (e: nat)
    requires n >= 1
    ensures Pow2(e) <= n < 2 * Pow2(e)
  {
    if n == 1 then 0 else 1 + Log2(n / 2)
  }

  lemma DivBounds(a: nat, b: nat, lo: nat, hi: nat)
    requires b > 0 && lo * b <= a < hi * b
    ensures lo <= a / b < hi
  {
    var q, r := a / b, a % b;
    assert a == q * b + r;
    if q < lo {
      MulMonotone(q + 1, lo, b);
    }
    if q >= hi {
      MulMonotone(hi, q, b);
    }
  }

  lemma MulMonotone(a: nat, b: nat, c: nat)
    requires a <= b
    ensures a * c <= b * c
  {
  }

  /** A magnitude below 2^53 scales up to a 53-bit significand exactly. */
  lemma ScaleUp(mag: nat, e: nat)
    requires 1 <= mag && e == Log2(mag) <= 52
    ensures FRACTION <= mag * Pow2(52 - e) < 2 * FRACTION
    ensures mag * Pow2(52 - e) * Pow2(e) == mag * FRACTION
  {
    Pow2Constants();
    Pow2Add(e, 52 - e);
    ScaleBounds(mag, Pow2(e), Pow2(52 - e), FRACTION);
  }

  lemma ScaleBounds(mag: nat, a: nat, p: nat, f: nat)
    requires a * p == f && a <= mag < 2 * a && p >= 1
    ensures f <= mag * p < 2 * f && mag * p * a == mag * f
  {
    assert 2 * a * p == 2 * f;
    MulMonotone(a, mag, p);
    MulMonotone(mag + 1, 2 * a, p);
    assert (mag + 1) * p == mag * p + p;
    MulAssociates(mag, p, a);
  }

  lemma MulAssociates(x: nat, y: nat, z: nat)
    ensures x * y * z == x * (z * y)
  {
  }

  /** A magnitude of 2^53 or more keeps its top 53 bits when shifted down. */
  lemma ScaleDown(mag: nat, e: nat)
    requires 1 <= mag && e == Log2(mag) > 52
    ensures FRACTION <= mag / Pow2(e - 52) < 2 * FRACTION
  {
    Pow2Constants();
    var p := Pow2(e - 52);
    Pow2Add(52, e - 52);
    assert FRACTION * p == Pow2(e);
    assert 2 * FRACTION * p == 2 * Pow2(e);
    DivBounds(mag, p, FRACTION, 2 * FRACTION);
  }

  /** `mag` rounded to a 53-bit significand `m` (the leading bit included)
      and an exponent `e`, so that the double is `m * 2^(e - 52)`. */
  function Significand(mag: nat): (r: (nat, nat))
    requires 1 <= mag < U64_BOUND
    ensures FRACTION <= r.0 < 2 * FRACTION && r.1 <= 64
    ensures Log2(mag) <= 52 ==> r.0 * Pow2(r.1) == mag * FRACTION
  {
    var e := Log2(mag);
    LogBelow64(mag);
    if e <= 52 then
      ScaleUp(mag, e);
      (mag * Pow2(52 - e), e)
    else
      RoundDown(mag, e)
  }

  /** Drops the `e - 52` low bits of `mag`, rounding to nearest, ties to
      even; a carry out of the top bit moves to the next exponent. */
  function RoundDown(mag: nat, e: nat): (r: (nat, nat))
    requires 1 <= mag && e == Log2(mag) > 52
    ensures FRACTION <= r.0 < 2 * FRACTION && e <= r.1 <= e + 1
  {
    var k := e - 52;
    ScaleDown(mag, e);
    var q, rem := mag / Pow2(k), mag % Pow2(k);
    var half := Pow2(k - 1);
    var up := rem > half || (rem == half && q % 2 == 1);
    var q' := if up then q + 1 else q;
    if q' == 2 * FRACTION then (FRACTION, e + 1) else (q', e)
  }

  lemma LogBelow64(mag: nat)
    requires 1 <= mag < U64_BOUND
    ensures Log2(mag) < 63 || (Log2(mag) == 63 && mag >= SIGN)
  {
    Pow2Constants();
    var e := Log2(mag);
    if e >= 64 {
      Pow2Monotone(64, e);
    }
    if e == 63 {
      assert Pow2(64) == 2 * Pow2(63);
    }
  }

  /** Sign, exponent field and fraction field packed into 64 bits. */
  lemma Pack(negative: bool, exponent: nat, fraction: nat)
    requires exponent < 0x7FF && fraction < FRACTION
    ensures var bits := (if negative then SIGN else 0) + exponent * FRACTION + fraction;
      bits < U64_BOUND && bits / FRACTION % 0x800 == exponent && (bits >= SIGN <==> negative)
  {
    var hi := (if negative then 0x800 else 0) + exponent;
    var bits := (if negative then SIGN else 0) + exponent * FRACTION + fraction;
    assert bits == hi * FRACTION + fraction;
    assert bits / FRACTION == hi;
  }

  /** The bit pattern of the signed integer `x` converted with `as f64`. */
  function FromInt(x: int): (bits: FiniteBits)
    requires -(SIGN as int) <= x < U64_BOUND
    ensures bits == 0 <==> x == 0
    ensures bits >= SIGN <==> x < 0
  {
    if x == 0 then 0
    else
      var (m, e) := Significand(if x < 0 then -x else x);
      Pack(x < 0, e + EXPONENT_BIAS, m - FRACTION);
      (if x < 0 then SIGN else 0) + (e + EXPONENT_BIAS) * FRACTION + (m - FRACTION)
  }
}
