/** The document value, `serde_json::Value` (the crate's `JsonValue`),
    and the partial accessors the encoder uses to look inside it. */
module Json {
  import opened Wrappers
  import opened Bytes
  import opened Bincode
  import Float64
  import Utf8

  type NegI64 = i: int | -0x8000_0000_0000_0000 <= i < 0 witness -1

  /** A JSON number: a non-negative integer that fits in a `u64`, a
      negative one that fits in an `i64`, or a finite double (its bit
      pattern, kept opaque). */
  datatype Number =
    | PosInt(n: u64)
    | NegInt(i: NegI64)
    | Float(bits: Float64.FiniteBits)

  datatype Value =
    | Null
    | Bool(b: bool)
    | Number(num: Number)
    | String(s: string)
    | Array(elems: seq<Value>)
    | Object(members: map<string, Value>)

  /** The number an `i64` becomes: non-negative ones are `PosInt`. */
  function FromI64(i: i64): Number
  {
    if i < 0 then NegInt(i) else PosInt(i)
  }

  /** A byte slice as serde_json represents it: an array of small
      non-negative integers, one per byte. */
  function FromBytes(raw: seq<byte>): (es: seq<Value>)
    ensures |es| == |raw|
  {
    seq(|raw|, i requires 0 <= i < |raw| => Number(PosInt(raw[i])))
  }

  function AsBool(v: Value): Option<bool>
  {
    if v.Bool? then Some(v.b) else None
  }

  function AsU64(v: Value): Option<u64>
  {
    if v.Number? && v.num.PosInt? then Some(v.num.n) else None
  }

  function AsI64(v: Value): Option<i64>
  {
    match v
    case Number(PosInt(n)) => if n < 0x8000_0000_0000_0000 then Some(n) else None
    case Number(NegInt(i)) => Some(i)
    case _ => None
  }

  /** Every number has an `f64` reading; an integer is rounded with `as f64`. */
  function AsF64(v: Value): Option<Float64.FiniteBits>
  {
    match v
    case Number(PosInt(n)) => Some(Float64.FromInt(n))
    case Number(NegInt(i)) => Some(Float64.FromInt(i))
    case Number(Float(bits)) => Some(bits)
    case _ => None
  }

  function AsStr(v: Value): Option<string>
  {
    if v.String? then Some(v.s) else None
  }

  function AsArray(v: Value): Option<seq<Value>>
  {
    if v.Array? then Some(v.elems) else None
  }

  function AsObject(v: Value): Option<map<string, Value>>
  {
    if v.Object? then Some(v.members) else None
  }

  /** Every length the encoder writes fits in a `usize` of 64 bits, as it
      does for any value that exists in memory: arrays and the UTF-8 bytes
      of strings have fewer than 2^64 entries, all the way down. */
  predicate Bounded(v: Value)
  {
    match v
    case String(s) => |Utf8.Encode(s)| < U64_BOUND
    case Array(es) => |es| < U64_BOUND && forall i :: 0 <= i < |es| ==> Bounded(es[i])
    case Object(m) => forall k :: k in m ==> Bounded(m[k])
    case _ => true
  }
}
