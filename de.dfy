/** The decoder (`src/binc/de.rs`): a serde seed that carries the schema
    and chooses, per node, which bincode read to ask for and which visitor
    turns the result into a document value. Struct fields are read one per
    schema field with no count; arrays read their length first.

    `Revision` selects between the decoder as written and the decoder with
    the two scalar reads the encoder's layout calls for: `AsWritten` reads
    an `I64` node and an `F64` node as a varint `u64`, `Corrected` reads a
    zigzag `i64` and an 8-byte `f64`. */
module De {
  import opened Wrappers
  import opened Bytes
  import opened Bincode
  import opened Json
  import opened Schema
  import Float64

  datatype Revision = AsWritten | Corrected

  /** What a scalar node reads at `p`, and the value its visitor builds. */
  function DecodeScalar(rev: Revision, ty: Ty, s: seq<byte>, p: nat): (r: Result<(Value, nat), DecodeError>)
    requires p <= |s| && !ty.Array? && !ty.Struct?
    ensures r.Ok? ==> p < r.value.1 <= |s|
  {
    match ty
    case Bool =>
      (match ReadBool(s, p)
       case Err(e) => Err(e)
       case Ok((b, q)) => Ok((Value.Bool(b), q)))
    case U64 =>
      (match ReadU64(s, p)
       case Err(e) => Err(e)
       case Ok((n, q)) => Ok((Number(PosInt(n)), q)))
    case I64 =>
      if rev.AsWritten? then
        (match ReadU64(s, p)
         case Err(e) => Err(e)
         case Ok((n, q)) => Ok((Number(PosInt(n)), q)))
      else
        (match ReadI64(s, p)
         case Err(e) => Err(e)
         case Ok((i, q)) => Ok((Number(FromI64(i)), q)))
    case F64 =>
      if rev.AsWritten? then
        // the float visitor has no `visit_u64`: a varint read that succeeds
        // is refused as a value of the wrong type
        (match ReadU64(s, p)
         case Err(e) => Err(e)
         case Ok(_) => Err(InvalidType))
      else
        // serde_json turns a NaN or an infinity into null
        (match ReadF64(s, p)
         case Err(e) => Err(e)
         case Ok((bits, q)) =>
           Ok((if Float64.IsFinite(bits) then Number(Float(bits)) else Null, q)))
    case Bytes =>
      (match ReadU64(s, p)
       case Err(e) => Err(e)
       case Ok((n, q)) =>
         match ReadBytes(s, q, n)
         case Err(e) => Err(e)
         case Ok((raw, q')) => Ok((Value.Array(FromBytes(raw)), q')))
    case String =>
      (match ReadString(s, p)
       case Err(e) => Err(e)
       case Ok((t, q)) => Ok((Value.String(t), q)))
  }

  /** `TypedValue::deserialize` at position `p`: the value and the position
      after it. */
  function Decode(rev: Revision, ty: Ty, s: seq<byte>, p: nat): (r: Result<(Value, nat), DecodeError>)
    requires p <= |s|
    ensures r.Ok? ==> p <= r.value.1 <= |s|
    decreases ty, 1
  {
    match ty
    case Array(_) =>
      (match ReadU64(s, p)
       case Err(e) => Err(e)
       case Ok((n, q)) =>
         match DecodeElements(rev, ty, s, q, n, [])
         case Err(e) => Err(e)
         case Ok((es, q')) => Ok((Value.Array(es), q')))
    case Struct(_) =>
      (match DecodeFields(rev, ty, s, p, 0, map[])
       case Err(e) => Err(e)
       case Ok((m, q)) => Ok((Object(m), q)))
    case _ => DecodeScalar(rev, ty, s, p)
  }

  /** `ArrayVisitor::visit_seq`: `n` more elements after those in `acc`. */
  function DecodeElements(rev: Revision, ty: Ty, s: seq<byte>, p: nat, n: nat, acc: seq<Value>)
    : (r: Result<(seq<Value>, nat), DecodeError>)
    requires ty.Array? && p <= |s|
    ensures r.Ok? ==> p <= r.value.1 <= |s|
    decreases ty, 0, n
  {
    if n == 0 then Ok((acc, p))
    else
      match Decode(rev, ty.inner, s, p)
      case Err(e) => Err(e)
      case Ok((v, q)) => DecodeElements(rev, ty, s, q, n - 1, acc + [v])
  }

  /** `StructVisitor::visit_seq`: the fields from index `k` on, each
      inserted under its name into the members decoded so far. */
  function DecodeFields(rev: Revision, ty: Ty, s: seq<byte>, p: nat, k: nat, acc: map<string, Value>)
    : (r: Result<(map<string, Value>, nat), DecodeError>)
    requires ty.Struct? && k <= |ty.fields| && p <= |s|
    ensures r.Ok? ==> p <= r.value.1 <= |s|
    decreases ty, 0, |ty.fields| - k
  {
    if k == |ty.fields| then Ok((acc, p))
    else
      var field := ty.fields[k];
      match Decode(rev, field.ty, s, p)
      case Err(e) => Err(e)
      case Ok((v, q)) => DecodeFields(rev, ty, s, q, k + 1, acc[field.name := v])
  }

  /** One element read, then the rest. */
  lemma ElementsStep(rev: Revision, ty: Ty, s: seq<byte>, p: nat, n: nat, acc: seq<Value>, v: Value, q: nat)
    requires ty.Array? && p <= q <= |s| && n > 0
    requires Decode(rev, ty.inner, s, p) == Ok((v, q))
    ensures DecodeElements(rev, ty, s, p, n, acc) == DecodeElements(rev, ty, s, q, n - 1, acc + [v])
  {
  }

  /** One field read and inserted, then the rest. */
  lemma FieldsStep(rev: Revision, ty: Ty, s: seq<byte>, p: nat, k: nat, acc: map<string, Value>, v: Value, q: nat)
    requires ty.Struct? && k < |ty.fields| && p <= q <= |s|
    requires Decode(rev, ty.fields[k].ty, s, p) == Ok((v, q))
    ensures DecodeFields(rev, ty, s, p, k, acc) == DecodeFields(rev, ty, s, q, k + 1, acc[ty.fields[k].name := v])
  {
  }

  /** An array node: its length, then that many elements. */
  lemma ArrayStep(rev: Revision, ty: Ty, s: seq<byte>, p: nat, n: nat, q: nat, es: seq<Value>, end: nat)
    requires ty.Array? && p <= q <= |s| && ReadU64(s, p) == Ok((n, q))
    requires DecodeElements(rev, ty, s, q, n, []) == Ok((es, end))
    ensures Decode(rev, ty, s, p) == Ok((Value.Array(es), end))
  {
  }

  /** A byte blob: its length, then that many raw bytes. */
  lemma BytesStep(rev: Revision, ty: Ty, s: seq<byte>, p: nat, n: nat, q: nat, raw: seq<byte>, end: nat)
    requires ty.Bytes? && p <= q <= |s| && ReadU64(s, p) == Ok((n, q)) && ReadBytes(s, q, n) == Ok((raw, end))
    ensures Decode(rev, ty, s, p) == Ok((Value.Array(FromBytes(raw)), end))
  {
  }

  /** A struct node: its fields, from the first, into an empty object. */
  lemma StructStep(rev: Revision, ty: Ty, s: seq<byte>, p: nat, m: map<string, Value>, end: nat)
    requires ty.Struct? && p <= |s| && DecodeFields(rev, ty, s, p, 0, map[]) == Ok((m, end))
    ensures Decode(rev, ty, s, p) == Ok((Value.Object(m), end))
  {
  }

  /** `deserialize`: the value at the start of `bytes`. Reading stops after
      it; bytes after the value are not looked at. */
  function Deserialized(rev: Revision, ty: Ty, bytes: seq<byte>): Result<Value, DecodeError>
  {
    match Decode(rev, ty, bytes, 0)
    case Err(e) => Err(e)
    case Ok((v, _)) => Ok(v)
  }

  /** The input bytes and how far the deserializer has read them. */
  class Reader {
    const input: seq<byte>
    var pos: nat

    constructor (input: seq<byte>)
      ensures this.input == input && pos == 0
    {
      this.input := input;
      pos := 0;
    }
  }

  /** `TypedValue::deserialize` on a reader: on success the value, with the
      reader moved past it. */
  method DeserializeSeed(rev: Revision, ty: Ty, rd: Reader) returns (r: Result<Value, DecodeError>)
    requires rd.pos <= |rd.input|
    modifies rd
    ensures var d := Decode(rev, ty, rd.input, old(rd.pos));
      (d.Ok? ==> r == Ok(d.value.0) && rd.pos == d.value.1) && (d.Err? ==> r == Err(d.error))
    decreases ty, 1
  {
    match ty {
      case Array(_) =>
        var len := ReadU64(rd.input, rd.pos);
        if len.Err? {
          return Err(len.error);
        }
        rd.pos := len.value.1;
        r := VisitArray(rev, ty, rd, len.value.0);
      case Struct(_) =>
        r := VisitStruct(rev, ty, rd);
      case _ =>
        var d := DecodeScalar(rev, ty, rd.input, rd.pos);
        if d.Err? {
          return Err(d.error);
        }
        rd.pos := d.value.1;
        r := Ok(d.value.0);
    }
  }

  /** `ArrayVisitor::visit_seq`: reads elements while the sequence access
      has any left. */
  method VisitArray(rev: Revision, ty: Ty, rd: Reader, len: nat) returns (r: Result<Value, DecodeError>)
    requires ty.Array? && rd.pos <= |rd.input|
    modifies rd
    ensures var d := DecodeElements(rev, ty, rd.input, old(rd.pos), len, []);
      (d.Ok? ==> r == Ok(Value.Array(d.value.0)) && rd.pos == d.value.1) && (d.Err? ==> r == Err(d.error))
    decreases ty, 0
  {
    var v: seq<Value> := [];
    var remaining := len;
    while remaining > 0
      invariant rd.pos <= |rd.input|
      invariant DecodeElements(rev, ty, rd.input, old(rd.pos), len, []) ==
        DecodeElements(rev, ty, rd.input, rd.pos, remaining, v)
      decreases remaining
    {
      var e := DeserializeSeed(rev, ty.inner, rd);
      if e.Err? {
        return Err(e.error);
      }
      v := v + [e.value];
      remaining := remaining - 1;
    }
    return Ok(Value.Array(v));
  }

  /** `StructVisitor::visit_seq`: one element per schema field, in order,
      inserted into the map under the field's name. The access of a tuple
      of `|fields|` elements never runs out early, so the "missing value"
      error of the source cannot occur. */
  method VisitStruct(rev: Revision, ty: Ty, rd: Reader) returns (r: Result<Value, DecodeError>)
    requires ty.Struct? && rd.pos <= |rd.input|
    modifies rd
    ensures var d := DecodeFields(rev, ty, rd.input, old(rd.pos), 0, map[]);
      (d.Ok? ==> r == Ok(Object(d.value.0)) && rd.pos == d.value.1) && (d.Err? ==> r == Err(d.error))
    decreases ty, 0
  {
    var m: map<string, Value> := map[];
    for k := 0 to |ty.fields|
      invariant rd.pos <= |rd.input|
      invariant DecodeFields(rev, ty, rd.input, old(rd.pos), 0, map[]) ==
        DecodeFields(rev, ty, rd.input, rd.pos, k, m)
    {
      var field := ty.fields[k];
      var v := DeserializeSeed(rev, field.ty, rd);
      if v.Err? {
        return Err(v.error);
      }
      m := m[field.name := v.value];
    }
    return Ok(Object(m));
  }

  /** `deserialize`: a fresh reader over the bytes. */
  method Deserialize(rev: Revision, ty: Ty, bytes: seq<byte>) returns (r: Result<Value, DecodeError>)
    ensures r == Deserialized(rev, ty, bytes)
  {
    var rd := new Reader(bytes);
    r := DeserializeSeed(rev, ty, rd);
  }

  // ---- what the decoder promises ----

  /** The fields from index `k` on add exactly their names to the keys. */
  lemma {:induction false} FieldsKeys(rev: Revision, ty: Ty, s: seq<byte>, p: nat, k: nat, acc: map<string, Value>)
    requires ty.Struct? && k <= |ty.fields| && p <= |s| && DecodeFields(rev, ty, s, p, k, acc).Ok?
    ensures DecodeFields(rev, ty, s, p, k, acc).value.0.Keys == acc.Keys + Names(ty.fields[k..])
    decreases |ty.fields| - k
  {
    if k < |ty.fields| {
      var field := ty.fields[k];
      assert Names(ty.fields[k..]) == {field.name} + Names(ty.fields[k + 1..]) by {
        assert ty.fields[k..][0] == field;
        assert forall i :: 1 <= i < |ty.fields[k..]| ==> ty.fields[k..][i] == ty.fields[k + 1..][i - 1];
      }
      var (v, q) := Decode(rev, field.ty, s, p).value;
      FieldsKeys(rev, ty, s, q, k + 1, acc[field.name := v]);
    } else {
      assert ty.fields[k..] == [];
    }
  }

  /** The elements read extend the accumulated ones by exactly `n`. */
  lemma {:induction false} ElementsLength(rev: Revision, ty: Ty, s: seq<byte>, p: nat, n: nat, acc: seq<Value>)
    requires ty.Array? && p <= |s| && DecodeElements(rev, ty, s, p, n, acc).Ok?
    ensures var es := DecodeElements(rev, ty, s, p, n, acc).value.0;
      |es| == |acc| + n && es[..|acc|] == acc
    decreases n
  {
    if n > 0 {
      var (v, q) := Decode(rev, ty.inner, s, p).value;
      ElementsLength(rev, ty, s, q, n - 1, acc + [v]);
      var es := DecodeElements(rev, ty, s, p, n, acc).value.0;
      assert es[..|acc|] == es[..|acc| + 1][..|acc|];
    }
  }

  /** A decoded struct is an object whose keys are exactly the field
      names; with distinct names it has one member per field. */
  lemma StructKeys(rev: Revision, fields: seq<Field>, s: seq<byte>, p: nat)
    requires p <= |s| && Decode(rev, Ty.Struct(fields), s, p).Ok?
    ensures var v := Decode(rev, Ty.Struct(fields), s, p).value.0;
      v.Object? && v.members.Keys == Names(fields) &&
      (DistinctNames(fields) ==> |v.members| == |fields|)
  {
    FieldsKeys(rev, Ty.Struct(fields), s, p, 0, map[]);
    assert fields[0..] == fields;
    var v := Decode(rev, Ty.Struct(fields), s, p).value.0;
    if DistinctNames(fields) {
      DistinctNamesCount(fields);
      assert |v.members.Keys| == |v.members|;
    }
  }

  /** A decoded array has as many elements as its length prefix says. */
  lemma ArrayLength(rev: Revision, inner: Ty, s: seq<byte>, p: nat)
    requires p <= |s| && Decode(rev, Ty.Array(inner), s, p).Ok?
    ensures ReadU64(s, p).Ok?
    ensures var v := Decode(rev, Ty.Array(inner), s, p).value.0;
      v.Array? && |v.elems| == ReadU64(s, p).value.0
  {
    var (n, q) := ReadU64(s, p).value;
    ElementsLength(rev, Ty.Array(inner), s, q, n, []);
  }

  /** The values a struct's fields from index `k` on decode to, read one
      after another in schema order, before any of them is put in a map. */
  function FieldValues(rev: Revision, ty: Ty, s: seq<byte>, p: nat, k: nat): (r: Result<(seq<Value>, nat), DecodeError>)
    requires ty.Struct? && k <= |ty.fields| && p <= |s|
    ensures r.Ok? ==> |r.value.0| == |ty.fields| - k && p <= r.value.1 <= |s|
    decreases |ty.fields| - k
  {
    if k == |ty.fields| then Ok(([], p))
    else
      match Decode(rev, ty.fields[k].ty, s, p)
      case Err(e) => Err(e)
      case Ok((v, q)) =>
        match FieldValues(rev, ty, s, q, k + 1)
        case Err(e) => Err(e)
        case Ok((vs, end)) => Ok(([v] + vs, end))
  }

  /** No later field has the name of field `j`. */
  predicate LastOfName(fields: seq<Field>, j: nat)
    requires j < |fields|
  {
    forall i :: j < i < |fields| ==> fields[i].name != fields[j].name
  }

  /** The map `m` a field loop from index `k` on built over `acc`, for
      the values `vs` it read: it keeps the earlier members whose names no
      field reuses, adds every field name, and maps each name to the value
      of the LAST field that carries it. */
  ghost predicate LastWins(fields: seq<Field>, k: nat, acc: map<string, Value>, m: map<string, Value>, vs: seq<Value>)
    requires k <= |fields| && |vs| == |fields| - k
  {
    m.Keys == acc.Keys + Names(fields[k..]) && EarlierKept(fields, k, acc, m) && LastValues(fields, k, m, vs)
  }

  ghost predicate EarlierKept(fields: seq<Field>, k: nat, acc: map<string, Value>, m: map<string, Value>)
    requires k <= |fields|
  {
    forall name :: name in acc && name !in Names(fields[k..]) ==> name in m && m[name] == acc[name]
  }

  ghost predicate LastValues(fields: seq<Field>, k: nat, m: map<string, Value>, vs: seq<Value>)
    requires k <= |fields| && |vs| == |fields| - k
  {
    forall j :: k <= j < |fields| && LastOfName(fields, j) ==> fields[j].name in m && m[fields[j].name] == vs[j - k]
  }

  /** The field loop succeeds exactly when the fields' values can be read
      in order, fails with the same error otherwise, ends at the same
      place, and builds its map as `LastWins` describes. */
  lemma {:induction false} FieldsLastWins(rev: Revision, ty: Ty, s: seq<byte>, p: nat, k: nat, acc: map<string, Value>)
    requires ty.Struct? && k <= |ty.fields| && p <= |s|
    ensures DecodeFields(rev, ty, s, p, k, acc).Ok? <==> FieldValues(rev, ty, s, p, k).Ok?
    ensures DecodeFields(rev, ty, s, p, k, acc).Err? ==>
      FieldValues(rev, ty, s, p, k) == Err(DecodeFields(rev, ty, s, p, k, acc).error)
    ensures DecodeFields(rev, ty, s, p, k, acc).Ok? ==>
      DecodeFields(rev, ty, s, p, k, acc).value.1 == FieldValues(rev, ty, s, p, k).value.1 &&
      LastWins(ty.fields, k, acc, DecodeFields(rev, ty, s, p, k, acc).value.0, FieldValues(rev, ty, s, p, k).value.0)
    decreases |ty.fields| - k
  {
    if k == |ty.fields| {
      assert ty.fields[k..] == [];
    } else {
      var field := ty.fields[k];
      match Decode(rev, field.ty, s, p)
      case Err(e) =>
      case Ok((v, q)) =>
        var acc' := acc[field.name := v];
        FieldsStep(rev, ty, s, p, k, acc, v, q);
        FieldsLastWins(rev, ty, s, q, k + 1, acc');
        if DecodeFields(rev, ty, s, q, k + 1, acc').Ok? {
          LastWinsStep(ty.fields, k, acc, v, DecodeFields(rev, ty, s, q, k + 1, acc').value.0,
            FieldValues(rev, ty, s, q, k + 1).value.0);
        }
    }
  }

  /** One field inserted before the rest of the loop keeps `LastWins`. */
  lemma LastWinsStep(fields: seq<Field>, k: nat, acc: map<string, Value>, v: Value, m: map<string, Value>, vs: seq<Value>)
    requires k < |fields| && |vs| == |fields| - k - 1
    requires LastWins(fields, k + 1, acc[fields[k].name := v], m, vs)
    ensures LastWins(fields, k, acc, m, [v] + vs)
  {
    NamesFrom(fields, k);
    KeptStep(fields, k, acc, v, m);
    ValuesStep(fields, k, v, m, vs);
  }

  lemma KeptStep(fields: seq<Field>, k: nat, acc: map<string, Value>, v: Value, m: map<string, Value>)
    requires k < |fields| && Names(fields[k..]) == {fields[k].name} + Names(fields[k + 1..])
    requires EarlierKept(fields, k + 1, acc[fields[k].name := v], m)
    ensures EarlierKept(fields, k, acc, m)
    ensures LastOfName(fields, k) ==> fields[k].name in m && m[fields[k].name] == v
  {
    var acc' := acc[fields[k].name := v];
    forall name | name in acc && name !in Names(fields[k..])
      ensures name in m && m[name] == acc[name]
    {
      assert name in acc' && name !in Names(fields[k + 1..]);
    }
    if LastOfName(fields, k) {
      NameAbsent(fields, k);
      assert fields[k].name in acc';
    }
  }

  lemma ValuesStep(fields: seq<Field>, k: nat, v: Value, m: map<string, Value>, vs: seq<Value>)
    requires k < |fields| && |vs| == |fields| - k - 1
    requires LastValues(fields, k + 1, m, vs)
    requires LastOfName(fields, k) ==> fields[k].name in m && m[fields[k].name] == v
    ensures LastValues(fields, k, m, [v] + vs)
  {
    forall j | k < j < |fields| && LastOfName(fields, j)
      ensures fields[j].name in m && m[fields[j].name] == ([v] + vs)[j - k]
    {
      assert ([v] + vs)[j - k] == vs[j - (k + 1)];
    }
  }

  /** The names from index `k` on: the name at `k`, then those after it. */
  lemma NamesFrom(fields: seq<Field>, k: nat)
    requires k < |fields|
    ensures Names(fields[k..]) == {fields[k].name} + Names(fields[k + 1..])
  {
    assert fields[k..][0] == fields[k];
    assert forall i :: 1 <= i < |fields[k..]| ==> fields[k..][i] == fields[k + 1..][i - 1];
  }

  /** The last field of a name: no later field carries it. */
  lemma NameAbsent(fields: seq<Field>, k: nat)
    requires k < |fields| && LastOfName(fields, k)
    ensures fields[k].name !in Names(fields[k + 1..])
  {
    var rest := fields[k + 1..];
    forall i | 0 <= i < |rest|
      ensures rest[i].name != fields[k].name
    {
      assert rest[i] == fields[k + 1 + i];
    }
  }

  /** A decoded struct with distinct field names maps each field's name to
      the value read for that field, in schema order. */
  lemma StructFieldValues(rev: Revision, fields: seq<Field>, s: seq<byte>, p: nat)
    requires p <= |s| && DistinctNames(fields) && Decode(rev, Ty.Struct(fields), s, p).Ok?
    ensures FieldValues(rev, Ty.Struct(fields), s, p, 0).Ok?
    ensures var v := Decode(rev, Ty.Struct(fields), s, p).value.0;
      var vs := FieldValues(rev, Ty.Struct(fields), s, p, 0).value.0;
      v.Object? && forall j :: 0 <= j < |fields| ==> fields[j].name in v.members && v.members[fields[j].name] == vs[j]
  {
    var ty := Ty.Struct(fields);
    FieldsLastWins(rev, ty, s, p, 0, map[]);
    assert fields[0..] == fields;
    assert forall j :: 0 <= j < |fields| ==> LastOfName(fields, j);
  }

  /** An element that fails to decode ends the element loop with its error. */
  lemma ElementErrorAborts(rev: Revision, ty: Ty, s: seq<byte>, p: nat, n: nat, acc: seq<Value>)
    requires ty.Array? && p <= |s| && n > 0 && Decode(rev, ty.inner, s, p).Err?
    ensures DecodeElements(rev, ty, s, p, n, acc) == Err(Decode(rev, ty.inner, s, p).error)
  {
  }

  /** A field that fails to decode ends the field loop with its error. */
  lemma FieldErrorAborts(rev: Revision, ty: Ty, s: seq<byte>, p: nat, k: nat, acc: map<string, Value>)
    requires ty.Struct? && p <= |s| && k < |ty.fields| && Decode(rev, ty.fields[k].ty, s, p).Err?
    ensures DecodeFields(rev, ty, s, p, k, acc) == Err(Decode(rev, ty.fields[k].ty, s, p).error)
  {
  }

  /** A failed element or field loop fails the whole node with the same
      error: no partial array or object is returned. */
  lemma NodeErrorAborts(rev: Revision, ty: Ty, s: seq<byte>, p: nat)
    requires p <= |s| && (ty.Array? || ty.Struct?)
    ensures ty.Array? && ReadU64(s, p).Ok? && DecodeElements(rev, ty, s, ReadU64(s, p).value.1, ReadU64(s, p).value.0, []).Err? ==>
      Decode(rev, ty, s, p) == Err(DecodeElements(rev, ty, s, ReadU64(s, p).value.1, ReadU64(s, p).value.0, []).error)
    ensures ty.Struct? && DecodeFields(rev, ty, s, p, 0, map[]).Err? ==>
      Decode(rev, ty, s, p) == Err(DecodeFields(rev, ty, s, p, 0, map[]).error)
    ensures ty.Array? && ReadU64(s, p).Err? ==> Decode(rev, ty, s, p) == Err(ReadU64(s, p).error)
  {
  }

  /** A decoded byte blob is its length prefix and then that many raw
      bytes, each becoming a non-negative integer. */
  lemma BytesDecodeLayout(rev: Revision, s: seq<byte>, p: nat)
    requires p <= |s| && Decode(rev, Ty.Bytes, s, p).Ok?
    ensures ReadU64(s, p).Ok?
    ensures var (n, q) := ReadU64(s, p).value;
      var (v, end) := Decode(rev, Ty.Bytes, s, p).value;
      end == q + n && v.Array? && |v.elems| == n &&
      forall i :: 0 <= i < n ==> v.elems[i] == Number(PosInt(s[q + i]))
  {
  }

  /** As written, an `F64` node never decodes: the varint read either
      fails on its own or hands an integer to a visitor that only takes
      floats. */
  lemma F64AsWrittenFails(s: seq<byte>, p: nat)
    requires p <= |s|
    ensures Decode(AsWritten, Ty.F64, s, p).Err?
    ensures ReadU64(s, p).Ok? ==> Decode(AsWritten, Ty.F64, s, p) == Err(InvalidType)
  {
  }

  /** As written, an `I64` node reads the zigzag code of the integer back
      as an unsigned number. */
  lemma I64AsWrittenUnsigned(i: i64, s: seq<byte>, p: nat)
    requires At(s, p, WriteI64(i))
    ensures Decode(AsWritten, Ty.I64, s, p) == Ok((Number(PosInt(ZigZag(i))), p + |WriteI64(i)|))
  {
    ReadWriteU64(ZigZag(i), s, p);
  }

  /** With the corrected read, an `I64` node gives the integer back. */
  lemma I64CorrectedSigned(i: i64, s: seq<byte>, p: nat)
    requires At(s, p, WriteI64(i))
    ensures Decode(Corrected, Ty.I64, s, p) == Ok((Number(FromI64(i)), p + |WriteI64(i)|))
  {
    ReadWriteI64(i, s, p);
  }

  /** With the corrected read, an `F64` node gives back the double whose
      bit pattern was written, and null for a NaN or an infinity. */
  lemma F64CorrectedBits(bits: u64, s: seq<byte>, p: nat)
    requires At(s, p, WriteF64(bits))
    ensures Decode(Corrected, Ty.F64, s, p) ==
      Ok((if Float64.IsFinite(bits) then Number(Float(bits)) else Null, p + 8))
  {
    ReadWriteF64(bits, s, p);
  }

  /** Two fields under one name: both are read, in order, and the later
      one's value is the one kept. */
  lemma DuplicateNameKeepsLast(rev: Revision)
    ensures Deserialized(rev, Ty.Struct([Field("a", Ty.Bool), Field("a", Ty.Bool)]), [0, 1]) ==
      Ok(Object(map["a" := Value.Bool(true)]))
  {
    var ty := Ty.Struct([Field("a", Ty.Bool), Field("a", Ty.Bool)]);
    var s: seq<byte> := [0, 1];
    assert Decode(rev, Ty.Bool, s, 0) == Ok((Value.Bool(false), 1));
    assert Decode(rev, Ty.Bool, s, 1) == Ok((Value.Bool(true), 2));
    var first := map["a" := Value.Bool(false)];
    assert first["a" := Value.Bool(true)] == map["a" := Value.Bool(true)];
    assert DecodeFields(rev, ty, s, 1, 1, first) == Ok((map["a" := Value.Bool(true)], 2));
    assert DecodeFields(rev, ty, s, 0, 0, map[]) == DecodeFields(rev, ty, s, 1, 1, first);
  }
}
