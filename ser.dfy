/** The encoder (`src/binc/ser.rs`): a descent over the schema and the
    document value together that appends bincode primitives to a buffer
    the caller owns. Nothing is written for struct names or counts; arrays
    and byte blobs get a length prefix. Errors are raised at the node that
    is wrong, and bytes already appended stay in the buffer. */
module Ser {
  import opened Wrappers
  import opened Bytes
  import opened Bincode
  import opened Json
  import opened Schema

  datatype Error =
    | UnexpectedType(expectedKind: string, gotKind: string)
    | NotAByte
    | FieldMismatch(
        expectedLen: nat, expected: set<string>,
        gotLen: nat, got: set<string>,
        missing: set<string>, extra: set<string>)
    | Serialization

  /** The label of a value's kind, as `unexpected_type` reports it. */
  function Kind(v: Value): string
  {
    match v
    case Null => "null"
    case Bool(_) => "a boolean"
    case Number(_) => "a number"
    case String(_) => "a string"
    case Array(_) => "an array"
    case Object(_) => "an object"
  }

  function UnexpectedTypeOf(expected: string, v: Value): Error
  {
    UnexpectedType(expected, Kind(v))
  }

  /** The label depends on the value's variant alone, and tells the six
      variants apart. */
  lemma KindIdentifiesVariant(a: Value, b: Value)
    ensures Kind(a) == Kind(b) <==>
      (a.Null? && b.Null?) || (a.Bool? && b.Bool?) || (a.Number? && b.Number?) ||
      (a.String? && b.String?) || (a.Array? && b.Array?) || (a.Object? && b.Object?)
  {
  }

  /** The report for a struct whose object does not carry exactly the
      schema's field names: both name sets, both sizes, and the two
      differences. */
  function FieldMismatchOf(fields: seq<Field>, m: map<string, Value>): Error
  {
    var expected := Names(fields);
    var got := m.Keys;
    FieldMismatch(|fields|, expected, |m|, got, expected - got, got - expected)
  }

  /** The report carries both sizes and both name sets; the missing names
      are expected ones the object lacks, the extra ones are keys the schema
      lacks, the rest of both sets agree, and both differences are empty
      exactly when the name sets are equal. */
  lemma FieldMismatchReport(fields: seq<Field>, m: map<string, Value>)
    ensures var e := FieldMismatchOf(fields, m);
      e.FieldMismatch? && e.expectedLen == |fields| && e.gotLen == |m| &&
      e.expected == Names(fields) && e.got == m.Keys &&
      e.missing !! e.got && e.missing <= e.expected &&
      e.extra !! e.expected && e.extra <= e.got &&
      e.expected - e.missing == e.got - e.extra &&
      ((e.missing == {} && e.extra == {}) <==> e.expected == e.got)
  {
    var e := FieldMismatchOf(fields, m);
    if e.missing == {} && e.extra == {} {
      assert e.expected <= e.got && e.got <= e.expected;
    }
  }

  /** What one encoding step did: the bytes it appended, and whether it
      succeeded. On failure the bytes are those appended before the error. */
  datatype Emission = Emission(written: seq<byte>, outcome: Outcome<Error>)

  function Refuse(expected: string, v: Value): Emission
  {
    Emission([], Fail(UnexpectedTypeOf(expected, v)))
  }

  /** Runs encoding steps in order and stops at the first that fails:
      the bytes of every step up to and including the failing one, and
      the outcome of the last step run. */
  function Sequence(steps: seq<Emission>): Emission
  {
    if steps == [] then Emission([], Pass)
    else
      var done := Sequence(steps[..|steps| - 1]);
      if done.outcome.Fail? then done
      else
        var last := steps[|steps| - 1];
        Emission(done.written + last.written, last.outcome)
  }

  /** The bytes `serialize_into(ty, v, buffer)` appends and its result. */
  function Emit(ty: Ty, v: Value): Emission
    requires Bounded(v)
    decreases ty, 1
  {
    match ty
    case Bool =>
      (match AsBool(v)
       case None => Refuse("a boolean", v)
       case Some(b) => Emission(WriteBool(b), Pass))
    case U64 =>
      (match AsU64(v)
       case None => Refuse("a non-negative integer", v)
       case Some(n) => Emission(WriteU64(n), Pass))
    case I64 =>
      (match AsI64(v)
       case None => Refuse("an integer", v)
       case Some(i) => Emission(WriteI64(i), Pass))
    case F64 =>
      (match AsF64(v)
       case None => Refuse("a number", v)
       case Some(bits) => Emission(WriteF64(bits), Pass))
    case Bytes =>
      (match AsArray(v)
       case None => Refuse("a byte array", v)
       case Some(es) => Prefixed(|es|, Sequence(ElementSteps(ty, es))))
    case String =>
      (match AsStr(v)
       case None => Refuse("a string", v)
       case Some(t) => Emission(WriteStr(t), Pass))
    case Array(_) =>
      (match AsArray(v)
       case None => Refuse("an array", v)
       case Some(es) => Prefixed(|es|, Sequence(ElementSteps(ty, es))))
    case Struct(fields) =>
      (match AsObject(v)
       case None => Refuse("an object", v)
       case Some(m) =>
         if |fields| != |m| then Emission([], Fail(FieldMismatchOf(fields, m)))
         else Sequence(FieldSteps(ty, m)))
  }

  /** The length prefix of an array or a byte blob, then its elements. */
  function Prefixed(n: u64, rest: Emission): Emission
  {
    Emission(WriteU64(n) + rest.written, rest.outcome)
  }

  /** One element of a byte blob: a non-negative integer no larger than 255. */
  predicate IsByte(e: Value)
  {
    e.Number? && e.num.PosInt? && e.num.n < 256
  }

  function EmitByte(e: Value): (r: Emission)
    ensures r.outcome.Pass? <==> IsByte(e)
    ensures r.outcome.Fail? ==> r == Emission([], Fail(NotAByte))
    ensures r.outcome.Pass? ==> r.written == [e.num.n]
  {
    match AsU64(e)
    case None => Emission([], Fail(NotAByte))
    case Some(n) => if n < 256 then Emission(WriteU8(n), Pass) else Emission([], Fail(NotAByte))
  }

  /** The per-element steps of a `Bytes` or `Array` node. */
  function ElementSteps(ty: Ty, es: seq<Value>): (steps: seq<Emission>)
    requires ty.Bytes? || ty.Array?
    requires forall i :: 0 <= i < |es| ==> Bounded(es[i])
    ensures |steps| == |es|
    decreases ty, 0
  {
    seq(|es|, i requires 0 <= i < |es| =>
      if ty.Bytes? then EmitByte(es[i]) else Emit(ty.inner, es[i]))
  }

  /** The per-field steps of a `Struct` node, in schema order: a name the
      object lacks is a field mismatch, with nothing written. */
  function FieldSteps(ty: Ty, m: map<string, Value>): (steps: seq<Emission>)
    requires ty.Struct?
    requires forall k :: k in m ==> Bounded(m[k])
    ensures |steps| == |ty.fields|
    decreases ty, 0
  {
    seq(|ty.fields|, i requires 0 <= i < |ty.fields| =>
      var field := ty.fields[i];
      if field.name in m then Emit(field.ty, m[field.name])
      else Emission([], Fail(FieldMismatchOf(ty.fields, m))))
  }

  /** `serialize`: the encoding on its own, or the error. */
  function Encode(ty: Ty, v: Value): Result<seq<byte>, Error>
    requires Bounded(v)
  {
    var e := Emit(ty, v);
    if e.outcome.Pass? then Ok(e.written) else Err(e.outcome.error)
  }

  /** Once a prefix of the steps has failed, the later steps change nothing. */
  lemma {:induction false} SequenceSticky(steps: seq<Emission>, k: nat)
    requires k <= |steps| && Sequence(steps[..k]).outcome.Fail?
    ensures Sequence(steps) == Sequence(steps[..k])
  {
    if k < |steps| {
      var init := steps[..|steps| - 1];
      assert init[..k] == steps[..k];
      SequenceSticky(init, k);
    } else {
      assert steps[..k] == steps;
    }
  }

  /** One more step after a successful prefix. */
  lemma SequenceStep(steps: seq<Emission>, k: nat)
    requires k < |steps| && Sequence(steps[..k]).outcome.Pass?
    ensures Sequence(steps[..k + 1]) ==
      Emission(Sequence(steps[..k]).written + steps[k].written, steps[k].outcome)
  {
    assert steps[..k + 1][..k] == steps[..k];
  }

  /** The caller-owned `Vec<u8>` the encoder appends to. */
  class Buffer {
    var bytes: seq<byte>

    constructor ()
      ensures bytes == []
    {
      bytes := [];
    }

    method Extend(more: seq<byte>)
      modifies this
      ensures bytes == old(bytes) + more
    {
      bytes := bytes + more;
    }
  }

  /** `serialize_into`: appends the encoding of `v` against `ty`. On an
      error the bytes appended so far are left in place (no rollback). */
  method SerializeInto(ty: Ty, v: Value, buffer: Buffer) returns (r: Outcome<Error>)
    requires Bounded(v)
    modifies buffer
    ensures buffer.bytes == old(buffer.bytes) + Emit(ty, v).written
    ensures r == Emit(ty, v).outcome
    decreases ty, 1
  {
    match ty {
      case Bool =>
        var b := AsBool(v);
        if b.None? {
          return Fail(UnexpectedTypeOf("a boolean", v));
        }
        buffer.Extend(WriteBool(b.value));
      case U64 =>
        var n := AsU64(v);
        if n.None? {
          return Fail(UnexpectedTypeOf("a non-negative integer", v));
        }
        buffer.Extend(WriteU64(n.value));
      case I64 =>
        var i := AsI64(v);
        if i.None? {
          return Fail(UnexpectedTypeOf("an integer", v));
        }
        buffer.Extend(WriteI64(i.value));
      case F64 =>
        var bits := AsF64(v);
        if bits.None? {
          return Fail(UnexpectedTypeOf("a number", v));
        }
        buffer.Extend(WriteF64(bits.value));
      case Bytes =>
        var elems := AsArray(v);
        if elems.None? {
          return Fail(UnexpectedTypeOf("a byte array", v));
        }
        buffer.Extend(WriteU64(|elems.value|));
        r := SerializeBytes(ty, elems.value, buffer);
        AppendAssociates(old(buffer.bytes), WriteU64(|elems.value|), Sequence(ElementSteps(ty, elems.value)).written);
        return;
      case String =>
        var t := AsStr(v);
        if t.None? {
          return Fail(UnexpectedTypeOf("a string", v));
        }
        buffer.Extend(WriteStr(t.value));
      case Array(_) =>
        var elems := AsArray(v);
        if elems.None? {
          return Fail(UnexpectedTypeOf("an array", v));
        }
        buffer.Extend(WriteU64(|elems.value|));
        r := SerializeElements(ty, elems.value, buffer);
        AppendAssociates(old(buffer.bytes), WriteU64(|elems.value|), Sequence(ElementSteps(ty, elems.value)).written);
        return;
      case Struct(fields) =>
        var members := AsObject(v);
        if members.None? {
          return Fail(UnexpectedTypeOf("an object", v));
        }
        if |fields| != |members.value| {
          return Fail(FieldMismatchOf(fields, members.value));
        }
        r := SerializeFields(ty, members.value, buffer);
        return;
    }
    return Pass;
  }

  /** The element loop of a `Bytes` node: each element must be a byte;
      returns at the first that is not. */
  method SerializeBytes(ty: Ty, es: seq<Value>, buffer: Buffer) returns (r: Outcome<Error>)
    requires ty.Bytes?
    requires forall i :: 0 <= i < |es| ==> Bounded(es[i])
    modifies buffer
    ensures buffer.bytes == old(buffer.bytes) + Sequence(ElementSteps(ty, es)).written
    ensures r == Sequence(ElementSteps(ty, es)).outcome
  {
    ghost var steps := ElementSteps(ty, es);
    for i := 0 to |es|
      invariant buffer.bytes == old(buffer.bytes) + Sequence(steps[..i]).written
      invariant Sequence(steps[..i]).outcome == Pass
    {
      SequenceStep(steps, i);
      assert steps[i] == EmitByte(es[i]);
      var n := AsU64(es[i]);
      if n.None? || n.value >= 256 {
        SequenceSticky(steps, i + 1);
        return Fail(NotAByte);
      }
      buffer.Extend(WriteU8(n.value));
      AppendAssociates(old(buffer.bytes), Sequence(steps[..i]).written, WriteU8(n.value));
    }
    assert steps[..|es|] == steps;
    return Pass;
  }

  /** The element loop of an `Array` node: each element against the inner
      schema, returning at the first failure. */
  method SerializeElements(ty: Ty, es: seq<Value>, buffer: Buffer) returns (r: Outcome<Error>)
    requires ty.Array?
    requires forall i :: 0 <= i < |es| ==> Bounded(es[i])
    modifies buffer
    ensures buffer.bytes == old(buffer.bytes) + Sequence(ElementSteps(ty, es)).written
    ensures r == Sequence(ElementSteps(ty, es)).outcome
    decreases ty, 0
  {
    ghost var steps := ElementSteps(ty, es);
    for i := 0 to |es|
      invariant buffer.bytes == old(buffer.bytes) + Sequence(steps[..i]).written
      invariant Sequence(steps[..i]).outcome == Pass
    {
      SequenceStep(steps, i);
      assert steps[i] == Emit(ty.inner, es[i]);
      r := SerializeInto(ty.inner, es[i], buffer);
      AppendAssociates(old(buffer.bytes), Sequence(steps[..i]).written, Emit(ty.inner, es[i]).written);
      if r.Fail? {
        SequenceSticky(steps, i + 1);
        return;
      }
    }
    assert steps[..|es|] == steps;
    return Pass;
  }

  /** The field loop of a `Struct` node whose object has as many members
      as the schema has fields: each field in schema order, looked up by
      name. */
  method SerializeFields(ty: Ty, m: map<string, Value>, buffer: Buffer) returns (r: Outcome<Error>)
    requires ty.Struct?
    requires forall k :: k in m ==> Bounded(m[k])
    modifies buffer
    ensures buffer.bytes == old(buffer.bytes) + Sequence(FieldSteps(ty, m)).written
    ensures r == Sequence(FieldSteps(ty, m)).outcome
    decreases ty, 0
  {
    ghost var steps := FieldSteps(ty, m);
    for i := 0 to |ty.fields|
      invariant buffer.bytes == old(buffer.bytes) + Sequence(steps[..i]).written
      invariant Sequence(steps[..i]).outcome == Pass
    {
      SequenceStep(steps, i);
      var field := ty.fields[i];
      if field.name !in m {
        assert steps[i] == Emission([], Fail(FieldMismatchOf(ty.fields, m)));
        SequenceSticky(steps, i + 1);
        return Fail(FieldMismatchOf(ty.fields, m));
      }
      assert steps[i] == Emit(field.ty, m[field.name]);
      r := SerializeInto(field.ty, m[field.name], buffer);
      AppendAssociates(old(buffer.bytes), Sequence(steps[..i]).written, Emit(field.ty, m[field.name]).written);
      if r.Fail? {
        SequenceSticky(steps, i + 1);
        return;
      }
    }
    assert steps[..|ty.fields|] == steps;
    return Pass;
  }

  /** `serialize`: `serialize_into` on a fresh buffer. */
  method Serialize(ty: Ty, v: Value) returns (r: Result<seq<byte>, Error>)
    requires Bounded(v)
    ensures r == Encode(ty, v)
  {
    var buffer := new Buffer();
    var res := SerializeInto(ty, v, buffer);
    if res.Fail? {
      return Err(res.error);
    }
    assert buffer.bytes == Emit(ty, v).written;
    return Ok(buffer.bytes);
  }

  // ---- what the encoder promises ----

  /** The bytes each step wrote, in order. */
  function Writtens(steps: seq<Emission>): (parts: seq<seq<byte>>)
    ensures |parts| == |steps|
    ensures forall i :: 0 <= i < |steps| ==> parts[i] == steps[i].written
  {
    seq(|steps|, i requires 0 <= i < |steps| => steps[i].written)
  }

  predicate AllPass(steps: seq<Emission>)
  {
    forall i :: 0 <= i < |steps| ==> steps[i].outcome.Pass?
  }

  /** A run of steps succeeds exactly when every step does, and then it
      wrote their bytes back to back. */
  lemma {:induction false} SequenceAllPass(steps: seq<Emission>)
    ensures Sequence(steps).outcome.Pass? <==> AllPass(steps)
    ensures AllPass(steps) ==> Sequence(steps).written == Concat(Writtens(steps))
  {
    if steps != [] {
      var init := steps[..|steps| - 1];
      SequenceAllPass(init);
      assert Writtens(steps)[..|steps| - 1] == Writtens(init);
    }
  }

  /** A run whose steps before `j` succeed and whose step `j` fails ends
      there: their bytes, then what step `j` wrote, and step `j`'s error. */
  lemma SequenceStopsAt(steps: seq<Emission>, j: nat)
    requires j < |steps| && AllPass(steps[..j]) && steps[j].outcome.Fail?
    ensures Sequence(steps) == Emission(Concat(Writtens(steps[..j])) + steps[j].written, steps[j].outcome)
  {
    SequenceAllPass(steps[..j]);
    SequenceStep(steps, j);
    SequenceSticky(steps, j + 1);
  }

  /** A run that fails stopped at its first failing step `j`: steps before
      it succeeded, their bytes and whatever step `j` wrote before failing
      stay written, and the error is step `j`'s. */
  lemma {:induction false} SequenceFailure(steps: seq<Emission>)
    requires Sequence(steps).outcome.Fail?
    ensures exists j :: (0 <= j < |steps| && AllPass(steps[..j]) && steps[j].outcome.Fail? &&
      Sequence(steps) == Emission(Concat(Writtens(steps[..j])) + steps[j].written, steps[j].outcome))
  {
    var init := steps[..|steps| - 1];
    if Sequence(init).outcome.Fail? {
      SequenceFailure(init);
      var j :| 0 <= j < |init| && AllPass(init[..j]) && init[j].outcome.Fail? &&
        (Sequence(init) == Emission(Concat(Writtens(init[..j])) + init[j].written, init[j].outcome));
      assert init[..j] == steps[..j];
      SequenceStopsAt(steps, j);
    } else {
      SequenceAllPass(init);
      SequenceStopsAt(steps, |steps| - 1);
    }
  }

  /** The kind label each schema node reports when handed the wrong kind. */
  function ExpectedLabel(ty: Ty): string
  {
    match ty
    case Bool => "a boolean"
    case U64 => "a non-negative integer"
    case I64 => "an integer"
    case F64 => "a number"
    case Bytes => "a byte array"
    case String => "a string"
    case Array(_) => "an array"
    case Struct(_) => "an object"
  }

  /** The value has the kind the node accepts, before any look inside. */
  predicate NodeAccepts(ty: Ty, v: Value)
  {
    match ty
    case Bool => v.Bool?
    case U64 => v.Number? && v.num.PosInt?
    case I64 => v.Number? && (v.num.NegInt? || (v.num.PosInt? && v.num.n < 0x8000_0000_0000_0000))
    case F64 => v.Number?
    case Bytes => v.Array?
    case String => v.String?
    case Array(_) => v.Array?
    case Struct(_) => v.Object?
  }

  /** The values the encoder accepts, defined on the schema alone: the node
      accepts the kind, every byte of a blob is in range, every element
      matches the inner schema, and a struct's object has exactly the
      field names as keys with every field's value matching. */
  predicate Matches(ty: Ty, v: Value)
  {
    NodeAccepts(ty, v) &&
    match ty
    case Bytes => forall i :: 0 <= i < |v.elems| ==> IsByte(v.elems[i])
    case Array(inner) => forall i :: 0 <= i < |v.elems| ==> Matches(inner, v.elems[i])
    case Struct(fields) =>
      v.members.Keys == Names(fields) &&
      forall i :: 0 <= i < |fields| ==>
        fields[i].name in v.members && Matches(fields[i].ty, v.members[fields[i].name])
    case _ => true
  }

  /** A value of the wrong kind is refused at once, with nothing written,
      naming the kind expected and the kind found. */
  lemma KindMismatch(ty: Ty, v: Value)
    requires Bounded(v) && !NodeAccepts(ty, v)
    ensures Emit(ty, v) == Emission([], Fail(UnexpectedType(ExpectedLabel(ty), Kind(v))))
  {
  }

  /** The bytes of a blob whose elements are all bytes. */
  function ByteValues(es: seq<Value>): (bs: seq<byte>)
    requires forall i :: 0 <= i < |es| ==> IsByte(es[i])
    ensures |bs| == |es| && forall i :: 0 <= i < |es| ==> IsByte(es[i]) && bs[i] == es[i].num.n
  {
    seq(|es|, i requires 0 <= i < |es| => ByteOf(es[i]))
  }

  function ByteOf(e: Value): byte
    requires IsByte(e)
  {
    e.num.n
  }

  lemma {:induction false} ByteSteps(es: seq<Value>)
    requires Bounded(Value.Array(es)) && forall i :: 0 <= i < |es| ==> IsByte(es[i])
    ensures Concat(Writtens(ElementSteps(Ty.Bytes, es))) == ByteValues(es)
  {
    if es != [] {
      var init := es[..|es| - 1];
      ByteSteps(init);
      assert Writtens(ElementSteps(Ty.Bytes, es))[..|es| - 1] == Writtens(ElementSteps(Ty.Bytes, init));
      assert ByteValues(es) == ByteValues(init) + [es[|es| - 1].num.n];
    }
  }

  /** A byte blob succeeds exactly when every element is a byte, and is
      then its length followed by one raw byte per element. */
  lemma BytesLayout(es: seq<Value>)
    requires Bounded(Value.Array(es))
    ensures Emit(Ty.Bytes, Value.Array(es)).outcome.Pass? <==> forall i :: 0 <= i < |es| ==> IsByte(es[i])
    ensures (forall i :: 0 <= i < |es| ==> IsByte(es[i])) ==>
      Emit(Ty.Bytes, Value.Array(es)).written == WriteU64(|es|) + ByteValues(es)
  {
    var steps := ElementSteps(Ty.Bytes, es);
    assert Emit(Ty.Bytes, Value.Array(es)) == Prefixed(|es|, Sequence(steps));
    SequenceAllPass(steps);
    assert AllPass(steps) <==> forall i :: 0 <= i < |es| ==> IsByte(es[i]) by {
      assert forall i :: 0 <= i < |es| ==> steps[i] == EmitByte(es[i]);
    }
    if forall i :: 0 <= i < |es| ==> IsByte(es[i]) {
      ByteSteps(es);
    }
  }

  /** The first element that is not an integer in 0..255 fails with
      `NotAByte`, after the length and the bytes before it were written. */
  lemma BytesFailure(es: seq<Value>, j: nat)
    requires Bounded(Value.Array(es))
    requires j < |es| && !IsByte(es[j]) && forall i :: 0 <= i < j ==> IsByte(es[i])
    ensures Emit(Ty.Bytes, Value.Array(es)) == Emission(WriteU64(|es|) + ByteValues(es[..j]), Fail(NotAByte))
  {
    var steps := ElementSteps(Ty.Bytes, es);
    assert Emit(Ty.Bytes, Value.Array(es)) == Prefixed(|es|, Sequence(steps));
    assert steps[..j] == ElementSteps(Ty.Bytes, es[..j]);
    SequenceStopsAt(steps, j);
    ByteSteps(es[..j]);
  }

  /** The encodings of the elements against `inner`, one part each. */
  function ElementEncodings(inner: Ty, es: seq<Value>): (parts: seq<seq<byte>>)
    requires forall i :: 0 <= i < |es| ==> Bounded(es[i])
    ensures |parts| == |es|
  {
    seq(|es|, i requires 0 <= i < |es| => Emit(inner, es[i]).written)
  }

  /** An array succeeds exactly when every element does, and is then its
      length followed by its elements' encodings back to back. */
  lemma ArrayLayout(inner: Ty, es: seq<Value>)
    requires Bounded(Value.Array(es))
    ensures Emit(Ty.Array(inner), Value.Array(es)).outcome.Pass? <==>
      forall i :: 0 <= i < |es| ==> Emit(inner, es[i]).outcome.Pass?
    ensures (forall i :: 0 <= i < |es| ==> Emit(inner, es[i]).outcome.Pass?) ==>
      Emit(Ty.Array(inner), Value.Array(es)).written == WriteU64(|es|) + Concat(ElementEncodings(inner, es))
  {
    var steps := ElementSteps(Ty.Array(inner), es);
    assert Emit(Ty.Array(inner), Value.Array(es)) == Prefixed(|es|, Sequence(steps));
    SequenceAllPass(steps);
    assert Writtens(steps) == ElementEncodings(inner, es);
    assert AllPass(steps) <==> forall i :: 0 <= i < |es| ==> Emit(inner, es[i]).outcome.Pass? by {
      assert forall i :: 0 <= i < |es| ==> steps[i] == Emit(inner, es[i]);
    }
  }

  /** An array stops at its first element that fails, with that element's
      error; the length, the elements before it and whatever it wrote
      itself stay written. */
  lemma ArrayFailure(inner: Ty, es: seq<Value>, j: nat)
    requires Bounded(Value.Array(es))
    requires j < |es| && Emit(inner, es[j]).outcome.Fail?
    requires forall i :: 0 <= i < j ==> Emit(inner, es[i]).outcome.Pass?
    ensures Emit(Ty.Array(inner), Value.Array(es)) == Emission(
      WriteU64(|es|) + (Concat(ElementEncodings(inner, es[..j])) + Emit(inner, es[j]).written),
      Emit(inner, es[j]).outcome)
  {
    var steps := ElementSteps(Ty.Array(inner), es);
    assert Emit(Ty.Array(inner), Value.Array(es)) == Prefixed(|es|, Sequence(steps));
    assert steps[..j] == ElementSteps(Ty.Array(inner), es[..j]);
    assert Writtens(steps[..j]) == ElementEncodings(inner, es[..j]);
    SequenceStopsAt(steps, j);
  }

  /** The encodings of the fields' values, in schema order. */
  function FieldEncodings(fields: seq<Field>, m: map<string, Value>): (parts: seq<seq<byte>>)
    requires forall k :: k in m ==> Bounded(m[k])
    requires forall i :: 0 <= i < |fields| ==> fields[i].name in m
    ensures |parts| == |fields|
  {
    seq(|fields|, i requires 0 <= i < |fields| => Emit(fields[i].ty, m[fields[i].name]).written)
  }

  /** A struct is its fields' encodings in schema order and nothing else:
      no names, no count. It succeeds exactly when the object has as many
      members as there are fields, every field name is a key and every
      field's value encodes. */
  lemma StructLayout(fields: seq<Field>, m: map<string, Value>)
    requires Bounded(Value.Object(m))
    ensures var e := Emit(Ty.Struct(fields), Value.Object(m));
      (e.outcome.Pass? <==> (|fields| == |m| &&
        forall i :: 0 <= i < |fields| ==>
          fields[i].name in m && Emit(fields[i].ty, m[fields[i].name]).outcome.Pass?)) &&
      (e.outcome.Pass? ==> e.written == Concat(FieldEncodings(fields, m)))
  {
    var ty := Ty.Struct(fields);
    var steps := FieldSteps(ty, m);
    SequenceAllPass(steps);
    assert Emit(ty, Value.Object(m)) == if |fields| != |m| then Emission([], Fail(FieldMismatchOf(fields, m))) else Sequence(steps);
    assert AllPass(steps) <==> forall i :: 0 <= i < |fields| ==>
        fields[i].name in m && Emit(fields[i].ty, m[fields[i].name]).outcome.Pass? by {
      assert forall i :: 0 <= i < |fields| ==>
        steps[i] == if fields[i].name in m then Emit(fields[i].ty, m[fields[i].name])
          else Emission([], Fail(FieldMismatchOf(fields, m)));
    }
    if AllPass(steps) {
      assert Writtens(steps) == FieldEncodings(fields, m);
    }
  }

  lemma SubsetSameSize(a: set<string>, b: set<string>)
    requires a <= b && |a| == |b|
    ensures a == b
  {
    assert b * a == a;
    assert |b - a| == |b| - |a|;
    assert b - a == {};
  }

  /** With distinct field names, a struct encodes only when the object's
      keys are exactly the field names. */
  lemma StructSuccessKeys(fields: seq<Field>, m: map<string, Value>)
    requires DistinctNames(fields) && Bounded(Value.Object(m))
    requires Emit(Ty.Struct(fields), Value.Object(m)).outcome.Pass?
    ensures m.Keys == Names(fields)
  {
    StructLayout(fields, m);
    DistinctNamesCount(fields);
    assert Names(fields) <= m.Keys;
    SubsetSameSize(Names(fields), m.Keys);
  }

  /** With distinct field names, an object whose keys are not exactly the
      field names is reported as a field mismatch, unless a field that is
      present fails first on its own. */
  lemma StructMismatchReport(fields: seq<Field>, m: map<string, Value>)
    requires DistinctNames(fields) && Bounded(Value.Object(m))
    requires m.Keys != Names(fields)
    requires forall i :: 0 <= i < |fields| && fields[i].name in m ==>
      Emit(fields[i].ty, m[fields[i].name]).outcome.Pass?
    ensures Emit(Ty.Struct(fields), Value.Object(m)).outcome == Fail(FieldMismatchOf(fields, m))
  {
    if |fields| == |m| {
      var steps := FieldSteps(Ty.Struct(fields), m);
      if Sequence(steps).outcome.Pass? {
        StructSuccessKeys(fields, m);
      }
      SequenceFailure(steps);
    }
  }

  /** `Serialization` is never raised: every bincode write goes to a
      growable in-memory buffer, and none of them can fail. */
  lemma {:induction false} NeverSerialization(ty: Ty, v: Value)
    requires Bounded(v)
    ensures Emit(ty, v).outcome != Fail(Serialization)
    decreases ty
  {
    match ty
    case Bytes =>
      if v.Array? {
        var steps := ElementSteps(ty, v.elems);
        if Sequence(steps).outcome.Fail? {
          SequenceFailure(steps);
        }
      }
    case Array(inner) =>
      if v.Array? {
        var steps := ElementSteps(ty, v.elems);
        if Sequence(steps).outcome.Fail? {
          SequenceFailure(steps);
          var j :| 0 <= j < |steps| && steps[j].outcome.Fail? && Sequence(steps).outcome == steps[j].outcome;
          NeverSerialization(inner, v.elems[j]);
        }
      }
    case Struct(fields) =>
      if v.Object? && |fields| == |v.members| {
        var steps := FieldSteps(ty, v.members);
        if Sequence(steps).outcome.Fail? {
          SequenceFailure(steps);
          var j :| 0 <= j < |steps| && steps[j].outcome.Fail? && Sequence(steps).outcome == steps[j].outcome;
          if fields[j].name in v.members {
            NeverSerialization(fields[j].ty, v.members[fields[j].name]);
          }
        }
      }
    case _ =>
  }

  /** Under distinct field names, the encoder succeeds on exactly the
      values that match the schema. */
  lemma {:induction false} AcceptsIffMatches(ty: Ty, v: Value)
    requires WellNamed(ty) && Bounded(v)
    ensures Emit(ty, v).outcome.Pass? <==> Matches(ty, v)
    decreases ty
  {
    if !NodeAccepts(ty, v) {
      KindMismatch(ty, v);
    } else {
      match ty
      case Bytes => BytesLayout(v.elems);
      case Array(inner) =>
        ArrayLayout(inner, v.elems);
        forall i | 0 <= i < |v.elems|
          ensures Emit(inner, v.elems[i]).outcome.Pass? <==> Matches(inner, v.elems[i])
        {
          AcceptsIffMatches(inner, v.elems[i]);
        }
      case Struct(fields) =>
        var m := v.members;
        StructLayout(fields, m);
        forall i | 0 <= i < |fields| && fields[i].name in m
          ensures Emit(fields[i].ty, m[fields[i].name]).outcome.Pass? <==> Matches(fields[i].ty, m[fields[i].name])
        {
          AcceptsIffMatches(fields[i].ty, m[fields[i].name]);
        }
        if Emit(ty, v).outcome.Pass? {
          StructSuccessKeys(fields, m);
        }
        if Matches(ty, v) {
          DistinctNamesCount(fields);
          assert |m.Keys| == |m|;
        }
      case _ =>
    }
  }

  /** An object of the wrong size is refused before anything of the
      struct is written. */
  lemma SizeMismatch(fields: seq<Field>, m: map<string, Value>)
    requires Bounded(Value.Object(m)) && |fields| != |m|
    ensures Emit(Ty.Struct(fields), Value.Object(m)) == Emission([], Fail(FieldMismatchOf(fields, m)))
  {
  }

  /** The walk over the fields stops at the first name the object lacks
      (when every field before it encodes): the fields before it stay
      written and a field mismatch is reported. */
  lemma MissingFieldStops(fields: seq<Field>, m: map<string, Value>, j: nat)
    requires Bounded(Value.Object(m)) && |fields| == |m|
    requires j < |fields| && fields[j].name !in m
    requires forall i :: 0 <= i < j ==> fields[i].name in m && Emit(fields[i].ty, m[fields[i].name]).outcome.Pass?
    ensures Emit(Ty.Struct(fields), Value.Object(m)) ==
      Emission(Concat(FieldEncodings(fields[..j], m)), Fail(FieldMismatchOf(fields, m)))
  {
    var ty := Ty.Struct(fields);
    var steps := FieldSteps(ty, m);
    assert Emit(ty, Value.Object(m)) == Sequence(steps);
    assert forall i :: 0 <= i < j ==> steps[i] == Emit(fields[i].ty, m[fields[i].name]);
    assert AllPass(steps[..j]);
    assert Writtens(steps[..j]) == FieldEncodings(fields[..j], m);
    SequenceStopsAt(steps, j);
  }

  // ---- two reports, worked out ----

  /** The three-member object of the examples. */
  lemma ThreeKeys(a: string, b: string, c: string, x: Value, y: Value, z: Value)
    requires a != b && b != c && a != c
    ensures var m := map[a := x, b := y, c := z];
      m.Keys == {a, b, c} && |m| == 3
  {
    var m := map[a := x, b := y, c := z];
    assert m.Keys == {a, b, c};
    assert |{a, b, c}| == 3;
  }

  /** The schema without `hobbies` against an object that has it: the
      sizes differ, nothing is written, and `hobbies` is the one extra
      name. */
  lemma DroppedFieldExample(name: Value, age: Value, hobbies: Value)
    requires Bounded(name) && Bounded(age) && Bounded(hobbies)
    ensures var person := map["name" := name, "age" := age, "hobbies" := hobbies];
      Bounded(Value.Object(person)) &&
      Emit(Ty.Struct([Field("name", Ty.String), Field("age", Ty.U64)]), Value.Object(person)) ==
        Emission([], Fail(FieldMismatch(2, {"name", "age"}, 3, {"name", "age", "hobbies"}, {}, {"hobbies"})))
  {
    var m := map["name" := name, "age" := age, "hobbies" := hobbies];
    var fields := [Field("name", Ty.String), Field("age", Ty.U64)];
    assert Names(fields) == {"name", "age"} by {
      assert fields[0].name == "name" && fields[1].name == "age";
    }
    ThreeKeys("name", "age", "hobbies", name, age, hobbies);
    assert {"name", "age"} - {"name", "age", "hobbies"} == {};
    assert {"name", "age", "hobbies"} - {"name", "age"} == {"hobbies"};
    SizeMismatch(fields, m);
  }

  /** A three-field schema against an object with `pets` in place of
      `hobbies`: the sizes agree, so the walk reaches `hobbies` and reports
      the one missing and the one extra key. */
  lemma SwappedFieldExample(name: Value, age: Value, pets: Value)
    requires Bounded(name) && Bounded(age) && Bounded(pets)
    requires Emit(Ty.String, name).outcome.Pass? && Emit(Ty.U64, age).outcome.Pass?
    ensures var person := map["name" := name, "age" := age, "pets" := pets];
      Bounded(Value.Object(person)) &&
      Emit(Ty.Struct([Field("name", Ty.String), Field("age", Ty.U64), Field("hobbies", Ty.Array(Ty.String))]),
           Value.Object(person)).outcome ==
        Fail(FieldMismatch(3, {"name", "age", "hobbies"}, 3, {"name", "age", "pets"}, {"hobbies"}, {"pets"}))
  {
    var m := map["name" := name, "age" := age, "pets" := pets];
    var fields := [Field("name", Ty.String), Field("age", Ty.U64), Field("hobbies", Ty.Array(Ty.String))];
    ThreeKeys("name", "age", "pets", name, age, pets);
    SwappedReport(fields, m);
    assert Bounded(Value.Object(m));
    MissingFieldStops(fields, m, 2);
  }

  lemma SwappedReport(fields: seq<Field>, m: map<string, Value>)
    requires fields == [Field("name", Ty.String), Field("age", Ty.U64), Field("hobbies", Ty.Array(Ty.String))]
    requires m.Keys == {"name", "age", "pets"} && |m| == 3
    ensures FieldMismatchOf(fields, m) ==
      FieldMismatch(3, {"name", "age", "hobbies"}, 3, {"name", "age", "pets"}, {"hobbies"}, {"pets"})
    ensures fields[2].name !in m && fields[0].name in m && fields[1].name in m
  {
    assert Names(fields) == {"name", "age", "hobbies"} by {
      assert fields[0].name == "name" && fields[1].name == "age" && fields[2].name == "hobbies";
    }
    assert {"name", "age", "hobbies"} - {"name", "age", "pets"} == {"hobbies"};
    assert {"name", "age", "pets"} - {"name", "age", "hobbies"} == {"pets"};
  }
}
