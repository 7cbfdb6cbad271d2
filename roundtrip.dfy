/** The two directions together: what the decoder gives back for bytes the
    encoder wrote. For a schema whose structs have pairwise distinct field
    names, the corrected decoder returns every matching value it can
    represent unchanged; the decoder as written also loses `I64` and
    `F64`. A repeated field name loses a key in both. */
module RoundTrip {
  import opened Wrappers
  import opened Bytes
  import opened Bincode
  import opened Json
  import opened Schema
  import opened Ser
  import opened De

  /** The values a decoder revision gives back unchanged: an `I64` node
      needs the corrected read, and an `F64` node also needs the value to
      be a double already (an integer there is encoded as its rounded
      double and comes back as that double). */
  predicate Reproducible(rev: Revision, ty: Ty, v: Value)
  {
    match ty
    case I64 => rev.Corrected?
    case F64 => rev.Corrected? && v.Number? && v.num.Float?
    case Array(inner) =>
      v.Array? ==> forall i :: 0 <= i < |v.elems| ==> Reproducible(rev, inner, v.elems[i])
    case Struct(fields) =>
      v.Object? ==> forall i :: 0 <= i < |fields| && fields[i].name in v.members ==>
        Reproducible(rev, fields[i].ty, v.members[fields[i].name])
    case _ => true
  }

  /** `bytes`, found anywhere in a buffer, decode to `v` and end where
      they end. */
  ghost predicate DecodesTo(rev: Revision, ty: Ty, v: Value, bytes: seq<byte>)
  {
    forall t: seq<byte>, p: nat :: At(t, p, bytes) ==> Decode(rev, ty, t, p) == Ok((v, p + |bytes|))
  }

  /** What the round trip asks of a node and a value: distinct field
      names, lengths that fit, a value the revision gives back unchanged,
      and an encoding that succeeds. */
  predicate Encodable(rev: Revision, ty: Ty, v: Value)
  {
    WellNamed(ty) && Bounded(v) && Reproducible(rev, ty, v) && Emit(ty, v).outcome.Pass?
  }

  /** Bytes the encoder wrote for `v`, found anywhere in a buffer, decode
      to `v` and end exactly where the encoding ends. */
  lemma {:induction false} RoundTrip(rev: Revision, ty: Ty, v: Value, s: seq<byte>, p: nat)
    requires Encodable(rev, ty, v) && At(s, p, Emit(ty, v).written)
    ensures Decode(rev, ty, s, p) == Ok((v, p + |Emit(ty, v).written|))
    decreases ty, 4
  {
    if ty.Array? {
      ArrayCase(rev, ty, v, s, p);
    } else if ty.Struct? {
      StructCase(rev, ty, v, s, p);
    } else {
      ScalarCase(rev, ty, v, s, p);
    }
  }

  /** The same, for every buffer at once. */
  lemma {:induction false} EncodingDecodes(rev: Revision, ty: Ty, v: Value)
    requires Encodable(rev, ty, v)
    ensures DecodesTo(rev, ty, v, Emit(ty, v).written)
    decreases ty, 5
  {
    forall t: seq<byte>, p: nat | At(t, p, Emit(ty, v).written)
      ensures Decode(rev, ty, t, p) == Ok((v, p + |Emit(ty, v).written|))
    {
      RoundTrip(rev, ty, v, t, p);
    }
  }

  /** Only a value of the kind its node accepts is encoded at all. */
  lemma PassAccepts(ty: Ty, v: Value)
    requires Bounded(v) && Emit(ty, v).outcome.Pass?
    ensures NodeAccepts(ty, v)
  {
    if !NodeAccepts(ty, v) {
      KindMismatch(ty, v);
    }
  }

  lemma ScalarCase(rev: Revision, ty: Ty, v: Value, s: seq<byte>, p: nat)
    requires !ty.Array? && !ty.Struct? && Encodable(rev, ty, v) && At(s, p, Emit(ty, v).written)
    ensures Decode(rev, ty, s, p) == Ok((v, p + |Emit(ty, v).written|))
  {
    PassAccepts(ty, v);
    if ty.Bool? {
      BoolCase(rev, ty, v, s, p);
    } else if ty.U64? {
      U64Case(rev, ty, v, s, p);
    } else if ty.I64? {
      I64Case(rev, ty, v, s, p);
    } else if ty.F64? {
      F64Case(rev, ty, v, s, p);
    } else if ty.String? {
      StringCase(rev, ty, v, s, p);
    } else {
      BytesCase(rev, ty, v, s, p);
    }
  }

  lemma BoolCase(rev: Revision, ty: Ty, v: Value, s: seq<byte>, p: nat)
    requires ty.Bool? && v.Bool? && At(s, p, Emit(ty, v).written)
    ensures Decode(rev, ty, s, p) == Ok((v, p + |Emit(ty, v).written|))
  {
    assert Emit(ty, v).written == WriteBool(v.b);
    ReadWriteBool(v.b, s, p);
  }

  lemma U64Case(rev: Revision, ty: Ty, v: Value, s: seq<byte>, p: nat)
    requires ty.U64? && v.Number? && v.num.PosInt? && At(s, p, Emit(ty, v).written)
    ensures Decode(rev, ty, s, p) == Ok((v, p + |Emit(ty, v).written|))
  {
    assert Emit(ty, v).written == WriteU64(v.num.n);
    ReadWriteU64(v.num.n, s, p);
  }

  lemma I64Case(rev: Revision, ty: Ty, v: Value, s: seq<byte>, p: nat)
    requires ty.I64? && rev.Corrected? && NodeAccepts(ty, v) && At(s, p, Emit(ty, v).written)
    ensures Decode(rev, ty, s, p) == Ok((v, p + |Emit(ty, v).written|))
  {
    var i := AsI64(v).value;
    assert Emit(ty, v).written == WriteI64(i);
    assert Number(FromI64(i)) == v;
    ReadWriteI64(i, s, p);
  }

  lemma F64Case(rev: Revision, ty: Ty, v: Value, s: seq<byte>, p: nat)
    requires ty.F64? && rev.Corrected? && v.Number? && v.num.Float? && At(s, p, Emit(ty, v).written)
    ensures Decode(rev, ty, s, p) == Ok((v, p + |Emit(ty, v).written|))
  {
    assert Emit(ty, v).written == WriteF64(v.num.bits);
    ReadWriteF64(v.num.bits, s, p);
  }

  lemma StringCase(rev: Revision, ty: Ty, v: Value, s: seq<byte>, p: nat)
    requires ty.String? && v.String? && Bounded(v) && At(s, p, Emit(ty, v).written)
    ensures Decode(rev, ty, s, p) == Ok((v, p + |Emit(ty, v).written|))
  {
    assert Emit(ty, v).written == WriteStr(v.s);
    ReadWriteStr(v.s, s, p);
  }

  lemma BytesCase(rev: Revision, ty: Ty, v: Value, s: seq<byte>, p: nat)
    requires ty.Bytes? && v.Array? && Bounded(v) && Emit(ty, v).outcome.Pass? && At(s, p, Emit(ty, v).written)
    ensures Decode(rev, ty, s, p) == Ok((v, p + |Emit(ty, v).written|))
  {
    var es := v.elems;
    assert ty == Ty.Bytes && v == Value.Array(es);
    BytesLayout(es);
    BytesRoundTrip(rev, ty, v, Emit(ty, v).written, s, p);
  }

  /** A blob of bytes and the bytes its encoding is made of. */
  predicate BytesReady(v: Value, w: seq<byte>)
  {
    v.Array? && |v.elems| < U64_BOUND && (forall i :: 0 <= i < |v.elems| ==> IsByte(v.elems[i])) &&
    w == WriteU64(|v.elems|) + ByteValues(v.elems)
  }

  lemma BytesRoundTrip(rev: Revision, ty: Ty, v: Value, w: seq<byte>, s: seq<byte>, p: nat)
    requires ty.Bytes? && BytesReady(v, w) && At(s, p, w)
    ensures Decode(rev, ty, s, p) == Ok((v, p + |w|))
  {
    var es := v.elems;
    var raw := ByteValues(es);
    var q := p + |WriteU64(|es|)|;
    ReadPrefix(|es|, raw, s, p);
    assert ReadBytes(s, q, |es|) == Ok((raw, q + |es|));
    BytesStep(rev, ty, s, p, |es|, q, raw, q + |es|);
    assert FromBytes(raw) == es by {
      assert forall i :: 0 <= i < |es| ==> IsByte(es[i]) && FromBytes(raw)[i] == es[i];
    }
  }

  lemma {:induction false} ArrayCase(rev: Revision, ty: Ty, v: Value, s: seq<byte>, p: nat)
    requires ty.Array? && Encodable(rev, ty, v) && At(s, p, Emit(ty, v).written)
    ensures Decode(rev, ty, s, p) == Ok((v, p + |Emit(ty, v).written|))
    decreases ty, 3
  {
    var parts := ElementsDecode(rev, ty, v);
    ArrayRoundTrip(rev, ty, v, parts, Emit(ty, v).written, s, p);
  }

  /** An array, parts from which its elements decode, and its encoding:
      the length, then the parts. */
  ghost predicate ArrayReady(rev: Revision, ty: Ty, v: Value, parts: seq<seq<byte>>, w: seq<byte>)
  {
    ty.Array? && v.Array? && |v.elems| < U64_BOUND && PartsDecode(rev, ty.inner, v.elems, parts) &&
    w == WriteU64(|v.elems|) + Concat(parts)
  }

  /** What the encoder wrote for an array: its length, then parts from
      which its elements decode. */
  lemma {:induction false} ElementsDecode(rev: Revision, ty: Ty, v: Value) returns (parts: seq<seq<byte>>)
    requires ty.Array? && Encodable(rev, ty, v)
    ensures ArrayReady(rev, ty, v, parts, Emit(ty, v).written)
    decreases ty, 2
  {
    PassAccepts(ty, v);
    var inner, es := ty.inner, v.elems;
    assert ty == Ty.Array(inner) && v == Value.Array(es);
    ArrayLayout(inner, es);
    parts := ElementEncodings(inner, es);
    AllElementsDecode(rev, inner, es);
  }

  lemma {:induction false} AllElementsDecode(rev: Revision, inner: Ty, es: seq<Value>)
    requires WellNamed(inner) && Bounded(Value.Array(es)) && Reproducible(rev, Ty.Array(inner), Value.Array(es))
    requires forall i :: 0 <= i < |es| ==> Emit(inner, es[i]).outcome.Pass?
    ensures forall i :: 0 <= i < |es| ==> DecodesTo(rev, inner, es[i], ElementEncodings(inner, es)[i])
    decreases Ty.Array(inner), 1
  {
    forall i | 0 <= i < |es| ensures DecodesTo(rev, inner, es[i], ElementEncodings(inner, es)[i]) {
      ElementDecodes(rev, inner, es, i);
    }
  }

  lemma {:induction false} ElementDecodes(rev: Revision, inner: Ty, es: seq<Value>, i: nat)
    requires WellNamed(inner) && Bounded(Value.Array(es)) && i < |es|
    requires Reproducible(rev, inner, es[i]) && Emit(inner, es[i]).outcome.Pass?
    ensures DecodesTo(rev, inner, es[i], ElementEncodings(inner, es)[i])
    decreases Ty.Array(inner), 0
  {
    assert ElementEncodings(inner, es)[i] == Emit(inner, es[i]).written;
    EncodingDecodes(rev, inner, es[i]);
  }

  lemma {:induction false} StructCase(rev: Revision, ty: Ty, v: Value, s: seq<byte>, p: nat)
    requires ty.Struct? && Encodable(rev, ty, v) && At(s, p, Emit(ty, v).written)
    ensures Decode(rev, ty, s, p) == Ok((v, p + |Emit(ty, v).written|))
    decreases ty, 3
  {
    var parts := FieldsDecode(rev, ty, v);
    StructRoundTrip(rev, ty, v, parts, Emit(ty, v).written, s, p);
  }

  /** An object, parts in schema order from which its members decode, and
      its encoding: the parts one after another. */
  ghost predicate StructReady(rev: Revision, ty: Ty, v: Value, parts: seq<seq<byte>>, w: seq<byte>)
  {
    ty.Struct? && v.Object? && FieldPartsDecode(rev, ty.fields, v.members, parts) && w == Concat(parts)
  }

  /** What the encoder wrote for a struct: parts, in schema order, from
      which the object's members decode under their names. */
  lemma {:induction false} FieldsDecode(rev: Revision, ty: Ty, v: Value) returns (parts: seq<seq<byte>>)
    requires ty.Struct? && Encodable(rev, ty, v)
    ensures StructReady(rev, ty, v, parts, Emit(ty, v).written)
    decreases ty, 2
  {
    PassAccepts(ty, v);
    var fields, m := ty.fields, v.members;
    assert ty == Ty.Struct(fields) && v == Value.Object(m);
    StructLayout(fields, m);
    StructSuccessKeys(fields, m);
    parts := FieldEncodings(fields, m);
    AllFieldsDecode(rev, fields, m);
  }

  lemma {:induction false} AllFieldsDecode(rev: Revision, fields: seq<Field>, m: map<string, Value>)
    requires WellNamed(Ty.Struct(fields)) && Bounded(Value.Object(m))
    requires Reproducible(rev, Ty.Struct(fields), Value.Object(m))
    requires forall i :: 0 <= i < |fields| ==> fields[i].name in m && Emit(fields[i].ty, m[fields[i].name]).outcome.Pass?
    ensures forall i :: 0 <= i < |fields| ==>
      DecodesTo(rev, fields[i].ty, m[fields[i].name], FieldEncodings(fields, m)[i])
    decreases Ty.Struct(fields), 1
  {
    forall i | 0 <= i < |fields|
      ensures DecodesTo(rev, fields[i].ty, m[fields[i].name], FieldEncodings(fields, m)[i])
    {
      FieldDecodes(rev, fields, m, i);
    }
  }

  lemma {:induction false} FieldDecodes(rev: Revision, fields: seq<Field>, m: map<string, Value>, i: nat)
    requires WellNamed(Ty.Struct(fields)) && Bounded(Value.Object(m)) && i < |fields|
    requires forall j :: 0 <= j < |fields| ==> fields[j].name in m
    requires Reproducible(rev, fields[i].ty, m[fields[i].name]) && Emit(fields[i].ty, m[fields[i].name]).outcome.Pass?
    ensures DecodesTo(rev, fields[i].ty, m[fields[i].name], FieldEncodings(fields, m)[i])
    decreases Ty.Struct(fields), 0
  {
    assert FieldEncodings(fields, m)[i] == Emit(fields[i].ty, m[fields[i].name]).written;
    assert WellNamed(fields[i].ty);
    EncodingDecodes(rev, fields[i].ty, m[fields[i].name]);
  }

  /** Each element decodes from its part, wherever the part is found. */
  ghost predicate PartsDecode(rev: Revision, inner: Ty, es: seq<Value>, parts: seq<seq<byte>>)
  {
    |parts| == |es| && forall i :: 0 <= i < |es| ==> DecodesTo(rev, inner, es[i], parts[i])
  }

  /** A length prefix and the elements' encodings decode to the array. */
  lemma ArrayRoundTrip(rev: Revision, ty: Ty, v: Value, parts: seq<seq<byte>>, w: seq<byte>, s: seq<byte>, p: nat)
    requires ArrayReady(rev, ty, v, parts, w) && At(s, p, w)
    ensures Decode(rev, ty, s, p) == Ok((v, p + |w|))
  {
    var es := v.elems;
    var q := p + |WriteU64(|es|)|;
    var end := q + |Concat(parts)|;
    ArrayStart(rev, ty, v, parts, w, s, p, q, end);
    ElementsRoundTrip(rev, ty, es, parts, 0, |es|, [], s, q, end);
    ArrayStep(rev, ty, s, p, |es|, q, es, end);
  }

  /** The length prefix reads back, and the element parts follow it. */
  lemma ArrayStart(rev: Revision, ty: Ty, v: Value, parts: seq<seq<byte>>, w: seq<byte>, s: seq<byte>, p: nat,
                   q: nat, end: nat)
    requires ArrayReady(rev, ty, v, parts, w) && At(s, p, w)
    requires q == p + |WriteU64(|v.elems|)| && end == q + |Concat(parts)|
    ensures p <= q <= |s| && ReadU64(s, p) == Ok((|v.elems|, q)) && end == p + |w| && v == Value.Array(v.elems)
    ensures ElementsAt(rev, ty, v.elems, parts, 0, |v.elems|, [], s, q, end)
  {
    ReadPrefix(|v.elems|, Concat(parts), s, p);
    ElementsStart(rev, ty, v.elems, parts, s, q);
  }

  lemma ElementsStart(rev: Revision, ty: Ty, es: seq<Value>, parts: seq<seq<byte>>, s: seq<byte>, q: nat)
    requires ty.Array? && PartsDecode(rev, ty.inner, es, parts) && At(s, q, Concat(parts))
    ensures ElementsAt(rev, ty, es, parts, 0, |es|, [], s, q, q + |Concat(parts)|)
  {
    assert es[..0] == [] && parts[0..] == parts;
  }

  /** Where the element induction stands: the elements before `k` are in
      `acc`, `n` remain, and their parts lie at `q` and end at `end`. */
  ghost predicate ElementsAt(rev: Revision, ty: Ty, es: seq<Value>, parts: seq<seq<byte>>,
                             k: nat, n: nat, acc: seq<Value>, s: seq<byte>, q: nat, end: nat)
  {
    ty.Array? && PartsDecode(rev, ty.inner, es, parts) && k <= |es| && n == |es| - k && acc == es[..k] &&
    At(s, q, Concat(parts[k..])) && end == q + |Concat(parts[k..])|
  }

  lemma {:induction false} ElementsRoundTrip(rev: Revision, ty: Ty, es: seq<Value>, parts: seq<seq<byte>>,
                                             k: nat, n: nat, acc: seq<Value>, s: seq<byte>, q: nat, end: nat)
    requires ElementsAt(rev, ty, es, parts, k, n, acc, s, q, end)
    ensures DecodeElements(rev, ty, s, q, n, acc) == Ok((es, end))
    decreases n
  {
    if n > 0 {
      ElementsNext(rev, ty, es, parts, k, n, acc, s, q, end);
      ElementsRoundTrip(rev, ty, es, parts, k + 1, n - 1, acc + [es[k]], s, q + |parts[k]|, end);
    } else {
      assert acc == es;
      assert parts[k..] == [];
    }
  }

  /** One element of the induction: it decodes where its part starts. */
  lemma ElementsNext(rev: Revision, ty: Ty, es: seq<Value>, parts: seq<seq<byte>>,
                     k: nat, n: nat, acc: seq<Value>, s: seq<byte>, q: nat, end: nat)
    requires ElementsAt(rev, ty, es, parts, k, n, acc, s, q, end) && n > 0
    ensures k < |es| && ElementsAt(rev, ty, es, parts, k + 1, n - 1, acc + [es[k]], s, q + |parts[k]|, end)
    ensures DecodeElements(rev, ty, s, q, n, acc) ==
      DecodeElements(rev, ty, s, q + |parts[k]|, n - 1, acc + [es[k]])
  {
    NextPart(parts, k, s, q);
    DecodesAt(rev, ty.inner, es[k], parts[k], s, q);
    ElementsStep(rev, ty, s, q, n, acc, es[k], q + |parts[k]|);
    TakeNext(es, k, acc);
  }

  lemma TakeNext(es: seq<Value>, k: nat, acc: seq<Value>)
    requires k < |es| && acc == es[..k]
    ensures acc + [es[k]] == es[..k + 1]
  {
  }

  /** The first of the remaining parts, and the rest after it. */
  lemma NextPart(parts: seq<seq<byte>>, k: nat, s: seq<byte>, q: nat)
    requires k < |parts| && At(s, q, Concat(parts[k..]))
    ensures At(s, q, parts[k]) && At(s, q + |parts[k]|, Concat(parts[k + 1..]))
    ensures q + |parts[k]| + |Concat(parts[k + 1..])| == q + |Concat(parts[k..])|
  {
    ConcatFrom(parts, k);
    AtSplit(s, q, parts[k], Concat(parts[k + 1..]));
  }

  lemma DecodesAt(rev: Revision, ty: Ty, v: Value, bytes: seq<byte>, s: seq<byte>, q: nat)
    requires DecodesTo(rev, ty, v, bytes) && At(s, q, bytes)
    ensures Decode(rev, ty, s, q) == Ok((v, q + |bytes|))
  {
  }

  /** The members of `m` under the given names. */
  function Restrict(m: map<string, Value>, names: set<string>): map<string, Value>
  {
    map k | k in m && k in names :: m[k]
  }

  /** The object has exactly the field names as keys, and each field's
      value decodes from its part. */
  ghost predicate FieldPartsDecode(rev: Revision, fields: seq<Field>, m: map<string, Value>, parts: seq<seq<byte>>)
  {
    |parts| == |fields| && m.Keys == Names(fields) &&
    forall i :: 0 <= i < |fields| ==>
      (fields[i].name in m && DecodesTo(rev, fields[i].ty, m[fields[i].name], parts[i]))
  }

  /** The fields' encodings in schema order decode to the object. */
  lemma StructRoundTrip(rev: Revision, ty: Ty, v: Value, parts: seq<seq<byte>>, w: seq<byte>, s: seq<byte>, p: nat)
    requires StructReady(rev, ty, v, parts, w) && At(s, p, w)
    ensures Decode(rev, ty, s, p) == Ok((v, p + |w|))
  {
    var m := v.members;
    var end := p + |Concat(parts)|;
    FieldsStart(rev, ty, m, parts, s, p);
    FieldsRoundTrip(rev, ty, m, parts, 0, map[], s, p, end);
    StructStep(rev, ty, s, p, m, end);
  }

  lemma FieldsStart(rev: Revision, ty: Ty, m: map<string, Value>, parts: seq<seq<byte>>, s: seq<byte>, p: nat)
    requires ty.Struct? && FieldPartsDecode(rev, ty.fields, m, parts) && At(s, p, Concat(parts))
    ensures FieldsAt(rev, ty, m, parts, 0, map[], s, p, p + |Concat(parts)|)
  {
    assert ty.fields[..0] == [] && parts[0..] == parts;
    assert Restrict(m, Names(ty.fields[..0])) == map[];
  }

  /** Where the field induction stands: the members under the names before
      `k` are in `acc`, and the remaining parts lie at `q` and end at `end`. */
  ghost predicate FieldsAt(rev: Revision, ty: Ty, m: map<string, Value>, parts: seq<seq<byte>>,
                           k: nat, acc: map<string, Value>, s: seq<byte>, q: nat, end: nat)
  {
    ty.Struct? && FieldPartsDecode(rev, ty.fields, m, parts) && k <= |ty.fields| &&
    acc == Restrict(m, Names(ty.fields[..k])) &&
    At(s, q, Concat(parts[k..])) && end == q + |Concat(parts[k..])|
  }

  lemma {:induction false} FieldsRoundTrip(rev: Revision, ty: Ty, m: map<string, Value>, parts: seq<seq<byte>>,
                                           k: nat, acc: map<string, Value>, s: seq<byte>, q: nat, end: nat)
    requires FieldsAt(rev, ty, m, parts, k, acc, s, q, end)
    ensures DecodeFields(rev, ty, s, q, k, acc) == Ok((m, end))
    decreases |ty.fields| - k
  {
    if k < |ty.fields| {
      var field := ty.fields[k];
      FieldsNext(rev, ty, m, parts, k, acc, s, q, end);
      FieldsRoundTrip(rev, ty, m, parts, k + 1, acc[field.name := m[field.name]], s, q + |parts[k]|, end);
    } else {
      FieldsEnd(rev, ty, m, parts, k, acc, s, q, end);
    }
  }

  /** One field of the induction: it decodes where its part starts and is
      inserted under its name. */
  lemma FieldsNext(rev: Revision, ty: Ty, m: map<string, Value>, parts: seq<seq<byte>>,
                   k: nat, acc: map<string, Value>, s: seq<byte>, q: nat, end: nat)
    requires FieldsAt(rev, ty, m, parts, k, acc, s, q, end) && k < |ty.fields|
    ensures ty.fields[k].name in m
    ensures FieldsAt(rev, ty, m, parts, k + 1, acc[ty.fields[k].name := m[ty.fields[k].name]], s, q + |parts[k]|, end)
    ensures DecodeFields(rev, ty, s, q, k, acc) ==
      DecodeFields(rev, ty, s, q + |parts[k]|, k + 1, acc[ty.fields[k].name := m[ty.fields[k].name]])
  {
    var field := ty.fields[k];
    NextPart(parts, k, s, q);
    DecodesAt(rev, field.ty, m[field.name], parts[k], s, q);
    FieldsStep(rev, ty, s, q, k, acc, m[field.name], q + |parts[k]|);
    RestrictStep(m, ty.fields, k);
  }

  /** With every field read, the members are the whole object. */
  lemma FieldsEnd(rev: Revision, ty: Ty, m: map<string, Value>, parts: seq<seq<byte>>,
                  k: nat, acc: map<string, Value>, s: seq<byte>, q: nat, end: nat)
    requires FieldsAt(rev, ty, m, parts, k, acc, s, q, end) && k == |ty.fields|
    ensures DecodeFields(rev, ty, s, q, k, acc) == Ok((m, end))
  {
    assert ty.fields[..k] == ty.fields;
    assert acc == m;
    assert parts[k..] == [];
  }

  lemma RestrictStep(m: map<string, Value>, fields: seq<Field>, k: nat)
    requires k < |fields| && fields[k].name in m
    ensures Restrict(m, Names(fields[..k]))[fields[k].name := m[fields[k].name]] == Restrict(m, Names(fields[..k + 1]))
  {
    assert Names(fields[..k + 1]) == Names(fields[..k]) + {fields[k].name} by {
      assert fields[..k + 1] == fields[..k] + [fields[k]];
    }
  }

  // ---- the whole trip: `deserialize(ty, &serialize(ty, v)?)` ----

  /** A value that matches the schema, and that the revision gives back
      unchanged, is encoded and then decoded to itself, whatever bytes
      follow the encoding. */
  lemma SerializeDeserialize(rev: Revision, ty: Ty, v: Value, extra: seq<byte>)
    requires WellNamed(ty) && Bounded(v) && Matches(ty, v) && Reproducible(rev, ty, v)
    ensures Encode(ty, v).Ok?
    ensures Deserialized(rev, ty, Encode(ty, v).value + extra) == Ok(v)
  {
    AcceptsIffMatches(ty, v);
    var w := Emit(ty, v).written;
    assert (w + extra)[0..|w|] == w;
    RoundTrip(rev, ty, v, w + extra, 0);
  }

  /** As written, no negative integer survives an `I64` node: it comes
      back as the non-negative zigzag code it was written as. */
  lemma I64AsWrittenLosesSign(i: i64, extra: seq<byte>)
    requires i < 0
    ensures Encode(Ty.I64, Number(NegInt(i))) == Ok(WriteI64(i))
    ensures Deserialized(AsWritten, Ty.I64, WriteI64(i) + extra) == Ok(Number(PosInt(ZigZag(i))))
    ensures Deserialized(AsWritten, Ty.I64, WriteI64(i) + extra) != Ok(Number(NegInt(i)))
  {
    var w := WriteI64(i);
    assert (w + extra)[0..|w|] == w;
    I64AsWrittenUnsigned(i, w + extra, 0);
  }

  /** The smallest case: -1 is written as the single byte 1; as written
      it is read back as 1, with the corrected read as -1. */
  lemma I64MinusOne()
    ensures Encode(Ty.I64, Number(NegInt(-1))) == Ok([1])
    ensures Deserialized(AsWritten, Ty.I64, [1]) == Ok(Number(PosInt(1)))
    ensures Deserialized(Corrected, Ty.I64, [1]) == Ok(Number(NegInt(-1)))
  {
    assert WriteI64(-1) == [1];
    assert [1] + [] == [1];
    I64AsWrittenLosesSign(-1, []);
    I64CorrectedSigned(-1, [1], 0);
  }

  /** As written, an encoded double never comes back; the double 0.0 is
      eight zero bytes, refused as written and read back as 0.0 with the
      corrected read. */
  lemma F64Zero(extra: seq<byte>)
    ensures Encode(Ty.F64, Number(Float(0))) == Ok([0, 0, 0, 0, 0, 0, 0, 0])
    ensures Deserialized(AsWritten, Ty.F64, [0, 0, 0, 0, 0, 0, 0, 0] + extra) == Err(InvalidType)
    ensures Deserialized(Corrected, Ty.F64, [0, 0, 0, 0, 0, 0, 0, 0] + extra) == Ok(Number(Float(0)))
  {
    var w: seq<byte> := [0, 0, 0, 0, 0, 0, 0, 0];
    Bincode.Pow256Widths();
    assert LittleEndian(0, 8) == w;
    assert (w + extra)[0..8] == w;
    assert Float64.IsFinite(0);
    F64AsWrittenFails(w + extra, 0);
    F64CorrectedBits(0, w + extra, 0);
  }

  /** A repeated field name breaks the round trip: the encoder checks only
      the object's size and looks each name up, so `{a: true, b: false}`
      passes the schema `[a: Bool, a: Bool]` and is written as `[1, 1]`;
      the decoder reads both fields into the one key `a`. */
  lemma DuplicateNameDropsKey(rev: Revision)
    ensures var ty := Ty.Struct([Field("a", Ty.Bool), Field("a", Ty.Bool)]);
      var v := Object(map["a" := Value.Bool(true), "b" := Value.Bool(false)]);
      Encode(ty, v) == Ok([1, 1]) &&
      Deserialized(rev, ty, [1, 1]) == Ok(Object(map["a" := Value.Bool(true)])) &&
      Deserialized(rev, ty, [1, 1]) != Ok(v)
  {
    DuplicateNameEncodes();
    DuplicateNameDecodes(rev);
    assert "b" !in map["a" := Value.Bool(true)];
  }

  lemma DuplicateNameEncodes()
    ensures Encode(Ty.Struct([Field("a", Ty.Bool), Field("a", Ty.Bool)]),
      Object(map["a" := Value.Bool(true), "b" := Value.Bool(false)])) == Ok([1, 1])
  {
    var ty := Ty.Struct([Field("a", Ty.Bool), Field("a", Ty.Bool)]);
    var m := map["a" := Value.Bool(true), "b" := Value.Bool(false)];
    assert m.Keys == {"a", "b"};
    assert |m| == 2;
    var steps := FieldSteps(ty, m);
    assert Emit(ty, Object(m)) == Sequence(steps);
    assert steps == [Emission([1], Pass), Emission([1], Pass)];
    assert Sequence(steps[..1]) == Emission([1], Pass) by {
      assert steps[..1][..0] == [];
    }
    assert steps[..2] == steps;
    SequenceStep(steps, 1);
    assert [1] + [1] == [1, 1];
    assert Emit(ty, Object(m)) == Emission([1, 1], Pass);
  }

  lemma DuplicateNameDecodes(rev: Revision)
    ensures Deserialized(rev, Ty.Struct([Field("a", Ty.Bool), Field("a", Ty.Bool)]), [1, 1]) ==
      Ok(Object(map["a" := Value.Bool(true)]))
  {
    var ty := Ty.Struct([Field("a", Ty.Bool), Field("a", Ty.Bool)]);
    var s: seq<byte> := [1, 1];
    var first := map["a" := Value.Bool(true)];
    assert Decode(rev, Ty.Bool, s, 0) == Ok((Value.Bool(true), 1));
    assert Decode(rev, Ty.Bool, s, 1) == Ok((Value.Bool(true), 2));
    assert first["a" := Value.Bool(true)] == first;
    assert DecodeFields(rev, ty, s, 1, 1, first) == Ok((first, 2));
    assert DecodeFields(rev, ty, s, 0, 0, map[]) == DecodeFields(rev, ty, s, 1, 1, first);
  }
}
