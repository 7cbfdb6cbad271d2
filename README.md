# binc: a schema-guided bincode codec for JSON values

This project models the "binc" backend of talk-serde-dyn-schema in Dafny. The backend
converts between a `serde_json::Value` and a bincode byte stream that carries no type
tags. A runtime schema `Ty` (`Bool | U64 | I64 | F64 | Bytes | String | Array(inner) |
Struct(fields)`) decides the bytes and their meaning:

- The **encoder** (`serialize`, `serialize_into`) walks the schema and the value
  together. It appends bincode primitives to a caller-owned buffer. A struct writes no
  names and no count. An array and a byte blob write a length prefix first. An error is
  raised at the node that is wrong, and the bytes appended before it stay in the buffer.
- The **decoder** (`deserialize`, the `TypedValue` seed and its visitors) is the dual
  walk. It reads a struct's fields positionally in schema order and reads an array's
  length first.

Modules, one per file:

| module | contents |
|---|---|
| `Wrappers` | `Option`, `Result`, `Outcome` |
| `Bytes` | bytes, little-endian numbers, buffer slices (`At`), `Concat` |
| `Utf8` | the UTF-8 codec of Rust strings, with its two round-trip lemmas |
| `Bincode` | the primitive layer of `bincode::DefaultOptions`, each writer paired with a reader and a lemma that the reader undoes it |
| `Float64` | `as f64` on a `u64` or an `i64` (round to nearest, ties to even), as bit patterns |
| `Json` | the document value and its partial accessors `as_bool`, `as_u64`, … |
| `Schema` | `Ty` and `Field` |
| `Ser` | the encoder: the specification function `Emit`, the `Buffer` class, and the imperative `SerializeInto` with its three loops |
| `De` | the decoder: the specification function `Decode`, the `Reader` class, and the imperative visitors |
| `RoundTrip` | decoding what the encoder wrote |

`Bincode` and `Utf8` are assumptions about bincode 1.x and the Rust standard library. They
are not code of the repository. In the varint layout, a value up to 250 is its own byte;
tags 251, 252 and 253 are followed by 2, 4 or 8 little-endian bytes. An `i64` is
zigzag-mapped first. A `bool` and a `u8` are one byte, an `f64` is its 8 bit-pattern bytes,
and a string is its UTF-8 length and then its bytes.

Each `I64` and `F64` node is decoded with `deserialize_u64` (src/binc/de.rs:31-32). The
encoder writes the signed and the floating-point forms. Because of this mismatch, the
decoder takes a `Revision`:

- `AsWritten` reads both nodes as the source does.
- `Corrected` reads them with the reads the encoder's layout calls for.

Both are proved about; see "## Findings". The tests in src/binc/mod.rs say that encoding
and then decoding gives the value back. As written, that holds for every matching value of
a schema whose structs have pairwise distinct field names and that has no `I64` or `F64`
node. With the corrected reads it also holds at `I64` nodes and at `F64` nodes that hold a
double. A repeated field name breaks it under either revision (`RoundTrip.DuplicateNameDropsKey`).

## Model

| member | source | states |
|---|---|---|
| Ser.Kind | src/binc/ser.rs:100-108 | (no ensures; stated by `Ser.KindIdentifiesVariant` and `Ser.KindMismatch`) |
| Ser.KindIdentifiesVariant | src/binc/ser.rs:101-108 | The `got` label depends only on the value's variant, and the six variants get six different labels. |
| Ser.UnexpectedTypeOf | src/binc/ser.rs:100-110 | (no ensures; stated by `Ser.KindMismatch`) |
| Ser.FieldMismatchOf | src/binc/ser.rs:112-125 | (no ensures; stated by `Ser.FieldMismatchReport`) |
| Ser.FieldMismatchReport | src/binc/ser.rs:112-125 | The report holds `expected_len = \|fields\|`, `got_len = \|object\|`, `expected` = the schema's names and `got` = the object's keys. `missing` is disjoint from `got` and inside `expected`. `extra` is disjoint from `expected` and inside `got`. Removing each difference from its own set leaves the same names: `expected - missing == got - extra`. Both differences are empty exactly when the two name sets are equal. |
| Ser.KindMismatch | src/binc/ser.rs:41-110 | A value of a kind its node does not accept is refused at once. Nothing is written, and the error is `UnexpectedType` with the node's fixed label as `expected` and the label of the value's variant as `got`. A negative number at a `U64` node gives ("a non-negative integer", "a number"). |
| Ser.Emit | src/binc/ser.rs:38-98 | (no ensures; this is the specification of `serialize_into`. `Ser.SerializeInto` is proved against it, and `Ser.AcceptsIffMatches` and the layout and failure lemmas state what it means) |
| Ser.EmitByte | src/binc/ser.rs:63-69 | A blob element succeeds exactly when it is a non-negative integer below 256, and then writes that one byte. Any other element fails with `NotAByte`, never `UnexpectedType`, and writes nothing. |
| Ser.Buffer.constructor | src/binc/ser.rs:33 | A fresh buffer is empty. |
| Ser.Buffer.Extend | src/binc/ser.rs:43 | Appending keeps the old bytes and adds the new ones after them. |
| Ser.SerializeInto | src/binc/ser.rs:38-98 | The buffer becomes its old contents followed by `Emit(ty, v).written`, and the result is `Emit(ty, v).outcome`. On an error, the old bytes and everything appended before the error stay: there is no rollback. |
| Ser.SerializeBytes | src/binc/ser.rs:63-70 | The byte loop appends exactly what the run of its element steps writes, stops at the first element that is not a byte, and returns that run's outcome. |
| Ser.SerializeElements | src/binc/ser.rs:80-82 | The element loop appends each element's encoding against the inner schema, in order. It stops at the first failing element and returns its outcome. |
| Ser.SerializeFields | src/binc/ser.rs:91-94 | The field loop appends each field's encoding in schema order, looked up by name. A name the object lacks ends it with `FieldMismatch`, and a failing field ends it with its own error. |
| Ser.Encode | src/binc/ser.rs:32-36 | (no ensures; `Ser.Serialize` is proved against it, and `RoundTrip.SerializeDeserialize` states that it is undone by decoding) |
| Ser.Serialize | src/binc/ser.rs:32-36 | `serialize` is `serialize_into` on a fresh buffer. The result is the bytes written, or the error. |
| Ser.SequenceSticky | src/binc/ser.rs:80-82 | Once a step has failed, the later steps of a loop change neither the bytes nor the outcome. |
| Ser.SequenceAllPass | src/binc/ser.rs:80-82 | A loop succeeds exactly when every step does. It then wrote the steps' bytes back to back. |
| Ser.SequenceStopsAt | src/binc/ser.rs:80-82 | A loop whose step `j` is the first to fail ends there. It wrote the earlier steps' bytes and step `j`'s own bytes, and has step `j`'s error. |
| Ser.SequenceFailure | src/binc/ser.rs:91-94 | Every failed loop stopped at some first failing step, as `SequenceStopsAt` describes. |
| Ser.BytesLayout | src/binc/ser.rs:59-71 | A byte blob succeeds exactly when every element is a byte. It is then its varint length followed by one raw byte per element. |
| Ser.BytesFailure | src/binc/ser.rs:61-68 | At the first element that is not a byte, a blob fails with `NotAByte`. The length prefix and the bytes before that element are already written. |
| Ser.ArrayLayout | src/binc/ser.rs:76-83 | An array succeeds exactly when every element encodes against the inner schema. It is then its varint length followed by the elements' encodings in order. |
| Ser.ArrayFailure | src/binc/ser.rs:78-82 | An array stops at its first failing element, with that element's error. The length, the earlier elements and the failing element's own partial bytes stay written. |
| Ser.StructLayout | src/binc/ser.rs:84-95 | A struct succeeds exactly when the object has as many members as there are fields, every field name is a key and every field's value encodes. It is then the field encodings in schema order, with no names and no count. |
| Ser.SizeMismatch | src/binc/ser.rs:87-89 | An object whose size differs from the number of fields fails with the field-mismatch report. Nothing of the struct is written. |
| Ser.MissingFieldStops | src/binc/ser.rs:91-92 | When the sizes agree, the walk stops at the first field name the object lacks (if every earlier field encodes). The earlier fields stay written, and the field-mismatch report is the error. |
| Ser.StructSuccessKeys | src/binc/ser.rs:87-93 | With distinct field names, a struct that encodes has keys equal to the schema's name set. |
| Ser.StructMismatchReport | src/binc/ser.rs:87-94 | With distinct field names, an object whose keys differ from the names fails with the field-mismatch report, provided every field whose name is present encodes. |
| Ser.NeverSerialization | src/binc/ser.rs:41-83 | The `Serialization` error is never produced, because every write goes to a growable in-memory buffer. |
| Ser.AcceptsIffMatches | src/binc/ser.rs:38-98 | With distinct field names, the encoder succeeds on exactly the values that match the schema. `Matches` is an independent definition over the schema: kinds, byte ranges, element matches, and exactly the field names as keys. |
| Ser.DroppedFieldExample | src/binc/ser.rs:84-89 | The schema `{name, age}` against `{name, age, hobbies}` writes nothing. It reports `FieldMismatch(2, {name, age}, 3, {name, age, hobbies}, {}, {hobbies})`. |
| Ser.SwappedFieldExample | src/binc/ser.rs:91-92 | The schema `{name, age, hobbies}` against `{name, age, pets}` reaches `hobbies` in the walk. It reports `FieldMismatch(3, {name, age, hobbies}, 3, {name, age, pets}, {hobbies}, {pets})`. |
| Float64.FromInt | src/binc/ser.rs:55-58 | `as f64` on an integer gives a finite double. The bit pattern is zero exactly for 0, and the sign bit is set exactly for negatives. |
| Bincode.ReadWriteBool | src/binc/de.rs:29 | The one-byte `bool` reads back as itself, and the read ends after that byte. |
| Bincode.ReadWriteU64 | src/binc/de.rs:30 | A varint `u64`, found anywhere in a buffer, reads back as itself, and the read ends right after it. |
| Bincode.ReadPrefix | src/binc/de.rs:33-35 | A varint length followed by more bytes reads back, and the rest starts right after it. |
| Bincode.ReadWriteI64 | src/binc/ser.rs:51-54 | A zigzag varint `i64` reads back as itself with the signed read. |
| Bincode.ReadWriteF64 | src/binc/ser.rs:55-58 | The 8 bytes of a bit pattern read back as that pattern. |
| Bincode.ReadWriteStr | src/binc/de.rs:34 | A string's length and UTF-8 bytes read back as the string. |
| Utf8.DecodeEncode | src/binc/ser.rs:72-75 | UTF-8 validation of a string's own bytes gives the string back. |
| Utf8.EncodeDecode | src/binc/de.rs:96-109 | Bytes that validate as some string are exactly that string's UTF-8 encoding. |
| De.DecodeScalar | src/binc/de.rs:29-34 | A scalar node that decodes consumes at least one byte and stays inside the input. What it builds is stated by the lemmas below. |
| De.Decode | src/binc/de.rs:21-39 | A node that decodes ends at a position inside the input, at or after where it started. |
| De.DecodeElements | src/binc/de.rs:158-165 | The element loop, as a function: it ends inside the input. |
| De.DecodeFields | src/binc/de.rs:135-145 | The field loop, as a function: it ends inside the input. |
| De.Reader.constructor | src/binc/de.rs:13 | A reader starts at position 0 of the input. |
| De.DeserializeSeed | src/binc/de.rs:21-39 | The seed returns what `Decode` gives at the reader's position. On success, the reader is moved past the value. |
| De.VisitArray | src/binc/de.rs:158-165 | The `while let` loop reads the announced number of elements, in order, into an array. It returns the first element error. |
| De.VisitStruct | src/binc/de.rs:135-145 | The `for` loop reads one value per field in schema order and inserts each under its field's name. It returns the first field error. |
| De.Deserialized | src/binc/de.rs:10-14 | (no ensures; `De.Deserialize` is proved against it, and `RoundTrip.SerializeDeserialize` states what it gives back) |
| De.Deserialize | src/binc/de.rs:10-14 | `deserialize` is the seed run on a fresh reader over the bytes. |
| De.FieldsKeys | src/binc/de.rs:137-143 | The fields from index `k` on add exactly their names to the keys decoded so far. |
| De.ElementsLength | src/binc/de.rs:161-163 | The element loop adds exactly `n` elements after the accumulated ones and keeps those. |
| De.StructKeys | src/binc/de.rs:135-145 | A decoded struct is an object whose keys are exactly the field names. With distinct names it has one member per field. |
| De.ArrayLength | src/binc/de.rs:158-165 | A decoded array has as many elements as its length prefix says. |
| De.ElementErrorAborts | src/binc/de.rs:161 | An element that fails to decode ends the element loop with its error. |
| De.FieldErrorAborts | src/binc/de.rs:139-141 | A field that fails to decode ends the field loop with its error. |
| De.NodeErrorAborts | src/binc/de.rs:35-36 | A failed length read, element loop or field loop fails the whole array or struct with the same error. No partial value is returned. |
| De.BytesDecodeLayout | src/binc/de.rs:117-122 | A decoded byte blob is its length prefix and then that many raw bytes. Each byte becomes the non-negative integer of that byte, in order. |
| De.FieldValues | src/binc/de.rs:137-141 | The positional read of a struct: one value per field from index `k` on, each decoded with its own field's schema. On success it has one value per remaining field and ends inside the input. |
| De.FieldsLastWins | src/binc/de.rs:136-144 | The field loop succeeds exactly when `De.FieldValues` does. It fails with the same error, and ends at the same place. Its map keeps earlier members whose names no remaining field reuses, and has every field name as a key. Each name maps to the value read for the LAST field carrying it: an insert under a repeated name overwrites the earlier one. |
| De.StructFieldValues | src/binc/de.rs:135-145 | With distinct field names, a decoded struct maps each field's name to the value read for that field, in schema order. |
| De.DuplicateNameKeepsLast | src/binc/de.rs:142 | An example: the schema `[a: Bool, a: Bool]` on the bytes `[0, 1]` reads both fields and keeps the later value, `{a: true}`. |
| De.I64AsWrittenUnsigned | src/binc/de.rs:31 | As written, an `I64` node reads the zigzag code of the written integer back as an unsigned number. |
| De.I64CorrectedSigned | src/binc/de.rs:31 | With the signed read, an `I64` node gives the written integer back. |
| De.F64AsWrittenFails | src/binc/de.rs:32 | As written, an `F64` node never decodes. When the varint read succeeds, the float visitor refuses the integer with `InvalidType`. |
| De.F64CorrectedBits | src/binc/de.rs:82-95 | With the 8-byte read, an `F64` node gives back the double whose bits were written. A NaN or an infinity comes back as null. |
| RoundTrip.RoundTrip | src/binc/mod.rs:42-45 | Bytes the encoder wrote for a value, found anywhere in a buffer, decode to that value. Decoding ends exactly where the encoding ends. This needs distinct field names, every `I64` node read with the corrected revision, and every `F64` node holding a double. |
| RoundTrip.EncodingDecodes | src/binc/mod.rs:100-103 | The same, for every buffer and position at once. |
| RoundTrip.BoolCase | src/binc/de.rs:29 | The round trip at a `Bool` node. |
| RoundTrip.U64Case | src/binc/de.rs:30 | The round trip at a `U64` node. |
| RoundTrip.I64Case | src/binc/de.rs:31 | The round trip at an `I64` node with the corrected read. |
| RoundTrip.F64Case | src/binc/de.rs:32 | The round trip at an `F64` node holding a double, with the corrected read. |
| RoundTrip.BytesCase | src/binc/de.rs:33 | The round trip at a `Bytes` node. |
| RoundTrip.StringCase | src/binc/de.rs:34 | The round trip at a `String` node. |
| RoundTrip.ArrayCase | src/binc/de.rs:35 | The round trip at an `Array` node: the length, then every element. |
| RoundTrip.StructCase | src/binc/de.rs:36 | The round trip at a `Struct` node: every field in schema order, with the object rebuilt key by key. |
| RoundTrip.SerializeDeserialize | src/binc/mod.rs:53-56 | A value that matches a schema with distinct field names is encoded. It is then decoded back to itself, whatever bytes follow. This needs every `I64` node read with the corrected revision and every `F64` node holding a double. |
| RoundTrip.DuplicateNameDropsKey | src/binc/ser.rs:87-93 | With the repeated name of `[a: Bool, a: Bool]`, the object `{a: true, b: false}` passes the size check and the two look-ups. It is written as `[1, 1]`, and both revisions decode that to `{a: true}`, which is not the value encoded. |
| RoundTrip.DuplicateNameEncodes | src/binc/ser.rs:87-93 | The first half of that case: the encoding is `[1, 1]`. |
| RoundTrip.DuplicateNameDecodes | src/binc/de.rs:137-142 | The second half: `[1, 1]` decodes to `{a: true}`. |
| RoundTrip.I64AsWrittenLosesSign | src/binc/de.rs:31 | As written, no negative integer survives an `I64` node: it comes back as its non-negative zigzag code. `De.I64AsWrittenUnsigned` states this for every integer: each nonzero one changes, since negatives lose their sign and positives double. |
| RoundTrip.I64MinusOne | src/binc/de.rs:31 | -1 is encoded as the single byte 1. As written it decodes to 1; with the signed read it decodes to -1. |
| RoundTrip.F64Zero | src/binc/de.rs:32 | 0.0 is encoded as eight zero bytes. As written they fail with `InvalidType`; with the 8-byte read they decode to 0.0. |

## Left out

- bincode's internals are not code of this repository. `Bincode` states the layout of `DefaultOptions` as an assumption. Its errors are coarse: a byte 254 or 255 in tag position is `InvalidVarintTag`, and every refusal by a visitor is `InvalidType`.
- The decoder reads from a `Read` over the slice and stops after the value (src/binc/de.rs:13). Bytes after the value are never looked at. This is also an assumption about bincode.
- A length read as a `u64` is cast to `usize`. The model takes a 64-bit target, where that cast cannot fail.
- Floating point is opaque bit patterns. The only arithmetic modelled is `as f64` on integers. A `Float` is always finite. serde_json's turning of a NaN or an infinity into null is modelled only in the corrected `F64` read.
- The message texts of `Error`, of `expecting`, and of the "missing value for field" error are left out. So is the serde trait machinery.
- The "missing value for field" error of src/binc/de.rs:141 cannot occur. A tuple access of `fields.len()` elements never runs out early, so `De.VisitStruct` has no such branch.
- Every operation that can fail for lack of memory is left out. `Ser.NeverSerialization` states that the `Serialization` error is then never produced.
- The tests of src/binc/mod.rs call `deserialize_alloc` to encode and `serialize(&ty, &bytes)` to decode. binc exports no `deserialize_alloc`, and its `serialize` (src/binc/ser.rs:32) takes a JSON value, not bytes, so the tests are read only as the statement that the round trip holds.
- Json.Bounded: every array, and every UTF-8 string, is taken to be shorter than 2^64, as every value in memory is. The encoder's members require it.
- De.DecodeScalar, De.Decode, De.DecodeElements, De.DecodeFields: their own ensures give only position bounds. What they compute is stated by the lemmas in `De` and `RoundTrip`.
- De.DeserializeSeed, De.VisitArray, De.VisitStruct: on an error, the reader's position is left unspecified, as bincode leaves it.
- RoundTrip.RoundTrip: an `F64` node holding an integer is excluded. It is encoded as its rounded double and comes back as that double, not as the integer.
- Ser.SwappedFieldExample: states the outcome only. The bytes written before the mismatch are stated in general by `Ser.MissingFieldStops`.

## Findings

| source | as written | input that shows it | evidently intended | confidence | as-written member | corrected member |
|---|---|---|---|---|---|---|
| src/binc/de.rs:31 | An `I64` node is read with `deserialize_u64`. The encoder writes a zigzag `i64` (src/binc/ser.rs:51-53), so every nonzero integer comes back as its zigzag code: negatives lose their sign and positives double (5 comes back as 10). | -1 against `Ty::I64` is encoded as `[1]`, which decodes to 1 | read with `deserialize_i64`, so that the integer comes back | not executed | RoundTrip.I64AsWrittenLosesSign | De.I64CorrectedSigned |
| src/binc/de.rs:32 | An `F64` node is read with `deserialize_u64`, and `FloatVisitor` accepts only `visit_f64`. Decoding an `F64` node therefore always fails. | 0.0 against `Ty::F64` is encoded as eight zero bytes, which fail with an invalid-type error | read with `deserialize_f64`, so that the written double comes back | not executed | RoundTrip.F64Zero | De.F64CorrectedBits |
| src/binc/ser.rs:87-93 | A struct checks only that the object has as many members as the schema has fields, and then looks each field name up. With a repeated name in the schema, an object with one extra key passes, and that key is silently dropped. | `{a: true, b: false}` against `[a: Bool, a: Bool]` is encoded as `[1, 1]`, which decodes to `{a: true}` | the object's keys are exactly the schema's name set, which holds once the names are distinct | not executed | RoundTrip.DuplicateNameDropsKey | Ser.AcceptsIffMatches |

The corrected reads are the `Corrected` revision of `De.DecodeScalar`. `RoundTrip.RoundTrip`
and `RoundTrip.SerializeDeserialize` are proved for it. `De.I64AsWrittenUnsigned` and
`De.F64AsWrittenFails` state the as-written behaviour for every input. For repeated field names, the rest of the model takes schemas with distinct names (`WellNamed`), under which `Ser.AcceptsIffMatches` and `Ser.StructSuccessKeys` prove the keys equal the schema's name set.
