# Pinpoint Thrift structs, Flink serializer factory and gRPC result bridge in Dafny

This project models three pieces of Pinpoint's message plumbing and proves
properties about them:

- **Two Thrift 0.10.0 generated structs.** `TFTransaction` has four OPTIONAL i64 counters, field ids 2 to 5.
  `TIntStringValue` has a DEFAULT i32 `intValue` with an isset bit and an OPTIONAL `stringValue` that is present exactly when it is non-null.
  For each struct the model covers the setters, unsetters, isset accessors, `clear`, `deepCopy`, `equals`, `compareTo` and `findByThriftId`.
  It also covers both wire schemes:
  - the *standard* scheme: field header, value, …, STOP;
  - the *tuple* scheme: a presence bit set, then the values of the set fields.
- **`FlinkHeaderTBaseSerializerFactory`.** Its constructor rejects a null locator.
  Its ownership test `isSupport` holds when the target is a `TBase` and the locator supports the target's class.
  `createSerializer` delegates to a header factory built over the same locator.
- **`GrpcMessageToResultConverter.toMessage`.** It maps a `ResponseMessage` to a `ResultResponse` by parsing its payload as a protobuf `PResult`.
  Any other input gives null. A parse failure throws `IllegalArgumentException`.

Java objects are mutable; the model makes them immutable values, so each mutator is a function that returns the updated struct.
A Thrift `TProtocol` is modelled as a sequence of abstract tokens (module `Wire`):
- a field header (id and type tag);
- the STOP marker;
- one value;
- one bit set.

`readFieldBegin`/`writeFieldBegin` move one header token, and `writeFieldStop` writes the STOP token; `readFieldBegin` returns STOP when it meets that token.
Each of `readI32`, `readI64` and `readString` and their writers moves one value token, and each of `readBitSet`/`writeBitSet` moves one bit set token.
`TProtocolUtil.skip` consumes exactly one value token of the tagged type.
`readStructBegin`, `readFieldEnd`, `readStructEnd`, `writeStructBegin`, `writeFieldEnd` and `writeStructEnd` move no token: the struct and field begin/end markers are not modelled.

Files:

- `java_types.dfy`: the Java integer widths and `char` (a UTF-16 code unit), nullable references as `Option`, and the comparison primitives `compareTo` uses.
  The `String.compareTo` lemmas here are stated against an independent lexicographic order.
- `wire.dfy`: the token stream and the protocol's read, skip and bit-set primitives.
- `tf_transaction.dfy`: `TFTransaction`.
- `t_int_string_value.dfy`: `TIntStringValue`.
- `flink_serializer_factory.dfy`: the Flink serializer factory.
- `result_bridge.dfy`: the gRPC result bridge.

Two behaviours of the generated `TIntStringValue` code shape the model:

- `intValue` has DEFAULT requiredness (`TIntStringValue.java:91`), and `validate()` checks nothing (`:339-342`).
  So both writers are total functions, and a read never fails validation.
- `equals` compares `intValue` whatever its isset bit, while `compareTo` and the tuple scheme honour that bit.
  The model keeps this behaviour and proves where the two disagree: `CompareToInconsistentWithEquals`, `StandardRoundTrip` and `TupleRoundTrip`.

## Model

| member | source | states |
|---|---|---|
| `TFTransactionDto.FindByThriftId` | thrift/src/main/java/com/navercorp/pinpoint/thrift/dto/flink/TFTransaction.java:45-58 | a field is found exactly for ids 2..5, and the field found is the one whose thrift id is the given id; every other id gives null |
| `TFTransactionDto.New` | thrift/src/main/java/com/navercorp/pinpoint/thrift/dto/flink/TFTransaction.java:116-117 | a fresh struct has all four fields absent, each with value 0 |
| `TFTransactionDto.SetValue` | thrift/src/main/java/com/navercorp/pinpoint/thrift/dto/flink/TFTransaction.java:150-153 | setting a field stores the value and marks it present; every other field is unchanged |
| `TFTransactionDto.SetIsSet` | thrift/src/main/java/com/navercorp/pinpoint/thrift/dto/flink/TFTransaction.java:164-166 | only that field's isset bit changes; its stored value and the other fields stay |
| `TFTransactionDto.Unset` | thrift/src/main/java/com/navercorp/pinpoint/thrift/dto/flink/TFTransaction.java:155-157 | unsetting clears only that field's presence bit; its stored value and every other field are unchanged |
| `TFTransactionDto.SetFieldValue` | thrift/src/main/java/com/navercorp/pinpoint/thrift/dto/flink/TFTransaction.java:234-269 | a null value unsets the field, keeping its stored value; a non-null value sets it; other fields are unchanged |
| `TFTransactionDto.Clear` | thrift/src/main/java/com/navercorp/pinpoint/thrift/dto/flink/TFTransaction.java:134-144 | afterwards all four fields are absent with value 0 |
| `TFTransactionDto.DeepCopy` | thrift/src/main/java/com/navercorp/pinpoint/thrift/dto/flink/TFTransaction.java:119-132 | the copy has the same presence bits and the same four values, present or not, and equals the original |
| `TFTransactionDto.EqualsIffSamePresenceAndValues` | thrift/src/main/java/com/navercorp/pinpoint/thrift/dto/flink/TFTransaction.java:317-360 | equal iff every field has the same presence and present fields have equal values; equivalently, the structs agree once values of absent fields are forgotten |
| `TFTransactionDto.EqualsIsEquivalence` | thrift/src/main/java/com/navercorp/pinpoint/thrift/dto/flink/TFTransaction.java:317-360 | `equals` is reflexive, symmetric and transitive |
| `TFTransactionDto.CompareToZeroIffEquals` | thrift/src/main/java/com/navercorp/pinpoint/thrift/dto/flink/TFTransaction.java:386-434 | `compareTo` returns 0 exactly when `equals` holds |
| `TFTransactionDto.CompareToAntisymmetric` | thrift/src/main/java/com/navercorp/pinpoint/thrift/dto/flink/TFTransaction.java:386-434 | swapping the operands negates the result |
| `TFTransactionDto.CompareToTransitive` | thrift/src/main/java/com/navercorp/pinpoint/thrift/dto/flink/TFTransaction.java:386-434 | a < b and b < c imply a < c |
| `TFTransactionDto.CompareToIsLexicographic` | thrift/src/main/java/com/navercorp/pinpoint/thrift/dto/flink/TFTransaction.java:391-433 | a < b iff, over fields in id order 2..5, some field ranks lower in a while all earlier fields tie; an absent field ranks below every present value |
| `TFTransactionDto.PresenceBits` | thrift/src/main/java/com/navercorp/pinpoint/thrift/dto/flink/TFTransaction.java:603-615 | the tuple bit set has 4 bits, and bit i is set iff the i-th declared field is present |
| `TFTransactionDto.WriteStandardIsPresentEntries` | thrift/src/main/java/com/navercorp/pinpoint/thrift/dto/flink/TFTransaction.java:562-588 | the standard stream is the present fields, in declared order, each as header plus value, followed by STOP |
| `TFTransactionDto.WriteStandardLayout` | thrift/src/main/java/com/navercorp/pinpoint/thrift/dto/flink/TFTransaction.java:562-588 | the standard writer emits exactly the present fields, in increasing id order, each tagged I64 and followed by its value, and then STOP |
| `TFTransactionDto.ReadStandardOfWrite` | thrift/src/main/java/com/navercorp/pinpoint/thrift/dto/flink/TFTransaction.java:511-560 | reading a written stream into any struct copies the present fields over it, keeps the rest, and stops right after STOP |
| `TFTransactionDto.StandardRoundTrip` | thrift/src/main/java/com/navercorp/pinpoint/thrift/dto/flink/TFTransaction.java:511-588 | reading `write(s)` into a fresh struct yields `s` with the values of absent fields zeroed, which equals `s` |
| `TFTransactionDto.ReadStandardSkipsIgnored` | thrift/src/main/java/com/navercorp/pinpoint/thrift/dto/flink/TFTransaction.java:520-555 | any run of fields with unknown ids, or with known ids under a tag other than I64, is skipped without changing the struct |
| `TFTransactionDto.ReadStandardStopsAtStop` | thrift/src/main/java/com/navercorp/pinpoint/thrift/dto/flink/TFTransaction.java:514-519 | reading ends at STOP, after skipped fields, with the struct unchanged and the tokens after STOP left unread |
| `TFTransactionDto.ReadStandardNeedsStop` | thrift/src/main/java/com/navercorp/pinpoint/thrift/dto/flink/TFTransaction.java:514-557 | a stream without STOP never yields a struct |
| `TFTransactionDto.StandardTruncatedFails` | thrift/src/main/java/com/navercorp/pinpoint/thrift/dto/flink/TFTransaction.java:511-588 | every proper prefix of a written standard stream is rejected |
| `TFTransactionDto.WriteTupleLayout` | thrift/src/main/java/com/navercorp/pinpoint/thrift/dto/flink/TFTransaction.java:601-629 | the tuple stream is the 4-bit presence set, then exactly the present values in declared order, without ids or tags |
| `TFTransactionDto.ReadTupleOfWrite` | thrift/src/main/java/com/navercorp/pinpoint/thrift/dto/flink/TFTransaction.java:632-651 | reading a tuple stream into any struct copies the fields whose bit is set and consumes exactly the written tokens |
| `TFTransactionDto.TupleRoundTrip` | thrift/src/main/java/com/navercorp/pinpoint/thrift/dto/flink/TFTransaction.java:601-651 | the tuple round trip into a fresh struct gives `s` with absent values zeroed, which equals `s` |
| `TFTransactionDto.ReadTupleConsumes` | thrift/src/main/java/com/navercorp/pinpoint/thrift/dto/flink/TFTransaction.java:632-651 | a successful tuple read starts with a 4-bit set, then consumes one token per set bit, each an I64 value, and leaves the tokens after them unread |
| `TFTransactionDto.TupleTruncatedFails` | thrift/src/main/java/com/navercorp/pinpoint/thrift/dto/flink/TFTransaction.java:632-651 | a tuple stream cut anywhere, in the bit set or among the values, is rejected |
| `TIntStringValueDto.FindByThriftId` | thrift/src/main/java/com/navercorp/pinpoint/thrift/dto/TIntStringValue.java:39-48 | a field is found exactly for ids 1 and 2, and it is the field with that id |
| `TIntStringValueDto.New` | thrift/src/main/java/com/navercorp/pinpoint/thrift/dto/TIntStringValue.java:99-100 | the default constructor gives `intValue` 0 with its isset bit false, and no string |
| `TIntStringValueDto.OfInt` | thrift/src/main/java/com/navercorp/pinpoint/thrift/dto/TIntStringValue.java:102-108 | `TIntStringValue(i)` gives `intValue` i marked present, and no string |
| `TIntStringValueDto.SetIntValue` | thrift/src/main/java/com/navercorp/pinpoint/thrift/dto/TIntStringValue.java:136-139 | stores the value, marks it present, and leaves the string alone |
| `TIntStringValueDto.SetIntValueIsSet` | thrift/src/main/java/com/navercorp/pinpoint/thrift/dto/TIntStringValue.java:150-152 | changes only the isset bit |
| `TIntStringValueDto.UnsetIntValue` | thrift/src/main/java/com/navercorp/pinpoint/thrift/dto/TIntStringValue.java:141-143 | clears the isset bit and keeps the stored value and the string |
| `TIntStringValueDto.SetStringValue` | thrift/src/main/java/com/navercorp/pinpoint/thrift/dto/TIntStringValue.java:158-169 | the string is present exactly when the argument is non-null; `intValue` and its bit are unchanged |
| `TIntStringValueDto.UnsetStringValue` | thrift/src/main/java/com/navercorp/pinpoint/thrift/dto/TIntStringValue.java:162-164 | nulls the string and leaves `intValue` and its bit alone |
| `TIntStringValueDto.SetStringValueIsSet` | thrift/src/main/java/com/navercorp/pinpoint/thrift/dto/TIntStringValue.java:171-175 | `false` nulls the string; `true` changes nothing |
| `TIntStringValueDto.SetFieldValueInt` | thrift/src/main/java/com/navercorp/pinpoint/thrift/dto/TIntStringValue.java:179-185 | null unsets `intValue`, keeping its value; otherwise sets it; the string is untouched |
| `TIntStringValueDto.SetFieldValueString` | thrift/src/main/java/com/navercorp/pinpoint/thrift/dto/TIntStringValue.java:187-193 | the string becomes the argument, null included; `intValue` is untouched |
| `TIntStringValueDto.IsSetAfterSetFieldValue` | thrift/src/main/java/com/navercorp/pinpoint/thrift/dto/TIntStringValue.java:211-223 | `isSet(field)` is false after `setFieldValue` with null and true after a non-null value, for either field; the other field's presence is unchanged |
| `TIntStringValueDto.Clear` | thrift/src/main/java/com/navercorp/pinpoint/thrift/dto/TIntStringValue.java:125-130 | afterwards `intValue` is 0 and unset, and the string is absent |
| `TIntStringValueDto.DeepCopy` | thrift/src/main/java/com/navercorp/pinpoint/thrift/dto/TIntStringValue.java:110-123 | the copy has the same bit, `intValue` and string; it equals the original and compares 0 with it |
| `TIntStringValueDto.EqualsIgnoresIntPresence` | thrift/src/main/java/com/navercorp/pinpoint/thrift/dto/TIntStringValue.java:234-259 | equal iff the `intValue`s are equal and the nullable strings are equal; the `intValue` isset bit plays no part |
| `TIntStringValueDto.EqualsIsPresenceSensitive` | thrift/src/main/java/com/navercorp/pinpoint/thrift/dto/TIntStringValue.java:249-256 | `intValue` i with no string is not equal to `intValue` i with the empty string |
| `TIntStringValueDto.CompareToZeroIff` | thrift/src/main/java/com/navercorp/pinpoint/thrift/dto/TIntStringValue.java:274-303 | `compareTo` is 0 iff the isset bits agree, the `intValue`s agree when set, and the strings are equal or both null |
| `TIntStringValueDto.CompareToAntisymmetric` | thrift/src/main/java/com/navercorp/pinpoint/thrift/dto/TIntStringValue.java:274-303 | swapping the operands negates the result |
| `TIntStringValueDto.CompareToTransitive` | thrift/src/main/java/com/navercorp/pinpoint/thrift/dto/TIntStringValue.java:274-303 | a < b and b < c imply a < c |
| `TIntStringValueDto.CompareToIsLexicographic` | thrift/src/main/java/com/navercorp/pinpoint/thrift/dto/TIntStringValue.java:282-302 | a < b iff a ranks lower on `intValue` (unset below every set value, then by value), or ties there and has a null string where b has one, or ties and both strings are set with a's lexicographically before b's |
| `TIntStringValueDto.CompareToAgreesWithEqualsWhenIntSet` | thrift/src/main/java/com/navercorp/pinpoint/thrift/dto/TIntStringValue.java:282-291 | when both `intValue`s are set, `compareTo` is 0 exactly when `equals` holds |
| `TIntStringValueDto.CompareToInconsistentWithEquals` | thrift/src/main/java/com/navercorp/pinpoint/thrift/dto/TIntStringValue.java:240-291 | a value with and without its isset bit is equal but compares non-zero; two different unset values compare 0 but are not equal |
| `TIntStringValueDto.WriteStandardLayout` | thrift/src/main/java/com/navercorp/pinpoint/thrift/dto/TIntStringValue.java:405-421 | field 1 is always written as I32, even when its isset bit is false; field 2 is written as STRING exactly when the string is non-null; then STOP; the output does not depend on the isset bit |
| `TIntStringValueDto.ReadStandardIntBlock` | thrift/src/main/java/com/navercorp/pinpoint/thrift/dto/TIntStringValue.java:380-387 | a field 1 block tagged I32 stores `intValue` and sets its bit, then reading goes on with the rest of the stream; nothing else changes, wherever the block appears |
| `TIntStringValueDto.ReadStandardStringBlock` | thrift/src/main/java/com/navercorp/pinpoint/thrift/dto/TIntStringValue.java:388-395 | a field 2 block tagged STRING stores the string and nothing else: `intValue` and its bit stay as they were, whether or not field 1 came before |
| `TIntStringValueDto.ReadStandardOfWrite` | thrift/src/main/java/com/navercorp/pinpoint/thrift/dto/TIntStringValue.java:370-403 | reading a written stream into any struct sets `intValue` and marks it present, takes the string when written, and stops after STOP |
| `TIntStringValueDto.StandardRoundTrip` | thrift/src/main/java/com/navercorp/pinpoint/thrift/dto/TIntStringValue.java:370-421 | the standard round trip gives `s` with `intValue` marked present; it equals `s`, but compares 0 with `s` only if `s` had the bit set |
| `TIntStringValueDto.ReadStandardSkipsIgnored` | thrift/src/main/java/com/navercorp/pinpoint/thrift/dto/TIntStringValue.java:379-398 | fields with unknown ids or mismatched tags are skipped without changing the struct |
| `TIntStringValueDto.ReadStandardAtStop` | thrift/src/main/java/com/navercorp/pinpoint/thrift/dto/TIntStringValue.java:375-378 | at STOP the reader returns the struct exactly as it stands, isset bit included, and leaves the tokens after STOP unread |
| `TIntStringValueDto.ReadStandardStopsAtStop` | thrift/src/main/java/com/navercorp/pinpoint/thrift/dto/TIntStringValue.java:373-398 | reading ends at STOP after any run of skipped fields, with the struct unchanged and the tokens after STOP left unread |
| `TIntStringValueDto.StandardReadsIntWithoutString` | thrift/src/main/java/com/navercorp/pinpoint/thrift/dto/TIntStringValue.java:370-403 | for any `intValue` i, a stream holding field 1, unknown fields and then STOP, with no string, reads into a fresh struct as i marked set with `isSetStringValue()` false, and leaves the tokens after STOP |
| `TIntStringValueDto.ReadStandardNeedsStop` | thrift/src/main/java/com/navercorp/pinpoint/thrift/dto/TIntStringValue.java:373-400 | a stream without STOP never yields a struct |
| `TIntStringValueDto.StandardTruncatedFails` | thrift/src/main/java/com/navercorp/pinpoint/thrift/dto/TIntStringValue.java:370-421 | every proper prefix of a written standard stream is rejected |
| `TIntStringValueDto.WriteTupleLayout` | thrift/src/main/java/com/navercorp/pinpoint/thrift/dto/TIntStringValue.java:434-450 | the tuple stream is a 2-bit set (bit 0 the `intValue` isset bit, bit 1 string presence), then the `intValue` if its bit is set, then the string if it is non-null, without ids or tags |
| `TIntStringValueDto.ReadTupleOfWrite` | thrift/src/main/java/com/navercorp/pinpoint/thrift/dto/TIntStringValue.java:452-464 | reading a tuple stream into any struct takes, with presence, exactly the fields whose bit the writer set; the rest of the target stays, and the tokens after the stream are left unread |
| `TIntStringValueDto.TupleRoundTrip` | thrift/src/main/java/com/navercorp/pinpoint/thrift/dto/TIntStringValue.java:434-464 | the tuple round trip restores both presence flags and the present values, and an unset `intValue` comes back as 0; the result compares 0 with `s`, and equals `s` iff `s`'s `intValue` was set or was 0 |
| `TIntStringValueDto.TupleTruncatedFails` | thrift/src/main/java/com/navercorp/pinpoint/thrift/dto/TIntStringValue.java:452-464 | a tuple stream cut short is rejected |
| `JavaTypes.CompareStringZeroIff` | thrift/src/main/java/com/navercorp/pinpoint/thrift/dto/TIntStringValue.java:296-300 | the string comparison used for `stringValue` is 0 exactly on equal strings |
| `JavaTypes.CompareStringAntisymmetric` | thrift/src/main/java/com/navercorp/pinpoint/thrift/dto/TIntStringValue.java:296-300 | swapping the strings negates the comparison |
| `JavaTypes.CompareStringIsLexLess` | thrift/src/main/java/com/navercorp/pinpoint/thrift/dto/TIntStringValue.java:296-300 | the comparison is negative exactly when the first string is a proper prefix of the second, or when the first differing code unit is smaller |
| `JavaTypes.CompareStringTransitive` | thrift/src/main/java/com/navercorp/pinpoint/thrift/dto/TIntStringValue.java:296-300 | the string comparison is transitive |
| `FlinkSerializerFactory.New` | thrift/src/main/java/com/navercorp/pinpoint/thrift/io/FlinkHeaderTBaseSerializerFactory.java:29-36 | a null locator throws NullPointerException; otherwise the ownership test and the delegate factory use the given locator |
| `FlinkSerializerFactory.CreateSerializer` | thrift/src/main/java/com/navercorp/pinpoint/thrift/io/FlinkHeaderTBaseSerializerFactory.java:38-41 | the serializer comes from the delegate and is built over the same locator `isSupport` consults |
| `FlinkSerializerFactory.IsSupport` | thrift/src/main/java/com/navercorp/pinpoint/thrift/io/FlinkHeaderTBaseSerializerFactory.java:43-50 | false for null and for every non-`TBase` target, whatever the locator holds; for a `TBase` target, the locator's verdict on its runtime class |
| `FlinkSerializerFactory.AcceptedClassesAreSupported` | thrift/src/main/java/com/navercorp/pinpoint/thrift/io/FlinkHeaderTBaseSerializerFactory.java:44-50 | the classes of accepted targets are `TBase` classes that the locator supports |
| `FlinkSerializerFactory.IsSupportDependsOnlyOnClass` | thrift/src/main/java/com/navercorp/pinpoint/thrift/io/FlinkHeaderTBaseSerializerFactory.java:45-46 | two targets of the same runtime class get the same answer |
| `FlinkSerializerFactory.ScopedLocatorRestricts` | thrift/src/main/java/com/navercorp/pinpoint/thrift/io/FlinkHeaderTBaseSerializerFactory.java:26-46 | a factory over a smaller locator accepts no more than one over a larger locator; what it accepts is exactly what the larger one accepts, restricted to the classes its own locator lists |
| `ResultBridge.ToMessage` | profiler/src/main/java/com/navercorp/pinpoint/profiler/context/grpc/GrpcMessageToResultConverter.java:30-52 | anything but a `ResponseMessage`, null included, gives no match; a parsed payload gives a result whose `isSuccess()` and `getMessage()` are the parsed fields; a parse failure gives IllegalArgumentException carrying the parse error |
| `ResultBridge.ConvertedOnlyFromParsed` | profiler/src/main/java/com/navercorp/pinpoint/profiler/context/grpc/GrpcMessageToResultConverter.java:34-48 | a result is returned iff the payload parses, and the exception is thrown iff it does not; no default result is ever returned |
| `ResultBridge.OutcomeDependsOnlyOnPayload` | profiler/src/main/java/com/navercorp/pinpoint/profiler/context/grpc/GrpcMessageToResultConverter.java:31-35 | for a `ResponseMessage`, the outcome depends only on its payload bytes and on what the parser makes of them |

## Left out

- Byte encodings of the binary, compact and tuple protocols: the wire is a token stream.
  The packing of `writeBitSet`/`readBitSet` is also abstracted: the model's bit set token has exactly the width the reader asks for.
  The real reader reads whole bytes and ignores bits beyond that width.
- Struct and field begin/end markers (`readStructBegin`, `writeFieldEnd` and the like): binary and compact protocols write nothing for most of them, and the generated code never branches on them.
- `TProtocolUtil.skip` of a container or nested struct: such a value is one opaque token, skipped whole.
  Skip depth limits and string length bounds in libthrift are not modelled.
- `hashCode`: it relies on Java `int` overflow and on `TBaseHelper.hashCode`, which is not part of this model.
- `toString` (diagnostic text only) and the Java serialization hooks `writeObject`/`readObject` (stream I/O).
- `metaDataMap`, the `byName` map and `findByName`: static registration tables.
- `findByThriftIdOrThrow`: it is `findByThriftId` followed by a throw on null. `FindByThriftId` models the lookup, and the throw is not modelled separately.
- Null operands of `compareTo` and `equals`: `compareTo(null)` throws NullPointerException at `other.getClass()` (`TFTransaction.java:387`, `TIntStringValue.java:276`), and `equals(null)` returns false. The model has no null struct, so neither case is represented.
- `compareTo` between different classes: its class-name branch cannot occur when both operands have the same struct type.
- `equals(Object)` dispatch on `instanceof`: only `equals` between two instances of the same struct is modelled. The `this == that` shortcut does not change the answer.
- `isSet(null)` (IllegalArgumentException) and the ClassCastException a wrongly typed `setFieldValue` argument would raise: the model's field and value types rule these out.
- The runtime choice between the standard and tuple schemes by protocol class: a caller picks one by calling `WriteStandard`/`ReadStandard` or `WriteTuple`/`ReadTuple`.
- `TypeLocator`, `HeaderTBaseSerializerFactory` and `HeaderTBaseSerializer`: their code is not part of this model.
  The locator is the set of classes it supports, and a serializer is identified by its locator.
- `PResult.parseFrom` is a function parameter. `ResponseMessage` with a null payload is not modelled.
  The text of the IllegalArgumentException message is not modelled either: the exception carries the parse error and the payload.
- `String.compareTo` is modelled on UTF-16 code units, as Java defines it. Strings coming from the wire are taken as already decoded.
- TIntStringValueDto.ReadStandardOfWrite, TIntStringValueDto.StandardRoundTrip, TIntStringValueDto.ReadTupleOfWrite and TIntStringValueDto.TupleRoundTrip: they promise a lossless string round trip for every sequence of UTF-16 code units.
  The program has this only for well-formed UTF-16: `writeString` encodes with UTF-8, which replaces an unpaired surrogate (0xD800-0xDFFF) with `?`.
  The UTF-8 encoding is not modelled, so these four lemmas say more than the program does for such strings.
- A read that fails part-way: both generated readers update the target struct field by field (`TFTransaction.java:523-524`, `:636-637`; `TIntStringValue.java:382-383`, `:457-458`).
  So an exception thrown mid-stream leaves the fields decoded before it set on the target.
  `ReadStandard` and `ReadTuple` return only the error and do not model that partially updated struct.
- Thread safety: every operation here is a pure function.
