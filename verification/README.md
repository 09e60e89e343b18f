# numbat smart-contract SDK: arguments and big integers

This project models two parts of the numbat smart-contract SDK.

The first part is the endpoint-argument protocol:
- how typed arguments are loaded from the queue of raw arguments a call carries (`ArgType::load`, `DynArgLoader`, `check_no_more_args`);
- the wrappers `VarArgs`, `OptionalArg`, `AsyncCallResult` and `MultiArgN` built on top of loading;
- how typed values are pushed, in order, as the raw arguments of an outgoing asynchronous call (`AsynCallArg::push_async_arg` and `push_async_arg_exact`).

The second part is the two big-integer backends:
- the computed backend `RustBigInt`, which holds an arbitrary-precision value;
- the delegated backend `AndesBigInt`, which holds a handle and asks the host to do every operation.

Both backends implement one contract:
- exact arithmetic, with division and remainder truncating toward zero;
- three-way comparison, including comparison against an `i64`;
- negation and absolute value;
- signed big-endian two's-complement bytes (`to_signed_bytes_be` / `from_signed_bytes_be`);
- the codec's top-level form (the bare bytes) and nested form (a `usize` length prefix, then the bytes).

Modules, one file each:
- `Results`, `Errors`: the result datatypes and the `SCError` cases the core raises.
- `IntSpec`: machine-word ranges, truncating `TDiv`/`TRem` (Dafny's own `/` and `%` are Euclidean), `Sign` and `Ordering`.
- `SignedBytes`: the signed-byte form. `ToBytes` is the shortest encoding, with the empty string for zero. `FromBytes` decodes.
- `Codec`: the `usize` length prefix, nested byte strings, and `i32` at top level.
- `BigIntMock`: the computed backend.
- `Host`: the host's handle store, which stands in for the foreign functions.
- `BigIntNode`: the delegated backend, as functions from store to store.
- `BackendEquivalence`: the two backends compared operation by operation.
- `ArgTypes`: argument loading.
- `ArgSerialize`: argument pushing, and the push-then-load round trips.

For two arguments pushed through `MultiResultN::push_async_arg` (numbat-wasm/src/io/arg_serialize.rs:66-71), each component goes through its own `push_async_arg`. For an `Encode` type that is the top-level encoding (numbat-wasm/src/io/arg_serialize.rs:18-21), with no length prefix. So -300 and 5 travel as the two raw arguments `FE D4` and `05`; see `ArgSerialize.MinusThreeHundredAndFive`.

## Model

| member | source | states |
|---|---|---|
| IntSpec.TDiv | numbat-wasm-node/src/big_int.rs:24 | The quotient rounds toward zero, so its magnitude is the largest m with m times the divisor's magnitude at most the dividend's; and a non-zero quotient is negative exactly when the operands' signs differ. |
| IntSpec.TRem | numbat-wasm-node/src/big_int.rs:25 | The remainder completes the quotient (`TDiv(a,b)·b + r == a`), is smaller than the divisor in magnitude, and is zero or has the dividend's sign. |
| IntSpec.TDivRemUnique | numbat-wasm-debug/src/big_int_mock.rs:76-77 | Any quotient/remainder pair with those properties is the truncating pair, so num_bigint's `/`, `%` and the host's `bigIntTDiv`, `bigIntTMod` are one operation. |
| IntSpec.TruncationDiffersFromEuclid | numbat-wasm-node/src/big_int.rs:24-25 | On -7 and 2 the truncating pair (-3, -1) differs from the Euclidean pair (-4, 1). |
| IntSpec.Compare | numbat-wasm-debug/src/big_int_mock.rs:125-130 | `Less`, `Equal` and `Greater` hold exactly when a < b, a == b and a > b. |
| SignedBytes.RoundTrip | numbat-wasm-debug/src/big_int_mock.rs:192-199 | Decoding the signed bytes of any integer gives the integer back. |
| SignedBytes.ToBytesCanonical | numbat-wasm-debug/src/big_int_mock.rs:192-194 | Every encoding is canonical: empty for zero, otherwise with no redundant leading sign byte. |
| SignedBytes.CanonicalRoundTrip | numbat-wasm-debug/src/big_int_mock.rs:196-199 | Re-encoding the value of a canonical string reproduces the string, so encoding is a bijection onto canonical strings. |
| SignedBytes.SignExtension | numbat-wasm-debug/src/big_int_mock.rs:196-199 | A leading byte that only repeats the sign of the next one does not change the value. |
| SignedBytes.TrimCanonical | numbat-wasm-debug/src/big_int_mock.rs:196-199 | Trimming any string yields a canonical string of the same value, and a string is canonical exactly when trimming leaves it unchanged. |
| SignedBytes.DigitsLength | numbat-wasm-debug/src/big_int_mock.rs:192-194 | A value that fits in n two's-complement bytes is encoded in at most n bytes, as the shortest signed bytes must be. |
| Codec.EncodeUsize | numbat-wasm-debug/src/big_int_mock.rs:159 | The length prefix is exactly four bytes. |
| Codec.DecodeUsize | numbat-wasm-debug/src/big_int_mock.rs:172 | Reading a size fails, with "input too short", exactly when fewer than four bytes remain; on success the input is the prefix's encoding followed by the unread rest. |
| Codec.UsizeRoundTrip | numbat-wasm-debug/src/big_int_mock.rs:172 | Decoding the encoding of any 32-bit size gives the size back and leaves what follows unread. |
| Codec.NestedEncodeBytes | numbat-wasm-debug/src/big_int_mock.rs:159 | The nested form of a byte string is four bytes that read back as its length, followed by exactly the bytes. |
| Codec.NestedDecodeBytes | numbat-wasm-debug/src/big_int_mock.rs:172-173 | A nested byte string reads the size, then exactly that many bytes; a success splits the input into the nested encoding of the bytes and the unread rest; any failure is "input too short". |
| Codec.NestedBytesRoundTrip | numbat-wasm-debug/src/big_int_mock.rs:157-175 | The nested form of a byte string decodes back to it and leaves what follows unread. |
| Codec.NestedBytesShortInput | numbat-wasm-debug/src/big_int_mock.rs:172-173 | Nested decoding fails exactly when there is no 4-byte prefix, or when fewer bytes follow than the prefix announces. |
| Codec.TopEncodeI32 | numbat-wasm/src/io/arg_serialize.rs:18-21 | The top-level form of an `i32`, as the serializer pushes it, is canonical (shortest, and empty for zero), has at most four bytes and decodes to the same number. |
| Codec.TopDecodeI32 | numbat-wasm/src/io/arg_types.rs:186 | Top-level `i32` decoding fails, with "input too long", exactly when more than four bytes are given; otherwise it sign-extends the bytes. |
| Codec.I32RoundTrip | numbat-wasm/src/io/arg_types.rs:186 | Every `i32` survives top-level encoding (as pushed through numbat-wasm/src/io/arg_serialize.rs:18-21) followed by top-level decoding, as the async-result code is loaded. |
| BigIntMock.FromBigUint | numbat-wasm-debug/src/big_int_mock.rs:23-27 | Converting an unsigned value keeps its (non-negative) value. |
| BigIntMock.FromI64 | numbat-wasm-debug/src/big_int_mock.rs:29-39 | Converting an `i64` (or an `i32`, promoted) keeps its value, which lies in the `i64` range. |
| BigIntMock.Clone | numbat-wasm-debug/src/big_int_mock.rs:47-51 | A clone equals the original. |
| BigIntMock.Apply | numbat-wasm-debug/src/big_int_mock.rs:53-61 | Each by-value operator gives the exact sum, difference or product, or the truncating quotient or remainder, with the quotient and remainder bounds restated on the result. |
| BigIntMock.ApplyRef | numbat-wasm-debug/src/big_int_mock.rs:63-69 | The by-reference operators, which clone both operands, agree with the by-value ones. |
| BigIntMock.ApplyAssign | numbat-wasm-debug/src/big_int_mock.rs:79-99 | `x op= y` leaves in `x` the value `x op y` would produce. |
| BigIntMock.Neg | numbat-wasm-debug/src/big_int_mock.rs:101-107 | The negation is the additive inverse. |
| BigIntMock.AbsUint | numbat-wasm-debug/src/big_int_mock.rs:180-182 | The unsigned magnitude is the value or its negation. |
| BigIntMock.Eq | numbat-wasm-debug/src/big_int_mock.rs:109-114 | Equality holds exactly for equal values. |
| BigIntMock.Cmp | numbat-wasm-debug/src/big_int_mock.rs:118-130 | `Less` and `Greater` hold exactly when the first value is below or above the second. |
| BigIntMock.EqI64 | numbat-wasm-debug/src/big_int_mock.rs:132-137 | Equality with an `i64` is equality with the promoted scalar. |
| BigIntMock.CmpI64 | numbat-wasm-debug/src/big_int_mock.rs:139-144 | Ordering against an `i64` is ordering against the promoted scalar. |
| BigIntMock.Sign | numbat-wasm-debug/src/big_int_mock.rs:184-190 | As written: `Plus` exactly for positive values, and `Minus` never; negative values report `NoSign`. |
| BigIntMock.SignIntended | numbat-wasm-debug/src/big_int_mock.rs:184-190 | The three signs each hold exactly for positive, zero and negative values. |
| BigIntMock.SignCollapsesNegatives | numbat-wasm-debug/src/big_int_mock.rs:184-190 | The written and the intended `sign` agree exactly on non-negative values; at -1 they give `NoSign` and `Minus`. |
| BigIntMock.ToSignedBytes | numbat-wasm-debug/src/big_int_mock.rs:192-194 | The signed bytes are canonical and decode to the value. |
| BigIntMock.FromSignedBytes | numbat-wasm-debug/src/big_int_mock.rs:196-199 | Decoding never fails and accepts any string. Re-encoding the result gives the canonical form of the input (`Trim`): sign-extension bytes dropped, zero as the empty string. So a canonical string comes back unchanged. |
| BigIntMock.SignedBytesRoundTrip | numbat-wasm-debug/src/big_int_mock.rs:192-199 | Decoding the signed bytes of a value gives the value back. |
| BigIntMock.SignExtendedDecodesAlike | numbat-wasm-debug/src/big_int_mock.rs:196-199 | Decoding accepts non-canonical input: a string and the same string without its redundant sign-extension byte decode to the same value. |
| BigIntMock.TopEncode | numbat-wasm-debug/src/big_int_mock.rs:151-155 | The top-level form is the canonical signed bytes of the value, with no length. |
| BigIntMock.TopDecode | numbat-wasm-debug/src/big_int_mock.rs:166-169 | Top-level decoding never fails: the value is that of the whole input, and it re-encodes to the input's canonical form. |
| BigIntMock.TopRoundTrip | numbat-wasm-debug/src/big_int_mock.rs:151-169 | Top-level decoding inverts top-level encoding. |
| BigIntMock.NestedEncode | numbat-wasm-debug/src/big_int_mock.rs:157-160 | The nested form is a 4-byte prefix followed by exactly the signed bytes, and the prefix reads back as their length. |
| BigIntMock.NestedDecode | numbat-wasm-debug/src/big_int_mock.rs:171-175 | Nested decoding fails exactly when the nested byte string cannot be read. On success the value is that of the nested bytes, the unread rest is what follows them, and at least the prefix was consumed. |
| BigIntMock.NestedRoundTrip | numbat-wasm-debug/src/big_int_mock.rs:157-175 | The nested form decodes back to the value and leaves what follows unread. |
| BigIntMock.MinusThreeHundredEncoding | numbat-wasm-debug/src/big_int_mock.rs:151-160 | -300 is `FE D4` at top level and `00 00 00 02 FE D4` nested. |
| Host.BigIntNew | numbat-wasm-node/src/big_int.rs:15 | `bigIntNew` hands out a handle not in use before, holding the value, and adds nothing else. |
| BigIntNode.FromI64 | numbat-wasm-node/src/big_int.rs:44-66 | `From<i64>` and `from_i64` add exactly one fresh handle, holding the value. |
| BigIntNode.FromI32 | numbat-wasm-node/src/big_int.rs:52-58 | `From<i32>` adds exactly one fresh handle, holding the widened value. |
| BigIntNode.FromBigUint | numbat-wasm-node/src/big_int.rs:37-42 | The conversion reuses the unsigned value's handle. |
| BigIntNode.FromBigUintAliases | numbat-wasm-node/src/big_int.rs:37-42 | Because the handle is shared, an in-place operation on the converted value changes the unsigned value too. |
| BigIntNode.Clone | numbat-wasm-node/src/big_int.rs:68-76 | A clone adds exactly one fresh handle, holding the original's value; it is a different handle. |
| BigIntNode.Apply | numbat-wasm-node/src/big_int.rs:78-110 | Each operator, by value or by reference, adds exactly one fresh handle holding `a op b` and leaves every other handle unchanged. |
| BigIntNode.ApplyAssign | numbat-wasm-node/src/big_int.rs:112-138 | `self op= other` writes `self op other` into `self`'s handle; no handle is added and every other handle keeps its value. |
| BigIntNode.Eq | numbat-wasm-node/src/big_int.rs:140-146 | Equality holds exactly when the two handles hold equal values. |
| BigIntNode.Cmp | numbat-wasm-node/src/big_int.rs:150-163 | `Less` and `Greater` hold exactly when the first value is below or above the second. |
| BigIntNode.CmpI64Code | numbat-wasm-node/src/big_int.rs:165-173 | The result code orders like the value against the scalar. A zero scalar allocates nothing; any other scalar allocates one handle holding it. |
| BigIntNode.EqI64 | numbat-wasm-node/src/big_int.rs:175-180 | Equality with an `i64` holds exactly for equal values; the store changes as for the comparison code. |
| BigIntNode.CmpI64 | numbat-wasm-node/src/big_int.rs:182-188 | Ordering against an `i64` is the ordering of the values; the store changes as for the comparison code. |
| BigIntNode.Neg | numbat-wasm-node/src/big_int.rs:190-200 | Negation adds exactly one fresh handle, holding the additive inverse. |
| BigIntNode.AbsUint | numbat-wasm-node/src/big_int.rs:237-243 | `abs_uint` adds exactly one fresh handle, holding the magnitude. |
| BigIntNode.Sign | numbat-wasm-node/src/big_int.rs:245-254 | `Plus`, `NoSign` and `Minus` hold exactly for positive, zero and negative values. |
| BigIntNode.ToSignedBytes | numbat-wasm-node/src/big_int.rs:256-263 | The bytes the host fills in are canonical and decode to the handle's value. |
| BigIntNode.FromSignedBytes | numbat-wasm-node/src/big_int.rs:265-271 | Decoding adds exactly one fresh handle, holding the value of the bytes. |
| BigIntNode.TopEncode | numbat-wasm-node/src/big_int.rs:207-211 | The top-level form is the canonical signed bytes of the value the handle holds, with no length. |
| BigIntNode.TopDecode | numbat-wasm-node/src/big_int.rs:223-226 | Top-level decoding never fails and adds exactly one fresh handle, holding the value of the whole input; every other handle keeps its value. |
| BigIntNode.TopRoundTrip | numbat-wasm-node/src/big_int.rs:207-226 | Top-level decoding of a value's encoding succeeds, in any store, with a fresh handle holding that value. |
| BigIntNode.NestedEncode | numbat-wasm-node/src/big_int.rs:213-217 | The nested form is a 4-byte prefix followed by exactly the signed bytes, and the prefix reads back as their length. |
| BigIntNode.NestedDecode | numbat-wasm-node/src/big_int.rs:228-232 | Nested decoding fails exactly when the nested byte string cannot be read. A success adds exactly one fresh handle, holding the value of the nested bytes, and returns what follows them as the unread rest. |
| BigIntNode.NestedRoundTrip | numbat-wasm-node/src/big_int.rs:213-232 | The nested form decodes, in any store, to a fresh handle holding the value, and leaves what follows unread. |
| BackendEquivalence.ApplyAgrees | numbat-wasm-node/src/big_int.rs:78-110 | For every operator, the delegated result holds the value the computed backend produces. |
| BackendEquivalence.ApplyAssignAgrees | numbat-wasm-node/src/big_int.rs:112-138 | The in-place operators agree between backends, and the operand keeps its value. |
| BackendEquivalence.CloneAgrees | numbat-wasm-node/src/big_int.rs:68-76 | The delegated clone holds the computed clone, and the original keeps its value. |
| BackendEquivalence.NegAbsAgree | numbat-wasm-node/src/big_int.rs:190-200 | Negation and `abs_uint` agree between backends. |
| BackendEquivalence.ComparisonsAgree | numbat-wasm-node/src/big_int.rs:140-188 | `eq`, `cmp`, and their `i64` variants give the same answers in both backends. |
| BackendEquivalence.CmpI64PathsAgree | numbat-wasm-node/src/big_int.rs:165-173 | The sign-code shortcut for a zero scalar and the allocate-and-compare path both give the ordering against the promoted scalar. |
| BackendEquivalence.EncodingsAgree | numbat-wasm-node/src/big_int.rs:204-218 | The top-level and nested encodings are byte-for-byte equal between backends. |
| BackendEquivalence.DecodingsAgree | numbat-wasm-node/src/big_int.rs:220-233 | Decoding the same bytes gives the same value in both backends, and nested decoding fails on the same inputs. |
| BackendEquivalence.MachineWordsAgree | numbat-wasm-node/src/big_int.rs:44-110 | Two `i64` literals combined by any operator give identical signed bytes in either backend. |
| BackendEquivalence.SignAgreesIffNonNegative | numbat-wasm-debug/src/big_int_mock.rs:184-190 | The two backends' `sign` agree exactly on non-negative values. |
| BackendEquivalence.SignDivergesOnMinusOne | numbat-wasm-debug/src/big_int_mock.rs:186 | At -1 the delegated backend says `Minus` and the computed one `NoSign`. |
| BackendEquivalence.SignIntendedAgrees | numbat-wasm-node/src/big_int.rs:245-254 | The corrected computed `sign` agrees with the delegated one on every value. |
| ArgTypes.DecodeArg | numbat-wasm/src/io/arg_types.rs:44-48 | Decoding a raw argument. A byte vector is the bytes themselves. An `i32` succeeds exactly on at most four bytes, with the value of those bytes; longer input fails with "input too long". A big integer is the value of its signed bytes, and canonical bytes re-encode to themselves. |
| ArgTypes.NextArg | numbat-wasm/src/io/arg_types.rs:14 | `next_arg` reports no argument exactly on an empty queue, and otherwise pops exactly one. |
| ArgTypes.LoadDecode | numbat-wasm/src/io/arg_types.rs:49-61 | The unit type loads without touching the queue. Any other type fails with a wrong argument count on an empty queue, otherwise succeeds exactly when the next argument decodes, consuming exactly it; `next_arg`'s error passes through unchanged. |
| ArgTypes.UnitElementMakesNoProgress | numbat-wasm/src/io/arg_types.rs:50-54 | Loading the unit type leaves a non-empty queue as it was, so `VarArgs` of the unit type is not well formed. |
| ArgTypes.NoProgressLoopsForever | numbat-wasm/src/io/arg_types.rs:124-130 | A well-formed type that does not advance loads successfully and leaves the queue as it was. The `while has_next` loop of `VarArgs` over it would never end, and exactly these elements are not well formed. |
| ArgTypes.PartsStandStill | numbat-wasm/src/io/arg_types.rs:210-216 | Tuple components none of which advances load successfully and take nothing from the queue. |
| ArgTypes.NestedListsAreWellFormed | numbat-wasm/src/io/arg_types.rs:124-130 | Lists of optional `i32` and lists of lists of `i32` are loadable; a list of optional unit values is not. |
| ArgTypes.Load | numbat-wasm/src/io/arg_types.rs:17-19 | Every load takes a prefix of the queue. On a non-empty queue, a type that advances takes at least one argument. |
| ArgTypes.CheckNoMoreArgs | numbat-wasm/src/io/arg_types.rs:34-42 | `check_no_more_args` fails, with a wrong argument count, exactly when arguments remain. |
| ArgTypes.LoadVarArgs | numbat-wasm/src/io/arg_types.rs:124-130 | An empty queue gives the empty list; a success exhausts the queue. |
| ArgTypes.VarArgsLoadsAll | numbat-wasm/src/io/arg_types.rs:124-130 | `VarArgs` of a `Decode` type succeeds exactly when every remaining argument decodes; it then holds all of them, decoded in order, and the queue is empty. |
| ArgTypes.VarArgsFailsAtFirstBad | numbat-wasm/src/io/arg_types.rs:126-127 | A failing `VarArgs` load reports the decode error of the first argument that does not decode; all earlier arguments decoded. |
| ArgTypes.LoadOptional | numbat-wasm/src/io/arg_types.rs:161-167 | An empty queue gives `None` and consumes nothing; otherwise the result is `Some` of the element's load, or its error. |
| ArgTypes.OptionalLoadsOne | numbat-wasm/src/io/arg_types.rs:161-167 | With arguments left, an optional `Decode` type takes exactly the next argument. |
| ArgTypes.LoadAsyncResult | numbat-wasm/src/io/arg_types.rs:185-197 | The `i32` code is loaded first and its failure is the result's failure; a success consumes at least one argument and is `Ok`, or `Err` with a non-zero code. |
| ArgTypes.AsyncResultSuccess | numbat-wasm/src/io/arg_types.rs:186-189 | A code of 0 loads the payload from the arguments after it. |
| ArgTypes.AsyncResultError | numbat-wasm/src/io/arg_types.rs:190-196 | A non-zero code loads the next argument's bytes as the message and keeps the code. |
| ArgTypes.LoadMulti | numbat-wasm/src/io/arg_types.rs:210-216 | A tuple load yields one component per declared type and takes a prefix of the queue. On a non-empty queue, a tuple with an advancing component takes at least one argument. |
| ArgTypes.LoadParts | numbat-wasm/src/io/arg_types.rs:213 | Loading the remaining components yields one value per component and takes a prefix of the queue. On a non-empty queue it takes at least one argument when one of them advances. |
| ArgTypes.LoadPartsInOrder | numbat-wasm/src/io/arg_types.rs:210-216 | Loading components of `Decode` types succeeds exactly when enough arguments remain and each decodes as its component; they load in order and nothing more is taken. |
| ArgTypes.LoadPartsFailsAtFirstBad | numbat-wasm/src/io/arg_types.rs:213 | A failing component load reports the first component whose argument is missing (wrong argument count) or does not decode (its decode error). |
| ArgTypes.MultiFailsAtFirstBad | numbat-wasm/src/io/arg_types.rs:210-216 | A failing `MultiArgN` load reports the error of its first bad component; every earlier component decoded. |
| ArgTypes.MultiLoadsInOrder | numbat-wasm/src/io/arg_types.rs:210-216 | `MultiArgN` of `Decode` types succeeds exactly when the first N arguments decode as the N components; it then holds them in order and leaves the rest. |
| ArgTypes.TupleThenCheck | numbat-wasm/src/io/arg_types.rs:34-42 | After a successful tuple load, `check_no_more_args` passes exactly when the call supplied exactly N arguments. |
| ArgSerialize.TopEncoded | numbat-wasm/src/io/arg_serialize.rs:18-21 | The raw argument of an `Encode` value: no bytes for the unit type, a byte vector itself, and for `i32` and big integers the canonical signed bytes of the number. Only a foreign `Encode` type can fail. |
| ArgSerialize.PushEncoded | numbat-wasm/src/io/arg_serialize.rs:13-23 | An `Encode` value is pushed as one raw argument, its top-level encoding. An encoding failure is reported as a push-encode error and pushes nothing. |
| ArgSerialize.PushAsyncArg | numbat-wasm/src/io/arg_serialize.rs:8-71 | A push only appends to the serializer, and an absent optional value pushes nothing. |
| ArgSerialize.PushElems | numbat-wasm/src/io/arg_serialize.rs:29-34 | Pushing list or tuple elements only appends to the serializer. |
| ArgSerialize.OptionalPushesContent | numbat-wasm/src/io/arg_serialize.rs:50-55 | Pushing a present optional value is pushing its content. |
| ArgSerialize.PushAsyncArgExact | numbat-wasm/src/io/arg_serialize.rs:8-42 | Every type except `VarArgs` answers "not supported" (the default at lines 8-10) and pushes nothing. A `VarArgs` of the wrong length answers a wrong asynchronous argument count and pushes nothing; one of the right length pushes as `push_async_arg` does. |
| ArgSerialize.PushIsAppend | numbat-wasm/src/io/arg_serialize.rs:25-55 | Pushing onto a serializer appends what pushing onto an empty one would produce, with the same outcome. |
| ArgSerialize.PushElemsIsAppend | numbat-wasm/src/io/arg_serialize.rs:29-34 | The same independence of what was pushed before, for lists and tuples. |
| ArgSerialize.PushElemsInOrder | numbat-wasm/src/io/arg_serialize.rs:29-34 | A list or tuple of encodable elements pushes exactly their encodings, one raw argument each, in order. |
| ArgSerialize.PushElemsStopsAtFirstFailure | numbat-wasm/src/io/arg_serialize.rs:30-32 | A list push stops at the first element that fails to encode: earlier elements stay pushed and that element's error is reported. |
| ArgSerialize.PushExactOutcome | numbat-wasm/src/io/arg_serialize.rs:36-42 | An arity-checked list push succeeds exactly when the length matches; it then appends all encodings, and otherwise leaves the serializer as it was. |
| ArgSerialize.ScalarRoundTrip | numbat-wasm/src/io/arg_serialize.rs:18-21 | A raw argument pushed from an `i32`, byte vector or big integer decodes back to it. |
| ArgSerialize.TupleRoundTrip | numbat-wasm/src/io/arg_serialize.rs:66-71 | A tuple pushed by `MultiResultN` loads back through `MultiArgN` of the matching types, leaving later arguments unread. |
| ArgSerialize.VarArgsRoundTrip | numbat-wasm/src/io/arg_serialize.rs:29-34 | A list pushed by `VarArgs` loads back, element by element, through `VarArgs` of its element type. |
| ArgSerialize.MinusThreeHundredAndFive | numbat-wasm/src/io/arg_serialize.rs:66-71 | The pair (-300, 5) is pushed as the raw arguments `FE D4` and `05`, and loads back unchanged. |

## Left out

- The host's foreign functions (`bigIntNew`, `bigIntAdd`, …) are not executed code here. `Host` replaces each with a function over an explicit store. Their semantics, exact integer arithmetic and the canonical signed bytes, are assumptions.
- The layout of the `numbat_codec` crate is not part of this model. Two conventions are assumed: a `usize` is four big-endian bytes, and an `i32` at top level is its shortest signed bytes, with more than four bytes rejected.
- The empty string is taken as the encoding of zero. num_bigint's own choice for zero is not part of this model; both the empty string and `[0]` decode to zero.
- `SCError` and the error-message constants are not part of this model. They appear as the datatype cases `Static(ArgWrongNumber)`, `Static(ArgAsyncWrongNumber)`, `Static(NotSupported)`, `ArgDecodeErr` and `PushAsyncEncodeErr`.
- `load_dyn_arg` and `DynArgErrHandler` are not modelled: what the handler does with an error (it aborts the call) lies outside the core. The model returns the error instead.
- The unsafe `transmute_copy` that produces the unit value, and the `into_tuple`/`into_vec` accessors, are not modelled because they carry no logic.
- The `MultiArg2`..`MultiArg16` and `MultiResult1`..`MultiResult16` macro families are one arity-indexed case each (`MultiArgKind`, `MultiValue`).
- `CallDataSerializer` is modelled only as the sequence of raw arguments pushed; its byte-level call-data format is not modelled.
- Types that implement `Encode` beyond the unit type, `i32`, byte vectors and big integers appear only as the outcome of their top-level encoding (`EncodedValue`).
- `ArgTypes.DecodeArg`: the `Decode` types loaded are the unit type, `i32`, byte vectors and big integers only. Other `Decode` types have no load counterpart, so a pushed `EncodedValue` is not loaded back.
- Handles are unbounded integers: the `i32` handle space, its exhaustion and its wrap-around are not modelled. Handles are never reclaimed, as in the source.
- `BigIntNode.ToSignedBytes`: the zero-filled buffer and the host writing into it through `as_mut_ptr` are represented by the bytes the host reports.
- `BigIntNode.FromSignedBytes`: the slice length reaches the host as `bytes.len() as i32` (numbat-wasm-node/src/big_int.rs:268), and `to_signed_bytes_be` widens the host's `i32` length with `as usize` (numbat-wasm-node/src/big_int.rs:258-259). A length of 2^31 bytes or more would wrap to a negative number there. The model decodes and encodes strings of every length.
- Loading a big-integer argument in the delegated build allocates a fresh handle: `next_arg` (numbat-wasm/src/io/arg_types.rs:56) decodes through `top_decode` and `from_signed_bytes_be` (numbat-wasm-node/src/big_int.rs:223-225, 265-270). `ArgTypes` carries only the decoded value (`BigIntValue`) and no store, so that allocation is not part of argument loading here. `BigIntNode.TopDecode` states it on its own.
- `BigIntMock.Apply`: division and remainder by zero are a precondition, because num_bigint panics and the host's behaviour is not known. The same holds for `BigIntNode.Apply` and `BigIntNode.ApplyAssign`.
- `ArgTypes.Load`: loading is defined only for well-formed argument types. Well formed means every `VarArgs` element advances and a tuple has 2 to 16 components. An element advances when it takes an argument from a non-empty queue. The elements excluded are exactly those that load successfully without taking anything. `VarArgs` over one of those loops forever in the source as soon as an argument is present; see `ArgTypes.NoProgressLoopsForever`. On an empty queue such a `VarArgs` would end at once with an empty list, and the model does not cover that case.
- `ArgTypes.LoadVarArgs`: carries the same well-formedness requirement as `ArgTypes.Load`, for the same reason.
- `ArgSerialize.TupleRoundTrip`: proved for tuples whose components are `i32`, byte vectors or big integers. Nested wrappers are not covered by the round trip.
- `ArgSerialize.VarArgsRoundTrip`: proved for lists of `i32`, byte vectors or big integers only.
- The unsigned types `RustBigUint` and `AndesBigUint` appear only as results of `abs_uint` and as sources of conversions; their own files are not part of this model.

## Findings

| source | as written | input that shows it | evidently intended | confidence | as-written member | corrected member |
|---|---|---|---|---|---|---|
| numbat-wasm-debug/src/big_int_mock.rs:186 | num_bigint's `Minus` is mapped to `NoSign`, so the computed backend never reports a negative sign | -1: the computed backend gives `NoSign`, the delegated backend `Minus` | `Minus` maps to `Minus`, as in numbat-wasm-node/src/big_int.rs:251 | not executed; the divergence is proved from the code as written | BigIntMock.Sign, BackendEquivalence.SignDivergesOnMinusOne | BigIntMock.SignIntended, BackendEquivalence.SignIntendedAgrees |
