/**
 * The computed big-integer backend (`RustBigInt`): the value is held directly
 * and every operation is performed locally.
 */
module BigIntMock {
  import opened Results
  import opened Errors
  import opened IntSpec
  import opened SignedBytes
  import opened Codec

  datatype RustBigInt = RustBigInt(v: int)

  /** The unsigned counterpart, whose own file is not part of this model. */
  datatype RustBigUint = RustBigUint(v: nat)

  /** `From<RustBigUint>`: widening never changes the value. */
  function FromBigUint(u: RustBigUint): (r: RustBigInt)
    ensures r.v >= 0 && r.v == u.v
  {
    RustBigInt(u.v)
  }

  /** `From<i64>` and `From<i32>` (an `i32` is promoted to `i64` first). */
  function FromI64(x: int64): (r: RustBigInt)
    ensures -0x8000_0000_0000_0000 <= r.v < 0x8000_0000_0000_0000
    ensures r.v == x
  {
    RustBigInt(x)
  }

  /** `Clone`: an independent copy of the value. */
  function Clone(x: RustBigInt): (r: RustBigInt)
    ensures r == x
  {
    RustBigInt(x.v)
  }

  /** The by-value operators `a op b` of `binary_operator!`. */
  function Apply(op: BinOp, a: RustBigInt, b: RustBigInt): (r: RustBigInt)
    requires DivisorOk(op, b.v)
    ensures op == Div ==> Abs(r.v) * Abs(b.v) <= Abs(a.v) < (Abs(r.v) + 1) * Abs(b.v)
    ensures op == Rem ==> Abs(r.v) < Abs(b.v) && (r.v == 0 || ((r.v < 0) <==> (a.v < 0)))
    ensures r.v == Eval(op, a.v, b.v)
  {
    match op
    case Add => RustBigInt(a.v + b.v)
    case Sub => RustBigInt(a.v - b.v)
    case Mul => RustBigInt(a.v * b.v)
    case Div => RustBigInt(TDiv(a.v, b.v))
    case Rem => RustBigInt(TRem(a.v, b.v))
  }

  /** The by-reference operators `&a op &b`: both operands are cloned, then combined. */
  function ApplyRef(op: BinOp, a: RustBigInt, b: RustBigInt): (r: RustBigInt)
    requires DivisorOk(op, b.v)
    ensures r == Apply(op, a, b)
  {
    Apply(op, Clone(a), Clone(b))
  }

  /** The in-place operators `x op= y` of `binary_assign_operator!`: the new value of `x`. */
  function ApplyAssign(op: BinOp, x: RustBigInt, y: RustBigInt): (x': RustBigInt)
    requires DivisorOk(op, y.v)
    ensures x' == Apply(op, x, y)
  {
    RustBigInt(Eval(op, x.v, y.v))
  }

  /** `Neg`: the additive inverse. */
  function Neg(x: RustBigInt): (r: RustBigInt)
    ensures r.v + x.v == 0
  {
    RustBigInt(-x.v)
  }

  /** `abs_uint`: the magnitude as an unsigned value. */
  function AbsUint(x: RustBigInt): (r: RustBigUint)
    ensures r.v == x.v || r.v == -x.v
  {
    RustBigUint(Abs(x.v))
  }

  /** `PartialEq`. */
  function Eq(a: RustBigInt, b: RustBigInt): (r: bool)
    ensures r <==> a == b
  {
    a.v == b.v
  }

  /** `Ord::cmp`. */
  function Cmp(a: RustBigInt, b: RustBigInt): (r: Ordering)
    ensures r == Less <==> a.v < b.v
    ensures r == Greater <==> a.v > b.v
  {
    Compare(a.v, b.v)
  }

  /** `PartialEq<i64>`: the scalar is promoted first. */
  function EqI64(a: RustBigInt, other: int64): (r: bool)
    ensures r == Eq(a, FromI64(other))
  {
    a.v == other
  }

  /** `PartialOrd<i64>`: the scalar is promoted first. */
  function CmpI64(a: RustBigInt, other: int64): (r: Ordering)
    ensures r == Cmp(a, FromI64(other))
  {
    Compare(a.v, other)
  }

  /**
   * `sign` as written: num_bigint's `Minus` is mapped to `NoSign`, so a
   * negative value reports no sign and `Minus` is never produced.
   */
  function Sign(x: RustBigInt): (s: IntSpec.Sign)
    ensures s == Plus <==> x.v > 0
    ensures s != Minus
  {
    if x.v < 0 then NoSign
    else if x.v == 0 then NoSign
    else Plus
  }

  /** The evidently intended `sign`: each of num_bigint's three signs kept apart. */
  function SignIntended(x: RustBigInt): (s: IntSpec.Sign)
    ensures s == Plus <==> x.v > 0
    ensures s == NoSign <==> x.v == 0
    ensures s == Minus <==> x.v < 0
  {
    if x.v < 0 then Minus
    else if x.v == 0 then NoSign
    else Plus
  }

  /** The as-written `sign` loses the sign of every negative value. */
  lemma SignCollapsesNegatives(x: RustBigInt)
    ensures Sign(x) == SignIntended(x) <==> x.v >= 0
    ensures Sign(RustBigInt(-1)) == NoSign && SignIntended(RustBigInt(-1)) == Minus
  {
  }

  /** `to_signed_bytes_be`: the canonical signed big-endian bytes. */
  function ToSignedBytes(x: RustBigInt): (b: seq<uint8>)
    ensures Canonical(b)
    ensures FromBytes(b) == x.v
  {
    ToBytesCanonical(x.v);
    RoundTrip(x.v);
    ToBytes(x.v)
  }

  /** `from_signed_bytes_be`: never fails; the empty string is zero. */
  function FromSignedBytes(b: seq<uint8>): (r: RustBigInt)
    ensures Canonical(b) ==> ToSignedBytes(r) == b
    ensures ToSignedBytes(r) == Trim(b)
  {
    TrimCanonical(b);
    CanonicalRoundTrip(Trim(b));
    RustBigInt(FromBytes(b))
  }

  lemma SignedBytesRoundTrip(x: RustBigInt)
    ensures FromSignedBytes(ToSignedBytes(x)) == x
  {
  }

  /** Non-canonical input is accepted: a redundant sign-extension byte is simply absorbed. */
  lemma SignExtendedDecodesAlike(b: seq<uint8>)
    requires RedundantLead(b)
    ensures FromSignedBytes(b) == FromSignedBytes(b[1..])
  {
    SignExtension(b);
  }

  /** `using_top_encoded`: the signed bytes with no length. */
  function TopEncode(x: RustBigInt): (b: seq<uint8>)
    ensures Canonical(b) && FromBytes(b) == x.v
  {
    ToSignedBytes(x)
  }

  /** `top_decode`: the whole input (`flush`) read as signed bytes. */
  function TopDecode(input: seq<uint8>): (r: Result<RustBigInt, DecodeError>)
    ensures r.Success? && r.value.v == FromBytes(input)
    ensures r.Success? && ToSignedBytes(r.value) == Trim(input)
  {
    Success(FromSignedBytes(input))
  }

  /** Top-level decoding inverts top-level encoding. */
  lemma TopRoundTrip(x: RustBigInt)
    ensures TopDecode(TopEncode(x)) == Success(x)
  {
    SignedBytesRoundTrip(x);
  }

  /** The values whose signed bytes can be length-prefixed by a 32-bit `usize`. */
  predicate NestEncodable(x: RustBigInt)
  {
    |ToSignedBytes(x)| < USIZE_BOUND
  }

  /** `dep_encode_to`: the signed bytes in nested form (length prefix, then the bytes). */
  function NestedEncode(x: RustBigInt): (b: seq<uint8>)
    requires NestEncodable(x)
    ensures |b| == 4 + |ToSignedBytes(x)|
    ensures b[4..] == ToSignedBytes(x)
    ensures DecodeUsize(b) == Success((|ToSignedBytes(x)|, ToSignedBytes(x)))
  {
    UsizeRoundTrip(|ToSignedBytes(x)|, ToSignedBytes(x));
    NestedEncodeBytes(ToSignedBytes(x))
  }

  /** `dep_decode`: the size, exactly that many bytes, then those bytes as signed bytes. */
  function NestedDecode(input: seq<uint8>): (r: Result<(RustBigInt, seq<uint8>), DecodeError>)
    ensures r.Failure? <==> NestedDecodeBytes(input).Failure?
    ensures r.Success? ==> |r.value.1| <= |input| - 4
    ensures r.Success? ==>
              var d := NestedDecodeBytes(input).value;
              r.value.1 == d.1 && r.value.0.v == FromBytes(d.0) && ToSignedBytes(r.value.0) == Trim(d.0)
  {
    match NestedDecodeBytes(input)
    case Failure(e) => Failure(e)
    case Success((bytes, rest)) => Success((FromSignedBytes(bytes), rest))
  }

  /** The nested form decodes back to the value and leaves what follows unread. */
  lemma NestedRoundTrip(x: RustBigInt, rest: seq<uint8>)
    requires NestEncodable(x)
    ensures NestedDecode(NestedEncode(x) + rest) == Success((x, rest))
  {
    NestedBytesRoundTrip(ToSignedBytes(x), rest);
    SignedBytesRoundTrip(x);
  }

  /** -300 is 0xFED4 in two bytes; nested, it is preceded by the length 2. */
  lemma MinusThreeHundredEncoding()
    ensures ToSignedBytes(RustBigInt(-300)) == [0xFE, 0xD4]
    ensures NestedEncode(RustBigInt(-300)) == [0, 0, 0, 2, 0xFE, 0xD4]
  {
    assert Digits(-300) == Digits(-2) + [0xD4];
  }
}
