/**
 * The delegated big-integer backend (`AndesBigInt`): a value is a handle into
 * the host store, and every operation is a request to the host.
 */
module BigIntNode {
  import opened Results
  import opened Errors
  import opened IntSpec
  import opened SignedBytes
  import opened Codec
  import opened Host

  datatype AndesBigInt = AndesBigInt(handle: Handle)

  /** The unsigned counterpart, whose own file is not part of this model. */
  datatype AndesBigUint = AndesBigUint(handle: Handle)

  /** The value a call returns together with the host store after the call. */
  datatype Alloc<+T> = Alloc(store: Store, val: T)

  predicate Live(s: Store, x: AndesBigInt)
  {
    x.handle in s.values
  }

  function Value(s: Store, x: AndesBigInt): int
    requires Live(s, x)
  {
    s.values[x.handle]
  }

  /** s' differs from s only by the handle h, unknown in s, which holds v. */
  predicate FreshlyAllocated(s: Store, s': Store, h: Handle, v: int)
  {
    && s'.Valid()
    && h !in s.values
    && s'.values == s.values[h := v]
  }

  /** Allocates a zero-valued handle as every value-producing operation does first. */
  function NewZero(s: Store): (r: NewHandle)
    requires s.Valid()
    ensures FreshlyAllocated(s, r.store, r.handle, 0)
  {
    BigIntNew(s, 0)
  }

  /** `From<i64>` and `from_i64`: a fresh handle holding the value. */
  function FromI64(s: Store, x: int64): (r: Alloc<AndesBigInt>)
    requires s.Valid()
    ensures FreshlyAllocated(s, r.store, r.val.handle, x)
  {
    var n := BigIntNew(s, x);
    Alloc(n.store, AndesBigInt(n.handle))
  }

  /** `From<i32>`: the value is widened to `i64` and allocated. */
  function FromI32(s: Store, x: int32): (r: Alloc<AndesBigInt>)
    requires s.Valid()
    ensures FreshlyAllocated(s, r.store, r.val.handle, x)
  {
    FromI64(s, x)
  }

  /** `From<AndesBigUint>`: the unsigned value's handle is reused, so both denote one host value. */
  function FromBigUint(u: AndesBigUint): (r: AndesBigInt)
    ensures r.handle == u.handle
  {
    AndesBigInt(u.handle)
  }

  /** `Clone`: a fresh zero handle to which the source is added. */
  function Clone(s: Store, x: AndesBigInt): (r: Alloc<AndesBigInt>)
    requires s.Valid() && Live(s, x)
    ensures FreshlyAllocated(s, r.store, r.val.handle, Value(s, x))
    ensures r.val != x
  {
    var n := NewZero(s);
    var s' := BigIntBinary(n.store, Add, n.handle, n.handle, x.handle);
    Alloc(s', AndesBigInt(n.handle))
  }

  /**
   * The operators of `binary_operator!`, by value and by reference alike:
   * a fresh zero handle receives `a op b`; the operands are left as they were.
   */
  function Apply(s: Store, op: BinOp, a: AndesBigInt, b: AndesBigInt): (r: Alloc<AndesBigInt>)
    requires s.Valid() && Live(s, a) && Live(s, b)
    requires DivisorOk(op, Value(s, b))
    ensures FreshlyAllocated(s, r.store, r.val.handle, Eval(op, Value(s, a), Value(s, b)))
  {
    var n := NewZero(s);
    var s' := BigIntBinary(n.store, op, n.handle, a.handle, b.handle);
    Alloc(s', AndesBigInt(n.handle))
  }

  /** The in-place operators of `binary_assign_operator!`: only `self`'s handle changes. */
  function ApplyAssign(s: Store, op: BinOp, self: AndesBigInt, other: AndesBigInt): (s': Store)
    requires s.Valid() && Live(s, self) && Live(s, other)
    requires DivisorOk(op, Value(s, other))
    ensures s'.Valid() && s'.next == s.next
    ensures s'.values.Keys == s.values.Keys
    ensures Value(s', self) == Eval(op, Value(s, self), Value(s, other))
    ensures forall h :: h in s.values && h != self.handle ==> s'.values[h] == s.values[h]
  {
    BigIntBinary(s, op, self.handle, self.handle, other.handle)
  }

  /** An in-place operation on a value converted from an unsigned one is visible through both. */
  lemma FromBigUintAliases(s: Store, u: AndesBigUint, op: BinOp, other: AndesBigInt)
    requires s.Valid() && u.handle in s.values && Live(s, other)
    requires DivisorOk(op, Value(s, other))
    ensures var s' := ApplyAssign(s, op, FromBigUint(u), other);
            s'.values[u.handle] == Eval(op, s.values[u.handle], Value(s, other))
  {
  }

  /** `PartialEq`: equal exactly when the host comparison reports 0. */
  function Eq(s: Store, a: AndesBigInt, b: AndesBigInt): (r: bool)
    requires Live(s, a) && Live(s, b)
    ensures r <==> Value(s, a) == Value(s, b)
  {
    BigIntCmp(s, a.handle, b.handle) == 0
  }

  /** `Ord::cmp`: the host comparison code against zero. */
  function Cmp(s: Store, a: AndesBigInt, b: AndesBigInt): (r: Ordering)
    requires Live(s, a) && Live(s, b)
    ensures r == Less <==> Value(s, a) < Value(s, b)
    ensures r == Greater <==> Value(s, a) > Value(s, b)
  {
    OrderingOfCode(BigIntCmp(s, a.handle, b.handle))
  }

  /**
   * `andes_cmp_i64`: a zero scalar is answered by `bigIntSign` without
   * allocating; any other scalar is allocated and compared.
   */
  function CmpI64Code(s: Store, bi: AndesBigInt, other: int64): (r: Alloc<int>)
    requires s.Valid() && Live(s, bi)
    ensures Compare(r.val, 0) == Compare(Value(s, bi), other)
    ensures other == 0 ==> r.store == s
    ensures other != 0 ==> FreshlyAllocated(s, r.store, s.next, other)
  {
    if other == 0 then
      Alloc(s, BigIntSign(s, bi.handle))
    else
      var n := BigIntNew(s, other);
      Alloc(n.store, BigIntCmp(n.store, bi.handle, n.handle))
  }

  /** `PartialEq<i64>`. */
  function EqI64(s: Store, a: AndesBigInt, other: int64): (r: Alloc<bool>)
    requires s.Valid() && Live(s, a)
    ensures r.val <==> Value(s, a) == other
    ensures r.store == CmpI64Code(s, a, other).store
  {
    var c := CmpI64Code(s, a, other);
    Alloc(c.store, c.val == 0)
  }

  /** `PartialOrd<i64>`. */
  function CmpI64(s: Store, a: AndesBigInt, other: int64): (r: Alloc<Ordering>)
    requires s.Valid() && Live(s, a)
    ensures r.val == Less <==> Value(s, a) < other
    ensures r.val == Greater <==> Value(s, a) > other
    ensures r.store == CmpI64Code(s, a, other).store
  {
    var c := CmpI64Code(s, a, other);
    Alloc(c.store, OrderingOfCode(c.val))
  }

  /** `Neg`: a fresh handle holding the additive inverse. */
  function Neg(s: Store, x: AndesBigInt): (r: Alloc<AndesBigInt>)
    requires s.Valid() && Live(s, x)
    ensures FreshlyAllocated(s, r.store, r.val.handle, -Value(s, x))
  {
    var n := NewZero(s);
    Alloc(BigIntNeg(n.store, n.handle, x.handle), AndesBigInt(n.handle))
  }

  /** `abs_uint`: a fresh handle holding the magnitude. */
  function AbsUint(s: Store, x: AndesBigInt): (r: Alloc<AndesBigUint>)
    requires s.Valid() && Live(s, x)
    ensures FreshlyAllocated(s, r.store, r.val.handle, Abs(Value(s, x)))
  {
    var n := NewZero(s);
    Alloc(BigIntAbs(n.store, n.handle, x.handle), AndesBigUint(n.handle))
  }

  /** `sign`: the host's sign code mapped to all three signs. */
  function Sign(s: Store, x: AndesBigInt): (r: IntSpec.Sign)
    requires Live(s, x)
    ensures r == Plus <==> Value(s, x) > 0
    ensures r == NoSign <==> Value(s, x) == 0
    ensures r == Minus <==> Value(s, x) < 0
  {
    match OrderingOfCode(BigIntSign(s, x.handle))
    case Greater => Plus
    case Equal => NoSign
    case Less => Minus
  }

  /** `to_signed_bytes_be`: a buffer of the reported length, filled by the host. */
  function ToSignedBytes(s: Store, x: AndesBigInt): (b: seq<uint8>)
    requires Live(s, x)
    ensures Canonical(b)
    ensures FromBytes(b) == Value(s, x)
  {
    var len := BigIntSignedByteLength(s, x.handle);
    var bytes := BigIntGetSignedBytes(s, x.handle);
    assert |bytes| == len;
    ToBytesCanonical(Value(s, x));
    RoundTrip(Value(s, x));
    bytes
  }

  /** `from_signed_bytes_be`: a fresh zero handle set from the bytes. */
  function FromSignedBytes(s: Store, bytes: seq<uint8>): (r: Alloc<AndesBigInt>)
    requires s.Valid()
    ensures FreshlyAllocated(s, r.store, r.val.handle, FromBytes(bytes))
  {
    var n := NewZero(s);
    Alloc(BigIntSetSignedBytes(n.store, n.handle, bytes), AndesBigInt(n.handle))
  }

  /** `using_top_encoded`: the signed bytes with no length. */
  function TopEncode(s: Store, x: AndesBigInt): (b: seq<uint8>)
    requires Live(s, x)
    ensures Canonical(b) && FromBytes(b) == Value(s, x)
  {
    ToSignedBytes(s, x)
  }

  /** `top_decode`: the whole input read as signed bytes into a fresh handle. */
  function TopDecode(s: Store, input: seq<uint8>): (r: Result<Alloc<AndesBigInt>, DecodeError>)
    requires s.Valid()
    ensures r.Success? && FreshlyAllocated(s, r.value.store, r.value.val.handle, FromBytes(input))
  {
    Success(FromSignedBytes(s, input))
  }

  /** Top-level decoding yields a fresh handle with the encoded value. */
  lemma TopRoundTrip(s: Store, x: AndesBigInt, t: Store)
    requires Live(s, x) && t.Valid()
    ensures var r := TopDecode(t, TopEncode(s, x));
            r.Success? && FreshlyAllocated(t, r.value.store, r.value.val.handle, Value(s, x))
  {
  }

  /** `dep_encode_to`: the signed bytes in nested form. */
  function NestedEncode(s: Store, x: AndesBigInt): (b: seq<uint8>)
    requires Live(s, x) && |ToSignedBytes(s, x)| < USIZE_BOUND
    ensures |b| == 4 + |ToSignedBytes(s, x)|
    ensures b[4..] == ToSignedBytes(s, x)
    ensures DecodeUsize(b) == Success((|ToSignedBytes(s, x)|, ToSignedBytes(s, x)))
  {
    UsizeRoundTrip(|ToSignedBytes(s, x)|, ToSignedBytes(s, x));
    NestedEncodeBytes(ToSignedBytes(s, x))
  }

  /** `dep_decode`: the size, exactly that many bytes, then those bytes into a fresh handle. */
  function NestedDecode(s: Store, input: seq<uint8>): (r: Result<Alloc<(AndesBigInt, seq<uint8>)>, DecodeError>)
    requires s.Valid()
    ensures r.Failure? <==> NestedDecodeBytes(input).Failure?
    ensures r.Success? ==> r.value.store.values.Keys == s.values.Keys + {r.value.val.0.handle}
    ensures r.Success? ==>
              var d := NestedDecodeBytes(input).value;
              r.value.val.1 == d.1 && FreshlyAllocated(s, r.value.store, r.value.val.0.handle, FromBytes(d.0))
  {
    match NestedDecodeBytes(input)
    case Failure(e) => Failure(e)
    case Success((bytes, rest)) =>
      var a := FromSignedBytes(s, bytes);
      Success(Alloc(a.store, (a.val, rest)))
  }

  /** The nested form decodes into a fresh handle with the value and leaves what follows unread. */
  lemma NestedRoundTrip(s: Store, x: AndesBigInt, t: Store, rest: seq<uint8>)
    requires Live(s, x) && |ToSignedBytes(s, x)| < USIZE_BOUND && t.Valid()
    ensures var r := NestedDecode(t, NestedEncode(s, x) + rest);
            && r.Success?
            && r.value.val.1 == rest
            && FreshlyAllocated(t, r.value.store, r.value.val.0.handle, Value(s, x))
  {
    NestedBytesRoundTrip(ToSignedBytes(s, x), rest);
  }
}
