/**
 * The parts of the binary codec the core relies on: the `usize` length prefix,
 * byte strings in nested form, and `i32` in top-level form.  The codec crate
 * itself is not part of this model; the layouts below are its conventions as
 * assumed here (a 4-byte big-endian `usize` on the 32-bit target, and numbers
 * at top level as their shortest signed big-endian bytes).
 */
module Codec {
  import opened Results
  import opened Errors
  import opened IntSpec
  import opened SignedBytes

  /** `usize` is 32 bits wide on the wasm32 target. */
  const USIZE_BOUND: nat := 0x1_0000_0000

  /** `usize::dep_encode`: four big-endian bytes. */
  function EncodeUsize(n: nat): (b: seq<uint8>)
    requires n < USIZE_BOUND
    ensures |b| == 4
  {
    var q1 := n / 256;
    var q2 := q1 / 256;
    var q3 := q2 / 256;
    [q3 % 256, q2 % 256, q1 % 256, n % 256]
  }

  /** The value of four big-endian bytes. */
  function UsizeOf(b0: uint8, b1: uint8, b2: uint8, b3: uint8): nat
  {
    ((b0 * 256 + b1) * 256 + b2) * 256 + b3
  }

  lemma DivMod256(h: nat, d: nat)
    requires d < 256
    ensures (h * 256 + d) / 256 == h && (h * 256 + d) % 256 == d
  {
  }

  lemma EncodeUsizeOf(b0: uint8, b1: uint8, b2: uint8, b3: uint8)
    ensures UsizeOf(b0, b1, b2, b3) < USIZE_BOUND
    ensures EncodeUsize(UsizeOf(b0, b1, b2, b3)) == [b0, b1, b2, b3]
  {
    var h1 := b0 * 256 + b1;
    var h2 := h1 * 256 + b2;
    var n := h2 * 256 + b3;
    DivMod256(h2, b3);
    DivMod256(h1, b2);
    DivMod256(b0, b1);
    DivMod256(0, b0);
  }

  lemma UsizeOfEncode(n: nat)
    requires n < USIZE_BOUND
    ensures var b := EncodeUsize(n); UsizeOf(b[0], b[1], b[2], b[3]) == n
  {
    var q1 := n / 256;
    var q2 := q1 / 256;
    var q3 := q2 / 256;
    assert n == q1 * 256 + n % 256;
    assert q1 == q2 * 256 + q1 % 256;
    assert q2 == q3 * 256 + q2 % 256;
    assert q3 < 256;
  }

  /** `usize::dep_decode`: reads four bytes, failing when fewer remain. */
  function DecodeUsize(input: seq<uint8>): (r: Result<(nat, seq<uint8>), DecodeError>)
    ensures r.Failure? <==> |input| < 4
    ensures r.Failure? ==> r.error == InputTooShort
    ensures r.Success? ==> r.value.0 < USIZE_BOUND && input == EncodeUsize(r.value.0) + r.value.1
  {
    if |input| < 4 then Failure(InputTooShort)
    else
      var n := UsizeOf(input[0], input[1], input[2], input[3]);
      EncodeUsizeOf(input[0], input[1], input[2], input[3]);
      assert input == input[..4] + input[4..];
      Success((n, input[4..]))
  }

  lemma UsizeRoundTrip(n: nat, rest: seq<uint8>)
    requires n < USIZE_BOUND
    ensures DecodeUsize(EncodeUsize(n) + rest) == Success((n, rest))
  {
    var b := EncodeUsize(n);
    assert (b + rest)[4..] == rest;
    UsizeOfEncode(n);
  }

  /** A byte string's nested form: its length, then its bytes (`&[u8]::dep_encode_to`). */
  function NestedEncodeBytes(b: seq<uint8>): (r: seq<uint8>)
    requires |b| < USIZE_BOUND
    ensures |r| == 4 + |b| && r[4..] == b
    ensures DecodeUsize(r) == Success((|b|, b))
  {
    UsizeRoundTrip(|b|, b);
    EncodeUsize(|b|) + b
  }

  /**
   * Reads a nested byte string: the size, then exactly that many bytes
   * (`usize::dep_decode` followed by `read_slice`).  Returns the bytes and the unread rest.
   */
  function NestedDecodeBytes(input: seq<uint8>): (r: Result<(seq<uint8>, seq<uint8>), DecodeError>)
    ensures r.Failure? ==> r.error == InputTooShort
    ensures r.Success? ==> |r.value.0| < USIZE_BOUND && input == NestedEncodeBytes(r.value.0) + r.value.1
  {
    match DecodeUsize(input)
    case Failure(e) => Failure(e)
    case Success((size, rest)) =>
      if |rest| < size then Failure(InputTooShort)
      else
        assert rest == rest[..size] + rest[size..];
        Success((rest[..size], rest[size..]))
  }

  /** The nested form of a byte string decodes back to it and leaves what follows unread. */
  lemma NestedBytesRoundTrip(b: seq<uint8>, rest: seq<uint8>)
    requires |b| < USIZE_BOUND
    ensures NestedDecodeBytes(NestedEncodeBytes(b) + rest) == Success((b, rest))
  {
    UsizeRoundTrip(|b|, b + rest);
    assert NestedEncodeBytes(b) + rest == EncodeUsize(|b|) + (b + rest);
    assert (b + rest)[..|b|] == b && (b + rest)[|b|..] == rest;
  }

  /** Nested decoding fails exactly when the input is shorter than the prefix says. */
  lemma NestedBytesShortInput(input: seq<uint8>)
    ensures NestedDecodeBytes(input).Failure? <==>
              (|input| < 4 || |input| - 4 < UsizeOf(input[0], input[1], input[2], input[3]))
  {
  }

  /** `i32` at top level: its shortest signed big-endian bytes, empty for zero. */
  function TopEncodeI32(x: int32): (b: seq<uint8>)
    ensures |b| <= 4
    ensures Canonical(b)
    ensures FromBytes(b) == x
  {
    ToBytesCanonical(x);
    Pow256Values();
    DigitsLength(x, 4);
    RoundTrip(x);
    ToBytes(x)
  }

  /** `i32::top_decode`: at most four bytes, sign-extended. */
  function TopDecodeI32(b: seq<uint8>): (r: Result<int32, DecodeError>)
    ensures r.Failure? <==> |b| > 4
    ensures r.Failure? ==> r.error == InputTooLong
    ensures r.Success? ==> r.value == FromBytes(b)
  {
    if |b| > 4 then Failure(InputTooLong)
    else
      FromBytesI32(b);
      Success(FromBytes(b))
  }

  lemma FromBytesI32(b: seq<uint8>)
    requires |b| <= 4
    ensures -0x8000_0000 <= FromBytes(b) < 0x8000_0000
  {
    if |b| > 0 {
      FromBytesFits(b);
      Pow256Values();
    }
  }

  lemma Pow256Values()
    ensures Pow256(0) == 1 && Pow256(1) == 256 && Pow256(2) == 0x1_0000 && Pow256(3) == 0x100_0000
  {
    assert Pow256(1) == 256 * Pow256(0);
    assert Pow256(2) == 256 * Pow256(1);
    assert Pow256(3) == 256 * Pow256(2);
  }

  lemma I32RoundTrip(x: int32)
    ensures TopDecodeI32(TopEncodeI32(x)) == Success(x)
  {
  }
}
