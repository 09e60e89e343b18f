/**
 * Big-endian two's-complement signed byte strings: the wire form of the
 * big-integer type (`to_signed_bytes_be` / `from_signed_bytes_be`).
 */
module SignedBytes {
  import opened IntSpec

  type uint8 = x: int | 0 <= x < 256

  /** 256 to the power n. */
  function Pow256(n: nat): (p: nat)
    ensures p >= 1
  {
    if n == 0 then 1 else 256 * Pow256(n - 1)
  }

  /** The value of a byte string read as big-endian two's complement; the empty string is 0. */
  function FromBytes(b: seq<uint8>): int
    decreases |b|
  {
    if |b| == 0 then 0
    else if |b| == 1 then (if b[0] < 128 then b[0] else b[0] - 256)
    else FromBytes(b[..|b| - 1]) * 256 + b[|b| - 1]
  }

  /** The shortest non-empty two's-complement form of x. */
  function Digits(x: int): (b: seq<uint8>)
    ensures |b| >= 1
    decreases Abs(x)
  {
    if -128 <= x < 128 then [x % 256]
    else Digits(x / 256) + [x % 256]
  }

  /** The canonical encoding: minimal length, and the empty string for zero. */
  function ToBytes(x: int): seq<uint8>
  {
    if x == 0 then [] else Digits(x)
  }

  /** A non-empty string whose first byte is not a redundant sign extension of the second. */
  predicate Minimal(b: seq<uint8>)
  {
    && |b| >= 1
    && (|b| >= 2 ==> !(b[0] == 0 && b[1] < 128) && !(b[0] == 255 && b[1] >= 128))
  }

  /** The strings ToBytes produces: empty, or minimal and not the lone byte 0. */
  predicate Canonical(b: seq<uint8>)
  {
    |b| == 0 || (Minimal(b) && b != [0])
  }

  /** x fits in n bytes of two's complement. */
  predicate Fits(x: int, n: nat)
  {
    n >= 1 && -128 * Pow256(n - 1) <= x < 128 * Pow256(n - 1)
  }

  lemma {:induction false} DigitsRoundTrip(x: int)
    ensures FromBytes(Digits(x)) == x
    decreases Abs(x)
  {
    if -128 <= x < 128 {
    } else {
      var d := Digits(x / 256);
      DigitsRoundTrip(x / 256);
      assert Digits(x) == d + [x % 256];
      assert (d + [x % 256])[..|d|] == d;
    }
  }

  /** Decoding an encoding gives the value back: `from_signed_bytes_be(to_signed_bytes_be(x)) == x`. */
  lemma RoundTrip(x: int)
    ensures FromBytes(ToBytes(x)) == x
  {
    if x != 0 {
      DigitsRoundTrip(x);
    }
  }

  /** A minimal string of two or more bytes holds a value outside one byte's range. */
  lemma {:induction false} MinimalLongIsWide(b: seq<uint8>)
    requires Minimal(b) && |b| >= 2
    ensures !(-128 <= FromBytes(b) < 128)
    decreases |b|
  {
    var p := b[..|b| - 1];
    if |p| >= 2 {
      assert Minimal(p) by {
        assert p[0] == b[0] && p[1] == b[1];
      }
      MinimalLongIsWide(p);
    }
  }

  lemma {:induction false} DigitsMinimal(x: int)
    ensures Minimal(Digits(x))
    decreases Abs(x)
  {
    if !(-128 <= x < 128) {
      var q := x / 256;
      var d := Digits(q);
      DigitsMinimal(q);
      var b := d + [x % 256];
      assert b == Digits(x);
      if |d| == 1 {
        assert -128 <= q < 128;
        assert b[0] == q % 256 && b[1] == x % 256;
      } else {
        assert b[0] == d[0] && b[1] == d[1];
      }
    }
  }

  /** Every encoding is canonical. */
  lemma ToBytesCanonical(x: int)
    ensures Canonical(ToBytes(x))
  {
    if x != 0 {
      DigitsMinimal(x);
      DigitsRoundTrip(x);
    }
  }

  lemma {:induction false} MinimalRoundTrip(b: seq<uint8>)
    requires Minimal(b)
    ensures Digits(FromBytes(b)) == b
    decreases |b|
  {
    if |b| == 1 {
    } else {
      var p := b[..|b| - 1];
      var x := FromBytes(b);
      assert x == FromBytes(p) * 256 + b[|b| - 1];
      assert x / 256 == FromBytes(p) && x % 256 == b[|b| - 1];
      MinimalLongIsWide(b);
      if |p| >= 2 {
        assert p[0] == b[0] && p[1] == b[1];
      }
      MinimalRoundTrip(p);
      assert b == p + [b[|b| - 1]];
    }
  }

  /** Re-encoding a canonical string reproduces it, so ToBytes is a bijection onto canonical strings. */
  lemma CanonicalRoundTrip(b: seq<uint8>)
    ensures Canonical(b) ==> ToBytes(FromBytes(b)) == b
  {
    if Canonical(b) && |b| > 0 {
      MinimalRoundTrip(b);
      assert Digits(0) == [0];
    }
  }

  /** The encoding is as short as the value allows. */
  lemma {:induction false} DigitsLength(x: int, n: nat)
    requires Fits(x, n)
    ensures |Digits(x)| <= n
    decreases n
  {
    if !(-128 <= x < 128) {
      assert n >= 2;
      var p := Pow256(n - 2);
      assert Pow256(n - 1) == 256 * p;
      assert -128 * p <= x / 256 < 128 * p by {
        DivBoundsBy256(x, 128 * p);
      }
      DigitsLength(x / 256, n - 1);
    }
  }

  lemma DivBoundsBy256(x: int, m: int)
    requires -256 * m <= x < 256 * m
    ensures -m <= x / 256 < m
  {
  }

  /** Values decoded from n bytes fit in n bytes. */
  lemma {:induction false} FromBytesFits(b: seq<uint8>)
    requires |b| >= 1
    ensures Fits(FromBytes(b), |b|)
    decreases |b|
  {
    if |b| >= 2 {
      var p := b[..|b| - 1];
      FromBytesFits(p);
      assert Pow256(|b| - 1) == 256 * Pow256(|p| - 1);
    }
  }

  /** The first byte only repeats the sign of the second, so dropping it keeps the value. */
  predicate RedundantLead(b: seq<uint8>)
  {
    |b| >= 2 && ((b[0] == 0 && b[1] < 128) || (b[0] == 255 && b[1] >= 128))
  }

  /** Dropping a redundant sign-extension byte does not change the value. */
  lemma {:induction false} SignExtension(b: seq<uint8>)
    requires RedundantLead(b)
    ensures FromBytes(b[1..]) == FromBytes(b)
    decreases |b|
  {
    if |b| > 2 {
      var p := b[..|b| - 1];
      assert p[0] == b[0] && p[1] == b[1];
      SignExtension(p);
      assert b[1..][..|b| - 2] == p[1..];
    }
  }

  /** The canonical form of a string: sign-extension bytes dropped, and zero as the empty string. */
  function Trim(b: seq<uint8>): (t: seq<uint8>)
    ensures |t| <= |b| && t == b[|b| - |t|..]
    decreases |b|
  {
    if RedundantLead(b) then Trim(b[1..])
    else if b == [0] then []
    else b
  }

  /** Trimming yields the canonical string of the same value, and leaves canonical strings alone. */
  lemma {:induction false} TrimCanonical(b: seq<uint8>)
    ensures Canonical(Trim(b)) && FromBytes(Trim(b)) == FromBytes(b)
    ensures Canonical(b) <==> Trim(b) == b
    decreases |b|
  {
    if RedundantLead(b) {
      SignExtension(b);
      TrimCanonical(b[1..]);
    }
  }
}
