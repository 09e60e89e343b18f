/**
 * The integer contract both big-integer backends implement: machine-word
 * ranges, truncating division, signs and three-way comparison.
 */
module IntSpec {

  type int64 = x: int | -0x8000_0000_0000_0000 <= x < 0x8000_0000_0000_0000
  type int32 = x: int | -0x8000_0000 <= x < 0x8000_0000

  function Abs(x: int): nat
  {
    if x < 0 then -x else x
  }

  /** Division rounding toward zero, as Rust's `/` and the host's `bigIntTDiv` do. */
  function TDiv(a: int, b: int): (q: int)
    requires b != 0
    ensures Abs(q) * Abs(b) <= Abs(a) < (Abs(q) + 1) * Abs(b)
    ensures q == 0 || ((q < 0) <==> ((a < 0) != (b < 0)))
  {
    TDivBounds(a, b);
    if (a < 0) == (b < 0) then Abs(a) / Abs(b) else -(Abs(a) / Abs(b))
  }

  /** The truncated quotient, built from the quotient of the magnitudes, has the promised bounds. */
  lemma TDivBounds(a: int, b: int)
    requires b != 0
    ensures var q := if (a < 0) == (b < 0) then Abs(a) / Abs(b) else -(Abs(a) / Abs(b));
            Abs(q) * Abs(b) <= Abs(a) < (Abs(q) + 1) * Abs(b)
  {
    var m := Abs(a) / Abs(b);
    NatDivBounds(Abs(a), Abs(b));
    var q := if (a < 0) == (b < 0) then m else -m;
    assert Abs(q) == m;
  }

  /** Remainder of truncating division: zero or of the dividend's sign. */
  function TRem(a: int, b: int): (r: int)
    requires b != 0
    ensures TDiv(a, b) * b + r == a
    ensures Abs(r) < Abs(b)
    ensures r == 0 || ((r < 0) <==> (a < 0))
  {
    var k := Abs(a) % Abs(b);
    TDivRemParts(a, b);
    if a < 0 then -k else k
  }

  lemma NatDivBounds(x: nat, y: nat)
    requires y > 0
    ensures (x / y) * y <= x < (x / y + 1) * y
  {
    assert x == (x / y) * y + x % y;
    assert (x / y + 1) * y == (x / y) * y + y;
  }

  lemma TDivRemParts(a: int, b: int)
    requires b != 0
    ensures TDiv(a, b) * b + (if a < 0 then -(Abs(a) % Abs(b)) else Abs(a) % Abs(b)) == a
  {
    var m := Abs(a) / Abs(b);
    var k := Abs(a) % Abs(b);
    assert Abs(a) == m * Abs(b) + k;
    var q := TDiv(a, b);
    if (a < 0) == (b < 0) {
      assert q == m;
      if b < 0 {
        assert m * b == -(m * Abs(b));
      }
    } else {
      assert q == -m;
      if b < 0 {
        assert (-m) * b == m * Abs(b);
      } else {
        assert (-m) * b == -(m * Abs(b));
      }
    }
  }

  /**
   * Truncating division is the only quotient/remainder pair with the remainder
   * bounded by the divisor and signed like the dividend.
   */
  lemma TDivRemUnique(a: int, b: int, q: int, r: int)
    requires b != 0
    requires q * b + r == a
    requires Abs(r) < Abs(b)
    requires r == 0 || ((r < 0) <==> (a < 0))
    ensures q == TDiv(a, b) && r == TRem(a, b)
  {
    var q0, r0 := TDiv(a, b), TRem(a, b);
    var d := q - q0;
    assert d * b == r0 - r by {
      MulSubDistrib(q, q0, b);
    }
    // Both remainders lie on the dividend's side of zero, so they differ by less than |b|.
    assert Abs(r0 - r) < Abs(b);
    if d != 0 {
      AbsMul(d, b);
      NonZeroMulAtLeast(Abs(d), Abs(b));
      assert false;
    }
  }

  lemma MulSubDistrib(x: int, y: int, z: int)
    ensures (x - y) * z == x * z - y * z
  {
  }

  lemma NonZeroMulAtLeast(x: nat, y: nat)
    requires x >= 1
    ensures x * y >= y
  {
    assert x * y == (x - 1) * y + y;
  }

  lemma AbsMul(x: int, y: int)
    ensures Abs(x * y) == Abs(x) * Abs(y)
  {
    if x < 0 && y < 0 {
      assert x * y == (-x) * (-y);
    } else if x < 0 {
      assert x * y == -((-x) * y);
    } else if y < 0 {
      assert x * y == -(x * (-y));
    }
  }

  /** Rust's truncating operators disagree with Dafny's Euclidean ones on negative dividends. */
  lemma TruncationDiffersFromEuclid()
    ensures TDiv(-7, 2) == -3 && TRem(-7, 2) == -1
    ensures -7 / 2 == -4 && -7 % 2 == 1
  {
  }

  /** The binary operators shared by both backends (`binary_operator!`). */
  datatype BinOp = Add | Sub | Mul | Div | Rem

  /** Division and remainder by zero are the caller's responsibility. */
  predicate DivisorOk(op: BinOp, b: int)
  {
    (op == Div || op == Rem) ==> b != 0
  }

  /** The mathematical meaning of each operator. */
  function Eval(op: BinOp, a: int, b: int): int
    requires DivisorOk(op, b)
  {
    match op
    case Add => a + b
    case Sub => a - b
    case Mul => a * b
    case Div => TDiv(a, b)
    case Rem => TRem(a, b)
  }

  /** `numbat_wasm::Sign`. */
  datatype Sign = Minus | NoSign | Plus

  /** `core::cmp::Ordering`. */
  datatype Ordering = Less | Equal | Greater

  /** Three-way comparison of two integers (`Ord::cmp`). */
  function Compare(a: int, b: int): (o: Ordering)
    ensures o == Less <==> a < b
    ensures o == Equal <==> a == b
    ensures o == Greater <==> a > b
  {
    if a < b then Less else if a == b then Equal else Greater
  }

  /** The ordering of a host result code against zero (`code.cmp(&0)`). */
  function OrderingOfCode(code: int): Ordering
  {
    Compare(code, 0)
  }
}
