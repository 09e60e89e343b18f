/**
 * The two backends implement one integer contract: starting from the same
 * logical values they produce the same values, comparisons and bytes.  The
 * single exception is `sign` on negative values.
 */
module BackendEquivalence {
  import opened IntSpec
  import opened SignedBytes
  import opened Host
  import Mock = BigIntMock
  import Node = BigIntNode

  /** The computed value a live handle stands for. */
  function Abstract(s: Store, x: Node.AndesBigInt): (r: Mock.RustBigInt)
    requires Node.Live(s, x)
    ensures r.v == Node.Value(s, x)
  {
    Mock.RustBigInt(Node.Value(s, x))
  }

  /** Every operator gives, in a fresh handle, the value the computed backend gives. */
  lemma ApplyAgrees(s: Store, op: BinOp, a: Node.AndesBigInt, b: Node.AndesBigInt)
    requires s.Valid() && Node.Live(s, a) && Node.Live(s, b)
    requires DivisorOk(op, Node.Value(s, b))
    ensures var r := Node.Apply(s, op, a, b);
            Abstract(r.store, r.val) == Mock.Apply(op, Abstract(s, a), Abstract(s, b))
  {
  }

  /** In-place operators agree, and the operand's value is kept. */
  lemma ApplyAssignAgrees(s: Store, op: BinOp, x: Node.AndesBigInt, y: Node.AndesBigInt)
    requires s.Valid() && Node.Live(s, x) && Node.Live(s, y)
    requires DivisorOk(op, Node.Value(s, y))
    ensures var s' := Node.ApplyAssign(s, op, x, y);
            && Abstract(s', x) == Mock.ApplyAssign(op, Abstract(s, x), Abstract(s, y))
            && (x.handle != y.handle ==> Abstract(s', y) == Abstract(s, y))
  {
  }

  lemma CloneAgrees(s: Store, x: Node.AndesBigInt)
    requires s.Valid() && Node.Live(s, x)
    ensures var r := Node.Clone(s, x);
            Abstract(r.store, r.val) == Mock.Clone(Abstract(s, x)) && Abstract(r.store, x) == Abstract(s, x)
  {
  }

  lemma NegAbsAgree(s: Store, x: Node.AndesBigInt)
    requires s.Valid() && Node.Live(s, x)
    ensures var r := Node.Neg(s, x); Abstract(r.store, r.val) == Mock.Neg(Abstract(s, x))
    ensures var r := Node.AbsUint(s, x); r.store.values[r.val.handle] == Mock.AbsUint(Abstract(s, x)).v
  {
  }

  /** Equality and ordering, also against a scalar, agree. */
  lemma ComparisonsAgree(s: Store, a: Node.AndesBigInt, b: Node.AndesBigInt, k: int64)
    requires s.Valid() && Node.Live(s, a) && Node.Live(s, b)
    ensures Node.Eq(s, a, b) == Mock.Eq(Abstract(s, a), Abstract(s, b))
    ensures Node.Cmp(s, a, b) == Mock.Cmp(Abstract(s, a), Abstract(s, b))
    ensures Node.EqI64(s, a, k).val == Mock.EqI64(Abstract(s, a), k)
    ensures Node.CmpI64(s, a, k).val == Mock.CmpI64(Abstract(s, a), k)
  {
  }

  /** Both comparison paths of `andes_cmp_i64` give the ordering of the promoted scalar. */
  lemma CmpI64PathsAgree(s: Store, a: Node.AndesBigInt, k: int64)
    requires s.Valid() && Node.Live(s, a)
    ensures var promoted := Node.FromI64(s, k);
            Node.CmpI64(s, a, k).val == Node.Cmp(promoted.store, a, promoted.val)
  {
  }

  /** The byte forms agree: top-level and nested. */
  lemma EncodingsAgree(s: Store, x: Node.AndesBigInt)
    requires Node.Live(s, x)
    ensures Node.TopEncode(s, x) == Mock.TopEncode(Abstract(s, x))
    ensures Mock.NestEncodable(Abstract(s, x)) ==>
              Node.NestedEncode(s, x) == Mock.NestedEncode(Abstract(s, x))
  {
    CanonicalRoundTrip(Node.ToSignedBytes(s, x));
  }

  /** Decoding the same bytes gives the same value, and fails on the same inputs. */
  lemma DecodingsAgree(s: Store, input: seq<uint8>)
    requires s.Valid()
    ensures var r := Node.TopDecode(s, input);
            r.Success? && Abstract(r.value.store, r.value.val) == Mock.TopDecode(input).value
    ensures var r := Node.NestedDecode(s, input);
            var m := Mock.NestedDecode(input);
            && (r.Success? <==> m.Success?)
            && (r.Success? ==> Abstract(r.value.store, r.value.val.0) == m.value.0
                                && r.value.val.1 == m.value.1)
  {
  }

  /**
   * Backend equivalence on machine words: two literals combined by any
   * operator give identical signed bytes in either backend.
   */
  lemma MachineWordsAgree(s: Store, op: BinOp, a: int64, b: int64)
    requires s.Valid() && DivisorOk(op, b)
    ensures var x := Node.FromI64(s, a);
            var y := Node.FromI64(x.store, b);
            var r := Node.Apply(y.store, op, x.val, y.val);
            Node.ToSignedBytes(r.store, r.val) ==
              Mock.ToSignedBytes(Mock.Apply(op, Mock.FromI64(a), Mock.FromI64(b)))
  {
    var x := Node.FromI64(s, a);
    var y := Node.FromI64(x.store, b);
    var r := Node.Apply(y.store, op, x.val, y.val);
    EncodingsAgree(r.store, r.val);
  }

  /** `sign` agrees between the backends exactly on non-negative values. */
  lemma SignAgreesIffNonNegative(s: Store, x: Node.AndesBigInt)
    requires Node.Live(s, x)
    ensures Node.Sign(s, x) == Mock.Sign(Abstract(s, x)) <==> Node.Value(s, x) >= 0
  {
  }

  /** A concrete divergence: -1 is `Minus` delegated but `NoSign` computed. */
  lemma SignDivergesOnMinusOne()
    ensures var s := Node.FromI64(Empty(), -1);
            Node.Sign(s.store, s.val) == Minus && Mock.Sign(Mock.FromI64(-1)) == NoSign
  {
  }

  /** The intended computed `sign` agrees with the delegated one everywhere. */
  lemma SignIntendedAgrees(s: Store, x: Node.AndesBigInt)
    requires Node.Live(s, x)
    ensures Node.Sign(s, x) == Mock.SignIntended(Abstract(s, x))
  {
  }
}
