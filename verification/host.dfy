/**
 * The host's big-integer store, as the delegated backend sees it through its
 * foreign functions.  The foreign calls themselves are not part of this model;
 * each is replaced by a function over an explicit store, and the semantics
 * written here (exact integer arithmetic, truncating division, the canonical
 * signed-byte form, result codes -1/0/1) are the assumptions the backend rests on.
 */
module Host {
  import opened IntSpec
  import opened SignedBytes

  /** An opaque handle (`i32` in the source); exhaustion of the handle space is not modelled. */
  type Handle = int

  /** The values the host holds, and the next handle it will hand out. */
  datatype Store = Store(values: map<Handle, int>, next: Handle) {
    /** Every allocated handle lies below the allocation counter, so `next` is fresh. */
    predicate Valid()
    {
      forall h :: h in values ==> h < next
    }
  }

  /** The empty store a contract invocation starts with. */
  function Empty(): (s: Store)
    ensures s.Valid() && s.values == map[]
  {
    Store(map[], 0)
  }

  datatype NewHandle = NewHandle(store: Store, handle: Handle)

  /** `bigIntNew`: a handle not in use before, holding the value. */
  function BigIntNew(s: Store, value: int64): (r: NewHandle)
    requires s.Valid()
    ensures r.store.Valid()
    ensures r.handle !in s.values
    ensures r.store.values == s.values[r.handle := value]
  {
    NewHandle(Store(s.values[s.next := value], s.next + 1), s.next)
  }

  /** Writing an existing handle keeps the set of handles and the counter. */
  function Write(s: Store, dest: Handle, value: int): (r: Store)
    requires s.Valid() && dest in s.values
    ensures r.Valid()
    ensures r == s.(values := s.values[dest := value])
  {
    s.(values := s.values[dest := value])
  }

  /** `bigIntAdd`, `bigIntSub`, `bigIntMul`, `bigIntTDiv`, `bigIntTMod`: `dest := x op y`. */
  function BigIntBinary(s: Store, op: BinOp, dest: Handle, x: Handle, y: Handle): Store
    requires s.Valid() && dest in s.values && x in s.values && y in s.values
    requires DivisorOk(op, s.values[y])
  {
    Write(s, dest, Eval(op, s.values[x], s.values[y]))
  }

  /** `bigIntAbs`: `dest := |x|`. */
  function BigIntAbs(s: Store, dest: Handle, x: Handle): Store
    requires s.Valid() && dest in s.values && x in s.values
  {
    Write(s, dest, Abs(s.values[x]))
  }

  /** `bigIntNeg`: `dest := -x`. */
  function BigIntNeg(s: Store, dest: Handle, x: Handle): Store
    requires s.Valid() && dest in s.values && x in s.values
  {
    Write(s, dest, -s.values[x])
  }

  /** The sign of an integer as a result code. */
  function Signum(x: int): int
  {
    if x < 0 then -1 else if x == 0 then 0 else 1
  }

  /** `bigIntSign`: -1, 0 or 1. */
  function BigIntSign(s: Store, x: Handle): int
    requires x in s.values
  {
    Signum(s.values[x])
  }

  /** `bigIntCmp`: -1, 0 or 1 as x is below, equal to or above y. */
  function BigIntCmp(s: Store, x: Handle, y: Handle): int
    requires x in s.values && y in s.values
  {
    Signum(s.values[x] - s.values[y])
  }

  /** `bigIntSignedByteLength`. */
  function BigIntSignedByteLength(s: Store, x: Handle): nat
    requires x in s.values
  {
    |ToBytes(s.values[x])|
  }

  /** `bigIntGetSignedBytes`: the canonical signed big-endian bytes. */
  function BigIntGetSignedBytes(s: Store, x: Handle): seq<uint8>
    requires x in s.values
  {
    ToBytes(s.values[x])
  }

  /** `bigIntSetSignedBytes`: `dest :=` the value of the signed bytes. */
  function BigIntSetSignedBytes(s: Store, dest: Handle, bytes: seq<uint8>): Store
    requires s.Valid() && dest in s.values
  {
    Write(s, dest, FromBytes(bytes))
  }
}
