/**
 * The asynchronous-call argument serializer: typed values pushed, in order,
 * as top-level encoded raw arguments of an outgoing call.
 */
module ArgSerialize {
  import opened Results
  import opened Errors
  import opened IntSpec
  import opened SignedBytes
  import opened Codec
  import opened ArgTypes

  /** The call-data serializer, seen as the raw arguments pushed so far. */
  type Serializer = seq<RawArg>

  /**
   * The serializer after a push, and the push's outcome.  A failing push
   * keeps whatever it pushed before the failure.
   */
  datatype Pushed = Pushed(out: Serializer, status: Outcome<SCError>)

  /** The values pushed through their `Encode` implementation. */
  predicate IsEncode(v: ArgValue)
  {
    v.UnitValue? || v.I32Value? || v.BytesValue? || v.BigIntValue? || v.EncodedValue?
  }

  /**
   * `using_top_encoded`: the unit type encodes as no bytes, `i32` and big
   * integers as their shortest signed bytes, byte vectors as themselves.
   */
  function TopEncoded(v: ArgValue): (r: Result<seq<uint8>, EncodeError>)
    requires IsEncode(v)
    ensures !v.EncodedValue? ==> r.Success?
    ensures v.UnitValue? ==> r == Success([])
    ensures v.BytesValue? ==> r == Success(v.bytes)
    ensures v.I32Value? ==> Canonical(r.value) && FromBytes(r.value) == v.i
    ensures v.BigIntValue? ==> Canonical(r.value) && FromBytes(r.value) == v.n
  {
    match v
    case UnitValue => Success([])
    case I32Value(i) => Success(TopEncodeI32(i))
    case BytesValue(b) => Success(b)
    case BigIntValue(n) =>
      ToBytesCanonical(n);
      RoundTrip(n);
      Success(ToBytes(n))
    case EncodedValue(e) => e
  }

  /** The values whose type implements `AsynCallArg`; `MultiResultN` has arity 1 to 16. */
  predicate Pushable(v: ArgValue)
  {
    match v
    case VarArgsValue(items) => forall i :: 0 <= i < |items| ==> Pushable(items[i])
    case OptionalValue(opt) => opt.None? || Pushable(opt.value)
    case MultiValue(parts) => 1 <= |parts| <= 16 && forall i :: 0 <= i < |parts| ==> Pushable(parts[i])
    case AsyncOk(_) => false
    case AsyncErr(_, _) => false
    case _ => true
  }

  /** The elements of a list or the components of a tuple. */
  function Elems(v: ArgValue): seq<ArgValue>
    requires v.VarArgsValue? || v.MultiValue?
  {
    if v.VarArgsValue? then v.items else v.parts
  }

  /**
   * `push_async_arg` of an `Encode` type: one raw argument, its top-level
   * encoding; an encoding failure is reported and nothing is pushed.
   */
  function PushEncoded(v: ArgValue, s: Serializer): (r: Pushed)
    requires IsEncode(v)
    ensures TopEncoded(v).Success? ==> r == Pushed(s + [TopEncoded(v).value], Pass)
    ensures TopEncoded(v).Failure? ==> r == Pushed(s, Fail(PushAsyncEncodeErr(TopEncoded(v).error)))
  {
    match TopEncoded(v)
    case Success(bytes) => Pushed(s + [bytes], Pass)
    case Failure(e) => Pushed(s, Fail(PushAsyncEncodeErr(e)))
  }

  /**
   * `push_async_arg` for every pushable value: `VarArgs` elements and
   * `MultiResultN` components in order, `OptionalArg` only when present.
   */
  function PushAsyncArg(v: ArgValue, s: Serializer): (r: Pushed)
    requires Pushable(v)
    ensures s <= r.out
    ensures v.OptionalValue? && v.opt.None? ==> r == Pushed(s, Pass)
    decreases v, 1, 0
  {
    if v.VarArgsValue? || v.MultiValue? then PushElems(v, 0, s)
    else if v.OptionalValue? then
      if v.opt.Some? then PushAsyncArg(v.opt.value, s) else Pushed(s, Pass)
    else PushEncoded(v, s)
  }

  /** Pushes `Elems(v)[i..]` in order, stopping at the first failure. */
  function PushElems(v: ArgValue, i: nat, s: Serializer): (r: Pushed)
    requires (v.VarArgsValue? || v.MultiValue?) && Pushable(v) && i <= |Elems(v)|
    ensures s <= r.out
    decreases v, 0, |Elems(v)| - i
  {
    if i == |Elems(v)| then Pushed(s, Pass)
    else
      var e := if v.VarArgsValue? then v.items[i] else v.parts[i];
      var first := PushAsyncArg(e, s);
      if first.status.Fail? then first
      else PushElems(v, i + 1, first.out)
  }

  /** `OptionalArg::push_async_arg`: pushing `Some(t)` is pushing `t`. */
  lemma OptionalPushesContent(t: ArgValue, s: Serializer)
    requires Pushable(t)
    ensures PushAsyncArg(OptionalValue(Some(t)), s) == PushAsyncArg(t, s)
  {
  }

  /**
   * `push_async_arg_exact`: only `VarArgs` supports it, and only when its
   * length is the expected one; a rejected push leaves the serializer as it was.
   */
  function PushAsyncArgExact(v: ArgValue, s: Serializer, expectedLen: nat): (r: Pushed)
    requires Pushable(v)
    ensures !v.VarArgsValue? ==> r == Pushed(s, Fail(Static(NotSupported)))
    ensures v.VarArgsValue? && |v.items| != expectedLen ==> r == Pushed(s, Fail(Static(ArgAsyncWrongNumber)))
    ensures v.VarArgsValue? && |v.items| == expectedLen ==> r == PushAsyncArg(v, s)
  {
    if v.VarArgsValue? then
      if |v.items| != expectedLen then Pushed(s, Fail(Static(ArgAsyncWrongNumber)))
      else PushAsyncArg(v, s)
    else
      Pushed(s, Fail(Static(NotSupported)))
  }

  /**
   * A push appends to the serializer and ignores what is already there:
   * pushing onto s is pushing onto the empty serializer, then prefixing s.
   */
  lemma {:induction false} PushIsAppend(v: ArgValue, s: Serializer)
    requires Pushable(v)
    ensures var e := PushAsyncArg(v, []);
            PushAsyncArg(v, s) == Pushed(s + e.out, e.status)
    decreases v, 1, 0
  {
    match v
    case VarArgsValue(_) => PushElemsIsAppend(v, 0, s);
    case MultiValue(_) => PushElemsIsAppend(v, 0, s);
    case OptionalValue(opt) =>
      if opt.Some? {
        PushIsAppend(opt.value, s);
      } else {
        assert s + [] == s;
      }
    case EncodedValue(e) =>
      if e.Success? {
        assert s + ([] + [e.value]) == s + [e.value];
      }
    case UnitValue | I32Value(_) | BytesValue(_) | BigIntValue(_) =>
      assert s + ([] + [TopEncoded(v).value]) == s + [TopEncoded(v).value];
  }

  /** One step of `PushElems`: push element i, then the rest unless it failed. */
  lemma PushElemsStep(v: ArgValue, i: nat, s: Serializer)
    requires (v.VarArgsValue? || v.MultiValue?) && Pushable(v) && i < |Elems(v)|
    ensures Pushable(Elems(v)[i])
    ensures var first := PushAsyncArg(Elems(v)[i], s);
            PushElems(v, i, s) == if first.status.Fail? then first else PushElems(v, i + 1, first.out)
  {
  }

  lemma {:induction false} PushElemsIsAppend(v: ArgValue, i: nat, s: Serializer)
    requires (v.VarArgsValue? || v.MultiValue?) && Pushable(v) && i <= |Elems(v)|
    ensures var e := PushElems(v, i, []);
            PushElems(v, i, s) == Pushed(s + e.out, e.status)
    decreases v, 0, |Elems(v)| - i
  {
    if i == |Elems(v)| {
      assert s + [] == s;
    } else {
      var e := Elems(v)[i];
      PushElemsStep(v, i, s);
      PushElemsStep(v, i, []);
      var first := PushAsyncArg(e, []);
      PushIsAppend(e, s);
      if first.status.Pass? {
        var rest := PushElems(v, i + 1, []);
        PushElemsIsAppend(v, i + 1, first.out);
        PushElemsIsAppend(v, i + 1, s + first.out);
        assert PushElems(v, i, []) == Pushed(first.out + rest.out, rest.status);
        assert PushElems(v, i, s) == Pushed(s + first.out + rest.out, rest.status);
        assert s + first.out + rest.out == s + (first.out + rest.out);
      }
    }
  }

  /** Every element is an `Encode` value whose encoding succeeds. */
  predicate AllEncode(vs: seq<ArgValue>)
  {
    forall i :: 0 <= i < |vs| ==> IsEncode(vs[i]) && TopEncoded(vs[i]).Success?
  }

  /** The raw arguments that pushing each element once would produce. */
  function Encodings(vs: seq<ArgValue>): (r: seq<RawArg>)
    requires AllEncode(vs)
    ensures |r| == |vs|
  {
    seq(|vs|, i requires 0 <= i < |vs| => TopEncoded(vs[i]).value)
  }

  /** An `Encode` value is pushed through its encoding. */
  lemma PushEncodedArg(v: ArgValue, s: Serializer)
    requires IsEncode(v)
    ensures Pushable(v) && PushAsyncArg(v, s) == PushEncoded(v, s)
  {
  }

  /** The encodings from index i on: element i's, then the rest. */
  lemma EncodingsFrom(vs: seq<ArgValue>, i: nat)
    requires AllEncode(vs) && i < |vs|
    ensures Encodings(vs)[i..] == [TopEncoded(vs[i]).value] + Encodings(vs)[i + 1..]
  {
    var r := Encodings(vs);
    assert r[i..] == [r[i]] + r[i + 1..];
  }

  /** Pushing element i's encoding and then the rest appends the encodings from i on. */
  lemma AppendEncodingsFrom(vs: seq<ArgValue>, i: nat, s: seq<RawArg>)
    requires AllEncode(vs) && i < |vs|
    ensures s + [TopEncoded(vs[i]).value] + Encodings(vs)[i + 1..] == s + Encodings(vs)[i..]
  {
    var x := TopEncoded(vs[i]).value;
    EncodingsFrom(vs, i);
    assert s + [x] + Encodings(vs)[i + 1..] == s + ([x] + Encodings(vs)[i + 1..]);
  }

  /**
   * Pushing a list or tuple of encodable elements appends their encodings,
   * one raw argument each, in order.
   */
  lemma {:induction false} PushElemsInOrder(v: ArgValue, i: nat, s: Serializer)
    requires (v.VarArgsValue? || v.MultiValue?) && Pushable(v) && i <= |Elems(v)|
    requires AllEncode(Elems(v))
    ensures PushElems(v, i, s) == Pushed(s + Encodings(Elems(v))[i..], Pass)
    decreases |Elems(v)| - i
  {
    var es := Elems(v);
    if i < |es| {
      var e := es[i];
      var x := TopEncoded(e).value;
      PushElemsStep(v, i, s);
      PushEncodedArg(e, s);
      PushElemsInOrder(v, i + 1, s + [x]);
      AppendEncodingsFrom(es, i, s);
    }
  }

  /** The encodings of the elements before index j succeed, and element j fails to encode. */
  predicate FirstEncodeFailure(vs: seq<ArgValue>, j: int)
  {
    && 0 <= j < |vs|
    && AllEncode(vs[..j])
    && IsEncode(vs[j])
    && TopEncoded(vs[j]).Failure?
  }

  /**
   * A list of encodable elements stops at its first element that fails to
   * encode: the elements before it stay pushed and its error is reported.
   */
  lemma {:induction false} PushElemsStopsAtFirstFailure(v: ArgValue, i: nat, s: Serializer, j: nat)
    requires (v.VarArgsValue? || v.MultiValue?) && Pushable(v) && i <= j
    requires forall m :: 0 <= m < |Elems(v)| ==> IsEncode(Elems(v)[m])
    requires FirstEncodeFailure(Elems(v), j)
    ensures PushElems(v, i, s) ==
              Pushed(s + Encodings(Elems(v)[..j])[i..],
                     Fail(PushAsyncEncodeErr(TopEncoded(Elems(v)[j]).error)))
    decreases |Elems(v)| - i
  {
    var es := Elems(v);
    var e := es[i];
    PushElemsStep(v, i, s);
    if i == j {
      PushEncodedArg(e, s);
      assert Encodings(es[..j])[i..] == [];
    } else {
      var x := TopEncoded(e).value;
      var prefix := es[..j];
      assert prefix[i] == e;
      PushEncodedArg(e, s);
      PushElemsStopsAtFirstFailure(v, i + 1, s + [x], j);
      AppendEncodingsFrom(prefix, i, s);
    }
  }

  /** Arity-checked push of a list: the encodings of all its elements exactly when the length matches. */
  lemma PushExactOutcome(v: ArgValue, s: Serializer, expectedLen: nat)
    requires v.VarArgsValue? && Pushable(v) && AllEncode(v.items)
    ensures var r := PushAsyncArgExact(v, s, expectedLen);
            && (r.status.Pass? <==> |v.items| == expectedLen)
            && (r.status.Pass? ==> r.out == s + Encodings(v.items))
            && (r.status.Fail? ==> r.out == s)
  {
    PushElemsInOrder(v, 0, s);
  }

  /** The scalar value is of the `Decode` type the kind names. */
  predicate OfKind(v: ArgValue, k: ArgKind)
  {
    match k
    case I32Kind => v.I32Value?
    case BytesKind => v.BytesValue?
    case BigIntKind => v.BigIntValue?
    case _ => false
  }

  /** A raw argument pushed from a scalar decodes back to it. */
  lemma ScalarRoundTrip(v: ArgValue, k: ArgKind)
    requires OfKind(v, k)
    ensures ReadsOne(k) && IsEncode(v) && TopEncoded(v).Success?
    ensures DecodeArg(k, TopEncoded(v).value) == Success(v)
  {
    match v
    case I32Value(i) =>
      I32RoundTrip(i);
    case BigIntValue(n) =>
      RoundTrip(n);
    case BytesValue(_) =>
  }

  /**
   * A tuple pushed by `MultiResultN` loads back through `MultiArgN` of the
   * matching component types, leaving any later arguments unread.
   */
  lemma TupleRoundTrip(k: ArgKind, v: ArgValue, rest: seq<RawArg>, id: ArgId)
    requires k.MultiArgKind? && WellFormed(k) && v.MultiValue? && |v.parts| == |k.parts|
    requires forall j :: 0 <= j < |k.parts| ==> OfKind(v.parts[j], k.parts[j])
    ensures AllEncode(v.parts) && Pushable(v)
    ensures PushAsyncArg(v, []) == Pushed(Encodings(v.parts), Pass)
    ensures Load(k, Loader(Encodings(v.parts) + rest), id) == Success(Loaded(v, Loader(rest)))
  {
    forall j | 0 <= j < |k.parts|
      ensures ReadsOne(k.parts[j]) && IsEncode(v.parts[j]) && TopEncoded(v.parts[j]).Success?
      ensures DecodeArg(k.parts[j], TopEncoded(v.parts[j]).value) == Success(v.parts[j])
    {
      ScalarRoundTrip(v.parts[j], k.parts[j]);
    }
    PushElemsInOrder(v, 0, []);
    var args := Encodings(v.parts) + rest;
    MultiLoadsInOrder(k, Loader(args), id);
    assert forall j :: 0 <= j < |k.parts| ==> args[j] == TopEncoded(v.parts[j]).value;
    var r := Load(k, Loader(args), id);
    assert r.value.value.parts == v.parts;
    assert args[|k.parts|..] == rest;
  }

  /** A list pushed by `VarArgs` loads back, element by element, through `VarArgs` of its element type. */
  lemma VarArgsRoundTrip(e: ArgKind, v: ArgValue, id: ArgId)
    requires ReadsOne(e)
    requires v.VarArgsValue? && forall j :: 0 <= j < |v.items| ==> OfKind(v.items[j], e)
    ensures AllEncode(v.items) && Pushable(v)
    ensures PushAsyncArg(v, []) == Pushed(Encodings(v.items), Pass)
    ensures Load(VarArgsKind(e), Loader(Encodings(v.items)), id) == Success(Loaded(v, Loader([])))
  {
    forall j | 0 <= j < |v.items|
      ensures IsEncode(v.items[j]) && TopEncoded(v.items[j]).Success?
      ensures DecodeArg(e, TopEncoded(v.items[j]).value) == Success(v.items[j])
    {
      ScalarRoundTrip(v.items[j], e);
    }
    if |v.items| == 0 {
      assert Encodings(v.items) == [];
      assert v == VarArgsValue([]);
    }
    PushElemsInOrder(v, 0, []);
    var args := Encodings(v.items);
    VarArgsLoadsAll(e, Loader(args), id);
    var r := Load(VarArgsKind(e), Loader(args), id);
    assert r.value.value.items == v.items;
  }

  /**
   * The two-argument call of -300 and 5: each is pushed as its own signed
   * bytes, and the pair loads back unchanged.
   */
  lemma MinusThreeHundredAndFive(id: ArgId)
    ensures var v := MultiValue([BigIntValue(-300), BigIntValue(5)]);
            && Pushable(v)
            && PushAsyncArg(v, []) == Pushed([[0xFE, 0xD4], [0x05]], Pass)
            && Load(MultiArgKind([BigIntKind, BigIntKind]), Loader([[0xFE, 0xD4], [0x05]]), id) ==
                 Success(Loaded(v, Loader([])))
  {
    var v := MultiValue([BigIntValue(-300), BigIntValue(5)]);
    var k := MultiArgKind([BigIntKind, BigIntKind]);
    TupleRoundTrip(k, v, [], id);
    PairEncodings();
    assert Encodings(v.parts) + [] == Encodings(v.parts);
  }

  /** The top-level encodings of -300 and 5. */
  lemma PairEncodings()
    ensures AllEncode([BigIntValue(-300), BigIntValue(5)])
    ensures Encodings([BigIntValue(-300), BigIntValue(5)]) == [[0xFE, 0xD4], [0x05]]
  {
    assert ToBytes(-300) == Digits(-2) + [0xD4] == [0xFE, 0xD4];
    assert ToBytes(5) == [0x05];
    var enc := Encodings([BigIntValue(-300), BigIntValue(5)]);
    assert enc[0] == [0xFE, 0xD4] && enc[1] == [0x05];
  }
}
