/**
 * The argument-loading protocol: typed values pulled one raw argument at a
 * time from the call's argument queue, including the composite wrappers
 * `VarArgs`, `OptionalArg`, `AsyncCallResult` and `MultiArgN`.
 */
module ArgTypes {
  import opened Results
  import opened Errors
  import opened IntSpec
  import opened SignedBytes
  import opened Codec

  /** A raw argument as the host hands it over: top-level encoded bytes. */
  type RawArg = seq<uint8>

  /** `ArgId`: a label that only enriches error messages. */
  type ArgId = seq<uint8>

  /**
   * The argument types: the `Decode` types modelled here (the unit type,
   * `i32`, byte vectors, big integers) and the wrappers built on them.
   * `MultiArgKind` stands for the whole `MultiArg2` .. `MultiArg16` family.
   */
  datatype ArgKind =
    | UnitKind
    | I32Kind
    | BytesKind
    | BigIntKind
    | VarArgsKind(elem: ArgKind)
    | OptionalKind(elem: ArgKind)
    | AsyncResultKind(payload: ArgKind)
    | MultiArgKind(parts: seq<ArgKind>)

  /**
   * Argument values.  Big integers are carried by their logical value, which
   * both backends decode identically.  `EncodedValue` is any other `Encode`
   * type, given by the outcome of its top-level encoding; it is only pushed.
   */
  datatype ArgValue =
    | UnitValue
    | I32Value(i: int32)
    | BytesValue(bytes: seq<uint8>)
    | BigIntValue(n: int)
    | VarArgsValue(items: seq<ArgValue>)
    | OptionalValue(opt: Option<ArgValue>)
    | AsyncOk(result: ArgValue)
    | AsyncErr(code: int32, msg: seq<uint8>)
    | MultiValue(parts: seq<ArgValue>)
    | EncodedValue(encoding: Result<seq<uint8>, EncodeError>)

  /** The argument queue behind a `DynArgLoader`. */
  datatype Loader = Loader(args: seq<RawArg>) {
    /** `has_next`. */
    predicate HasNext()
    {
      |args| > 0
    }
  }

  /** A loaded value and the loader afterwards. */
  datatype Loaded<+T> = Loaded(value: T, rest: Loader)

  /** The types with a blanket `ArgType` through `Decode`. */
  predicate IsDecode(k: ArgKind)
  {
    k.UnitKind? || k.I32Kind? || k.BytesKind? || k.BigIntKind?
  }

  /** `Decode` types other than the unit type, which read one raw argument. */
  predicate ReadsOne(k: ArgKind)
  {
    IsDecode(k) && !k.UnitKind?
  }

  /** Top-level decoding of one raw argument. */
  function DecodeArg(k: ArgKind, raw: RawArg): (r: Result<ArgValue, DecodeError>)
    requires ReadsOne(k)
    ensures k.BytesKind? ==> r == Success(BytesValue(raw))
    ensures k.I32Kind? ==> (r.Success? <==> |raw| <= 4)
    ensures k.I32Kind? && r.Success? ==> r.value.I32Value? && r.value.i == FromBytes(raw)
    ensures k.I32Kind? && r.Failure? ==> r.error == InputTooLong
    ensures k.BigIntKind? ==> r.Success? && r.value.BigIntValue? && FromBytes(raw) == r.value.n
    ensures k.BigIntKind? && Canonical(raw) ==> ToBytes(r.value.n) == raw
  {
    match k
    case I32Kind =>
      (match TopDecodeI32(raw)
       case Success(i) => Success(I32Value(i))
       case Failure(e) => Failure(e))
    case BytesKind => Success(BytesValue(raw))
    case BigIntKind =>
      CanonicalRoundTrip(raw);
      Success(BigIntValue(FromBytes(raw)))
  }

  /** The suffix `rest` is what remains of `l` after its first arguments were taken. */
  predicate Consumed(l: Loader, rest: Loader)
  {
    |rest.args| <= |l.args| && rest.args == l.args[|l.args| - |rest.args|..]
  }

  /** `next_arg`: pops the next raw argument and decodes it; `None` once the queue is empty. */
  function NextArg(l: Loader, k: ArgKind, id: ArgId): (r: Result<Option<Loaded<ArgValue>>, SCError>)
    requires ReadsOne(k)
    ensures (r.Success? && r.value.None?) <==> !l.HasNext()
    ensures r.Success? && r.value.Some? ==> r.value.value.rest.args == l.args[1..]
  {
    if !l.HasNext() then Success(None)
    else
      match DecodeArg(k, l.args[0])
      case Failure(e) => Failure(ArgDecodeErr(id, e))
      case Success(v) => Success(Some(Loaded(v, Loader(l.args[1..]))))
  }

  /**
   * The blanket `ArgType` of a `Decode` type: the unit type loads nothing;
   * any other type takes exactly one raw argument, an exhausted loader is a
   * wrong argument count, and the loader's own errors pass through.
   */
  function LoadDecode(k: ArgKind, l: Loader, id: ArgId): (r: Result<Loaded<ArgValue>, SCError>)
    requires IsDecode(k)
    ensures k.UnitKind? ==> r == Success(Loaded(UnitValue, l))
    ensures !k.UnitKind? && !l.HasNext() ==> r == Failure(Static(ArgWrongNumber))
    ensures !k.UnitKind? && l.HasNext() ==> (r.Success? <==> DecodeArg(k, l.args[0]).Success?)
    ensures !k.UnitKind? && r.Success? ==>
              r.value == Loaded(DecodeArg(k, l.args[0]).value, Loader(l.args[1..]))
    ensures !k.UnitKind? && l.HasNext() && r.Failure? ==>
              NextArg(l, k, id) == Failure(r.error) && r.error == ArgDecodeErr(id, DecodeArg(k, l.args[0]).error)
    ensures r.Success? ==> Consumed(l, r.value.rest)
    ensures r.Success? && !k.UnitKind? ==> |r.value.rest.args| == |l.args| - 1
  {
    if k.UnitKind? then Success(Loaded(UnitValue, l))
    else
      match NextArg(l, k, id)
      case Success(Some(x)) => Success(x)
      case Success(None) => Failure(Static(ArgWrongNumber))
      case Failure(e) => Failure(e)
  }

  /**
   * A successful load of this type from a non-empty queue takes at least one
   * raw argument.  The unit type never does; `OptionalArg` does when its
   * element does; a tuple does when some component does, since every
   * component before it leaves the queue non-empty or has itself consumed.
   */
  predicate Advances(k: ArgKind)
    decreases k, 1, 0
  {
    match k
    case UnitKind => false
    case I32Kind => true
    case BytesKind => true
    case BigIntKind => true
    case VarArgsKind(_) => true
    case OptionalKind(e) => Advances(e)
    case AsyncResultKind(_) => true
    case MultiArgKind(parts) => SomePartAdvances(k, 0)
  }

  /** Some component among `k.parts[i..]` advances. */
  predicate SomePartAdvances(k: ArgKind, i: nat)
    requires k.MultiArgKind?
    decreases k, 0, |k.parts| - i
  {
    i < |k.parts| && (Advances(k.parts[i]) || SomePartAdvances(k, i + 1))
  }

  /**
   * The types whose load terminates: the `VarArgs` loop loads an element only
   * while the queue is non-empty, so the element must advance there (see
   * `NoProgressLoopsForever` for the excluded elements); tuples have arity 2 to 16.
   */
  predicate WellFormed(k: ArgKind)
  {
    match k
    case VarArgsKind(e) => Advances(e) && WellFormed(e)
    case OptionalKind(e) => WellFormed(e)
    case AsyncResultKind(p) => WellFormed(p)
    case MultiArgKind(parts) =>
      && 2 <= |parts| <= 16
      && forall i :: 0 <= i < |parts| ==> WellFormed(parts[i])
    case _ => true
  }

  /** `ArgType::load` for every argument type. */
  function Load(k: ArgKind, l: Loader, id: ArgId): (r: Result<Loaded<ArgValue>, SCError>)
    requires WellFormed(k)
    ensures r.Success? ==> Consumed(l, r.value.rest)
    ensures r.Success? && Advances(k) && l.HasNext() ==> |r.value.rest.args| < |l.args|
    decreases k, 2, 0
  {
    match k
    case VarArgsKind(_) => LoadVarArgs(k, l, id)
    case OptionalKind(_) => LoadOptional(k, l, id)
    case AsyncResultKind(_) => LoadAsyncResult(k, l, id)
    case MultiArgKind(_) => LoadMulti(k, l, id)
    case _ => LoadDecode(k, l, id)
  }

  /**
   * `VarArgs::load`: elements are loaded while the queue is non-empty; the
   * first failing element fails the whole load, and no partial list is kept.
   */
  function LoadVarArgs(k: ArgKind, l: Loader, id: ArgId): (r: Result<Loaded<ArgValue>, SCError>)
    requires k.VarArgsKind? && WellFormed(k)
    ensures !l.HasNext() ==> r == Success(Loaded(VarArgsValue([]), l))
    ensures r.Success? ==> Consumed(l, r.value.rest) && !r.value.rest.HasNext()
    ensures r.Success? ==> r.value.value.VarArgsValue?
    decreases k, 1, |l.args|
  {
    if !l.HasNext() then Success(Loaded(VarArgsValue([]), l))
    else
      match Load(k.elem, l, id)
      case Failure(e) => Failure(e)
      case Success(first) =>
        match LoadVarArgs(k, first.rest, id)
        case Failure(e) => Failure(e)
        case Success(more) =>
          Success(Loaded(VarArgsValue([first.value] + more.value.items), more.rest))
  }

  /** `OptionalArg::load`: absent on an empty queue, otherwise exactly one element. */
  function LoadOptional(k: ArgKind, l: Loader, id: ArgId): (r: Result<Loaded<ArgValue>, SCError>)
    requires k.OptionalKind? && WellFormed(k)
    ensures !l.HasNext() ==> r == Success(Loaded(OptionalValue(None), l))
    ensures l.HasNext() ==> (r.Success? <==> Load(k.elem, l, id).Success?)
    ensures l.HasNext() && r.Success? ==>
              var x := Load(k.elem, l, id).value;
              r.value == Loaded(OptionalValue(Some(x.value)), x.rest)
    ensures l.HasNext() && r.Failure? ==> r.error == Load(k.elem, l, id).error
    decreases k, 1, 0
  {
    if l.HasNext() then
      match Load(k.elem, l, id)
      case Failure(e) => Failure(e)
      case Success(x) => Success(Loaded(OptionalValue(Some(x.value)), x.rest))
    else
      Success(Loaded(OptionalValue(None), l))
  }

  /**
   * `AsyncCallResult::load`: an `i32` code first; 0 loads the payload,
   * anything else loads the error message bytes and keeps the code.
   */
  function LoadAsyncResult(k: ArgKind, l: Loader, id: ArgId): (r: Result<Loaded<ArgValue>, SCError>)
    requires k.AsyncResultKind? && WellFormed(k)
    ensures r.Success? ==> Consumed(l, r.value.rest) && |r.value.rest.args| < |l.args|
    ensures LoadDecode(I32Kind, l, id).Failure? ==> r == Failure(LoadDecode(I32Kind, l, id).error)
    ensures r.Success? ==> (r.value.value.AsyncOk? || r.value.value.AsyncErr?)
    ensures r.Success? && r.value.value.AsyncErr? ==> r.value.value.code != 0
    decreases k, 1, 0
  {
    match LoadDecode(I32Kind, l, id)
    case Failure(e) => Failure(e)
    case Success(c) =>
      if c.value.i == 0 then
        match Load(k.payload, c.rest, id)
        case Failure(e) => Failure(e)
        case Success(x) => Success(Loaded(AsyncOk(x.value), x.rest))
      else
        match LoadDecode(BytesKind, c.rest, id)
        case Failure(e) => Failure(e)
        case Success(m) => Success(Loaded(AsyncErr(c.value.i, m.value.bytes), m.rest))
  }

  /**
   * `MultiArgN::load`: the components in declared order, stopping at the
   * first failure; arguments left over are not an error here.
   */
  function LoadMulti(k: ArgKind, l: Loader, id: ArgId): (r: Result<Loaded<ArgValue>, SCError>)
    requires k.MultiArgKind? && WellFormed(k)
    ensures r.Success? ==> Consumed(l, r.value.rest)
    ensures r.Success? ==> r.value.value.MultiValue? && |r.value.value.parts| == |k.parts|
    ensures r.Success? && Advances(k) && l.HasNext() ==> |r.value.rest.args| < |l.args|
    decreases k, 1, 0
  {
    match LoadParts(k, 0, l, id)
    case Failure(e) => Failure(e)
    case Success(x) => Success(Loaded(MultiValue(x.value), x.rest))
  }

  /** Loads the components `k.parts[i..]` in order. */
  function LoadParts(k: ArgKind, i: nat, l: Loader, id: ArgId): (r: Result<Loaded<seq<ArgValue>>, SCError>)
    requires k.MultiArgKind? && WellFormed(k) && i <= |k.parts|
    ensures r.Success? ==> Consumed(l, r.value.rest) && |r.value.value| == |k.parts| - i
    ensures r.Success? && SomePartAdvances(k, i) && l.HasNext() ==> |r.value.rest.args| < |l.args|
    decreases k, 0, |k.parts| - i
  {
    if i == |k.parts| then Success(Loaded([], l))
    else
      match Load(k.parts[i], l, id)
      case Failure(e) => Failure(e)
      case Success(x) =>
        match LoadParts(k, i + 1, x.rest, id)
        case Failure(e) => Failure(e)
        case Success(xs) => Success(Loaded([x.value] + xs.value, xs.rest))
  }

  /** `check_no_more_args`: a wrong argument count exactly when arguments remain. */
  function CheckNoMoreArgs(l: Loader): (r: Outcome<SCError>)
    ensures r.Fail? <==> |l.args| > 0
    ensures r.Fail? ==> r.error == Static(ArgWrongNumber)
  {
    if l.HasNext() then Fail(Static(ArgWrongNumber)) else Pass
  }

  /**
   * Why `VarArgs` needs an advancing element: loading the unit type succeeds
   * without touching the queue, so a `VarArgs<()>` loop would never end.
   */
  lemma UnitElementMakesNoProgress(l: Loader, id: ArgId)
    requires l.HasNext()
    ensures Load(UnitKind, l, id) == Success(Loaded(UnitValue, l))
    ensures !WellFormed(VarArgsKind(UnitKind))
  {
  }

  /**
   * The excluded `VarArgs` elements are exactly those that loop forever: a
   * well-formed type that does not advance loads successfully and leaves the
   * queue as it was, so `has_next` stays true for ever.
   */
  lemma {:induction false} NoProgressLoopsForever(k: ArgKind, l: Loader, id: ArgId)
    requires WellFormed(k) && !Advances(k)
    ensures Load(k, l, id).Success? && Load(k, l, id).value.rest == l
    ensures !WellFormed(VarArgsKind(k))
    decreases k, 1, 0
  {
    match k
    case UnitKind =>
      assert Load(k, l, id) == LoadDecode(k, l, id);
    case OptionalKind(e) =>
      assert Load(k, l, id) == LoadOptional(k, l, id);
      if l.HasNext() {
        NoProgressLoopsForever(e, l, id);
      }
    case MultiArgKind(_) =>
      assert Load(k, l, id) == LoadMulti(k, l, id);
      PartsStandStill(k, 0, l, id);
  }

  /** Tuple components none of which advances load without consuming anything. */
  lemma {:induction false} PartsStandStill(k: ArgKind, i: nat, l: Loader, id: ArgId)
    requires k.MultiArgKind? && WellFormed(k) && i <= |k.parts| && !SomePartAdvances(k, i)
    ensures LoadParts(k, i, l, id).Success? && LoadParts(k, i, l, id).value.rest == l
    decreases k, 0, |k.parts| - i
  {
    if i < |k.parts| {
      NoProgressLoopsForever(k.parts[i], l, id);
      PartsStandStill(k, i + 1, l, id);
    }
  }

  /** Lists of optional arguments and lists of lists are loadable. */
  lemma NestedListsAreWellFormed()
    ensures WellFormed(VarArgsKind(OptionalKind(I32Kind)))
    ensures WellFormed(VarArgsKind(VarArgsKind(I32Kind)))
    ensures !WellFormed(VarArgsKind(OptionalKind(UnitKind)))
  {
  }

  /** All components of a tuple are `Decode` types that read one raw argument. */
  predicate AllReadOne(k: ArgKind)
    requires k.MultiArgKind?
  {
    forall i :: 0 <= i < |k.parts| ==> ReadsOne(k.parts[i])
  }

  /** Every raw argument decodes as k. */
  predicate AllDecode(k: ArgKind, args: seq<RawArg>)
    requires ReadsOne(k)
  {
    forall i :: 0 <= i < |args| ==> DecodeArg(k, args[i]).Success?
  }

  /**
   * `VarArgs` of a `Decode` type succeeds exactly when every remaining raw
   * argument decodes; it then holds them all, decoded, in their original
   * order, and the loader is exhausted.
   */
  lemma {:induction false} VarArgsLoadsAll(e: ArgKind, l: Loader, id: ArgId)
    requires ReadsOne(e)
    ensures var r := Load(VarArgsKind(e), l, id);
            && (r.Success? <==> AllDecode(e, l.args))
            && (r.Success? ==>
                  && r.value.rest.args == []
                  && |r.value.value.items| == |l.args|
                  && forall i :: 0 <= i < |l.args| ==> DecodeArg(e, l.args[i]) == Success(r.value.value.items[i]))
    decreases |l.args|
  {
    var k := VarArgsKind(e);
    if l.HasNext() {
      var tail := Loader(l.args[1..]);
      VarArgsLoadsAll(e, tail, id);
      assert AllDecode(e, l.args) <==> DecodeArg(e, l.args[0]).Success? && AllDecode(e, tail.args) by {
        if DecodeArg(e, l.args[0]).Success? && AllDecode(e, tail.args) {
          forall i | 0 <= i < |l.args|
            ensures DecodeArg(e, l.args[i]).Success?
          {
            if i > 0 {
              assert l.args[i] == tail.args[i - 1];
            }
          }
        }
      }
    }
  }

  /**
   * A failing `VarArgs` load fails with the error of the first raw argument
   * that does not decode; the elements after it are never looked at.
   */
  lemma {:induction false} VarArgsFailsAtFirstBad(e: ArgKind, l: Loader, id: ArgId)
    requires ReadsOne(e)
    ensures var r := Load(VarArgsKind(e), l, id);
            r.Failure? ==>
              exists j :: && 0 <= j < |l.args|
                          && (forall i :: 0 <= i < j ==> DecodeArg(e, l.args[i]).Success?)
                          && DecodeArg(e, l.args[j]).Failure?
                          && r.error == ArgDecodeErr(id, DecodeArg(e, l.args[j]).error)
    decreases |l.args|
  {
    var r := Load(VarArgsKind(e), l, id);
    if r.Failure? {
      var tail := Loader(l.args[1..]);
      if DecodeArg(e, l.args[0]).Failure? {
        assert DecodeArg(e, l.args[0]).Failure?;
      } else {
        assert Load(e, l, id) == Success(Loaded(DecodeArg(e, l.args[0]).value, tail));
        assert r == LoadVarArgs(VarArgsKind(e), l, id);
        assert r == Load(VarArgsKind(e), tail, id);
        VarArgsFailsAtFirstBad(e, tail, id);
        var j :| && 0 <= j < |tail.args|
                 && (forall i :: 0 <= i < j ==> DecodeArg(e, tail.args[i]).Success?)
                 && DecodeArg(e, tail.args[j]).Failure?
                 && r.error == ArgDecodeErr(id, DecodeArg(e, tail.args[j]).error);
        assert l.args[j + 1] == tail.args[j];
        forall i | 0 <= i < j + 1
          ensures DecodeArg(e, l.args[i]).Success?
        {
          if i > 0 {
            assert l.args[i] == tail.args[i - 1];
          }
        }
      }
    }
  }

  /** `OptionalArg` of a `Decode` type with arguments left takes exactly the next one. */
  lemma OptionalLoadsOne(e: ArgKind, raw: RawArg, rest: seq<RawArg>, id: ArgId)
    requires ReadsOne(e) && DecodeArg(e, raw).Success?
    ensures Load(OptionalKind(e), Loader([raw] + rest), id) ==
              Success(Loaded(OptionalValue(Some(DecodeArg(e, raw).value)), Loader(rest)))
  {
    assert ([raw] + rest)[1..] == rest;
  }

  /** An `AsyncCallResult` whose code argument decodes to 0 loads the payload after it. */
  lemma AsyncResultSuccess(p: ArgKind, codeArg: RawArg, rest: seq<RawArg>, id: ArgId)
    requires WellFormed(p) && TopDecodeI32(codeArg) == Success(0)
    ensures Load(AsyncResultKind(p), Loader([codeArg] + rest), id) ==
              match Load(p, Loader(rest), id)
              case Success(x) => Success(Loaded(AsyncOk(x.value), x.rest))
              case Failure(e) => Failure(e)
  {
    assert ([codeArg] + rest)[1..] == rest;
  }

  /**
   * An `AsyncCallResult` whose code argument decodes to a non-zero code
   * carries that code and the next argument's bytes as the message.
   */
  lemma AsyncResultError(p: ArgKind, codeArg: RawArg, code: int32, rest: seq<RawArg>, id: ArgId)
    requires WellFormed(p) && code != 0 && TopDecodeI32(codeArg) == Success(code)
    ensures var r := Load(AsyncResultKind(p), Loader([codeArg] + rest), id);
            && (|rest| == 0 ==> r == Failure(Static(ArgWrongNumber)))
            && (|rest| > 0 ==> r == Success(Loaded(AsyncErr(code, rest[0]), Loader(rest[1..]))))
  {
    assert ([codeArg] + rest)[1..] == rest;
  }

  /** The raw arguments decode, from the front, as the components `k.parts[i..]`. */
  predicate PartsDecode(k: ArgKind, i: nat, args: seq<RawArg>)
    requires k.MultiArgKind? && AllReadOne(k) && i <= |k.parts|
  {
    && |args| >= |k.parts| - i
    && forall j :: 0 <= j < |k.parts| - i ==> DecodeArg(k.parts[i + j], args[j]).Success?
  }

  /** The values are the decodings of the first raw arguments as the components `k.parts[i..]`. */
  predicate PartsMatch(k: ArgKind, i: nat, args: seq<RawArg>, vals: seq<ArgValue>)
    requires k.MultiArgKind? && AllReadOne(k) && i <= |k.parts|
  {
    && |args| >= |k.parts| - i
    && |vals| == |k.parts| - i
    && forall j :: 0 <= j < |k.parts| - i ==> DecodeArg(k.parts[i + j], args[j]) == Success(vals[j])
  }

  lemma PartsStep(k: ArgKind, i: nat, args: seq<RawArg>, vals: seq<ArgValue>)
    requires k.MultiArgKind? && AllReadOne(k) && i < |k.parts|
    ensures PartsDecode(k, i, args) <==>
              |args| >= 1 && DecodeArg(k.parts[i], args[0]).Success? && PartsDecode(k, i + 1, args[1..])
    ensures |args| >= 1 && |vals| >= 1 ==>
              (PartsMatch(k, i, args, vals) <==>
                 DecodeArg(k.parts[i], args[0]) == Success(vals[0]) && PartsMatch(k, i + 1, args[1..], vals[1..]))
  {
    if |args| >= 1 {
      var t := args[1..];
      assert forall j :: 1 <= j < |args| ==> args[j] == t[j - 1];
      if |args| >= 1 && DecodeArg(k.parts[i], args[0]).Success? && PartsDecode(k, i + 1, t) {
        forall j | 0 <= j < |k.parts| - i
          ensures DecodeArg(k.parts[i + j], args[j]).Success?
        {
          if j > 0 {
            assert k.parts[i + j] == k.parts[(i + 1) + (j - 1)];
          }
        }
      }
      if PartsDecode(k, i, args) {
        forall j | 0 <= j < |k.parts| - (i + 1)
          ensures DecodeArg(k.parts[i + 1 + j], t[j]).Success?
        {
          assert DecodeArg(k.parts[i + (j + 1)], args[j + 1]).Success?;
        }
      }
      if |vals| >= 1 {
        var u := vals[1..];
        if DecodeArg(k.parts[i], args[0]) == Success(vals[0]) && PartsMatch(k, i + 1, t, u) {
          forall j | 0 <= j < |k.parts| - i
            ensures DecodeArg(k.parts[i + j], args[j]) == Success(vals[j])
          {
            if j > 0 {
              assert k.parts[i + j] == k.parts[(i + 1) + (j - 1)];
              assert vals[j] == u[j - 1];
            }
          }
        }
        if PartsMatch(k, i, args, vals) {
          forall j | 0 <= j < |k.parts| - (i + 1)
            ensures DecodeArg(k.parts[i + 1 + j], t[j]) == Success(u[j])
          {
            assert DecodeArg(k.parts[i + (j + 1)], args[j + 1]) == Success(vals[j + 1]);
          }
        }
      }
    }
  }

  /**
   * Loading the components `k.parts[i..]` of a tuple of `Decode` types
   * succeeds exactly when enough raw arguments remain and each decodes as its
   * component; the components are loaded in order and nothing more is taken.
   */
  lemma {:induction false} LoadPartsInOrder(k: ArgKind, i: nat, l: Loader, id: ArgId)
    requires k.MultiArgKind? && WellFormed(k) && AllReadOne(k) && i <= |k.parts|
    ensures var r := LoadParts(k, i, l, id);
            && (r.Success? <==> PartsDecode(k, i, l.args))
            && (r.Success? ==>
                  && r.value.rest.args == l.args[|k.parts| - i..]
                  && PartsMatch(k, i, l.args, r.value.value))
    decreases |k.parts| - i
  {
    var r := LoadParts(k, i, l, id);
    if i < |k.parts| {
      PartsStep(k, i, l.args, if r.Success? then r.value.value else []);
      if l.HasNext() && DecodeArg(k.parts[i], l.args[0]).Success? {
        var tail := Loader(l.args[1..]);
        var x := DecodeArg(k.parts[i], l.args[0]).value;
        assert Load(k.parts[i], l, id) == Success(Loaded(x, tail));
        LoadPartsInOrder(k, i + 1, tail, id);
        if r.Success? {
          var xs := LoadParts(k, i + 1, tail, id).value;
          assert r.value.value == [x] + xs.value;
          assert r.value.value[1..] == xs.value;
          assert tail.args[|k.parts| - (i + 1)..] == l.args[|k.parts| - i..];
        }
      }
    }
  }

  /**
   * Component i + j is the first of `k.parts[i..]` to fail against the raw
   * arguments, with error e: its raw argument is missing or does not decode.
   */
  predicate FirstBadPart(k: ArgKind, i: nat, args: seq<RawArg>, id: ArgId, e: SCError, j: nat)
    requires k.MultiArgKind? && AllReadOne(k)
  {
    && i + j < |k.parts|
    && j <= |args|
    && (forall m :: 0 <= m < j ==> DecodeArg(k.parts[i + m], args[m]).Success?)
    && if j < |args| then
         DecodeArg(k.parts[i + j], args[j]).Failure? && e == ArgDecodeErr(id, DecodeArg(k.parts[i + j], args[j]).error)
       else
         e == Static(ArgWrongNumber)
  }

  /**
   * A failing tuple load fails at its first failing component: the ones
   * before it loaded, and the error is that component's own (its raw argument
   * missing, or not decoding).
   */
  lemma {:induction false} LoadPartsFailsAtFirstBad(k: ArgKind, i: nat, l: Loader, id: ArgId)
    requires k.MultiArgKind? && WellFormed(k) && AllReadOne(k) && i <= |k.parts|
    ensures var r := LoadParts(k, i, l, id);
            r.Failure? ==> exists j :: FirstBadPart(k, i, l.args, id, r.error, j)
    decreases |k.parts| - i
  {
    var r := LoadParts(k, i, l, id);
    if r.Failure? {
      if !l.HasNext() || DecodeArg(k.parts[i], l.args[0]).Failure? {
        assert Load(k.parts[i], l, id) == LoadDecode(k.parts[i], l, id);
        assert r.error == Load(k.parts[i], l, id).error;
        assert k.parts[i + 0] == k.parts[i];
        assert FirstBadPart(k, i, l.args, id, r.error, 0);
      } else {
        var tail := Loader(l.args[1..]);
        var x := DecodeArg(k.parts[i], l.args[0]).value;
        assert Load(k.parts[i], l, id) == Success(Loaded(x, tail));
        assert r == LoadParts(k, i + 1, tail, id);
        LoadPartsFailsAtFirstBad(k, i + 1, tail, id);
        var j: nat :| FirstBadPart(k, i + 1, tail.args, id, r.error, j);
        FirstBadPartShift(k, i, l.args, id, r.error, j);
      }
    }
  }

  /** A first bad component found after a decoding argument is still the first one, one place further on. */
  lemma FirstBadPartShift(k: ArgKind, i: nat, args: seq<RawArg>, id: ArgId, e: SCError, j: nat)
    requires k.MultiArgKind? && AllReadOne(k) && i < |k.parts| && |args| >= 1
    requires DecodeArg(k.parts[i], args[0]).Success?
    requires FirstBadPart(k, i + 1, args[1..], id, e, j)
    ensures FirstBadPart(k, i, args, id, e, j + 1)
  {
    var tail := args[1..];
    if j < |tail| {
      assert args[j + 1] == tail[j];
    }
    forall m | 0 <= m < j + 1
      ensures DecodeArg(k.parts[i + m], args[m]).Success?
    {
      if m > 0 {
        assert args[m] == tail[m - 1];
        assert k.parts[i + m] == k.parts[i + 1 + (m - 1)];
      }
    }
    assert k.parts[i + (j + 1)] == k.parts[i + 1 + j];
  }

  /**
   * A failing `MultiArgN` load reports the error of its first component that
   * has no raw argument or does not decode; every earlier component decoded.
   */
  lemma MultiFailsAtFirstBad(k: ArgKind, l: Loader, id: ArgId)
    requires k.MultiArgKind? && WellFormed(k) && AllReadOne(k)
    ensures var r := Load(k, l, id);
            r.Failure? ==> exists j :: FirstBadPart(k, 0, l.args, id, r.error, j)
  {
    LoadPartsFailsAtFirstBad(k, 0, l, id);
  }

  /**
   * `MultiArgN` of `Decode` types: success exactly when the first N raw
   * arguments decode as the N components, which it then holds in order;
   * any further arguments are left in the loader.
   */
  lemma MultiLoadsInOrder(k: ArgKind, l: Loader, id: ArgId)
    requires k.MultiArgKind? && WellFormed(k) && AllReadOne(k)
    ensures var r := Load(k, l, id);
            var n := |k.parts|;
            && (r.Success? <==>
                  |l.args| >= n && forall j :: 0 <= j < n ==> DecodeArg(k.parts[j], l.args[j]).Success?)
            && (r.Success? ==>
                  && r.value.rest.args == l.args[n..]
                  && forall j :: 0 <= j < n ==> DecodeArg(k.parts[j], l.args[j]) == Success(r.value.value.parts[j]))
  {
    LoadPartsInOrder(k, 0, l, id);
    assert forall j :: 0 <= j < |k.parts| ==> k.parts[0 + j] == k.parts[j];
  }

  /**
   * A tuple load followed by `check_no_more_args` succeeds exactly when the
   * call supplied N arguments: one extra argument passes the tuple load and is
   * only reported by the check.
   */
  lemma TupleThenCheck(k: ArgKind, l: Loader, id: ArgId)
    requires k.MultiArgKind? && WellFormed(k) && AllReadOne(k)
    requires |l.args| >= |k.parts|
    requires forall j :: 0 <= j < |k.parts| ==> DecodeArg(k.parts[j], l.args[j]).Success?
    ensures Load(k, l, id).Success?
    ensures CheckNoMoreArgs(Load(k, l, id).value.rest).Pass? <==> |l.args| == |k.parts|
  {
    MultiLoadsInOrder(k, l, id);
  }
}
