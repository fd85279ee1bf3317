/** The two `unpackb`: what they make of a packed value, of one with more behind it, and of a beginning of one. */
module WholeInputs {
  import opened ByteStrings
  import opened Values
  import opened Decoder
  import opened Machine
  import opened OtherLimits
  import opened Limits
  import opened Refinement
  import opened Encoder
  import Nesting
  import opened RoundTrips

  /** What `unpackb` comes back with: the object, ExtraData with the bytes behind it, or another exception. */
  datatype Unpacked = Object(v: Value) | ExtraData(v: Value, extra: Bytes) | Refused(e: Error)

  /** The object at the start of an input and what is behind it. */
  function Ends(v: Value, extra: Bytes): Unpacked {
    if extra == [] then Object(v) else ExtraData(v, extra)
  }

  /** The limits the `Unpacker` of the fallback derives from `max_buffer_size=len(packed)`; zero stands for 2^31 - 1. */
  function BufferLimit(packed: Bytes): nat {
    if packed == [] then 0x7fff_ffff else |packed|
  }

  /** `unpackb` of `fallback.py`; incomplete input is a ValueError. */
  function UnpackbF(o: Options, l: Derived, packed: Bytes, depth: nat): Unpacked
    requires o.checkNanos
  {
    match Decode(Automatic(o, l, BufferLimit(packed)), true, packed, 0, depth)
    case Done(v, q) => Ends(v, packed[q..])
    case NeedMore => Refused(ValueError)
    case Fail(e) => Refused(e)
  }

  /** `unpackb` of `_unpacker.pyx`: one run over the input. */
  ghost function UnpackbC(o: Options, l: Derived, packed: Bytes): Unpacked
    requires Modelled(Automatic(o, l, |packed|))
  {
    InitialIsLegal(true);
    match Run(Automatic(o, l, |packed|), true, INITIAL, packed, 0)
    case Returned(v, q) => Ends(v, packed[q..])
    case Suspended(_, _) => Refused(ValueError)
    case Broken(e, _) => Refused(e)
  }

  // ---------- the two agree ----------

  lemma NothingToDecode(o: Options, depth: nat)
    ensures Decode(o, true, [], 0, depth) == NeedMore
  {
  }

  /**
   * What the Python function returns, the C function returns, ExtraData included, whatever recursion the interpreter
   * allows up to the size of the C stack; and with that much, only that, where timestamps are refused alike.
   */
  lemma UnpackbAgree(o: Options, l: Derived, packed: Bytes, depth: nat)
    requires o.checkNanos && Modelled(Automatic(o, l, |packed|)) && depth <= STACK_SIZE
    ensures !UnpackbF(o, l, packed, depth).Refused? ==> UnpackbC(o, l, packed) == UnpackbF(o, l, packed, depth)
    ensures SameTimestamps(Automatic(o, l, |packed|)) ==>
              (UnpackbC(o, l, packed).Refused? <==> UnpackbF(o, l, packed, STACK_SIZE).Refused?)
  {
    hide Run, Decode, Automatic;
    var a := Automatic(o, l, |packed|);
    ObjectSimulates(a, true, [], packed, 0);
    if Decode(a, true, packed, 0, depth).Done? {
      DeeperIsTheSame(a, true, packed, 0, depth, STACK_SIZE);
    }
    if packed == [] {
      NothingToDecode(Automatic(o, l, BufferLimit(packed)), depth);
      NothingToDecode(Automatic(o, l, BufferLimit(packed)), STACK_SIZE);
      NothingToDecode(a, STACK_SIZE);
    }
  }

  // ---------- packed values ----------

  lemma DecodeMovesOn(o: Options, s: Bytes, depth: nat)
    ensures match Decode(o, true, s, 0, depth)
            case Done(_, q) => 0 < q <= |s|
            case _ => true
  {
  }

  lemma PackedDecodes(o: Options, l: Derived, useBin: bool, v: Value, rest: Bytes, depth: nat)
    requires Fits(o, useBin, v) && EncodeC(useBin, v, NEST_LIMIT).Ok? && 512 <= depth
    ensures var b := EncodeC(useBin, v, NEST_LIMIT).value;
            && b != []
            && Decode(Automatic(o, l, |b + rest|), true, b + rest, 0, depth) == Done(Seen(o, useBin, v), |b|)
  {
    hide Decode, EncodeC, Automatic;
    var b := EncodeC(useBin, v, NEST_LIMIT).value;
    assert (b + rest)[0..|b|] == b;
    Nesting.PackedDepth(useBin, v);
    ValueRoundTrip(o, useBin, v, NEST_LIMIT, b + rest, 0, depth);
    AutomaticLimitsLoseNothing(o, l, b + rest, 0, depth);
    DecodeMovesOn(o, b + rest, depth);
  }

  /**
   * `unpackb(packb(v)) == v`, up to how the options show strings, bytes and timestamps, and with ExtraData for
   * whatever is behind: limits derived from the input let all of it through, with either decoder.
   */
  lemma PackbThenUnpackb(o: Options, l: Derived, useBin: bool, v: Value, rest: Bytes, depth: nat)
    requires o.checkNanos && Fits(o, useBin, v) && EncodeC(useBin, v, NEST_LIMIT).Ok? && 512 <= depth
    ensures var s := EncodeC(useBin, v, NEST_LIMIT).value + rest;
            && UnpackbF(o, l, s, depth) == Ends(Seen(o, useBin, v), rest)
            && (Modelled(Automatic(o, l, |s|)) ==> UnpackbC(o, l, s) == Ends(Seen(o, useBin, v), rest))
  {
    hide Run, Decode, EncodeC, Automatic;
    var b := EncodeC(useBin, v, NEST_LIMIT).value;
    var s := b + rest;
    assert s[|b|..] == rest;
    var w := Seen(o, useBin, v);
    PackedDecodes(o, l, useBin, v, rest, depth);
    PackedDecodes(o, l, useBin, v, rest, STACK_SIZE);
    if Modelled(Automatic(o, l, |s|)) {
      MachineComputesDecode(Automatic(o, l, |s|), s, 0, w, |b|);
    }
  }

  // ---------- beginnings of packed values ----------

  lemma DecodeOnPrefix(o: Options, s: Bytes, n: nat, depth: nat)
    requires n < |s|
    ensures match Decode(o, true, s, 0, depth)
            case Done(_, q) => q == |s| ==> Decode(o, true, s[..n], 0, depth) == NeedMore
            case _ => true
  {
    hide Decode;
    assert s[..n] + s[n..] == s;
    DecodeIsLocal(o, true, s[..n], 0, depth, s[n..]);
    DecodeMovesOn(o, s[..n], depth);
  }

  lemma RunStaysInside(o: Options, s: Bytes)
    requires Modelled(o)
    ensures match Run(o, true, INITIAL, s, 0)
            case Returned(_, q) => q <= |s|
            case _ => true
  {
  }

  lemma RunOnPrefix(o: Options, s: Bytes, n: nat)
    requires Modelled(o) && n < |s|
    ensures match Run(o, true, INITIAL, s, 0)
            case Returned(_, q) => q == |s| ==> Run(o, true, INITIAL, s[..n], 0).Suspended?
            case _ => true
  {
    hide Run;
    assert s[..n] + s[n..] == s;
    Resume(o, true, INITIAL, s[..n], 0, s[n..]);
    RunStaysInside(o, s[..n]);
  }

  /**
   * Prefix-freeness, streaming: on a proper prefix of a packed value that the options let through, both decoders
   * wait for more bytes and do nothing else.
   */
  lemma ProperPrefixNeedsMore(o: Options, useBin: bool, v: Value, nest: int, n: nat, depth: nat)
    requires Fits(o, useBin, v) && EncodeC(useBin, v, nest).Ok? && n < |EncodeC(useBin, v, nest).value|
    ensures var b := EncodeC(useBin, v, nest).value;
            && (Nesting.Depth(v) <= depth ==> Decode(o, true, b[..n], 0, depth) == NeedMore)
            && (Nesting.Depth(v) <= STACK_SIZE && Modelled(o) ==> Run(o, true, INITIAL, b[..n], 0).Suspended?)
  {
    hide Run, Decode, EncodeC;
    var b := EncodeC(useBin, v, nest).value;
    assert b[0..|b|] == b;
    if Nesting.Depth(v) <= depth {
      ValueRoundTrip(o, useBin, v, nest, b, 0, depth);
      DecodeOnPrefix(o, b, n, depth);
    }
    if Nesting.Depth(v) <= STACK_SIZE && Modelled(o) {
      ValueRoundTrip(o, useBin, v, nest, b, 0, STACK_SIZE);
      MachineComputesDecode(o, b, 0, Seen(o, useBin, v), |b|);
      RunOnPrefix(o, b, n);
    }
  }

  /**
   * Prefix-freeness, whole inputs: `unpackb` of a proper prefix of a packed value is a ValueError, never an object,
   * ExtraData or FormatError, although its limits are derived from the prefix and may meet the value first.
   */
  lemma UnpackbRefusesPrefixes(o: Options, l: Derived, useBin: bool, v: Value, n: nat, depth: nat)
    requires o.checkNanos && Fits(o, useBin, v) && EncodeC(useBin, v, NEST_LIMIT).Ok? && 512 <= depth
    requires n < |EncodeC(useBin, v, NEST_LIMIT).value|
    ensures var b := EncodeC(useBin, v, NEST_LIMIT).value;
            && UnpackbF(o, l, b[..n], depth) == Refused(ValueError)
            && (Modelled(Automatic(o, l, |b|)) ==>
                  Modelled(Automatic(o, l, n)) && UnpackbC(o, l, b[..n]) == Refused(ValueError))
  {
    hide Run, Decode, EncodeC;
    var b := EncodeC(useBin, v, NEST_LIMIT).value;
    var a := Automatic(o, l, |b|);
    assert b + [] == b;
    PackedDecodes(o, l, useBin, v, [], depth);
    DecodeOnPrefix(a, b, n, depth);
    DecodeUnderOtherLimits(Automatic(o, l, BufferLimit(b[..n])), a, true, b[..n], 0, depth);
    if Modelled(a) {
      PackedDecodes(o, l, useBin, v, [], STACK_SIZE);
      MachineComputesDecode(a, b, 0, Seen(o, useBin, v), |b|);
      RunOnPrefix(a, b, n);
      InitialIsLegal(true);
      RunUnderOtherLimits(Automatic(o, l, n), a, true, INITIAL, b[..n], 0);
    }
  }
}
