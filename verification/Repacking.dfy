/** Which values decoding produces, and what packing makes of them, whoever wrote the bytes. */
module Repacking {
  import opened ByteStrings
  import opened Timestamps
  import opened Values
  import opened Decoder
  import opened OtherLimits
  import opened Encoder
  import opened Nesting
  import opened RoundTrips

  /** Integers of the wire format, unless timestamps with 64-bit seconds are decoded as nanoseconds. */
  predicate SmallIntegers(o: Options) {
    !o.timestampAsInt || o.maxExt < 12
  }

  /** Whatever was stored as raw and is decoded as bytes may be stored as bin. */
  predicate RawFitsBin(o: Options) {
    !o.raw || o.maxStr <= o.maxBin || o.maxBin >= 0xffff_ffff
  }

  /** Integers of 64 bits, and nanoseconds of the largest timestamps. */
  predicate DecodableInt(o: Options, i: int) {
    || -TWO_TO_THE_63 <= i < TWO_TO_THE_64
    || (!SmallIntegers(o) &&
        -TWO_TO_THE_63 * GIGA <= i < TWO_TO_THE_63 * GIGA + if o.checkNanos then 0 else TWO_TO_THE_32 - GIGA)
  }

  /** The values the decoder can produce: within the limits, and with hashable, distinct and allowed keys. */
  ghost predicate Built(o: Options, v: Value, depth: nat)
    decreases v, 0
  {
    match v
    case Int(i) => DecodableInt(o, i)
    case Str(b) => !o.raw && o.isUtf8(b) && |b| <= o.maxStr && |b| < TWO_TO_THE_32
    case Bin(b) => (|b| <= o.maxBin || (o.raw && |b| <= o.maxStr)) && |b| < TWO_TO_THE_32
    case Ext(_, b) => |b| <= o.maxExt && |b| < TWO_TO_THE_32
    case Time(t) => !o.timestampAsInt && ToBytes(t).Some? && |ToBytes(t).value| <= o.maxExt
    case Arr(items) => depth > 0 && |items| <= o.maxArray && |items| < TWO_TO_THE_32 && BuiltItems(o, items, depth - 1)
    case Map(pairs) =>
      depth > 0 && |pairs| <= o.maxMap && |pairs| < TWO_TO_THE_32 && IsDict(pairs) && BuiltPairs(o, pairs, depth - 1)
    case _ => true
  }

  ghost predicate BuiltItems(o: Options, items: seq<Value>, depth: nat)
    decreases items, 1
  {
    items == [] || (Built(o, items[0], depth) && BuiltItems(o, items[1..], depth))
  }

  ghost predicate BuiltPair(o: Options, pair: Pair, depth: nat)
    decreases pair, 1
  {
    Built(o, pair.key, depth) && Built(o, pair.value, depth) && KeyAllowed(o, pair.key)
  }

  ghost predicate BuiltPairs(o: Options, pairs: seq<Pair>, depth: nat)
    decreases pairs, 1
  {
    pairs == [] || (BuiltPair(o, pairs[0], depth) && BuiltPairs(o, pairs[1..], depth))
  }

  // ---------- what is decoded is built ----------

  /** What the limits and the widths of the wire format say of a header. */
  ghost predicate Bounded(o: Options, t: Token) {
    match t
    case Immediate(v) => !v.Arr? && !v.Map? && !v.Str? && !v.Bin? && !v.Ext? && !v.Time? && Built(o, v, 0)
    case RawBody(b) => |b| <= o.maxStr && |b| < TWO_TO_THE_32
    case BinBody(b) => |b| <= o.maxBin && |b| < TWO_TO_THE_32
    case ExtBody(_, b) => |b| <= o.maxExt && |b| < TWO_TO_THE_32
    case ArrayOf(n) => n <= o.maxArray && n < TWO_TO_THE_32
    case MapOf(n) => n <= o.maxMap && n < TWO_TO_THE_32
  }

  lemma NumberIsBounded(o: Options, b: Byte, bytes: Bytes)
    requires 0xca <= b <= 0xd3 && |bytes| == NumberWidth(b)
    ensures Bounded(o, Immediate(NumberOf(o, b, bytes)))
  {
    hide Load;
    LoadBound(bytes);
    Pow256Values();
  }

  lemma LengthBounded(s: Bytes, q: nat, w: nat)
    requires q + w <= |s| && (w == 1 || w == 2 || w == 4)
    ensures Load(s[q..q + w]) < TWO_TO_THE_32
  {
    LoadBound(s[q..q + w]);
    Pow256Values();
  }

  lemma FixExtIsBounded(o: Options, s: Bytes, q: nat, b: Byte)
    requires q <= |s| && 0xd4 <= b <= 0xd8
    ensures ReadSized(o, s, q, b).Done? ==> Bounded(o, ReadSized(o, s, q, b).value)
  {
  }

  lemma LengthIsBounded(o: Options, s: Bytes, q: nat, b: Byte)
    requires q <= |s| && (0xc4 <= b <= 0xc9 || 0xd9 <= b <= 0xdf)
    ensures ReadSized(o, s, q, b).Done? ==> Bounded(o, ReadSized(o, s, q, b).value)
  {
    hide Load, Built;
    var w := if b == 0xc4 || b == 0xc7 || b == 0xd9 then 1
             else if b == 0xc5 || b == 0xc8 || b == 0xda || b == 0xdc || b == 0xde then 2 else 4;
    if q + w <= |s| {
      LengthBounded(s, q, w);
    }
  }

  lemma SizedIsBounded(o: Options, s: Bytes, q: nat, b: Byte)
    requires q <= |s| && 0xc4 <= b <= 0xdf
    ensures ReadSized(o, s, q, b).Done? ==> Bounded(o, ReadSized(o, s, q, b).value)
  {
    hide Load, NumberOf, Bounded, BodyAt;
    if 0xca <= b <= 0xd3 {
      if q + NumberWidth(b) <= |s| {
        NumberIsBounded(o, b, s[q..q + NumberWidth(b)]);
      }
    } else if 0xd4 <= b <= 0xd8 {
      FixExtIsBounded(o, s, q, b);
    } else {
      LengthIsBounded(o, s, q, b);
    }
  }

  lemma HeaderIsBounded(o: Options, s: Bytes, p: nat)
    requires p <= |s|
    ensures ReadHeader(o, s, p).Done? ==> Bounded(o, ReadHeader(o, s, p).value)
  {
    hide ReadSized;
    if p < |s| && 0xc4 <= s[p] <= 0xdf {
      SizedIsBounded(o, s, p + 1, s[p]);
    }
  }

  /** Nanoseconds of the shorter timestamps fit into 64 bits, checked or not. */
  lemma TimestampIsBuilt(o: Options, b: Bytes, depth: nat)
    requires |b| <= o.maxExt
    ensures BuildTimestamp(o, b).Ok? ==> Built(o, BuildTimestamp(o, b).value, depth)
  {
    hide ToBytes, Load;
    LoadBound(b);
    Pow256Values();
    if |b| == 12 {
      LoadBound(b[..4]);
      LoadBound(b[4..]);
    }
    if FromBytes(b).Some? {
      ShortestPayload(b);
    }
  }

  lemma TokenIsBuilt(o: Options, t: Token, depth: nat)
    requires !t.ArrayOf? && !t.MapOf? && Bounded(o, t)
    ensures Build(o, t).Ok? ==> Built(o, Build(o, t).value, depth)
  {
    hide BuildTimestamp;
    match t
    case ExtBody(code, b) => if code == -1 { TimestampIsBuilt(o, b, depth); }
    case _ =>
  }

  lemma {:induction false} ItemIsBuilt(o: Options, items: seq<Value>, v: Value, depth: nat)
    requires BuiltItems(o, items, depth) && Built(o, v, depth)
    ensures BuiltItems(o, items + [v], depth)
  {
    hide Built;
    if items == [] {
    } else {
      ItemIsBuilt(o, items[1..], v, depth);
      assert (items + [v])[1..] == items[1..] + [v];
    }
  }

  lemma {:induction false} EntryIsBuilt(o: Options, d: seq<Pair>, k: Value, v: Value, depth: nat)
    requires BuiltPairs(o, d, depth) && BuiltPair(o, Pair(k, v), depth)
    ensures BuiltPairs(o, DictSet(d, k, v), depth)
  {
    hide Built, KeyAllowed, SameKey;
    if d == [] {
    } else if SameKey(d[0].key, k) {
      assert ([Pair(d[0].key, v)] + d[1..])[1..] == d[1..];
    } else {
      EntryIsBuilt(o, d[1..], k, v, depth);
      assert ([d[0]] + DictSet(d[1..], k, v))[1..] == DictSet(d[1..], k, v);
    }
  }

  lemma EmptyIsDict()
    ensures IsDict([])
  {
  }

  /** Whatever the decoder returns is within its limits, and every dict in it, at any depth, is a dict. */
  lemma {:induction false} DecodedIsBuilt(o: Options, s: Bytes, p: nat, depth: nat)
    requires p <= |s|
    ensures var r := Decode(o, true, s, p, depth); r.Done? ==> Built(o, r.value, depth)
    decreases |s| - p, 0, 0
  {
    hide ReadHeader, Build, IsDict;
    HeaderIsBounded(o, s, p);
    match ReadHeader(o, s, p)
    case Done(ArrayOf(n), q) => if depth > 0 { ItemsAreBuilt(o, s, q, n, depth - 1, []); }
    case Done(MapOf(n), q) => if depth > 0 { EmptyIsDict(); PairsAreBuilt(o, s, q, n, depth - 1, []); }
    case Done(t, q) => TokenIsBuilt(o, t, depth);
    case _ =>
  }

  lemma {:induction false} ItemsAreBuilt(o: Options, s: Bytes, p: nat, n: nat, depth: nat, acc: seq<Value>)
    requires p <= |s| && BuiltItems(o, acc, depth)
    ensures var r := DecodeItems(o, true, s, p, n, depth, acc);
            r.Done? ==> |r.value| == |acc| + n && BuiltItems(o, r.value, depth)
    decreases |s| - p, 1, n
  {
    hide Decode, Built;
    if n == 0 {
    } else {
      DecodedIsBuilt(o, s, p, depth);
      match Decode(o, true, s, p, depth)
      case Done(v, q) =>
        ItemIsBuilt(o, acc, v, depth);
        ItemsAreBuilt(o, s, q, n - 1, depth, acc + [v]);
      case _ =>
    }
  }

  lemma {:induction false} PairsAreBuilt(o: Options, s: Bytes, p: nat, n: nat, depth: nat, d: seq<Pair>)
    requires p <= |s| && BuiltPairs(o, d, depth) && IsDict(d)
    ensures var r := DecodePairs(o, true, s, p, n, depth, d);
            r.Done? ==> |r.value| <= |d| + n && BuiltPairs(o, r.value, depth) && IsDict(r.value)
    decreases |s| - p, 1, n
  {
    hide Decode, Built, DictSet, KeyAllowed, Hashable, IsDict;
    if n == 0 {
    } else {
      DecodedIsBuilt(o, s, p, depth);
      match Decode(o, true, s, p, depth)
      case Done(k, q) =>
        DecodedIsBuilt(o, s, q, depth);
        match Decode(o, true, s, q, depth) {
          case Done(v, r) =>
            if KeyAllowed(o, k) && Hashable(k) {
              EntryIsBuilt(o, d, k, v, depth);
              DictSetLookup(d, k, v);
              PairsAreBuilt(o, s, r, n - 1, depth, DictSet(d, k, v));
            }
          case _ =>
        }
      case _ =>
    }
  }

  // ---------- what is built can be packed ----------

  /** A value that is packed to bytes that decode to `v`: integers with no wire format of their own were timestamps. */
  function Source(v: Value): Value
    decreases v, 0
  {
    match v
    case Int(i) => if -TWO_TO_THE_63 <= i < TWO_TO_THE_64 then v else Time(FromUnixNano(i))
    case Arr(items) => Arr(SourceItems(items))
    case Map(pairs) => Map(SourcePairs(pairs))
    case _ => v
  }

  function SourceItems(items: seq<Value>): (r: seq<Value>)
    decreases items, 1
    ensures |r| == |items|
  {
    if items == [] then [] else [Source(items[0])] + SourceItems(items[1..])
  }

  function SourcePair(pair: Pair): Pair
    decreases pair, 1
  {
    Pair(Source(pair.key), Source(pair.value))
  }

  function SourcePairs(pairs: seq<Pair>): (r: seq<Pair>)
    decreases pairs, 1
    ensures |r| == |pairs|
  {
    if pairs == [] then [] else [SourcePair(pairs[0])] + SourcePairs(pairs[1..])
  }

  /** The decoders for which every built value has such a source: timestamps do not show overlong nanoseconds. */
  predicate HasSources(o: Options) {
    o.checkNanos || SmallIntegers(o)
  }

  lemma LargeIntHasSource(o: Options, useBin: bool, i: int)
    requires DecodableInt(o, i) && !(-TWO_TO_THE_63 <= i < TWO_TO_THE_64) && HasSources(o)
    ensures var w := Time(FromUnixNano(i)); Encodable(w) && Fits(o, useBin, w) && Seen(o, useBin, w) == Int(i)
  {
    hide ToBytes;
    UnixNanoInverse(FromUnixNano(i), i);
    PayloadLength(FromUnixNano(i));
  }

  /**
   * The source of a built value can be packed, as bin or else as raw, passes the limits, shows as the value, and nests
   * no deeper than that was allowed to.
   */
  lemma {:induction false} SourceFits(o: Options, v: Value, depth: nat)
    requires Built(o, v, depth) && HasSources(o)
    ensures var w, useBin := Source(v), RawFitsBin(o);
            Encodable(w) && Fits(o, useBin, w) && Seen(o, useBin, w) == v && Depth(w) <= depth
    decreases v, 0
  {
    hide ToBytes;
    match v
    case Int(i) => if !(-TWO_TO_THE_63 <= i < TWO_TO_THE_64) { LargeIntHasSource(o, RawFitsBin(o), i); }
    case Time(t) => RoundTrip(t);
    case Arr(items) => SourceItemsFit(o, items, depth - 1);
    case Map(pairs) => SourcePairsFit(o, pairs, depth - 1);
    case _ =>
  }

  lemma {:induction false} SourceItemsFit(o: Options, items: seq<Value>, depth: nat)
    requires BuiltItems(o, items, depth) && HasSources(o)
    ensures var ws, useBin := SourceItems(items), RawFitsBin(o);
            EncodableItems(ws) && FitsItems(o, useBin, ws) && SeenItems(o, useBin, ws) == items && DepthItems(ws) <= depth
    decreases items, 1
  {
    hide RawFitsBin, Source, Built;
    if items == [] {
    } else {
      SourceFits(o, items[0], depth);
      SourceItemsFit(o, items[1..], depth);
      assert SourceItems(items)[1..] == SourceItems(items[1..]);
    }
  }

  lemma {:induction false} SourcePairFits(o: Options, pair: Pair, depth: nat)
    requires BuiltPair(o, pair, depth) && HasSources(o)
    ensures var w, useBin := SourcePair(pair), RawFitsBin(o);
            EncodablePair(w) && FitsPair(o, useBin, w) && SeenPair(o, useBin, w) == pair && DepthPair(w) <= depth
    decreases pair, 1
  {
    hide RawFitsBin, Source, Built, KeyAllowed;
    SourceFits(o, pair.key, depth);
    SourceFits(o, pair.value, depth);
  }

  lemma {:induction false} SourcePairsFit(o: Options, pairs: seq<Pair>, depth: nat)
    requires BuiltPairs(o, pairs, depth) && HasSources(o)
    ensures var ws, useBin := SourcePairs(pairs), RawFitsBin(o);
            EncodablePairs(ws) && FitsPairs(o, useBin, ws) && SeenPairs(o, useBin, ws) == pairs && DepthPairs(ws) <= depth
    decreases pairs, 1
  {
    hide RawFitsBin, SourcePair, BuiltPair;
    if pairs == [] {
    } else {
      SourcePairFits(o, pairs[0], depth);
      SourcePairsFit(o, pairs[1..], depth);
      assert SourcePairs(pairs)[1..] == SourcePairs(pairs[1..]);
    }
  }

  /** Without large integers a built value is its own source. */
  lemma {:induction false} SourceIsItself(o: Options, v: Value, depth: nat)
    requires Built(o, v, depth) && SmallIntegers(o)
    ensures Source(v) == v
    decreases v, 0
  {
    match v
    case Arr(items) => SourceItemsAreThemselves(o, items, depth - 1);
    case Map(pairs) => SourcePairsAreThemselves(o, pairs, depth - 1);
    case _ =>
  }

  lemma {:induction false} SourceItemsAreThemselves(o: Options, items: seq<Value>, depth: nat)
    requires BuiltItems(o, items, depth) && SmallIntegers(o)
    ensures SourceItems(items) == items
    decreases items, 1
  {
    if items == [] {
    } else {
      SourceIsItself(o, items[0], depth);
      SourceItemsAreThemselves(o, items[1..], depth);
    }
  }

  lemma {:induction false} SourcePairIsItself(o: Options, pair: Pair, depth: nat)
    requires BuiltPair(o, pair, depth) && SmallIntegers(o)
    ensures SourcePair(pair) == pair
    decreases pair, 1
  {
    SourceIsItself(o, pair.key, depth);
    SourceIsItself(o, pair.value, depth);
  }

  lemma {:induction false} SourcePairsAreThemselves(o: Options, pairs: seq<Pair>, depth: nat)
    requires BuiltPairs(o, pairs, depth) && SmallIntegers(o)
    ensures SourcePairs(pairs) == pairs
    decreases pairs, 1
  {
    if pairs == [] {
    } else {
      SourcePairIsItself(o, pairs[0], depth);
      SourcePairsAreThemselves(o, pairs[1..], depth);
    }
  }

  // ---------- consequences ----------

  /** What is decoded, from whoever's bytes, has a wire format of its own unless it holds a large integer. */
  lemma DecodedIsEncodable(o: Options, s: Bytes, p: nat, depth: nat)
    requires p <= |s| && SmallIntegers(o) && Decode(o, true, s, p, depth).Done?
    ensures Encodable(Decode(o, true, s, p, depth).value)
  {
    hide Decode, Built;
    var v := Decode(o, true, s, p, depth).value;
    DecodedIsBuilt(o, s, p, depth);
    SourceFits(o, v, depth);
    SourceIsItself(o, v, depth);
  }

  ghost predicate DecodesAgain(o: Options, v: Value, packed: Outcome<Bytes>, depth: nat, rest: Bytes) {
    packed.Ok? && Decode(o, true, packed.value + rest, 0, depth) == Done(v, |packed.value|)
  }

  /**
   * The claim for one input: what was decoded is packed by each packer up to its nesting limit, and decodes to itself
   * again and leaves what is behind.
   */
  ghost predicate Repacks(o: Options, s: Bytes, p: nat, depth: nat, nest: nat, rest: Bytes)
    requires p <= |s|
  {
    match Decode(o, true, s, p, depth)
    case Done(v, _) =>
      && (Height(1, v) <= nest ==> DecodesAgain(o, v, EncodeC(true, v, nest), depth, rest))
      && (Height(2, v) <= nest ==> DecodesAgain(o, v, EncodeF(true, v, nest), depth, rest))
    case _ => true
  }

  lemma DecodedThenPacked(o: Options, s: Bytes, p: nat, depth: nat, nest: nat, rest: Bytes)
    requires p <= |s| && SmallIntegers(o) && RawFitsBin(o)
    ensures Repacks(o, s, p, depth, nest, rest)
  {
    hide Decode, EncodeF, EncodeC, Built;
    if Decode(o, true, s, p, depth).Done? {
      var v := Decode(o, true, s, p, depth).value;
      DecodedIsBuilt(o, s, p, depth);
      SourceFits(o, v, depth);
      SourceIsItself(o, v, depth);
      AcceptedC(true, v, nest);
      AcceptedF(true, v, nest);
      if EncodeC(true, v, nest).Ok? {
        var b := EncodeC(true, v, nest).value;
        assert (b + rest)[0..|b|] == b;
        ValueRoundTrip(o, true, v, nest, b + rest, 0, depth);
      }
      if EncodeF(true, v, nest).Ok? {
        Encoder.PackersAgree(true, v, nest, nest);
      }
    }
  }

  /**
   * The values that decoding can produce are exactly the built ones, for every option setting of the decoder that
   * checks nanoseconds, and of the other where no integer is larger than 64 bits.
   */
  lemma DecoderImage(o: Options, v: Value, depth: nat)
    requires HasSources(o)
    ensures (exists s, q :: Decode(o, true, s, 0, depth) == Done(v, q)) <==> Built(o, v, depth)
  {
    hide Decode, EncodeC, Built;
    if s, q :| Decode(o, true, s, 0, depth) == Done(v, q) {
      DecodedIsBuilt(o, s, 0, depth);
    }
    if Built(o, v, depth) {
      SourceFits(o, v, depth);
      var w, useBin := Source(v), RawFitsBin(o);
      var nest := Height(1, w);
      AcceptedC(useBin, w, nest);
      var b := EncodeC(useBin, w, nest).value;
      assert b[0..|b|] == b;
      ValueRoundTrip(o, useBin, w, nest, b, 0, depth);
      assert Decode(o, true, b, 0, depth) == Done(v, |b|);
    }
  }

  // ---------- the exact conditions ----------

  /** The payload of a timestamp 96 at the largest second there is, and the whole timestamp. */
  const LAST_PAYLOAD: Bytes := [0, 0, 0, 0, 0x7f, 0xff, 0xff, 0xff, 0xff, 0xff, 0xff, 0xff]
  const LAST_SECOND: Bytes := [0xc7, 12, 0xff] + LAST_PAYLOAD

  lemma LastSecondPayload()
    ensures UnpackC(LAST_PAYLOAD) == Some((TWO_TO_THE_63 - 1, 0))
  {
    var zeros: Bytes := LAST_PAYLOAD[..4];
    var seconds: Bytes := LAST_PAYLOAD[4..];
    LoadPositional(zeros);
    LoadPositional(seconds);
    LoadPositional(seconds[..4]);
    LoadPositional(seconds[4..]);
    assert Load(seconds) == TWO_TO_THE_63 - 1;
    Pow256Values();
  }

  lemma LastSecond(o: Options)
    requires !SmallIntegers(o)
    ensures Decode(o, true, LAST_SECOND, 0, 0) == Done(Int((TWO_TO_THE_63 - 1) * GIGA), 15)
  {
    hide Load, FromBytes, UnpackC;
    var length: Bytes := [12];
    assert LAST_SECOND[1..2] == length && LAST_SECOND[3..15] == LAST_PAYLOAD;
    LoadPositional(length);
    assert ReadHeader(o, LAST_SECOND, 0) == Done(ExtBody(-1, LAST_PAYLOAD), 15);
    LastSecondPayload();
    ReadersAgree(LAST_PAYLOAD);
  }

  /** Everything that can be decoded has a wire format of its own, on every input, exactly under `SmallIntegers`. */
  lemma EncodableCondition(o: Options)
    ensures (forall s: Bytes, p: nat, depth: nat | p <= |s| && Decode(o, true, s, p, depth).Done? ::
               Encodable(Decode(o, true, s, p, depth).value)) <==> SmallIntegers(o)
  {
    hide Decode;
    if SmallIntegers(o) {
      forall s: Bytes, p: nat, depth: nat | p <= |s| && Decode(o, true, s, p, depth).Done?
        ensures Encodable(Decode(o, true, s, p, depth).value)
      {
        DecodedIsEncodable(o, s, p, depth);
      }
    } else {
      LastSecond(o);
      assert !Encodable(Decode(o, true, LAST_SECOND, 0, 0).value);
    }
  }

  /** Bytes stored as raw that are too long for bin decode with `raw`, and what they are packed to does not. */
  lemma LongRawBody(o: Options, body: Bytes)
    requires o.raw && o.maxBin < |body| <= o.maxStr && |body| < TWO_TO_THE_32
    ensures var s := RawHeaderC(true, |body|) + body; Decode(o, true, s, 0, 0) == Done(Bin(body), |s|)
    ensures EncodeC(true, Bin(body), 0).Ok?
    ensures Decode(o, true, EncodeC(true, Bin(body), 0).value, 0, 0) == Fail(ValueError)
  {
    hide ReadHeader, RawHeaderC, BinHeaderC;
    var s, b := RawHeaderC(true, |body|) + body, BinHeaderC(true, |body|) + body;
    assert s[0..|s|] == s && b[0..|b|] == b;
    RawRead(o, true, s, 0, body);
    var roomy := o.(maxBin := |body|);
    BinRead(roomy, b, 0, body);
    HeaderUnderOtherLimits(o, roomy, b, 0);
    HeaderIsBounded(o, b, 0);
  }

  /** Whatever is decoded packs and decodes to itself again, on every input, exactly under the two conditions. */
  lemma RepackingCondition(o: Options)
    ensures (forall s: Bytes, p: nat, depth: nat, nest: nat, rest: Bytes | p <= |s| ::
               Repacks(o, s, p, depth, nest, rest)) <==> SmallIntegers(o) && RawFitsBin(o)
  {
    hide Decode, EncodeC, EncodeF;
    if SmallIntegers(o) && RawFitsBin(o) {
      forall s: Bytes, p: nat, depth: nat, nest: nat, rest: Bytes | p <= |s| ensures Repacks(o, s, p, depth, nest, rest) {
        DecodedThenPacked(o, s, p, depth, nest, rest);
      }
    } else if !SmallIntegers(o) {
      LastSecond(o);
      AcceptedC(true, Int((TWO_TO_THE_63 - 1) * GIGA), 0);
      assert !Repacks(o, LAST_SECOND, 0, 0, 0, []);
    } else {
      var body: Bytes := seq(o.maxBin + 1, _ => 0);
      LongRawBody(o, body);
      var s := RawHeaderC(true, |body|) + body;
      var b := EncodeC(true, Bin(body), 0).value;
      assert b + [] == b;
      assert !Repacks(o, s, 0, 0, 0, []);
    }
  }
}
