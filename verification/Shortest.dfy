/** The packer writes the shortest encoding: no byte string that decodes to a value is shorter than packing it. */
module Shortest {
  import opened ByteStrings
  import opened Timestamps
  import opened Values
  import opened Decoder
  import opened Encoder
  import opened Nesting
  import opened Repacking

  /** Strings and timestamps are decoded as such, not as bytes and integers, which have longer formats. */
  predicate Plain(o: Options) {
    !o.raw && (!o.timestampAsInt || o.maxExt < 4)
  }

  // ---------- the least number of bytes a value takes ----------

  function IntSize(i: int): nat {
    if IntF(i).Ok? then |IntF(i).value| else 0
  }

  function ExtSize(n: nat): nat {
    |ExtHeaderC(0, n)| + n
  }

  /** A lower bound for every encoding; floats may take as few as 5 bytes, which no packer here writes. */
  function MinSize(v: Value): nat
    decreases v, 0
  {
    match v
    case Nil => 1
    case Bool(_) => 1
    case Int(i) => IntSize(i)
    case Float(_) => 5
    case Str(b) => |RawHeaderC(true, |b|)| + |b|
    case Bin(b) => |BinHeaderC(true, |b|)| + |b|
    case Ext(_, b) => ExtSize(|b|)
    case Time(t) => if ToBytes(t).Some? then ExtSize(|ToBytes(t).value|) else 0
    case Arr(items) => |ArrayHeaderC(|items|)| + MinSizeItems(items)
    case Map(pairs) => |MapHeaderC(|pairs|)| + MinSizePairs(pairs)
  }

  function MinSizeItems(items: seq<Value>): nat
    decreases items, 1
  {
    if items == [] then 0 else MinSize(items[0]) + MinSizeItems(items[1..])
  }

  function MinSizePair(pair: Pair): nat
    decreases pair, 1
  {
    MinSize(pair.key) + MinSize(pair.value)
  }

  function MinSizePairs(pairs: seq<Pair>): nat
    decreases pairs, 1
  {
    if pairs == [] then 0 else MinSizePair(pairs[0]) + MinSizePairs(pairs[1..])
  }

  predicate FloatFree(v: Value)
    decreases v, 0
  {
    match v
    case Float(_) => false
    case Arr(items) => FloatFreeItems(items)
    case Map(pairs) => FloatFreePairs(pairs)
    case _ => true
  }

  predicate FloatFreeItems(items: seq<Value>)
    decreases items, 1
  {
    items == [] || (FloatFree(items[0]) && FloatFreeItems(items[1..]))
  }

  predicate FloatFreePair(pair: Pair)
    decreases pair, 1
  {
    FloatFree(pair.key) && FloatFree(pair.value)
  }

  predicate FloatFreePairs(pairs: seq<Pair>)
    decreases pairs, 1
  {
    pairs == [] || (FloatFreePair(pairs[0]) && FloatFreePairs(pairs[1..]))
  }

  // ---------- what the packer writes has that size ----------

  lemma ExtSizeOf(code: int, n: nat)
    ensures |ExtHeaderC(code, n)| + n == ExtSize(n)
  {
  }

  lemma {:induction false} PackedSize(v: Value, nest: int)
    requires FloatFree(v) && EncodeC(true, v, nest).Ok?
    ensures |EncodeC(true, v, nest).value| == MinSize(v)
    decreases v, 0
  {
    hide IntC, IntF, ToBytes, PackC, ArrayHeaderC, MapHeaderC, RawHeaderC, BinHeaderC, ExtHeaderC;
    match v
    case Int(i) => IntegersAgree(i);
    case Ext(code, b) => ExtSizeOf(code, |b|);
    case Time(t) =>
      RoundTrip(t);
      Timestamps.PackersAgree(t);
      ExtSizeOf(-1, |ToBytes(t).value|);
    case Arr(items) => PackedSizeItems(items, nest - 1);
    case Map(pairs) => PackedSizePairs(pairs, nest - 1);
    case _ =>
  }

  lemma {:induction false} PackedSizeItems(items: seq<Value>, nest: int)
    requires FloatFreeItems(items) && EncodeItemsC(true, items, nest).Ok?
    ensures |EncodeItemsC(true, items, nest).value| == MinSizeItems(items)
    decreases items, 1
  {
    if items == [] {
    } else {
      PackedSize(items[0], nest);
      PackedSizeItems(items[1..], nest);
    }
  }

  lemma {:induction false} PackedSizePair(pair: Pair, nest: int)
    requires FloatFreePair(pair) && EncodePairC(true, pair, nest).Ok?
    ensures |EncodePairC(true, pair, nest).value| == MinSizePair(pair)
    decreases pair, 1
  {
    PackedSize(pair.key, nest);
    PackedSize(pair.value, nest);
  }

  lemma {:induction false} PackedSizePairs(pairs: seq<Pair>, nest: int)
    requires FloatFreePairs(pairs) && EncodePairsC(true, pairs, nest).Ok?
    ensures |EncodePairsC(true, pairs, nest).value| == MinSizePairs(pairs)
    decreases pairs, 1
  {
    if pairs == [] {
    } else {
      PackedSizePair(pairs[0], nest);
      PackedSizePairs(pairs[1..], nest);
    }
  }

  // ---------- no encoding is smaller ----------

  /** Whatever number a field of `w` bytes holds, the packer needs no more than its header byte and `w` bytes. */
  lemma IntFieldSize(bytes: Bytes, w: nat)
    requires |bytes| == w && (w == 1 || w == 2 || w == 4 || w == 8)
    ensures IntSize(Load(bytes)) <= 1 + w && IntSize(Signed(Load(bytes), w)) <= 1 + w
  {
    hide Load, Store;
    LoadBound(bytes);
    Pow256Values();
  }

  lemma RawHeaderSize(n: nat, h: nat)
    requires n < 32 || (n < 256 && h >= 2) || (n < 65536 && h >= 3) || h >= 5
    requires h >= 1
    ensures |RawHeaderC(true, n)| <= h
  {
  }

  /** The least size a header with what belongs to it stands for. */
  function TokenSize(o: Options, t: Token): nat {
    match t
    case ArrayOf(n) => |ArrayHeaderC(n)|
    case MapOf(n) => |MapHeaderC(n)|
    case _ => if Build(o, t).Ok? then MinSize(Build(o, t).value) else 0
  }

  lemma PayloadSizes(t: Timestamp, body: Bytes)
    requires ToBytes(t).Some? && FromBytes(body).Some? && |ToBytes(t).value| <= |body|
    ensures ExtSize(|ToBytes(t).value|) <= ExtSize(|body|)
  {
    hide Load, Store;
  }

  lemma ExtTokenSize(o: Options, code: int, body: Bytes)
    requires Plain(o) && |body| <= o.maxExt
    ensures TokenSize(o, ExtBody(code, body)) <= ExtSize(|body|)
  {
    hide ToBytes;
    if code == -1 && FromBytes(body).Some? {
      hide FromBytes;
      ShortestPayload(body);
      PayloadSizes(FromBytes(body).value, body);
    }
  }

  /** A number of `w` bytes fits its width. */
  lemma LengthBound(s: Bytes, q: nat, w: nat)
    requires q + w <= |s| && (w == 1 || w == 2 || w == 4)
    ensures w == 1 ==> Load(s[q..q + w]) < 256
    ensures w == 2 ==> Load(s[q..q + w]) < 65536
  {
    LoadBound(s[q..q + w]);
    Pow256Values();
  }

  lemma RawTokenSize(o: Options, body: Bytes, h: nat)
    requires Plain(o) && h >= 1
    requires |body| < 32 || (|body| < 256 && h >= 2) || (|body| < 65536 && h >= 3) || h >= 5
    ensures TokenSize(o, RawBody(body)) <= h + |body|
  {
    RawHeaderSize(|body|, h);
  }

  lemma BinTokenSize(o: Options, body: Bytes, h: nat)
    requires (|body| < 256 && h >= 2) || (|body| < 65536 && h >= 3) || h >= 5
    ensures TokenSize(o, BinBody(body)) <= h + |body|
  {
  }

  lemma BlobTokenSize(o: Options, s: Bytes, q: nat, b: Byte)
    requires Plain(o) && 0 < q <= |s| && (0xc4 <= b <= 0xc6 || 0xd9 <= b <= 0xdb)
    ensures match ReadSized(o, s, q, b)
            case Done(t, r) => TokenSize(o, t) <= r - (q - 1)
            case _ => true
  {
    hide Load, TokenSize;
    var w := if b == 0xc4 || b == 0xd9 then 1 else if b == 0xc5 || b == 0xda then 2 else 4;
    if q + w <= |s| { LengthBound(s, q, w); }
    match ReadSized(o, s, q, b)
    case Done(RawBody(body), r) => RawTokenSize(o, body, 1 + w);
    case Done(BinBody(body), r) => BinTokenSize(o, body, 1 + w);
    case _ =>
  }

  lemma ContainerTokenSize(o: Options, n: nat, h: nat)
    requires h >= 1 && (n < 16 || (n < 65536 && h >= 3) || h >= 5)
    ensures TokenSize(o, ArrayOf(n)) <= h && TokenSize(o, MapOf(n)) <= h
  {
  }

  lemma CountTokenSize(o: Options, s: Bytes, q: nat, b: Byte)
    requires Plain(o) && 0 < q <= |s| && 0xdc <= b <= 0xdf
    ensures match ReadSized(o, s, q, b)
            case Done(t, r) => TokenSize(o, t) <= r - (q - 1)
            case _ => true
  {
    hide Load, TokenSize;
    var w := if b == 0xdc || b == 0xde then 2 else 4;
    if q + w <= |s| {
      LengthBound(s, q, w);
      ContainerTokenSize(o, Load(s[q..q + w]), 1 + w);
    }
  }

  lemma ExtBodySize(o: Options, s: Bytes, q: nat, b: Byte)
    requires 0 < q <= |s| && (0xc7 <= b <= 0xc9 || 0xd4 <= b <= 0xd8)
    ensures match ReadSized(o, s, q, b)
            case Done(ExtBody(_, body), r) => ExtSize(|body|) <= r - (q - 1) && |body| <= o.maxExt
            case _ => true
  {
    hide Load;
    Pow256Values();
    var w := if b == 0xc7 then 1 else if b == 0xc8 then 2 else 4;
    if q + w <= |s| { LoadBound(s[q..q + w]); }
  }

  lemma NumberTokenSize(o: Options, b: Byte, bytes: Bytes)
    requires 0xca <= b <= 0xd3 && |bytes| == NumberWidth(b)
    ensures TokenSize(o, Immediate(NumberOf(o, b, bytes))) <= 1 + |bytes|
  {
    hide Load, IntSize, Signed;
    IntFieldSize(bytes, |bytes|);
  }

  lemma SizedTokenSize(o: Options, s: Bytes, q: nat, b: Byte)
    requires Plain(o) && 0 < q <= |s| && 0xc4 <= b <= 0xdf
    ensures match ReadSized(o, s, q, b)
            case Done(t, r) => TokenSize(o, t) <= r - (q - 1)
            case _ => true
  {
    hide Load, NumberOf, TokenSize, ExtSize, BodyAt;
    if 0xca <= b <= 0xd3 {
      if q + NumberWidth(b) <= |s| {
        NumberTokenSize(o, b, s[q..q + NumberWidth(b)]);
      }
    } else if 0xc7 <= b <= 0xc9 || 0xd4 <= b <= 0xd8 {
      ExtBodySize(o, s, q, b);
      match ReadSized(o, s, q, b)
      case Done(ExtBody(code, body), r) => ExtTokenSize(o, code, body);
      case _ =>
    } else if b >= 0xdc {
      CountTokenSize(o, s, q, b);
    } else {
      BlobTokenSize(o, s, q, b);
    }
  }

  lemma HeaderSize(o: Options, s: Bytes, p: nat)
    requires Plain(o) && p <= |s|
    ensures match ReadHeader(o, s, p)
            case Done(t, q) => TokenSize(o, t) <= q - p
            case _ => true
  {
    hide ReadSized;
    if p < |s| {
      var b := s[p];
      if 0xc4 <= b <= 0xdf { SizedTokenSize(o, s, p + 1, b); }
    }
  }

  lemma {:induction false} SizeOfAppended(items: seq<Value>, v: Value)
    ensures MinSizeItems(items + [v]) == MinSizeItems(items) + MinSize(v)
  {
    hide MinSize;
    if items == [] {
    } else {
      SizeOfAppended(items[1..], v);
      assert (items + [v])[1..] == items[1..] + [v];
    }
  }

  /** Storing an entry, new or old, adds at most the size of its key and value. */
  lemma {:induction false} SizeOfStored(d: seq<Pair>, k: Value, v: Value)
    ensures MinSizePairs(DictSet(d, k, v)) <= MinSizePairs(d) + MinSize(k) + MinSize(v)
  {
    hide MinSize, SameKey;
    if d == [] {
    } else if SameKey(d[0].key, k) {
      assert ([Pair(d[0].key, v)] + d[1..])[1..] == d[1..];
    } else {
      SizeOfStored(d[1..], k, v);
      assert ([d[0]] + DictSet(d[1..], k, v))[1..] == DictSet(d[1..], k, v);
    }
  }

  lemma MapHeadersGrow(n: nat)
    ensures forall m: nat :: m <= n ==> |MapHeaderC(m)| <= |MapHeaderC(n)|
  {
  }

  /** Every encoding the decoder accepts has at least the least size of its value. */
  lemma {:induction false} DecodedSize(o: Options, s: Bytes, p: nat, depth: nat)
    requires Plain(o) && p <= |s|
    ensures match Decode(o, true, s, p, depth)
            case Done(v, q) => MinSize(v) <= q - p
            case _ => true
    decreases |s| - p, 0, 0
  {
    hide ReadHeader, Build, IntSize, ExtSize, ToBytes;
    HeaderSize(o, s, p);
    match ReadHeader(o, s, p)
    case Done(ArrayOf(n), q) => if depth > 0 { DecodedSizeItems(o, s, q, n, depth - 1, []); }
    case Done(MapOf(n), q) => if depth > 0 { DecodedSizePairs(o, s, q, n, depth - 1, []); MapHeadersGrow(n); }
    case _ =>
  }

  lemma {:induction false} DecodedSizeItems(o: Options, s: Bytes, p: nat, n: nat, depth: nat, acc: seq<Value>)
    requires Plain(o) && p <= |s|
    ensures match DecodeItems(o, true, s, p, n, depth, acc)
            case Done(vs, q) => |vs| == |acc| + n && MinSizeItems(vs) <= MinSizeItems(acc) + (q - p)
            case _ => true
    decreases |s| - p, 1, n
  {
    hide Decode, MinSize;
    if n == 0 {
    } else {
      DecodedSize(o, s, p, depth);
      match Decode(o, true, s, p, depth)
      case Done(v, q) =>
        SizeOfAppended(acc, v);
        DecodedSizeItems(o, s, q, n - 1, depth, acc + [v]);
      case _ =>
    }
  }

  lemma {:induction false} DecodedSizePairs(o: Options, s: Bytes, p: nat, n: nat, depth: nat, d: seq<Pair>)
    requires Plain(o) && p <= |s|
    ensures match DecodePairs(o, true, s, p, n, depth, d)
            case Done(e, q) => |e| <= |d| + n && MinSizePairs(e) <= MinSizePairs(d) + (q - p)
            case _ => true
    decreases |s| - p, 1, n
  {
    hide Decode, MinSize;
    if n == 0 {
    } else {
      DecodedSize(o, s, p, depth);
      match Decode(o, true, s, p, depth)
      case Done(k, q) =>
        DecodedSize(o, s, q, depth);
        match Decode(o, true, s, q, depth) {
          case Done(v, r) =>
            SizeOfStored(d, k, v);
            DecodedSizePairs(o, s, r, n - 1, depth, DictSet(d, k, v));
          case _ =>
        }
      case _ =>
    }
  }

  /** `packed` is a success, of at most `n` bytes. */
  predicate Within(packed: Outcome<Bytes>, n: int) {
    packed.Ok? && |packed.value| <= n
  }

  /**
   * Shortest encoding: a decoded value without floats that nests within the limit of a packer is packed by it, and
   * takes no more bytes than any encoding of it.
   */
  lemma NoEncodingIsShorter(o: Options, s: Bytes, p: nat, depth: nat, nest: nat)
    requires Plain(o) && p <= |s| && Decode(o, true, s, p, depth).Done?
    requires FloatFree(Decode(o, true, s, p, depth).value)
    ensures var r := Decode(o, true, s, p, depth);
            && (Height(1, r.value) <= nest ==> Within(EncodeC(true, r.value, nest), r.end - p))
            && (Height(2, r.value) <= nest ==> Within(EncodeF(true, r.value, nest), r.end - p))
  {
    hide Decode, EncodeF, EncodeC, MinSize;
    var v := Decode(o, true, s, p, depth).value;
    DecodedIsEncodable(o, s, p, depth);
    AcceptedC(true, v, nest);
    AcceptedF(true, v, nest);
    DecodedSize(o, s, p, depth);
    if EncodeC(true, v, nest).Ok? {
      PackedSize(v, nest);
    }
    if EncodeF(true, v, nest).Ok? {
      Encoder.PackersAgree(true, v, nest, nest);
    }
  }

  /**
   * The claim for one input: what was decoded is packed, within the nesting limit of each packer, to no more bytes
   * than it was decoded from.
   */
  ghost predicate NoLonger(o: Options, s: Bytes, p: nat, depth: nat, nest: nat)
    requires p <= |s|
  {
    match Decode(o, true, s, p, depth)
    case Done(v, q) =>
      && (FloatFree(v) && Height(1, v) <= nest ==> Within(EncodeC(true, v, nest), q - p))
      && (FloatFree(v) && Height(2, v) <= nest ==> Within(EncodeF(true, v, nest), q - p))
    case _ => true
  }

  /** The one byte 0xa0 decodes to b"" with `raw`, which packs to two. */
  const EMPTY_STRING: Bytes := [0xa0]

  lemma RawDecodingAllowsShorter(o: Options)
    requires o.raw
    ensures Decode(o, true, EMPTY_STRING, 0, 0) == Done(Bin([]), 1)
    ensures EncodeF(true, Bin([]), 0).Ok? && |EncodeF(true, Bin([]), 0).value| == 2
  {
    assert EMPTY_STRING[1..1] == [];
    assert ReadHeader(o, EMPTY_STRING, 0) == Done(RawBody([]), 1);
  }

  /** A timestamp 32, five seconds after the epoch: as nanoseconds it packs to nine bytes. */
  const FIVE_SECONDS: Bytes := [0xd6, 0xff, 0, 0, 0, 5]

  lemma IntegerTimestampsAllowShorter(o: Options)
    requires o.timestampAsInt && o.maxExt >= 4
    ensures Decode(o, true, FIVE_SECONDS, 0, 0) == Done(Int(5 * GIGA), 6)
    ensures EncodeF(true, Int(5 * GIGA), 0).Ok? && |EncodeF(true, Int(5 * GIGA), 0).value| == 9
  {
    var payload: Bytes := [0, 0, 0, 5];
    assert FIVE_SECONDS[2..6] == payload;
    LoadPositional(payload);
    assert ReadHeader(o, FIVE_SECONDS, 0) == Done(ExtBody(-1, payload), 6);
  }

  lemma ScalarCounterexample(o: Options, s: Bytes, v: Value, q: nat)
    requires Decode(o, true, s, 0, 0) == Done(v, q) && (v.Bin? || v.Int?)
    requires EncodeF(true, v, 0).Ok? && |EncodeF(true, v, 0).value| > q
    ensures !NoLonger(o, s, 0, 0, 0)
  {
    hide Decode, EncodeF;
  }

  /** The packer's output is the shortest, on every input, exactly for options that decode strings and timestamps as such. */
  lemma ShortestCondition(o: Options)
    ensures (forall s: Bytes, p: nat, depth: nat, nest: nat | p <= |s| :: NoLonger(o, s, p, depth, nest)) <==> Plain(o)
  {
    hide Decode, EncodeC, EncodeF, FloatFree, Height;
    if Plain(o) {
      forall s: Bytes, p: nat, depth: nat, nest: nat | p <= |s| ensures NoLonger(o, s, p, depth, nest) {
        var r := Decode(o, true, s, p, depth);
        if r.Done? && FloatFree(r.value) {
          NoEncodingIsShorter(o, s, p, depth, nest);
        }
      }
    } else if o.raw {
      RawDecodingAllowsShorter(o);
      ScalarCounterexample(o, EMPTY_STRING, Bin([]), 1);
    } else {
      IntegerTimestampsAllowShorter(o);
      ScalarCounterexample(o, FIVE_SECONDS, Int(5 * GIGA), 6);
    }
  }
}
