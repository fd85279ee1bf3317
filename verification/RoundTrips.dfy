/** Decoding what the packers wrote. */
module RoundTrips {
  import opened ByteStrings
  import opened Timestamps
  import opened Floats
  import opened Values
  import opened Decoder
  import opened Encoder
  import opened Nesting

  /**
   * The value that comes back: with `raw` strings return as bytes, without `use_bin_type` bytes are
   * written as strings, and timestamps may be asked for as nanoseconds.
   */
  function Seen(o: Options, useBin: bool, v: Value): Value
    decreases v, 0
  {
    match v
    case Str(b) => if o.raw then Bin(b) else v
    case Bin(b) => if useBin || o.raw then v else Str(b)
    case Time(t) => if o.timestampAsInt then Int(ToUnixNano(t)) else v
    case Arr(items) => Arr(SeenItems(o, useBin, items))
    case Map(pairs) => Map(SeenPairs(o, useBin, pairs))
    case _ => v
  }

  function SeenItems(o: Options, useBin: bool, items: seq<Value>): (r: seq<Value>)
    decreases items, 1
    ensures |r| == |items|
  {
    if items == [] then [] else [Seen(o, useBin, items[0])] + SeenItems(o, useBin, items[1..])
  }

  function SeenPair(o: Options, useBin: bool, pair: Pair): Pair
    decreases pair, 1
  {
    Pair(Seen(o, useBin, pair.key), Seen(o, useBin, pair.value))
  }

  function SeenPairs(o: Options, useBin: bool, pairs: seq<Pair>): (r: seq<Pair>)
    decreases pairs, 1
    ensures |r| == |pairs|
  {
    if pairs == [] then [] else [SeenPair(o, useBin, pairs[0])] + SeenPairs(o, useBin, pairs[1..])
  }

  /** The limits and key rules of the decoder let `v` through. */
  ghost predicate Fits(o: Options, useBin: bool, v: Value)
    decreases v, 0
  {
    match v
    case Str(b) => |b| <= o.maxStr && (o.raw || o.isUtf8(b))
    case Bin(b) => if useBin then |b| <= o.maxBin else |b| <= o.maxStr && (o.raw || o.isUtf8(b))
    case Ext(_, b) => |b| <= o.maxExt
    case Time(t) => ToBytes(t).Some? ==> |ToBytes(t).value| <= o.maxExt
    case Arr(items) => |items| <= o.maxArray && FitsItems(o, useBin, items)
    case Map(pairs) => |pairs| <= o.maxMap && FitsPairs(o, useBin, pairs) && IsDict(SeenPairs(o, useBin, pairs))
    case _ => true
  }

  ghost predicate FitsItems(o: Options, useBin: bool, items: seq<Value>)
    decreases items, 1
  {
    items == [] || (Fits(o, useBin, items[0]) && FitsItems(o, useBin, items[1..]))
  }

  ghost predicate FitsPair(o: Options, useBin: bool, pair: Pair)
    decreases pair, 1
  {
    Fits(o, useBin, pair.key) && Fits(o, useBin, pair.value) && KeyAllowed(o, Seen(o, useBin, pair.key))
  }

  ghost predicate FitsPairs(o: Options, useBin: bool, pairs: seq<Pair>)
    decreases pairs, 1
  {
    pairs == [] || (FitsPair(o, useBin, pairs[0]) && FitsPairs(o, useBin, pairs[1..]))
  }

  // ---------- headers ----------

  lemma SizedHeader(s: Bytes, p: nat, h: Byte, n: nat, w: nat)
    requires At(s, p, [h] + Store(n, w)) && n < Pow256(w)
    ensures p + 1 + w <= |s| && s[p] == h && s[p + 1..p + 1 + w] == Store(n, w) && Load(s[p + 1..p + 1 + w]) == n
  {
    AtConcat(s, p, [h], Store(n, w));
    AtByte(s, p, h);
    LoadStore(n, w);
  }

  lemma SizedHeaderC(s: Bytes, p: nat, h: Byte, n: nat, w: nat)
    requires At(s, p, [h] + StoreC(n, w)) && n < Pow256(w)
    ensures p + 1 + w <= |s| && s[p] == h && Load(s[p + 1..p + 1 + w]) == n
  {
    SmallModulus(n, Pow256(w));
    SizedHeader(s, p, h, n, w);
  }

  lemma ByteHeader(s: Bytes, p: nat, h: Byte, n: Byte)
    requires At(s, p, [h, n])
    ensures p + 2 <= |s| && s[p] == h && s[p + 1] == n && Load(s[p + 1..p + 2]) == n
  {
    assert s[p] == s[p..p + 2][0] && s[p + 1] == s[p..p + 2][1];
    assert s[p + 1..p + 2] == [n];
    LoadPositional([n]);
  }

  lemma OneByte(s: Bytes, p: nat, h: Byte)
    requires At(s, p, [h])
    ensures p < |s| && s[p] == h
  {
    AtByte(s, p, h);
  }

  lemma BodyRead(s: Bytes, q: nat, body: Bytes, max: nat)
    requires At(s, q, body) && |body| <= max
    ensures BodyAt(s, q, |body|, max) == Done(body, q + |body|)
  {
  }

  lemma RawRead(o: Options, useBin: bool, s: Bytes, p: nat, body: Bytes)
    requires |body| < TWO_TO_THE_32 && |body| <= o.maxStr
    requires At(s, p, RawHeaderC(useBin, |body|) + body)
    ensures ReadHeader(o, s, p) == Done(RawBody(body), p + |RawHeaderC(useBin, |body|) + body|)
  {
    hide StoreC, Load;
    var l, h := |body|, RawHeaderC(useBin, |body|);
    Pow256Values();
    AtConcat(s, p, h, body);
    BodyRead(s, p + |h|, body, o.maxStr);
    if l < 32 { OneByte(s, p, 0xa0 + l); }
    else if useBin && l < 256 { ByteHeader(s, p, 0xd9, l); }
    else if l < 65536 { SizedHeaderC(s, p, 0xda, l, 2); }
    else { SizedHeaderC(s, p, 0xdb, l, 4); }
  }

  lemma BinRead(o: Options, s: Bytes, p: nat, body: Bytes)
    requires |body| < TWO_TO_THE_32 && |body| <= o.maxBin
    requires At(s, p, BinHeaderC(true, |body|) + body)
    ensures ReadHeader(o, s, p) == Done(BinBody(body), p + |BinHeaderC(true, |body|) + body|)
  {
    hide StoreC, Load;
    var l, h := |body|, BinHeaderC(true, |body|);
    Pow256Values();
    AtConcat(s, p, h, body);
    BodyRead(s, p + |h|, body, o.maxBin);
    if l < 256 { ByteHeader(s, p, 0xc4, l); }
    else if l < 65536 { SizedHeaderC(s, p, 0xc5, l, 2); }
    else { SizedHeaderC(s, p, 0xc6, l, 4); }
  }

  lemma ArrayHeaderRead(o: Options, s: Bytes, p: nat, n: nat)
    requires n < TWO_TO_THE_32 && n <= o.maxArray && At(s, p, ArrayHeaderC(n))
    ensures ReadHeader(o, s, p) == Done(ArrayOf(n), p + |ArrayHeaderC(n)|)
  {
    hide StoreC, Load;
    Pow256Values();
    if n < 16 { OneByte(s, p, 0x90 + n); }
    else if n < 65536 { SizedHeaderC(s, p, 0xdc, n, 2); }
    else { SizedHeaderC(s, p, 0xdd, n, 4); }
  }

  lemma MapHeaderRead(o: Options, s: Bytes, p: nat, n: nat)
    requires n < TWO_TO_THE_32 && n <= o.maxMap && At(s, p, MapHeaderC(n))
    ensures ReadHeader(o, s, p) == Done(MapOf(n), p + |MapHeaderC(n)|)
  {
    hide StoreC, Load;
    Pow256Values();
    if n < 16 { OneByte(s, p, 0x80 + n); }
    else if n < 65536 { SizedHeaderC(s, p, 0xde, n, 2); }
    else { SizedHeaderC(s, p, 0xdf, n, 4); }
  }

  lemma TypeByteRead(code: int)
    requires -1 <= code <= 127
    ensures SignedByte(TypeByte(code)) == code
  {
  }

  lemma LongExt(s: Bytes, p: nat, h: Byte, l: nat, w: nat, c: Byte)
    requires At(s, p, [h] + StoreC(l, w)) && At(s, p + 1 + w, [c]) && l < Pow256(w)
    ensures p + w + 2 <= |s| && s[p] == h && Load(s[p + 1..p + 1 + w]) == l && s[p + 1 + w] == c
  {
    SizedHeaderC(s, p, h, l, w);
    OneByte(s, p + 1 + w, c);
  }

  lemma ExtRead(o: Options, s: Bytes, p: nat, code: int, data: Bytes)
    requires -1 <= code <= 127 && |data| < TWO_TO_THE_32 && |data| <= o.maxExt
    requires At(s, p, ExtHeaderC(code, |data|) + data)
    ensures ReadHeader(o, s, p) == Done(ExtBody(code, data), p + |ExtHeaderC(code, |data|) + data|)
  {
    hide StoreC, Load, TypeByte;
    var l, c := |data|, TypeByte(code);
    Pow256Values();
    TypeByteRead(code);
    AtConcat(s, p, ExtHeaderC(code, l), data);
    BodyRead(s, p + |ExtHeaderC(code, l)|, data, o.maxExt);
    if l == 1 { ByteHeader(s, p, 0xd4, c); }
    else if l == 2 { ByteHeader(s, p, 0xd5, c); }
    else if l == 4 { ByteHeader(s, p, 0xd6, c); }
    else if l == 8 { ByteHeader(s, p, 0xd7, c); }
    else if l == 16 { ByteHeader(s, p, 0xd8, c); }
    else if l < 256 {
      assert [0xc7, l, c] == [0xc7, l] + [c];
      AtConcat(s, p, [0xc7, l], [c]);
      ByteHeader(s, p, 0xc7, l);
      OneByte(s, p + 2, c);
    } else {
      var h: Byte := if l < 65536 then 0xc8 else 0xc9;
      var w := if l < 65536 then 2 else 4;
      AtConcat(s, p, [h] + StoreC(l, w), [c]);
      LongExt(s, p, h, l, w, c);
    }
  }

  lemma NegativeRead(s: Bytes, p: nat, h: Byte, i: int, w: nat)
    requires w > 0 && 0 <= 2 * i + Pow256(w) && i < 0
    requires At(s, p, [h] + Store(Unsigned(i, w), w))
    ensures p + 1 + w <= |s| && s[p] == h && Signed(Load(s[p + 1..p + 1 + w]), w) == i
  {
    SignedUnsigned(i, w);
    SizedHeader(s, p, h, Unsigned(i, w), w);
  }

  lemma IntRead(o: Options, s: Bytes, p: nat, i: int)
    requires IntF(i).Ok? && At(s, p, IntF(i).value)
    ensures ReadHeader(o, s, p) == Done(Immediate(Int(i)), p + |IntF(i).value|)
  {
    hide Store, Load, Signed;
    Pow256Values();
    if -0x20 <= i < 0x80 { OneByte(s, p, if i >= 0 then i else i + 0x100); }
    else if 0x80 <= i <= 0xff { ByteHeader(s, p, 0xcc, i); }
    else if i < 0 {
      var (h, w) := if -0x80 <= i then (0xd0, 1) else if -0x8000 <= i then (0xd1, 2)
                  else if -0x8000_0000 <= i then (0xd2, 4) else (0xd3, 8);
      NegativeRead(s, p, h, i, w);
    } else if i <= 0xffff { SizedHeader(s, p, 0xcd, i, 2); }
    else if i <= 0xffff_ffff { SizedHeader(s, p, 0xce, i, 4); }
    else { SizedHeader(s, p, 0xcf, i, 8); }
  }

  // ---------- values ----------

  /** The header `_read_header` finds for a value that is not a container. */
  function TokenOf(useBin: bool, v: Value): Token
    requires !v.Arr? && !v.Map? && (v.Time? ==> ToBytes(v.t).Some?)
  {
    match v
    case Str(b) => RawBody(b)
    case Bin(b) => if useBin then BinBody(b) else RawBody(b)
    case Ext(code, b) => ExtBody(code, b)
    case Time(t) => ExtBody(-1, ToBytes(t).value)
    case _ => Immediate(v)
  }

  /** The length limits alone let `v` through. */
  predicate LengthFits(o: Options, useBin: bool, v: Value) {
    match v
    case Str(b) => |b| <= o.maxStr
    case Bin(b) => |b| <= if useBin then o.maxBin else o.maxStr
    case Ext(_, b) => |b| <= o.maxExt
    case Time(t) => ToBytes(t).Some? ==> |ToBytes(t).value| <= o.maxExt
    case _ => true
  }

  lemma FloatRead(o: Options, s: Bytes, p: nat, bits: Double)
    requires At(s, p, [0xcb] + bits)
    ensures ReadHeader(o, s, p) == Done(Immediate(Float(bits)), p + 9)
  {
    AtConcat(s, p, [0xcb], bits);
    AtByte(s, p, 0xcb);
  }

  lemma OneByteRead(o: Options, s: Bytes, p: nat, b: Byte)
    requires At(s, p, [b]) && (b == 0xc0 || b == 0xc2 || b == 0xc3)
    ensures ReadHeader(o, s, p) == Done(Immediate(if b == 0xc0 then Nil else Bool(b == 0xc3)), p + 1)
  {
    AtByte(s, p, b);
  }

  lemma ScalarHeader(o: Options, useBin: bool, v: Value, s: Bytes, p: nat)
    requires !v.Arr? && !v.Map? && EncodeC(useBin, v, 0).Ok? && LengthFits(o, useBin, v)
    requires At(s, p, EncodeC(useBin, v, 0).value)
    ensures v.Time? ==> ToBytes(v.t).Some?
    ensures ReadHeader(o, s, p) == Done(TokenOf(useBin, v), p + |EncodeC(useBin, v, 0).value|)
  {
    hide ReadHeader, RawHeaderC, ExtHeaderC, IntC, IntF, ToBytes, PackC, Store, Load;
    match v
    case Int(i) => IntegersAgree(i); IntRead(o, s, p, i);
    case Str(b) => RawRead(o, useBin, s, p, b);
    case Bin(b) => if useBin { BinRead(o, s, p, b); } else { RawRead(o, useBin, s, p, b); }
    case Ext(code, b) => ExtRead(o, s, p, code, b);
    case Time(t) =>
      RoundTrip(t);
      Timestamps.PackersAgree(t);
      PayloadLength(t);
      ExtRead(o, s, p, -1, ToBytes(t).value);
    case Float(bits) => FloatRead(o, s, p, bits);
    case Nil => OneByteRead(o, s, p, 0xc0);
    case Bool(b) => OneByteRead(o, s, p, if b then 0xc3 else 0xc2);
  }

  lemma ScalarRoundTrip(o: Options, useBin: bool, v: Value, s: Bytes, p: nat)
    requires !v.Arr? && !v.Map? && EncodeC(useBin, v, 0).Ok? && Fits(o, useBin, v)
    requires At(s, p, EncodeC(useBin, v, 0).value)
    ensures var r := ReadHeader(o, s, p);
            && r.Done? && r.end == p + |EncodeC(useBin, v, 0).value|
            && !r.value.ArrayOf? && !r.value.MapOf? && Build(o, r.value) == Ok(Seen(o, useBin, v))
  {
    hide ReadHeader, ToBytes, FromBytes, UnpackC, EncodeC;
    ScalarHeader(o, useBin, v, s, p);
    if v.Time? {
      RoundTrip(v.t);
      ReadersAgree(ToBytes(v.t).value);
    }
  }

  /**
   * Round trip: wherever the bytes of `v` stand, with anything behind them, the decoder returns the value
   * as seen through the options and stops at their end.
   */
  lemma {:induction false} ValueRoundTrip(o: Options, useBin: bool, v: Value, nest: int, s: Bytes, p: nat, depth: nat)
    requires EncodeC(useBin, v, nest).Ok? && Fits(o, useBin, v) && Depth(v) <= depth
    requires At(s, p, EncodeC(useBin, v, nest).value)
    ensures Decode(o, true, s, p, depth) == Done(Seen(o, useBin, v), p + |EncodeC(useBin, v, nest).value|)
    decreases v, 0
  {
    hide ReadHeader, ArrayHeaderC, MapHeaderC, RawHeaderC, BinHeaderC, ExtHeaderC, IntC, TimestampC, Build;
    hide EncodeItemsC, EncodePairsC, DecodeItems, DecodePairs, SeenItems, SeenPairs, DepthItems, DepthPairs, IsDict, At;
    match v
    case Arr(items) =>
      var h, body := ArrayHeaderC(|items|), EncodeItemsC(useBin, items, nest - 1).value;
      AtConcat(s, p, h, body);
      ArrayHeaderRead(o, s, p, |items|);
      ItemsRoundTrip(o, useBin, items, nest - 1, s, p + |h|, depth - 1, []);
      assert [] + SeenItems(o, useBin, items) == SeenItems(o, useBin, items);
    case Map(pairs) =>
      var h, body := MapHeaderC(|pairs|), EncodePairsC(useBin, pairs, nest - 1).value;
      AtConcat(s, p, h, body);
      MapHeaderRead(o, s, p, |pairs|);
      var seen := SeenPairs(o, useBin, pairs);
      assert [] + seen == seen;
      PairsRoundTrip(o, useBin, pairs, nest - 1, s, p + |h|, depth - 1, []);
    case _ => ScalarRoundTrip(o, useBin, v, s, p);
  }

  lemma {:induction false} ItemsRoundTrip(o: Options, useBin: bool, items: seq<Value>, nest: int, s: Bytes, p: nat,
                                          depth: nat, acc: seq<Value>)
    requires EncodeItemsC(useBin, items, nest).Ok? && FitsItems(o, useBin, items) && DepthItems(items) <= depth
    requires At(s, p, EncodeItemsC(useBin, items, nest).value)
    ensures DecodeItems(o, true, s, p, |items|, depth, acc) ==
            Done(acc + SeenItems(o, useBin, items), p + |EncodeItemsC(useBin, items, nest).value|)
    decreases items, 1
  {
    hide Decode, EncodeC;
    if items == [] {
      assert acc + [] == acc;
    } else {
      var x, rest := EncodeC(useBin, items[0], nest).value, EncodeItemsC(useBin, items[1..], nest).value;
      AtConcat(s, p, x, rest);
      ValueRoundTrip(o, useBin, items[0], nest, s, p, depth);
      var w := Seen(o, useBin, items[0]);
      ItemsRoundTrip(o, useBin, items[1..], nest, s, p + |x|, depth, acc + [w]);
      assert acc + [w] + SeenItems(o, useBin, items[1..]) == acc + ([w] + SeenItems(o, useBin, items[1..]));
    }
  }

  lemma NextKeyIsFresh(d: seq<Pair>, w: Pair, tail: seq<Pair>)
    requires IsDict(d + ([w] + tail))
    ensures DictSet(d, w.key, w.value) == d + [w] && Hashable(w.key)
  {
    var all := d + ([w] + tail);
    assert all[|d|] == w;
    assert forall i :: 0 <= i < |d| ==> all[i] == d[i];
    DictSetFresh(d, w.key, w.value);
  }

  lemma {:induction false} PairsRoundTrip(o: Options, useBin: bool, pairs: seq<Pair>, nest: int, s: Bytes, p: nat,
                                          depth: nat, d: seq<Pair>)
    requires EncodePairsC(useBin, pairs, nest).Ok? && FitsPairs(o, useBin, pairs) && DepthPairs(pairs) <= depth
    requires IsDict(d + SeenPairs(o, useBin, pairs))
    requires At(s, p, EncodePairsC(useBin, pairs, nest).value)
    ensures DecodePairs(o, true, s, p, |pairs|, depth, d) ==
            Done(d + SeenPairs(o, useBin, pairs), p + |EncodePairsC(useBin, pairs, nest).value|)
    decreases pairs, 1
  {
    hide Decode, EncodeC, DictSet;
    if pairs == [] {
      assert d + [] == d;
    } else {
      var x, rest := EncodePairC(useBin, pairs[0], nest).value, EncodePairsC(useBin, pairs[1..], nest).value;
      AtConcat(s, p, x, rest);
      PairRoundTrip(o, useBin, pairs[0], nest, s, p, depth);
      var w, tail := SeenPair(o, useBin, pairs[0]), SeenPairs(o, useBin, pairs[1..]);
      NextKeyIsFresh(d, w, tail);
      assert d + [w] + tail == d + ([w] + tail);
      PairsRoundTrip(o, useBin, pairs[1..], nest, s, p + |x|, depth, d + [w]);
    }
  }

  lemma {:induction false} PairRoundTrip(o: Options, useBin: bool, pair: Pair, nest: int, s: Bytes, p: nat, depth: nat)
    requires EncodePairC(useBin, pair, nest).Ok? && FitsPair(o, useBin, pair) && DepthPair(pair) <= depth
    requires At(s, p, EncodePairC(useBin, pair, nest).value)
    ensures var w := SeenPair(o, useBin, pair);
            exists q :: p < q <= |s| && Decode(o, true, s, p, depth) == Done(w.key, q) &&
                        Decode(o, true, s, q, depth) == Done(w.value, p + |EncodePairC(useBin, pair, nest).value|)
    decreases pair, 1
  {
    hide Decode, EncodeC;
    var k, x := EncodeC(useBin, pair.key, nest).value, EncodeC(useBin, pair.value, nest).value;
    AtConcat(s, p, k, x);
    ValueRoundTrip(o, useBin, pair.key, nest, s, p, depth);
    ValueRoundTrip(o, useBin, pair.value, nest, s, p + |k|, depth);
    assert Decode(o, true, s, p, depth) == Done(SeenPair(o, useBin, pair).key, p + |k|);
  }

  /** With bin types and without `raw` or integer timestamps, the value itself comes back. */
  lemma {:induction false} SeenIsIdentity(o: Options, v: Value)
    requires !o.raw && !o.timestampAsInt
    ensures Seen(o, true, v) == v
    decreases v, 0
  {
    match v
    case Arr(items) => SeenItemsIsIdentity(o, items);
    case Map(pairs) => SeenPairsIsIdentity(o, pairs);
    case _ =>
  }

  lemma {:induction false} SeenItemsIsIdentity(o: Options, items: seq<Value>)
    requires !o.raw && !o.timestampAsInt
    ensures SeenItems(o, true, items) == items
    decreases items, 1
  {
    if items == [] {
    } else {
      SeenIsIdentity(o, items[0]);
      SeenItemsIsIdentity(o, items[1..]);
    }
  }

  lemma {:induction false} SeenPairIsIdentity(o: Options, pair: Pair)
    requires !o.raw && !o.timestampAsInt
    ensures SeenPair(o, true, pair) == pair
    decreases pair, 1
  {
    SeenIsIdentity(o, pair.key);
    SeenIsIdentity(o, pair.value);
  }

  lemma {:induction false} SeenPairsIsIdentity(o: Options, pairs: seq<Pair>)
    requires !o.raw && !o.timestampAsInt
    ensures SeenPairs(o, true, pairs) == pairs
    decreases pairs, 1
  {
    if pairs == [] {
    } else {
      SeenPairIsIdentity(o, pairs[0]);
      SeenPairsIsIdentity(o, pairs[1..]);
    }
  }

  // ---------- consequences ----------

  /** `pack(v)` followed by anything decodes to `v` and leaves exactly what followed. */
  lemma PackThenDecode(o: Options, v: Value, nest: int, rest: Bytes, depth: nat)
    requires !o.raw && !o.timestampAsInt && Fits(o, true, v) && Depth(v) <= depth && EncodeF(true, v, nest).Ok?
    ensures var b := EncodeF(true, v, nest).value;
            Decode(o, true, b + rest, 0, depth) == Done(v, |b|) && (b + rest)[|b|..] == rest
  {
    hide Decode, EncodeC, EncodeF;
    Encoder.PackersAgree(true, v, nest, nest);
    var b := EncodeF(true, v, nest).value;
    assert (b + rest)[0..|b|] == b;
    ValueRoundTrip(o, true, v, nest, b + rest, 0, depth);
    SeenIsIdentity(o, v);
  }
}
