/** Exactly which values the two packers accept, and how deep the containers of an accepted value nest. */
module Nesting {
  import opened ByteStrings
  import opened Timestamps
  import opened Values
  import opened Encoder
  import Machine

  function Max(a: nat, b: nat): nat {
    if a < b then b else a
  }

  /** Every number, length and timestamp in `v` has a wire format. */
  predicate Encodable(v: Value)
    decreases v, 0
  {
    match v
    case Int(i) => -TWO_TO_THE_63 <= i < TWO_TO_THE_64
    case Str(b) => |b| < TWO_TO_THE_32
    case Bin(b) => |b| < TWO_TO_THE_32
    case Ext(_, b) => |b| < TWO_TO_THE_32
    case Time(t) => -TWO_TO_THE_63 <= t.seconds < TWO_TO_THE_63
    case Arr(items) => |items| < TWO_TO_THE_32 && EncodableItems(items)
    case Map(pairs) => |pairs| < TWO_TO_THE_32 && EncodablePairs(pairs)
    case _ => true
  }

  predicate EncodableItems(items: seq<Value>)
    decreases items, 1
  {
    items == [] || (Encodable(items[0]) && EncodableItems(items[1..]))
  }

  predicate EncodablePair(pair: Pair)
    decreases pair, 1
  {
    Encodable(pair.key) && Encodable(pair.value)
  }

  predicate EncodablePairs(pairs: seq<Pair>)
    decreases pairs, 1
  {
    pairs == [] || (EncodablePair(pairs[0]) && EncodablePairs(pairs[1..]))
  }

  /** The nesting limit `v` uses up: `perMap` per map on the way to an element, 1 per list. */
  function Height(perMap: nat, v: Value): nat
    decreases v, 0
  {
    match v
    case Arr(items) => if items == [] then 0 else 1 + HeightItems(perMap, items)
    case Map(pairs) => if pairs == [] then 0 else perMap + HeightPairs(perMap, pairs)
    case _ => 0
  }

  function HeightItems(perMap: nat, items: seq<Value>): nat
    decreases items, 1
  {
    if items == [] then 0 else Max(Height(perMap, items[0]), HeightItems(perMap, items[1..]))
  }

  function HeightPair(perMap: nat, pair: Pair): nat
    decreases pair, 1
  {
    Max(Height(perMap, pair.key), Height(perMap, pair.value))
  }

  function HeightPairs(perMap: nat, pairs: seq<Pair>): nat
    decreases pairs, 1
  {
    if pairs == [] then 0 else Max(HeightPair(perMap, pairs[0]), HeightPairs(perMap, pairs[1..]))
  }

  /** The number of containers around the innermost place of `v`, empty containers included. */
  function Depth(v: Value): nat
    decreases v, 0
  {
    match v
    case Arr(items) => 1 + DepthItems(items)
    case Map(pairs) => 1 + DepthPairs(pairs)
    case _ => 0
  }

  function DepthItems(items: seq<Value>): nat
    decreases items, 1
  {
    if items == [] then 0 else Max(Depth(items[0]), DepthItems(items[1..]))
  }

  function DepthPair(pair: Pair): nat
    decreases pair, 1
  {
    Max(Depth(pair.key), Depth(pair.value))
  }

  function DepthPairs(pairs: seq<Pair>): nat
    decreases pairs, 1
  {
    if pairs == [] then 0 else Max(DepthPair(pairs[0]), DepthPairs(pairs[1..]))
  }

  // ---------- the fallback packer ----------

  lemma LeavesF(useBin: bool, v: Value)
    requires !v.Arr? && !v.Map?
    ensures EncodeF(useBin, v, 0).Ok? <==> Encodable(v)
  {
    hide Store;
    match v
    case Time(t) => RoundTrip(t); PayloadLength(t);
    case _ =>
  }

  lemma ContainerHeadersF(n: nat)
    ensures ArrayHeaderF(n).Ok? <==> n < TWO_TO_THE_32
    ensures MapHeaderF(n).Ok? <==> n < TWO_TO_THE_32
  {
  }

  /** The fallback packer accepts exactly the encodable values within its limit, maps counting twice. */
  lemma {:induction false} AcceptedF(useBin: bool, v: Value, nest: nat)
    ensures EncodeF(useBin, v, nest).Ok? <==> Encodable(v) && Height(2, v) <= nest
    decreases v, 0
  {
    hide IntF, ExtF, ArrayHeaderF, MapHeaderF, RawHeaderF, BinHeaderF, ToBytes;
    match v
    case Arr(items) =>
      ContainerHeadersF(|items|);
      AcceptedItemsF(useBin, items, nest - 1);
    case Map(pairs) =>
      ContainerHeadersF(|pairs|);
      AcceptedPairsF(useBin, pairs, nest - 2);
    case _ => LeavesF(useBin, v);
  }

  lemma {:induction false} AcceptedItemsF(useBin: bool, items: seq<Value>, nest: int)
    ensures EncodeItemsF(useBin, items, nest).Ok? <==>
            items == [] || (EncodableItems(items) && HeightItems(2, items) <= nest)
    decreases items, 1
  {
    if items == [] || nest < 0 {
    } else {
      AcceptedF(useBin, items[0], nest);
      AcceptedItemsF(useBin, items[1..], nest);
      assert HeightItems(2, items) == Max(Height(2, items[0]), HeightItems(2, items[1..]));
    }
  }

  lemma {:induction false} AcceptedPairF(useBin: bool, pair: Pair, nest: nat)
    ensures EncodePairF(useBin, pair, nest).Ok? <==> EncodablePair(pair) && HeightPair(2, pair) <= nest
    decreases pair, 1
  {
    AcceptedF(useBin, pair.key, nest);
    AcceptedF(useBin, pair.value, nest);
  }

  lemma {:induction false} AcceptedPairsF(useBin: bool, pairs: seq<Pair>, nest: int)
    ensures EncodePairsF(useBin, pairs, nest).Ok? <==>
            pairs == [] || (EncodablePairs(pairs) && HeightPairs(2, pairs) <= nest)
    decreases pairs, 1
  {
    if pairs == [] {
    } else if nest < 0 {
      assert EncodeF(useBin, pairs[0].key, nest).Raise?;
    } else {
      AcceptedPairF(useBin, pairs[0], nest);
      AcceptedPairsF(useBin, pairs[1..], nest);
      assert HeightPairs(2, pairs) == Max(HeightPair(2, pairs[0]), HeightPairs(2, pairs[1..]));
    }
  }

  // ---------- the C packer ----------

  /** The C packer accepts exactly the encodable values within its limit, every container counting once. */
  lemma {:induction false} AcceptedC(useBin: bool, v: Value, nest: nat)
    ensures EncodeC(useBin, v, nest).Ok? <==> Encodable(v) && Height(1, v) <= nest
    decreases v, 0
  {
    hide UInt64C, Int64C, ExtHeaderC, ArrayHeaderC, MapHeaderC, RawHeaderC, BinHeaderC, PackC;
    match v
    case Arr(items) => AcceptedItemsC(useBin, items, nest - 1);
    case Map(pairs) => AcceptedPairsC(useBin, pairs, nest - 1);
    case _ =>
  }

  lemma {:induction false} AcceptedItemsC(useBin: bool, items: seq<Value>, nest: int)
    ensures EncodeItemsC(useBin, items, nest).Ok? <==>
            items == [] || (EncodableItems(items) && HeightItems(1, items) <= nest)
    decreases items, 1
  {
    if items == [] || nest < 0 {
    } else {
      AcceptedC(useBin, items[0], nest);
      AcceptedItemsC(useBin, items[1..], nest);
      assert HeightItems(1, items) == Max(Height(1, items[0]), HeightItems(1, items[1..]));
    }
  }

  lemma {:induction false} AcceptedPairC(useBin: bool, pair: Pair, nest: nat)
    ensures EncodePairC(useBin, pair, nest).Ok? <==> EncodablePair(pair) && HeightPair(1, pair) <= nest
    decreases pair, 1
  {
    AcceptedC(useBin, pair.key, nest);
    AcceptedC(useBin, pair.value, nest);
  }

  lemma {:induction false} AcceptedPairsC(useBin: bool, pairs: seq<Pair>, nest: int)
    ensures EncodePairsC(useBin, pairs, nest).Ok? <==>
            pairs == [] || (EncodablePairs(pairs) && HeightPairs(1, pairs) <= nest)
    decreases pairs, 1
  {
    if pairs == [] {
    } else if nest < 0 {
      assert EncodeC(useBin, pairs[0].key, nest).Raise?;
    } else {
      AcceptedPairC(useBin, pairs[0], nest);
      AcceptedPairsC(useBin, pairs[1..], nest);
      assert HeightPairs(1, pairs) == Max(HeightPair(1, pairs[0]), HeightPairs(1, pairs[1..]));
    }
  }

  /**
   * With its default limit the fallback packer refuses what the C packer accepts exactly when the
   * nesting, maps counting twice, exceeds the limit.
   */
  lemma WhereThePackersDiffer(useBin: bool, v: Value)
    requires EncodeC(useBin, v, NEST_LIMIT).Ok?
    ensures EncodeF(useBin, v, NEST_LIMIT) == EncodeC(useBin, v, NEST_LIMIT) <==> Height(2, v) <= NEST_LIMIT
  {
    hide EncodeF, EncodeC;
    AcceptedC(useBin, v, NEST_LIMIT);
    AcceptedF(useBin, v, NEST_LIMIT);
    if EncodeF(useBin, v, NEST_LIMIT).Ok? {
      Encoder.PackersAgree(useBin, v, NEST_LIMIT, NEST_LIMIT);
    }
  }

  // ---------- the limits in numbers ----------

  /** A list, or a dict with the key 0, with `k` such containers inside each other around an empty list. */
  function Nest(lists: bool, k: nat): Value {
    if k == 0 then Arr([]) else if lists then Arr([Nest(true, k - 1)]) else Map([Pair(Int(0), Nest(false, k - 1))])
  }

  lemma {:induction false} NestHeight(lists: bool, k: nat)
    ensures Encodable(Nest(lists, k)) && Height(1, Nest(lists, k)) == k
    ensures Height(2, Nest(lists, k)) == if lists then k else 2 * k
  {
    if k == 0 {
    } else {
      NestHeight(lists, k - 1);
      var v := Nest(lists, k - 1);
      assert HeightItems(1, [v]) == Max(Height(1, v), 0) && HeightItems(2, [v]) == Max(Height(2, v), 0);
      var pair := Pair(Int(0), v);
      assert HeightPair(1, pair) == Height(1, v) && HeightPair(2, pair) == Height(2, v);
      assert EncodablePair(pair) && EncodablePairs([pair]);
      assert HeightPairs(1, [pair]) == HeightPair(1, pair) && HeightPairs(2, [pair]) == HeightPair(2, pair);
    }
  }

  /** Both packers write 511 lists around another one and no more; the C packer 511 dicts, the fallback only 255. */
  lemma DeepestNest(useBin: bool, lists: bool, k: nat)
    ensures EncodeC(useBin, Nest(lists, k), NEST_LIMIT).Ok? <==> k <= 511
    ensures EncodeF(useBin, Nest(lists, k), NEST_LIMIT).Ok? <==> k <= if lists then 511 else 255
  {
    hide EncodeC, EncodeF, Nest;
    NestHeight(lists, k);
    AcceptedC(useBin, Nest(lists, k), NEST_LIMIT);
    AcceptedF(useBin, Nest(lists, k), NEST_LIMIT);
  }

  // ---------- depth ----------

  lemma {:induction false} DepthWithinHeight(v: Value)
    ensures Depth(v) <= Height(1, v) + 1
    decreases v, 0
  {
    match v
    case Arr(items) => DepthWithinHeightItems(items);
    case Map(pairs) => DepthWithinHeightPairs(pairs);
    case _ =>
  }

  lemma {:induction false} DepthWithinHeightItems(items: seq<Value>)
    ensures DepthItems(items) <= if items == [] then 0 else HeightItems(1, items) + 1
    decreases items, 1
  {
    if items == [] {
    } else {
      DepthWithinHeight(items[0]);
      DepthWithinHeightItems(items[1..]);
    }
  }

  lemma {:induction false} DepthWithinHeightPair(pair: Pair)
    ensures DepthPair(pair) <= HeightPair(1, pair) + 1
    decreases pair, 1
  {
    DepthWithinHeight(pair.key);
    DepthWithinHeight(pair.value);
  }

  lemma {:induction false} DepthWithinHeightPairs(pairs: seq<Pair>)
    ensures DepthPairs(pairs) <= if pairs == [] then 0 else HeightPairs(1, pairs) + 1
    decreases pairs, 1
  {
    if pairs == [] {
    } else {
      DepthWithinHeightPair(pairs[0]);
      DepthWithinHeightPairs(pairs[1..]);
    }
  }

  /** What a packer accepts under its default limit has at most 512 nested containers: half the frames of the decoder. */
  lemma PackedDepth(useBin: bool, v: Value)
    requires EncodeC(useBin, v, NEST_LIMIT).Ok?
    ensures Depth(v) <= 512 && 2 * Depth(v) <= Machine.STACK_SIZE
  {
    AcceptedC(useBin, v, NEST_LIMIT);
    DepthWithinHeight(v);
  }
}
