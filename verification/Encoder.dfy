/**
 * What the two packers write for a value: `EncodeF` is `Packer._pack` of `fallback.py`, `EncodeC` is
 * `Packer._pack` of `_packer.pyx` on top of `pack_template.h`. The integer and length tests are kept in
 * the order and shape of each source.
 */
module Encoder {
  import opened ByteStrings
  import opened Timestamps
  import opened Values

  const NEST_LIMIT: int := 511

  function TypeByte(code: int): Byte {
    code % 0x100
  }

  /** Put `prefix` in front of what was written, if nothing was raised. */
  function Prefixed(prefix: Bytes, r: Outcome<Bytes>): Outcome<Bytes> {
    match r
    case Ok(b) => Ok(prefix + b)
    case Raise(e) => Raise(e)
  }

  function Joined(a: Outcome<Bytes>, b: Outcome<Bytes>): Outcome<Bytes> {
    match a
    case Ok(x) => Prefixed(x, b)
    case Raise(e) => Raise(e)
  }

  // ---------- fallback.py ----------

  function IntF(i: int): Outcome<Bytes> {
    Pow256Values();
    if 0 <= i < 0x80 then Ok([i])
    else if -0x20 <= i < 0 then Ok([i + 0x100])
    else if 0x80 <= i <= 0xff then Ok([0xcc, i])
    else if -0x80 <= i < 0 then Ok([0xd0] + Store(Unsigned(i, 1), 1))
    else if 0xff < i <= 0xffff then Ok([0xcd] + Store(i, 2))
    else if -0x8000 <= i < -0x80 then Ok([0xd1] + Store(Unsigned(i, 2), 2))
    else if 0xffff < i <= 0xffff_ffff then Ok([0xce] + Store(i, 4))
    else if -0x8000_0000 <= i < -0x8000 then Ok([0xd2] + Store(Unsigned(i, 4), 4))
    else if 0xffff_ffff < i <= 0xffff_ffff_ffff_ffff then Ok([0xcf] + Store(i, 8))
    else if -0x8000_0000_0000_0000 <= i < -0x8000_0000 then Ok([0xd3] + Store(Unsigned(i, 8), 8))
    else Raise(OverflowError)
  }

  function ArrayHeaderF(n: nat): Outcome<Bytes> {
    if n <= 0x0f then Ok([0x90 + n])
    else if n <= 0xffff then Ok([0xdc] + Store(n, 2))
    else if n <= 0xffff_ffff then Ok([0xdd] + Store(n, 4))
    else Raise(ValueError)
  }

  function MapHeaderF(n: nat): Outcome<Bytes> {
    if n <= 0x0f then Ok([0x80 + n])
    else if n <= 0xffff then Ok([0xde] + Store(n, 2))
    else if n <= 0xffff_ffff then Ok([0xdf] + Store(n, 4))
    else Raise(ValueError)
  }

  function RawHeaderF(useBin: bool, n: nat): Outcome<Bytes> {
    if n <= 0x1f then Ok([0xa0 + n])
    else if useBin && n <= 0xff then Ok([0xd9, n])
    else if n <= 0xffff then Ok([0xda] + Store(n, 2))
    else if n <= 0xffff_ffff then Ok([0xdb] + Store(n, 4))
    else Raise(ValueError)
  }

  function BinHeaderF(useBin: bool, n: nat): Outcome<Bytes> {
    if !useBin then RawHeaderF(useBin, n)
    else if n <= 0xff then Ok([0xc4, n])
    else if n <= 0xffff then Ok([0xc5] + Store(n, 2))
    else if n <= 0xffff_ffff then Ok([0xc6] + Store(n, 4))
    else Raise(ValueError)
  }

  /** The header of an ext body of `n` bytes, without the type byte; struct.pack refuses 2^32 and more. */
  function ExtHeaderF(n: nat): Outcome<Bytes> {
    if n == 1 then Ok([0xd4])
    else if n == 2 then Ok([0xd5])
    else if n == 4 then Ok([0xd6])
    else if n == 8 then Ok([0xd7])
    else if n == 16 then Ok([0xd8])
    else if n <= 0xff then Ok([0xc7, n])
    else if n <= 0xffff then Ok([0xc8] + Store(n, 2))
    else if n <= 0xffff_ffff then Ok([0xc9] + Store(n, 4))
    else Raise(StructError)
  }

  function ExtF(code: int, data: Bytes): Outcome<Bytes> {
    Joined(ExtHeaderF(|data|), Ok([TypeByte(code)] + data))
  }

  function EncodeF(useBin: bool, v: Value, nest: int): Outcome<Bytes>
    decreases v, 0
  {
    if nest < 0 then Raise(ValueError)
    else
      match v
      case Nil => Ok([0xc0])
      case Bool(b) => Ok([if b then 0xc3 else 0xc2])
      case Int(i) => IntF(i)
      case Bin(b) => if |b| >= TWO_TO_THE_32 then Raise(ValueError) else Joined(BinHeaderF(useBin, |b|), Ok(b))
      case Str(b) => if |b| >= TWO_TO_THE_32 then Raise(ValueError) else Joined(RawHeaderF(useBin, |b|), Ok(b))
      case Float(bits) => Ok([0xcb] + bits)
      case Time(t) => if ToBytes(t).None? then Raise(StructError) else ExtF(-1, ToBytes(t).value)
      case Ext(code, data) => ExtF(code, data)
      case Arr(items) => Joined(ArrayHeaderF(|items|), EncodeItemsF(useBin, items, nest - 1))
      case Map(pairs) => Joined(MapHeaderF(|pairs|), EncodePairsF(useBin, pairs, nest - 2))
  }

  function EncodeItemsF(useBin: bool, items: seq<Value>, nest: int): Outcome<Bytes>
    decreases items, 1
  {
    if items == [] then Ok([])
    else Joined(EncodeF(useBin, items[0], nest), EncodeItemsF(useBin, items[1..], nest))
  }

  function EncodePairsF(useBin: bool, pairs: seq<Pair>, nest: int): Outcome<Bytes>
    decreases pairs, 1
  {
    if pairs == [] then Ok([])
    else
      Joined(EncodePairF(useBin, pairs[0], nest), EncodePairsF(useBin, pairs[1..], nest))
  }

  function EncodePairF(useBin: bool, pair: Pair, nest: int): Outcome<Bytes>
    decreases pair, 1
  {
    Joined(EncodeF(useBin, pair.key, nest), EncodeF(useBin, pair.value, nest))
  }

  // ---------- _packer.pyx and pack_template.h ----------

  /** The low `w` bytes of a machine integer. */
  function StoreC(d: int, w: nat): (s: Bytes)
    ensures |s| == w
  {
    Store(d % Pow256(w), w)
  }

  /** `msgpack_pack_real_uint64` */
  function UInt64C(d: nat): Bytes
    requires d < TWO_TO_THE_64
  {
    if d < 0x100 then
      if d < 0x80 then [d]
      else [0xcc, d]
    else
      if d < 0x1_0000 then [0xcd] + StoreC(d, 2)
      else if d < TWO_TO_THE_32 then [0xce] + StoreC(d, 4)
      else [0xcf] + StoreC(d, 8)
  }

  /** `msgpack_pack_real_int64` */
  function Int64C(d: int): Bytes
    requires -TWO_TO_THE_63 <= d < TWO_TO_THE_63
  {
    if d < -0x20 then
      if d < -0x8000 then
        if d < -0x8000_0000 then [0xd3] + StoreC(d, 8)
        else [0xd2] + StoreC(d, 4)
      else
        if d < -0x80 then [0xd1] + StoreC(d, 2)
        else [0xd0, d % 0x100]
    else if d < 0x80 then [d % 0x100]
    else
      if d < 0x1_0000 then
        if d < 0x100 then [0xcc, d]
        else [0xcd] + StoreC(d, 2)
      else
        if d < TWO_TO_THE_32 then [0xce] + StoreC(d, 4)
        else [0xcf] + StoreC(d, 8)
  }

  /** The sign split of `_pack_inner`: only positive integers go to the unsigned routine. */
  function IntC(i: int): Outcome<Bytes> {
    if i > 0 then
      if i < TWO_TO_THE_64 then Ok(UInt64C(i)) else Raise(OverflowError)
    else
      if -TWO_TO_THE_63 <= i then Ok(Int64C(i)) else Raise(OverflowError)
  }

  function ArrayHeaderC(n: nat): Bytes {
    if n < 16 then [0x90 + n]
    else if n < 65536 then [0xdc] + StoreC(n, 2)
    else [0xdd] + StoreC(n, 4)
  }

  function MapHeaderC(n: nat): Bytes {
    if n < 16 then [0x80 + n]
    else if n < 65536 then [0xde] + StoreC(n, 2)
    else [0xdf] + StoreC(n, 4)
  }

  function RawHeaderC(useBin: bool, l: nat): Bytes {
    if l < 32 then [0xa0 + l]
    else if useBin && l < 256 then [0xd9, l]
    else if l < 65536 then [0xda] + StoreC(l, 2)
    else [0xdb] + StoreC(l, 4)
  }

  function BinHeaderC(useBin: bool, l: nat): Bytes {
    if !useBin then RawHeaderC(useBin, l)
    else if l < 256 then [0xc4, l]
    else if l < 65536 then [0xc5] + StoreC(l, 2)
    else [0xc6] + StoreC(l, 4)
  }

  /** `msgpack_pack_ext`, which writes the type byte with the header. */
  function ExtHeaderC(code: int, l: nat): Bytes {
    if l == 1 then [0xd4, TypeByte(code)]
    else if l == 2 then [0xd5, TypeByte(code)]
    else if l == 4 then [0xd6, TypeByte(code)]
    else if l == 8 then [0xd7, TypeByte(code)]
    else if l == 16 then [0xd8, TypeByte(code)]
    else if l < 256 then [0xc7, l, TypeByte(code)]
    else if l < 65536 then [0xc8] + StoreC(l, 2) + [TypeByte(code)]
    else [0xc9] + StoreC(l, 4) + [TypeByte(code)]
  }

  function TimestampC(t: Timestamp): Outcome<Bytes> {
    if -TWO_TO_THE_63 <= t.seconds < TWO_TO_THE_63 then
      var payload := PackC(t.seconds, t.nanoseconds);
      Ok(ExtHeaderC(-1, |payload|) + payload)
    else Raise(OverflowError)
  }

  function EncodeC(useBin: bool, v: Value, nest: int): Outcome<Bytes>
    decreases v, 0
  {
    if nest < 0 then Raise(ValueError)
    else
      match v
      case Nil => Ok([0xc0])
      case Bool(b) => Ok([if b then 0xc3 else 0xc2])
      case Int(i) => IntC(i)
      case Float(bits) => Ok([0xcb] + bits)
      case Bin(b) => if |b| >= TWO_TO_THE_32 then Raise(ValueError) else Ok(BinHeaderC(useBin, |b|) + b)
      case Str(b) => if |b| >= TWO_TO_THE_32 then Raise(ValueError) else Ok(RawHeaderC(useBin, |b|) + b)
      case Map(pairs) =>
        if |pairs| >= TWO_TO_THE_32 then Raise(ValueError)
        else Prefixed(MapHeaderC(|pairs|), EncodePairsC(useBin, pairs, nest - 1))
      case Ext(code, data) => if |data| >= TWO_TO_THE_32 then Raise(ValueError) else Ok(ExtHeaderC(code, |data|) + data)
      case Time(t) => TimestampC(t)
      case Arr(items) =>
        if |items| >= TWO_TO_THE_32 then Raise(ValueError)
        else Prefixed(ArrayHeaderC(|items|), EncodeItemsC(useBin, items, nest - 1))
  }

  function EncodeItemsC(useBin: bool, items: seq<Value>, nest: int): Outcome<Bytes>
    decreases items, 1
  {
    if items == [] then Ok([])
    else Joined(EncodeC(useBin, items[0], nest), EncodeItemsC(useBin, items[1..], nest))
  }

  function EncodePairsC(useBin: bool, pairs: seq<Pair>, nest: int): Outcome<Bytes>
    decreases pairs, 1
  {
    if pairs == [] then Ok([])
    else
      Joined(EncodePairC(useBin, pairs[0], nest), EncodePairsC(useBin, pairs[1..], nest))
  }

  function EncodePairC(useBin: bool, pair: Pair, nest: int): Outcome<Bytes>
    decreases pair, 1
  {
    Joined(EncodeC(useBin, pair.key, nest), EncodeC(useBin, pair.value, nest))
  }

  // ---------- what an exception leaves behind ----------

  /** What has been written of `v` when packing it raises: the container headers and elements before the refused one. */
  function LeftF(useBin: bool, v: Value, nest: int): Bytes
    decreases v, 0
  {
    match v
    case Arr(items) =>
      if nest < 0 || ArrayHeaderF(|items|).Raise? then []
      else ArrayHeaderF(|items|).value + LeftItemsF(useBin, items, nest - 1)
    case Map(pairs) =>
      if nest < 0 || MapHeaderF(|pairs|).Raise? then []
      else MapHeaderF(|pairs|).value + LeftPairsF(useBin, pairs, nest - 2)
    case _ => []
  }

  function LeftItemsF(useBin: bool, items: seq<Value>, nest: int): Bytes
    decreases items, 1
  {
    if items == [] then []
    else
      match EncodeF(useBin, items[0], nest)
      case Ok(b) => b + LeftItemsF(useBin, items[1..], nest)
      case Raise(_) => LeftF(useBin, items[0], nest)
  }

  function LeftPairF(useBin: bool, pair: Pair, nest: int): Bytes
    decreases pair, 1
  {
    match EncodeF(useBin, pair.key, nest)
    case Ok(b) => b + LeftF(useBin, pair.value, nest)
    case Raise(_) => LeftF(useBin, pair.key, nest)
  }

  function LeftPairsF(useBin: bool, pairs: seq<Pair>, nest: int): Bytes
    decreases pairs, 1
  {
    if pairs == [] then []
    else
      match EncodePairF(useBin, pairs[0], nest)
      case Ok(b) => b + LeftPairsF(useBin, pairs[1..], nest)
      case Raise(_) => LeftPairF(useBin, pairs[0], nest)
  }

  /**
   * What has been written of `v` when packing it raises: the container headers and elements before the refused one,
   * for the C packer.
   */
  function LeftC(useBin: bool, v: Value, nest: int): Bytes
    decreases v, 0
  {
    match v
    case Arr(items) =>
      if nest < 0 || |items| >= TWO_TO_THE_32 then []
      else ArrayHeaderC(|items|) + LeftItemsC(useBin, items, nest - 1)
    case Map(pairs) =>
      if nest < 0 || |pairs| >= TWO_TO_THE_32 then []
      else MapHeaderC(|pairs|) + LeftPairsC(useBin, pairs, nest - 1)
    case _ => []
  }

  function LeftItemsC(useBin: bool, items: seq<Value>, nest: int): Bytes
    decreases items, 1
  {
    if items == [] then []
    else
      match EncodeC(useBin, items[0], nest)
      case Ok(b) => b + LeftItemsC(useBin, items[1..], nest)
      case Raise(_) => LeftC(useBin, items[0], nest)
  }

  function LeftPairC(useBin: bool, pair: Pair, nest: int): Bytes
    decreases pair, 1
  {
    match EncodeC(useBin, pair.key, nest)
    case Ok(b) => b + LeftC(useBin, pair.value, nest)
    case Raise(_) => LeftC(useBin, pair.key, nest)
  }

  function LeftPairsC(useBin: bool, pairs: seq<Pair>, nest: int): Bytes
    decreases pairs, 1
  {
    if pairs == [] then []
    else
      match EncodePairC(useBin, pairs[0], nest)
      case Ok(b) => b + LeftPairsC(useBin, pairs[1..], nest)
      case Raise(_) => LeftPairC(useBin, pairs[0], nest)
  }

  // ---------- the packers agree ----------

  lemma WrapNegative(i: int, m: nat)
    requires i < 0 <= i + m
    ensures i % m == i + m
  {
    assert (i + m) % m == i % m;
    SmallModulus(i + m, m);
  }

  lemma StoreCAgrees(i: int, w: nat)
    requires w > 0 && 0 <= 2 * i + Pow256(w) && i < Pow256(w)
    ensures StoreC(i, w) == Store(Unsigned(i, w), w)
  {
    if i < 0 {
      WrapNegative(i, Pow256(w));
    } else {
      SmallModulus(i, Pow256(w));
    }
  }

  lemma NegativeByte(i: int)
    requires -0x80 <= i < 0
    ensures Store(Unsigned(i, 1), 1) == [i + 0x100] && i % 0x100 == i + 0x100
  {
    Pow256Values();
    assert Store(i + 0x100, 1) == Store((i + 0x100) / 256, 0) + [(i + 0x100) % 256];
  }

  /** The two integer decision trees write the same bytes and refuse the same integers. */
  lemma IntegersAgree(i: int)
    ensures IntC(i) == IntF(i)
  {
    Pow256Values();
    if -TWO_TO_THE_63 <= i < TWO_TO_THE_64 {
      if i < -0x8000_0000 || i > 0xffff_ffff { StoreCAgrees(i, 8); }
      else if i < -0x8000 || i > 0xffff { StoreCAgrees(i, 4); }
      else if i < -0x80 || i > 0xff { StoreCAgrees(i, 2); }
      else if i < 0 { NegativeByte(i); assert [0xd0] + [i + 0x100] == [0xd0, i + 0x100]; }
    }
  }

  lemma HeadersAgree(useBin: bool, n: nat)
    requires n < TWO_TO_THE_32
    ensures ArrayHeaderF(n) == Ok(ArrayHeaderC(n))
    ensures MapHeaderF(n) == Ok(MapHeaderC(n))
    ensures RawHeaderF(useBin, n) == Ok(RawHeaderC(useBin, n))
    ensures BinHeaderF(useBin, n) == Ok(BinHeaderC(useBin, n))
  {
    Pow256Values();
    if n <= 0xffff { StoreCAgrees(n, 2); } else { StoreCAgrees(n, 4); }
  }

  lemma ExtHeadersAgree(code: int, n: nat)
    requires n < TWO_TO_THE_32
    ensures Joined(ExtHeaderF(n), Ok([TypeByte(code)])) == Ok(ExtHeaderC(code, n))
  {
    var c := TypeByte(code);
    Pow256Values();
    if n == 1 { assert [0xd4] + [c] == [0xd4, c]; }
    else if n == 2 { assert [0xd5] + [c] == [0xd5, c]; }
    else if n == 4 { assert [0xd6] + [c] == [0xd6, c]; }
    else if n == 8 { assert [0xd7] + [c] == [0xd7, c]; }
    else if n == 16 { assert [0xd8] + [c] == [0xd8, c]; }
    else if n <= 0xff { assert [0xc7, n] + [c] == [0xc7, n, c]; }
    else if n <= 0xffff { StoreCAgrees(n, 2); }
    else { StoreCAgrees(n, 4); }
  }

  lemma ExtensionsAgree(code: int, data: Bytes)
    requires |data| < TWO_TO_THE_32
    ensures ExtF(code, data) == Ok(ExtHeaderC(code, |data|) + data)
  {
    hide ExtHeaderF, ExtHeaderC;
    ExtHeadersAgree(code, |data|);
    assert ExtHeaderF(|data|).value + ([TypeByte(code)] + data) == ExtHeaderC(code, |data|) + data;
  }

  lemma PayloadLength(t: Timestamp)
    ensures ToBytes(t).Some? ==> |ToBytes(t).value| <= 12
  {
  }

  lemma ExtensionsFit(code: int, data: Bytes)
    ensures ExtF(code, data).Ok? ==> |data| < TWO_TO_THE_32
  {
  }

  lemma ContainersFit(n: nat)
    ensures ArrayHeaderF(n).Ok? || MapHeaderF(n).Ok? ==> n < TWO_TO_THE_32
  {
  }

  /**
   * Every value the fallback packer accepts, the C packer accepts with the same bytes, with at least the
   * same nesting limit.
   */
  lemma {:induction false} PackersAgree(useBin: bool, v: Value, nest: int, nest': int)
    requires nest <= nest' && EncodeF(useBin, v, nest).Ok?
    ensures EncodeC(useBin, v, nest') == EncodeF(useBin, v, nest)
    decreases v, 0
  {
    hide IntF, IntC, ArrayHeaderF, ArrayHeaderC, MapHeaderF, MapHeaderC, RawHeaderF, RawHeaderC, BinHeaderF, BinHeaderC;
    hide ExtF, ExtHeaderC, ToBytes, PackC;
    match v
    case Int(i) => IntegersAgree(i);
    case Bin(b) => HeadersAgree(useBin, |b|);
    case Str(b) => HeadersAgree(useBin, |b|);
    case Ext(code, data) => ExtensionsFit(code, data); ExtensionsAgree(code, data);
    case Time(t) =>
      RoundTrip(t);
      Timestamps.PackersAgree(t);
      PayloadLength(t);
      ExtensionsAgree(-1, ToBytes(t).value);
    case Arr(items) =>
      ContainersFit(|items|);
      HeadersAgree(useBin, |items|);
      ItemsAgree(useBin, items, nest - 1, nest' - 1);
    case Map(pairs) =>
      ContainersFit(|pairs|);
      HeadersAgree(useBin, |pairs|);
      PairsAgree(useBin, pairs, nest - 2, nest' - 1);
    case _ =>
  }

  lemma {:induction false} ItemsAgree(useBin: bool, items: seq<Value>, nest: int, nest': int)
    requires nest <= nest' && EncodeItemsF(useBin, items, nest).Ok?
    ensures EncodeItemsC(useBin, items, nest') == EncodeItemsF(useBin, items, nest)
    decreases items, 1
  {
    if items == [] {
    } else {
      PackersAgree(useBin, items[0], nest, nest');
      ItemsAgree(useBin, items[1..], nest, nest');
    }
  }

  lemma {:induction false} PairsAgree(useBin: bool, pairs: seq<Pair>, nest: int, nest': int)
    requires nest <= nest' && EncodePairsF(useBin, pairs, nest).Ok?
    ensures EncodePairsC(useBin, pairs, nest') == EncodePairsF(useBin, pairs, nest)
    decreases pairs, 1
  {
    if pairs == [] {
    } else {
      PairAgrees(useBin, pairs[0], nest, nest');
      PairsAgree(useBin, pairs[1..], nest, nest');
    }
  }

  lemma {:induction false} PairAgrees(useBin: bool, pair: Pair, nest: int, nest': int)
    requires nest <= nest' && EncodePairF(useBin, pair, nest).Ok?
    ensures EncodePairC(useBin, pair, nest') == EncodePairF(useBin, pair, nest)
    decreases pair, 1
  {
    PackersAgree(useBin, pair.key, nest, nest');
    PackersAgree(useBin, pair.value, nest, nest');
  }
}
