/** The `Packer` of `fallback.py`, which appends to a buffer and recurses over the value. */
module FallbackPacker {
  import opened ByteStrings
  import opened Timestamps
  import opened Values
  import opened Encoder

  /** What one writing routine does: `code` is appended, or its exception raised with `left` appended. */
  predicate Wrote(before: Bytes, after: Bytes, r: Outcome<()>, code: Outcome<Bytes>, left: Bytes) {
    match code
    case Ok(b) => r == Ok(()) && after == before + b
    case Raise(e) => r == Raise(e) && after == before + left
  }

  lemma PrefixedNothing(r: Outcome<Bytes>)
    ensures Prefixed([], r) == r
  {
    match r
    case Ok(b) => assert [] + b == b;
    case Raise(_) =>
  }

  lemma PrefixedTwice(a: Bytes, b: Bytes, r: Outcome<Bytes>)
    ensures Prefixed(a, Prefixed(b, r)) == Prefixed(a + b, r)
  {
    match r
    case Ok(c) => assert a + (b + c) == a + b + c;
    case Raise(_) =>
  }

  /** The elements of `items` before `i` have been written, and they are `written`. */
  predicate ItemsSoFar(useBin: bool, items: seq<Value>, nest: int, i: nat, written: Bytes)
    requires i <= |items|
  {
    && EncodeItemsF(useBin, items, nest) == Prefixed(written, EncodeItemsF(useBin, items[i..], nest))
    && LeftItemsF(useBin, items, nest) == written + LeftItemsF(useBin, items[i..], nest)
  }

  lemma ItemsBegin(useBin: bool, items: seq<Value>, nest: int)
    ensures ItemsSoFar(useBin, items, nest, 0, [])
  {
    PrefixedNothing(EncodeItemsF(useBin, items, nest));
    assert items[0..] == items;
    assert [] + LeftItemsF(useBin, items, nest) == LeftItemsF(useBin, items, nest);
  }

  lemma ItemsStep(useBin: bool, items: seq<Value>, nest: int, i: nat, written: Bytes)
    requires i < |items| && ItemsSoFar(useBin, items, nest, i, written)
    ensures match EncodeF(useBin, items[i], nest)
            case Ok(b) => ItemsSoFar(useBin, items, nest, i + 1, written + b)
            case Raise(e) =>
              EncodeItemsF(useBin, items, nest) == Raise(e) &&
              LeftItemsF(useBin, items, nest) == written + LeftF(useBin, items[i], nest)
  {
    hide EncodeF, LeftF;
    assert items[i..][0] == items[i] && items[i..][1..] == items[i + 1..];
    match EncodeF(useBin, items[i], nest)
    case Ok(b) =>
      PrefixedTwice(written, b, EncodeItemsF(useBin, items[i + 1..], nest));
      var left := LeftItemsF(useBin, items[i + 1..], nest);
      assert written + (b + left) == written + b + left;
    case Raise(_) =>
  }

  lemma ItemsEnd(useBin: bool, items: seq<Value>, nest: int, written: Bytes)
    requires ItemsSoFar(useBin, items, nest, |items|, written)
    ensures EncodeItemsF(useBin, items, nest) == Ok(written)
  {
    assert items[|items|..] == [] && written + [] == written;
  }

  /** The elements of `pairs` before `i` have been written, and they are `written`. */
  predicate PairsSoFar(useBin: bool, pairs: seq<Pair>, nest: int, i: nat, written: Bytes)
    requires i <= |pairs|
  {
    && EncodePairsF(useBin, pairs, nest) == Prefixed(written, EncodePairsF(useBin, pairs[i..], nest))
    && LeftPairsF(useBin, pairs, nest) == written + LeftPairsF(useBin, pairs[i..], nest)
  }

  lemma PairsBegin(useBin: bool, pairs: seq<Pair>, nest: int)
    ensures PairsSoFar(useBin, pairs, nest, 0, [])
  {
    PrefixedNothing(EncodePairsF(useBin, pairs, nest));
    assert pairs[0..] == pairs;
    assert [] + LeftPairsF(useBin, pairs, nest) == LeftPairsF(useBin, pairs, nest);
  }

  lemma PairsStep(useBin: bool, pairs: seq<Pair>, nest: int, i: nat, written: Bytes)
    requires i < |pairs| && PairsSoFar(useBin, pairs, nest, i, written)
    ensures match EncodePairF(useBin, pairs[i], nest)
            case Ok(b) => PairsSoFar(useBin, pairs, nest, i + 1, written + b)
            case Raise(e) =>
              EncodePairsF(useBin, pairs, nest) == Raise(e) &&
              LeftPairsF(useBin, pairs, nest) == written + LeftPairF(useBin, pairs[i], nest)
  {
    hide EncodePairF, LeftPairF;
    assert pairs[i..][0] == pairs[i] && pairs[i..][1..] == pairs[i + 1..];
    match EncodePairF(useBin, pairs[i], nest)
    case Ok(b) =>
      PrefixedTwice(written, b, EncodePairsF(useBin, pairs[i + 1..], nest));
      var left := LeftPairsF(useBin, pairs[i + 1..], nest);
      assert written + (b + left) == written + b + left;
    case Raise(_) =>
  }

  lemma PairsEnd(useBin: bool, pairs: seq<Pair>, nest: int, written: Bytes)
    requires PairsSoFar(useBin, pairs, nest, |pairs|, written)
    ensures EncodePairsF(useBin, pairs, nest) == Ok(written)
  {
    assert pairs[|pairs|..] == [] && written + [] == written;
  }

  class Packer {
    const useBin: bool
    const autoreset: bool
    var buffer: Bytes

    constructor (useBin: bool, autoreset: bool)
      ensures this.useBin == useBin && this.autoreset == autoreset && buffer == []
    {
      this.useBin, this.autoreset, buffer := useBin, autoreset, [];
    }

    method Write(b: Bytes)
      modifies this`buffer
      ensures buffer == old(buffer) + b
    {
      buffer := buffer + b;
    }

    /** Write a header, then the body behind it. */
    method WriteBoth(header: Outcome<Bytes>, body: Bytes) returns (r: Outcome<()>)
      modifies this`buffer
      ensures Wrote(old(buffer), buffer, r, Joined(header, Ok(body)), [])
    {
      if header.Raise? {
        return Raise(header.error);
      }
      Write(header.value);
      Write(body);
      assert buffer == old(buffer) + (header.value + body);
      return Ok(());
    }

    /** The ext branch of `_pack`: header, type byte, data. */
    method WriteExt(code: int, data: Bytes) returns (r: Outcome<()>)
      modifies this`buffer
      ensures Wrote(old(buffer), buffer, r, ExtF(code, data), [])
    {
      hide ExtHeaderF;
      r := WriteBoth(ExtHeaderF(|data|), [TypeByte(code)] + data);
    }

    /** `_pack` */
    method PackValue(v: Value, nest: int) returns (r: Outcome<()>)
      modifies this`buffer
      ensures Wrote(old(buffer), buffer, r, EncodeF(useBin, v, nest), LeftF(useBin, v, nest))
      decreases v, 0
    {
      hide IntF, ExtF, ToBytes, ArrayHeaderF, MapHeaderF, RawHeaderF, BinHeaderF;
      if nest < 0 {
        return Raise(ValueError);
      }
      match v {
        case Nil => r := WriteBoth(Ok([0xc0]), []);
        case Bool(b) => r := WriteBoth(Ok([if b then 0xc3 else 0xc2]), []);
        case Int(i) => r := WriteBoth(IntF(i), []);
        case Bin(b) =>
          if |b| >= TWO_TO_THE_32 {
            return Raise(ValueError);
          }
          r := WriteBoth(BinHeaderF(useBin, |b|), b);
        case Str(b) =>
          if |b| >= TWO_TO_THE_32 {
            return Raise(ValueError);
          }
          r := WriteBoth(RawHeaderF(useBin, |b|), b);
        case Float(bits) => r := WriteBoth(Ok([0xcb]), bits);
        case Time(t) =>
          if ToBytes(t).None? {
            return Raise(StructError);
          }
          r := WriteExt(-1, ToBytes(t).value);
        case Ext(code, data) => r := WriteExt(code, data);
        case Arr(items) =>
          r := WriteBoth(ArrayHeaderF(|items|), []);
          if r.Ok? {
            r := PackItems(items, nest - 1);
          }
        case Map(pairs) => r := PackPairs(pairs, nest - 1);
      }
    }

    /** The loop over the elements of a list. */
    method PackItems(items: seq<Value>, nest: int) returns (r: Outcome<()>)
      modifies this`buffer
      ensures Wrote(old(buffer), buffer, r, EncodeItemsF(useBin, items, nest), LeftItemsF(useBin, items, nest))
      decreases items, 1
    {
      hide EncodeF, LeftF, EncodeItemsF, LeftItemsF, ItemsSoFar;
      var i := 0;
      ghost var written: Bytes := [];
      ItemsBegin(useBin, items, nest);
      while i < |items|
        invariant i <= |items| && buffer == old(buffer) + written && ItemsSoFar(useBin, items, nest, i, written)
      {
        ItemsStep(useBin, items, nest, i, written);
        r := PackValue(items[i], nest);
        if r.Raise? {
          assert buffer == old(buffer) + (written + LeftF(useBin, items[i], nest));
          return;
        }
        assert buffer == old(buffer) + (written + EncodeF(useBin, items[i], nest).value);
        written := written + EncodeF(useBin, items[i], nest).value;
        i := i + 1;
      }
      ItemsEnd(useBin, items, nest, written);
      return Ok(());
    }

    /** What an exception among the pairs of a map leaves behind: the header, and what follows it. */
    function LeftMapF(pairs: seq<Pair>, nest: int): Bytes {
      if MapHeaderF(|pairs|).Raise? then [] else MapHeaderF(|pairs|).value + LeftPairsF(useBin, pairs, nest)
    }

    /** `_pack_map_pairs`, which takes another level off the nesting limit. */
    method PackPairs(pairs: seq<Pair>, nest: int) returns (r: Outcome<()>)
      modifies this`buffer
      ensures Wrote(old(buffer), buffer, r, Joined(MapHeaderF(|pairs|), EncodePairsF(useBin, pairs, nest - 1)),
                    LeftMapF(pairs, nest - 1))
      decreases pairs, 1
    {
      hide EncodePairF, LeftPairF, EncodePairsF, LeftPairsF, PairsSoFar, MapHeaderF;
      r := WriteBoth(MapHeaderF(|pairs|), []);
      if r.Raise? {
        return;
      }
      ghost var header := MapHeaderF(|pairs|).value;
      var i := 0;
      ghost var written: Bytes := [];
      PairsBegin(useBin, pairs, nest - 1);
      assert buffer == old(buffer) + (header + written);
      while i < |pairs|
        invariant i <= |pairs| && buffer == old(buffer) + (header + written)
        invariant PairsSoFar(useBin, pairs, nest - 1, i, written)
      {
        PairsStep(useBin, pairs, nest - 1, i, written);
        r := PackPair(pairs[i], nest - 1);
        if r.Raise? {
          assert buffer == old(buffer) + (header + (written + LeftPairF(useBin, pairs[i], nest - 1)));
          return;
        }
        assert buffer == old(buffer) + (header + (written + EncodePairF(useBin, pairs[i], nest - 1).value));
        written := written + EncodePairF(useBin, pairs[i], nest - 1).value;
        i := i + 1;
      }
      PairsEnd(useBin, pairs, nest - 1, written);
      return Ok(());
    }

    /** The body of the loop over a dict. */
    method PackPair(pair: Pair, nest: int) returns (r: Outcome<()>)
      modifies this`buffer
      ensures Wrote(old(buffer), buffer, r, EncodePairF(useBin, pair, nest), LeftPairF(useBin, pair, nest))
      decreases pair, 1
    {
      hide EncodeF;
      r := PackValue(pair.key, nest);
      if r.Raise? {
        return;
      }
      r := PackValue(pair.value, nest);
      if r.Ok? {
        assert buffer == old(buffer) + (EncodeF(useBin, pair.key, nest).value + EncodeF(useBin, pair.value, nest).value);
      }
    }

    /** `pack`: with `autoreset` the buffer is returned and cleared; an exception clears it too. */
    method Pack(v: Value) returns (r: Outcome<Option<Bytes>>)
      modifies this`buffer
      ensures match EncodeF(useBin, v, NEST_LIMIT)
              case Ok(b) =>
                if autoreset then r == Ok(Some(old(buffer) + b)) && buffer == []
                else r == Ok(None) && buffer == old(buffer) + b
              case Raise(e) => r == Raise(e) && buffer == []
    {
      hide EncodeF;
      var done := PackValue(v, NEST_LIMIT);
      if done.Raise? {
        buffer := [];
        return Raise(done.error);
      }
      if autoreset {
        r := Ok(Some(buffer));
        buffer := [];
      } else {
        r := Ok(None);
      }
    }

    /** `pack_map_pairs`: an exception leaves what was written so far. */
    method PackMapPairs(pairs: seq<Pair>) returns (r: Outcome<Option<Bytes>>)
      modifies this`buffer
      ensures match Joined(MapHeaderF(|pairs|), EncodePairsF(useBin, pairs, NEST_LIMIT - 1))
              case Ok(b) =>
                if autoreset then r == Ok(Some(old(buffer) + b)) && buffer == []
                else r == Ok(None) && buffer == old(buffer) + b
              case Raise(e) => r == Raise(e) && buffer == old(buffer) + LeftMapF(pairs, NEST_LIMIT - 1)
    {
      hide EncodePairsF, MapHeaderF;
      var done := PackPairs(pairs, NEST_LIMIT);
      if done.Raise? {
        return Raise(done.error);
      }
      if autoreset {
        r := Ok(Some(buffer));
        buffer := [];
      } else {
        r := Ok(None);
      }
    }

    /** `pack_ext_type` takes codes 0 to 127 and never resets the buffer. */
    method PackExtType(code: int, data: Bytes) returns (r: Outcome<()>)
      modifies this`buffer
      ensures Wrote(old(buffer), buffer, r,
                    if 0 <= code <= 127 && |data| <= 0xffff_ffff then ExtF(code, data) else Raise(ValueError), [])
    {
      hide ExtF;
      if !(0 <= code <= 127) || |data| > 0xffff_ffff {
        return Raise(ValueError);
      }
      r := WriteExt(code, data);
    }

    method Reset()
      modifies this`buffer
      ensures buffer == []
    {
      buffer := [];
    }
  }

  lemma WroteBehind(before: Bytes, header: Bytes, after: Bytes, r: Outcome<()>, code: Outcome<Bytes>, left: Bytes)
    requires Wrote(before + header, after, r, code, left)
    ensures Wrote(before, after, r, Prefixed(header, code), header + left)
  {
    match code
    case Ok(b) => assert before + header + b == before + (header + b);
    case Raise(_) => assert before + header + left == before + (header + left);
  }
}
