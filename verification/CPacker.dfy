/** The C packer: the growable buffer of `pack.h` and the routines of `_packer.pyx` that write to it. */
module CPacker {
  import opened ByteStrings
  import opened Timestamps
  import opened Values
  import opened Encoder
  import opened Nesting
  import FallbackPacker

  // ---------- how the buffer grows ----------

  /**
   * The sizes of a packer's buffer: capacity and length, and over its whole life the largest `length + l`
   * asked for, the bytes moved by reallocations, and their number.
   */
  datatype Meter = Meter(capacity: nat, length: nat, peak: nat, copied: nat, reallocations: nat)

  datatype Call = WriteCall(l: nat) | ResetCall

  /** `msgpack_pack_write` and `reset`, in sizes. */
  function MeterAfter(m: Meter, c: Call): Meter {
    match c
    case ResetCall => m.(length := 0)
    case WriteCall(l) =>
      var need := m.length + l;
      var grown := m.(length := need, peak := Max(m.peak, need));
      if need <= m.capacity then grown
      else grown.(capacity := 2 * need, copied := m.copied + m.length, reallocations := m.reallocations + 1)
  }

  function MeterRun(m: Meter, calls: seq<Call>): Meter
    decreases |calls|
  {
    if calls == [] then m else MeterRun(MeterAfter(m, calls[0]), calls[1..])
  }

  predicate MeterValid(initial: nat, m: Meter) {
    && m.length <= m.capacity
    && m.length <= m.peak
    && if m.reallocations == 0 then m.capacity == initial && m.copied == 0
       else m.capacity <= 2 * m.peak && m.copied < m.capacity
  }

  lemma MeterStep(initial: nat, m: Meter, c: Call)
    requires MeterValid(initial, m)
    ensures MeterValid(initial, MeterAfter(m, c))
  {
  }

  /**
   * Amortised growth: over any sequence of writes and resets the capacity stays within the initial size or
   * twice the largest demand, and all reallocations together move fewer bytes than twice that demand.
   */
  lemma {:induction false} AmortisedGrowth(initial: nat, m: Meter, calls: seq<Call>)
    requires MeterValid(initial, m)
    ensures var r := MeterRun(m, calls);
            && MeterValid(initial, r)
            && r.capacity <= Max(initial, 2 * r.peak)
            && (r.reallocations > 0 ==> r.copied < 2 * r.peak)
            && (r.reallocations == 0 ==> r.copied == 0)
    decreases |calls|
  {
    if calls == [] {
    } else {
      MeterStep(initial, m, calls[0]);
      AmortisedGrowth(initial, MeterAfter(m, calls[0]), calls[1..]);
    }
  }

  /** The elements of `items` before `i` have been written, and they are `written`. */
  predicate ItemsSoFar(useBin: bool, items: seq<Value>, nest: int, i: nat, written: Bytes)
    requires i <= |items|
  {
    && EncodeItemsC(useBin, items, nest) == Prefixed(written, EncodeItemsC(useBin, items[i..], nest))
    && LeftItemsC(useBin, items, nest) == written + LeftItemsC(useBin, items[i..], nest)
  }

  lemma ItemsBegin(useBin: bool, items: seq<Value>, nest: int)
    ensures ItemsSoFar(useBin, items, nest, 0, [])
  {
    FallbackPacker.PrefixedNothing(EncodeItemsC(useBin, items, nest));
    assert items[0..] == items;
    assert [] + LeftItemsC(useBin, items, nest) == LeftItemsC(useBin, items, nest);
  }

  lemma ItemsStep(useBin: bool, items: seq<Value>, nest: int, i: nat, written: Bytes)
    requires i < |items| && ItemsSoFar(useBin, items, nest, i, written)
    ensures match EncodeC(useBin, items[i], nest)
            case Ok(b) => ItemsSoFar(useBin, items, nest, i + 1, written + b)
            case Raise(e) =>
              EncodeItemsC(useBin, items, nest) == Raise(e) &&
              LeftItemsC(useBin, items, nest) == written + LeftC(useBin, items[i], nest)
  {
    hide EncodeC, LeftC;
    assert items[i..][0] == items[i] && items[i..][1..] == items[i + 1..];
    match EncodeC(useBin, items[i], nest)
    case Ok(b) =>
      FallbackPacker.PrefixedTwice(written, b, EncodeItemsC(useBin, items[i + 1..], nest));
      var left := LeftItemsC(useBin, items[i + 1..], nest);
      assert written + (b + left) == written + b + left;
    case Raise(_) =>
  }

  lemma ItemsEnd(useBin: bool, items: seq<Value>, nest: int, written: Bytes)
    requires ItemsSoFar(useBin, items, nest, |items|, written)
    ensures EncodeItemsC(useBin, items, nest) == Ok(written)
  {
    assert items[|items|..] == [] && written + [] == written;
  }

  /** The elements of `pairs` before `i` have been written, and they are `written`. */
  predicate PairsSoFar(useBin: bool, pairs: seq<Pair>, nest: int, i: nat, written: Bytes)
    requires i <= |pairs|
  {
    && EncodePairsC(useBin, pairs, nest) == Prefixed(written, EncodePairsC(useBin, pairs[i..], nest))
    && LeftPairsC(useBin, pairs, nest) == written + LeftPairsC(useBin, pairs[i..], nest)
  }

  lemma PairsBegin(useBin: bool, pairs: seq<Pair>, nest: int)
    ensures PairsSoFar(useBin, pairs, nest, 0, [])
  {
    FallbackPacker.PrefixedNothing(EncodePairsC(useBin, pairs, nest));
    assert pairs[0..] == pairs;
    assert [] + LeftPairsC(useBin, pairs, nest) == LeftPairsC(useBin, pairs, nest);
  }

  lemma PairsStep(useBin: bool, pairs: seq<Pair>, nest: int, i: nat, written: Bytes)
    requires i < |pairs| && PairsSoFar(useBin, pairs, nest, i, written)
    ensures match EncodePairC(useBin, pairs[i], nest)
            case Ok(b) => PairsSoFar(useBin, pairs, nest, i + 1, written + b)
            case Raise(e) =>
              EncodePairsC(useBin, pairs, nest) == Raise(e) &&
              LeftPairsC(useBin, pairs, nest) == written + LeftPairC(useBin, pairs[i], nest)
  {
    hide EncodePairC, LeftPairC;
    assert pairs[i..][0] == pairs[i] && pairs[i..][1..] == pairs[i + 1..];
    match EncodePairC(useBin, pairs[i], nest)
    case Ok(b) =>
      FallbackPacker.PrefixedTwice(written, b, EncodePairsC(useBin, pairs[i + 1..], nest));
      var left := LeftPairsC(useBin, pairs[i + 1..], nest);
      assert written + (b + left) == written + b + left;
    case Raise(_) =>
  }

  lemma PairsEnd(useBin: bool, pairs: seq<Pair>, nest: int, written: Bytes)
    requires PairsSoFar(useBin, pairs, nest, |pairs|, written)
    ensures EncodePairsC(useBin, pairs, nest) == Ok(written)
  {
    assert pairs[|pairs|..] == [] && written + [] == written;
  }

  class PackBuffer {
    const useBin: bool
    var buf: array<Byte>
    var length: nat

    /** The initial capacity, the largest `length + l` asked for, and the bytes moved by reallocations so far. */
    ghost const initial: nat
    ghost var peak: nat
    ghost var copied: nat
    ghost var reallocations: nat

    ghost function Sizes(): Meter
      reads this
    {
      Meter(buf.Length, length, peak, copied, reallocations)
    }

    ghost predicate Valid()
      reads this
    {
      MeterValid(initial, Sizes())
    }

    /** What has been written since the last reset. */
    ghost function Contents(): Bytes
      reads this, buf
      requires Valid()
    {
      buf[..length]
    }

    constructor (bufSize: nat, useBin: bool)
      ensures Valid() && fresh(buf) && Contents() == [] && this.useBin == useBin
      ensures initial == bufSize && peak == 0 && copied == 0 && reallocations == 0
    {
      this.useBin := useBin;
      buf := new Byte[bufSize](_ => 0);
      length, initial, peak, copied, reallocations := 0, bufSize, 0, 0, 0;
    }

    /** `msgpack_pack_write` */
    method Write(data: Bytes)
      requires Valid()
      modifies this, buf
      ensures Valid() && (buf == old(buf) || fresh(buf))
      ensures Contents() == old(Contents()) + data
      ensures Sizes() == MeterAfter(old(Sizes()), WriteCall(|data|))
    {
      var bs, len := buf.Length, length;
      if len + |data| > bs {
        bs := (len + |data|) * 2;
        var bigger := new Byte[bs](_ => 0);
        forall i | 0 <= i < len {
          bigger[i] := buf[i];
        }
        buf := bigger;
        copied := copied + len;
        reallocations := reallocations + 1;
      }
      assert buf[..len] == old(Contents());
      forall i | 0 <= i < |data| {
        buf[len + i] := data[i];
      }
      length := len + |data|;
      peak := Max(peak, length);
      assert buf[..length] == old(Contents()) + data;
    }

    /** `reset`, and the clearing of `length` after an exception. */
    method Reset()
      requires Valid()
      modifies this`length
      ensures Valid() && Contents() == [] && buf == old(buf) && Sizes() == MeterAfter(old(Sizes()), ResetCall)
    {
      length := 0;
    }

    // ---------- _packer.pyx ----------

    /** A header, then the body with `msgpack_pack_raw_body`, which writes nothing when empty. */
    method WriteBoth(header: Bytes, body: Bytes)
      requires Valid()
      modifies this, buf
      ensures Valid() && (buf == old(buf) || fresh(buf)) && peak >= old(peak)
      ensures Contents() == old(Contents()) + (header + body)
    {
      Write(header);
      if |body| > 0 {
        Write(body);
      }
      assert Contents() == old(Contents()) + (header + body);
    }

    lemma IntErrors(i: int)
      ensures IntC(i).Raise? ==> IntC(i).error == OverflowError
    {
    }

    lemma PeakGrows(a: nat, b: nat)
      ensures Max(a, b) >= a
    {
    }

    /** `_pack` with `_pack_inner`: the nesting limit is checked once per value and lowered once per container. */
    method PackValue(v: Value, nest: int) returns (r: Outcome<()>)
      requires Valid()
      modifies this, buf
      ensures Valid() && (buf == old(buf) || fresh(buf)) && peak >= old(peak)
      ensures FallbackPacker.Wrote(old(Contents()), Contents(), r, EncodeC(useBin, v, nest), LeftC(useBin, v, nest))
      decreases v, 0
    {
      hide IntC, ExtHeaderC, ArrayHeaderC, MapHeaderC, RawHeaderC, BinHeaderC, PackC, Valid;
      if nest < 0 {
        return Raise(ValueError);
      }
      r := Ok(());
      match v {
        case Nil => WriteBoth([0xc0], []);
        case Bool(b) => WriteBoth([if b then 0xc3 else 0xc2], []);
        case Int(i) =>
          if IntC(i).Raise? {
            IntErrors(i);
            return Raise(OverflowError);
          }
          WriteBoth(IntC(i).value, []);
        case Float(bits) => WriteBoth([0xcb] + bits, []);
        case Bin(b) =>
          if |b| > 0xffff_ffff {
            return Raise(ValueError);
          }
          WriteBoth(BinHeaderC(useBin, |b|), b);
        case Str(b) =>
          if |b| > 0xffff_ffff {
            return Raise(ValueError);
          }
          WriteBoth(RawHeaderC(useBin, |b|), b);
        case Map(pairs) =>
          if |pairs| > 0xffff_ffff {
            return Raise(ValueError);
          }
          Write(MapHeaderC(|pairs|));
          PeakGrows(old(peak), old(length) + |MapHeaderC(|pairs|)|);
          r := PackPairs(pairs, nest - 1);
          FallbackPacker.WroteBehind(old(Contents()), MapHeaderC(|pairs|), Contents(), r,
                                     EncodePairsC(useBin, pairs, nest - 1), LeftPairsC(useBin, pairs, nest - 1));
        case Ext(code, data) =>
          if |data| > 0xffff_ffff {
            return Raise(ValueError);
          }
          WriteBoth(ExtHeaderC(code, |data|), data);
        case Time(t) =>
          if !(-TWO_TO_THE_63 <= t.seconds < TWO_TO_THE_63) {
            return Raise(OverflowError);
          }
          var payload := PackC(t.seconds, t.nanoseconds);
          WriteBoth(ExtHeaderC(-1, |payload|), payload);
        case Arr(items) =>
          if |items| > 0xffff_ffff {
            return Raise(ValueError);
          }
          Write(ArrayHeaderC(|items|));
          PeakGrows(old(peak), old(length) + |ArrayHeaderC(|items|)|);
          r := PackItems(items, nest - 1);
          FallbackPacker.WroteBehind(old(Contents()), ArrayHeaderC(|items|), Contents(), r,
                                     EncodeItemsC(useBin, items, nest - 1), LeftItemsC(useBin, items, nest - 1));
      }
    }

    /** The loop over the elements of a list. */
    method PackItems(items: seq<Value>, nest: int) returns (r: Outcome<()>)
      requires Valid()
      modifies this, buf
      ensures Valid() && (buf == old(buf) || fresh(buf)) && peak >= old(peak)
      ensures FallbackPacker.Wrote(old(Contents()), Contents(), r, EncodeItemsC(useBin, items, nest),
                                   LeftItemsC(useBin, items, nest))
      decreases items, 1
    {
      hide EncodeC, LeftC, EncodeItemsC, LeftItemsC, ItemsSoFar, Valid;
      var i := 0;
      ghost var start, written: Bytes := Contents(), [];
      ItemsBegin(useBin, items, nest);
      while i < |items|
        invariant i <= |items| && Valid() && (buf == old(buf) || fresh(buf)) && peak >= old(peak)
        invariant Contents() == start + written && ItemsSoFar(useBin, items, nest, i, written)
      {
        ItemsStep(useBin, items, nest, i, written);
        r := PackValue(items[i], nest);
        if r.Raise? {
          assert Contents() == start + (written + LeftC(useBin, items[i], nest));
          return;
        }
        assert Contents() == start + (written + EncodeC(useBin, items[i], nest).value);
        written := written + EncodeC(useBin, items[i], nest).value;
        i := i + 1;
      }
      ItemsEnd(useBin, items, nest, written);
      return Ok(());
    }

    /** The loop over the items of a dict. */
    method PackPairs(pairs: seq<Pair>, nest: int) returns (r: Outcome<()>)
      requires Valid()
      modifies this, buf
      ensures Valid() && (buf == old(buf) || fresh(buf)) && peak >= old(peak)
      ensures FallbackPacker.Wrote(old(Contents()), Contents(), r, EncodePairsC(useBin, pairs, nest),
                                   LeftPairsC(useBin, pairs, nest))
      decreases pairs, 1
    {
      hide EncodePairC, LeftPairC, EncodePairsC, LeftPairsC, PairsSoFar, Valid;
      var i := 0;
      ghost var start, written: Bytes := Contents(), [];
      PairsBegin(useBin, pairs, nest);
      while i < |pairs|
        invariant i <= |pairs| && Valid() && (buf == old(buf) || fresh(buf)) && peak >= old(peak)
        invariant Contents() == start + written && PairsSoFar(useBin, pairs, nest, i, written)
      {
        PairsStep(useBin, pairs, nest, i, written);
        r := PackPair(pairs[i], nest);
        if r.Raise? {
          assert Contents() == start + (written + LeftPairC(useBin, pairs[i], nest));
          return;
        }
        assert Contents() == start + (written + EncodePairC(useBin, pairs[i], nest).value);
        written := written + EncodePairC(useBin, pairs[i], nest).value;
        i := i + 1;
      }
      PairsEnd(useBin, pairs, nest, written);
      return Ok(());
    }

    method PackPair(pair: Pair, nest: int) returns (r: Outcome<()>)
      requires Valid()
      modifies this, buf
      ensures Valid() && (buf == old(buf) || fresh(buf)) && peak >= old(peak)
      ensures FallbackPacker.Wrote(old(Contents()), Contents(), r, EncodePairC(useBin, pair, nest),
                                   LeftPairC(useBin, pair, nest))
      decreases pair, 1
    {
      hide EncodeC, Valid;
      r := PackValue(pair.key, nest);
      if r.Raise? {
        return;
      }
      r := PackValue(pair.value, nest);
      if r.Ok? {
        assert Contents() == old(Contents()) +
                             (EncodeC(useBin, pair.key, nest).value + EncodeC(useBin, pair.value, nest).value);
      }
    }

    /** `pack`: with `autoreset` the contents are returned and cleared; an exception clears them too. */
    method Pack(v: Value, autoreset: bool) returns (r: Outcome<Option<Bytes>>)
      requires Valid()
      modifies this, buf
      ensures Valid() && (buf == old(buf) || fresh(buf)) && peak >= old(peak)
      ensures match EncodeC(useBin, v, NEST_LIMIT)
              case Ok(b) =>
                if autoreset then r == Ok(Some(old(Contents()) + b)) && Contents() == []
                else r == Ok(None) && Contents() == old(Contents()) + b
              case Raise(e) => r == Raise(e) && Contents() == []
    {
      hide EncodeC;
      var done := PackValue(v, NEST_LIMIT);
      if done.Raise? {
        Reset();
        return Raise(done.error);
      }
      if autoreset {
        r := Ok(Some(buf[..length]));
        Reset();
      } else {
        r := Ok(None);
      }
    }
  }
}
