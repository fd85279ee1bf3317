/** The rules for the keys of maps, written out: which are the same, which are allowed, and what refuses the others. */
module Keys {
  import opened ByteStrings
  import opened Floats
  import opened Values
  import opened Decoder
  import opened Machine
  import opened Refinement
  import opened Repacking
  import opened Streams

  // ---------- which keys are the same ----------

  /** `v` is a number, and equal to the integer `n`. */
  predicate EqualsInteger(v: Value, n: int) {
    match v
    case Bool(b) => if b then n == 1 else n == 0
    case Int(i) => n == i
    case Float(bits) => Exponent(bits) != 0x7ff && Numerator(bits) == n * Denominator(bits)
    case _ => false
  }

  /** Not a number at all, which not even itself is equal to. */
  predicate IsUnequalToItself(v: Value) {
    match v
    case Float(bits) => Exponent(bits) == 0x7ff && Fraction(bits) != 0
    case _ => false
  }

  lemma InfinitiesAreNoIntegers(bits: Double)
    requires Exponent(bits) == 0x7ff
    ensures IntegerOf(bits).None?
  {
  }

  lemma ImageIsInteger(v: Value, n: int)
    ensures EqualsInteger(v, n) <==> KeyImage(v) == Int(n)
  {
    hide Numerator, Denominator, IntegerOf;
    match v
    case Float(bits) =>
      if Exponent(bits) != 0x7ff {
        IntegerOfIsTheValue(bits, n);
      } else {
        InfinitiesAreNoIntegers(bits);
      }
    case _ =>
  }

  lemma ImagesOfOthers(v: Value)
    ensures !KeyImage(v).Int? ==> KeyImage(v) == v
    ensures KeyImage(v).Int? ==> !IsUnequalToItself(v)
  {
    hide IntegerOf;
    if v.Float? && Exponent(v.bits) == 0x7ff {
      InfinitiesAreNoIntegers(v.bits);
    }
  }

  /** Two keys are the same if they are equal to the same integer, or are the same value and no NaN. */
  lemma SameKeyIsEquality(a: Value, b: Value)
    ensures SameKey(a, b) <==>
            (exists n :: EqualsInteger(a, n) && EqualsInteger(b, n)) || (a == b && !IsUnequalToItself(a))
  {
    hide EqualsInteger, KeyImage;
    forall n ensures EqualsInteger(a, n) <==> KeyImage(a) == Int(n) {
      ImageIsInteger(a, n);
    }
    forall n ensures EqualsInteger(b, n) <==> KeyImage(b) == Int(n) {
      ImageIsInteger(b, n);
    }
    ImagesOfOthers(a);
    ImagesOfOthers(b);
    if KeyImage(a).Int? && KeyImage(b) == KeyImage(a) {
      assert EqualsInteger(a, KeyImage(a).i) && EqualsInteger(b, KeyImage(a).i);
    }
  }

  // ---------- which keys are allowed ----------

  predicate IsText(k: Value) {
    match k
    case Str(_) => true
    case Bin(_) => true
    case _ => false
  }

  predicate IsContainer(k: Value) {
    match k
    case Arr(_) => true
    case Map(_) => true
    case _ => false
  }

  /** Every key in `v`, at every depth, is no container, and is a string or bytes if `strict`. */
  predicate KeysObey(strict: bool, v: Value)
    decreases v, 0
  {
    match v
    case Arr(items) => ItemsObey(strict, items)
    case Map(pairs) => PairsObey(strict, pairs)
    case _ => true
  }

  predicate ItemsObey(strict: bool, items: seq<Value>)
    decreases items, 1
  {
    items == [] || (KeysObey(strict, items[0]) && ItemsObey(strict, items[1..]))
  }

  predicate PairObeys(strict: bool, pair: Pair)
    decreases pair, 1
  {
    !IsContainer(pair.key) && (strict ==> IsText(pair.key)) && KeysObey(strict, pair.key) && KeysObey(strict, pair.value)
  }

  predicate PairsObey(strict: bool, pairs: seq<Pair>)
    decreases pairs, 1
  {
    pairs == [] || (PairObeys(strict, pairs[0]) && PairsObey(strict, pairs[1..]))
  }

  lemma {:induction false} BuiltKeysObey(o: Options, v: Value, depth: nat)
    requires Built(o, v, depth)
    ensures KeysObey(o.strictMapKey, v)
    decreases v, 0
  {
    match v
    case Arr(items) => BuiltItemsObey(o, items, depth - 1);
    case Map(pairs) => BuiltPairsObey(o, pairs, depth - 1);
    case _ =>
  }

  lemma {:induction false} BuiltItemsObey(o: Options, items: seq<Value>, depth: nat)
    requires BuiltItems(o, items, depth)
    ensures ItemsObey(o.strictMapKey, items)
    decreases items, 1
  {
    if items == [] {
    } else {
      BuiltKeysObey(o, items[0], depth);
      BuiltItemsObey(o, items[1..], depth);
    }
  }

  lemma {:induction false} BuiltPairObeys(o: Options, pair: Pair, depth: nat)
    requires BuiltPair(o, pair, depth) && Hashable(pair.key)
    ensures PairObeys(o.strictMapKey, pair)
    decreases pair, 1
  {
    BuiltKeysObey(o, pair.key, depth);
    BuiltKeysObey(o, pair.value, depth);
  }

  lemma {:induction false} BuiltPairsObey(o: Options, pairs: seq<Pair>, depth: nat)
    requires BuiltPairs(o, pairs, depth) && forall i :: 0 <= i < |pairs| ==> Hashable(pairs[i].key)
    ensures PairsObey(o.strictMapKey, pairs)
    decreases pairs, 1
  {
    if pairs == [] {
    } else {
      BuiltPairObeys(o, pairs[0], depth);
      BuiltPairsObey(o, pairs[1..], depth);
    }
  }

  /** With `strict_map_key` every key at every depth of a decoded value is a string or bytes; none is ever a container. */
  lemma DecodedKeysObey(o: Options, s: Bytes, p: nat, depth: nat)
    requires p <= |s| && Decode(o, true, s, p, depth).Done?
    ensures KeysObey(o.strictMapKey, Decode(o, true, s, p, depth).value)
  {
    hide Decode;
    DecodedIsBuilt(o, s, p, depth);
    BuiltKeysObey(o, Decode(o, true, s, p, depth).value, depth);
  }

  // ---------- which maps are accepted ----------

  /** Keys and values in turn: every key is as it has to be. */
  predicate KeysPass(strict: bool, flat: seq<Value>)
    requires |flat| % 2 == 0
    decreases |flat|
  {
    flat == [] || ((if strict then IsText(flat[0]) else !IsContainer(flat[0])) && KeysPass(strict, flat[2..]))
  }

  /** The exception for a map with other keys. */
  function KeyError(strict: bool): Error {
    if strict then ValueError else TypeError
  }

  /** What stands at the start of a chain of keys and values. */
  lemma ChainOfPair(o: Options, s: Bytes, p: nat, flat: seq<Value>, end: nat, depth: nat)
    requires p <= |s| && |flat| >= 2 && Chain(o, s, p, flat, end, depth)
    ensures var k := Decode(o, true, s, p, depth);
            && k.Done? && k.value == flat[0]
            && var v := Decode(o, true, s, k.end, depth);
               v.Done? && v.value == flat[1] && Chain(o, s, v.end, flat[2..], end, depth)
  {
    hide Decode;
    assert flat[1..][1..] == flat[2..];
  }

  lemma EmptyFlat(o: Options, s: Bytes, p: nat, end: nat, depth: nat)
    requires p <= |s| && Chain(o, s, p, [], end, depth)
    ensures p == end
  {
  }

  lemma {:induction false} PairsAccepted(o: Options, s: Bytes, p: nat, n: nat, depth: nat, d: seq<Pair>,
                                         flat: seq<Value>, end: nat)
    requires p <= |s| && |flat| == 2 * n && Chain(o, s, p, flat, end, depth)
    ensures DecodePairs(o, true, s, p, n, depth, d) ==
            if KeysPass(o.strictMapKey, flat) then Done(Stored(d, flat), end) else Fail(KeyError(o.strictMapKey))
    decreases n
  {
    hide Decode, DictSet, Chain;
    if n == 0 {
      EmptyFlat(o, s, p, end, depth);
    } else {
      ChainOfPair(o, s, p, flat, end, depth);
      var k := Decode(o, true, s, p, depth);
      var v := Decode(o, true, s, k.end, depth);
      PairsAccepted(o, s, v.end, n - 1, depth, DictSet(d, k.value, v.value), flat[2..], end);
    }
  }

  /**
   * A map whose keys and values decode is accepted exactly if all its keys pass: strings and bytes with
   * `strict_map_key`, else anything but containers. The exception is a ValueError or a TypeError.
   */
  lemma MapAcceptance(o: Options, s: Bytes, p: nat, depth: nat, n: nat, q: nat, flat: seq<Value>, end: nat)
    requires p <= |s| && ReadHeader(o, s, p) == Done(MapOf(n), q) && depth > 0
    requires |flat| == 2 * n && Chain(o, s, q, flat, end, depth - 1)
    ensures Decode(o, true, s, p, depth) ==
            if KeysPass(o.strictMapKey, flat) then Done(Map(Stored([], flat)), end) else Fail(KeyError(o.strictMapKey))
  {
    hide ReadHeader, Chain;
    PairsAccepted(o, s, q, n, depth - 1, [], flat, end);
  }

  lemma {:induction false} ItemsAccepted(o: Options, s: Bytes, p: nat, n: nat, depth: nat, acc: seq<Value>,
                                         items: seq<Value>, end: nat)
    requires p <= |s| && |items| == n && Chain(o, s, p, items, end, depth)
    ensures DecodeItems(o, true, s, p, n, depth, acc) == Done(acc + items, end)
    decreases n
  {
    hide Decode;
    if n == 0 {
      assert acc + items == acc;
    } else {
      var v := Decode(o, true, s, p, depth);
      ItemsAccepted(o, s, v.end, n - 1, depth, acc + [v.value], items[1..], end);
      assert acc + [v.value] + items[1..] == acc + items;
    }
  }

  /** A list whose elements decode is accepted. */
  lemma ArrayAcceptance(o: Options, s: Bytes, p: nat, depth: nat, n: nat, q: nat, items: seq<Value>, end: nat)
    requires p <= |s| && ReadHeader(o, s, p) == Done(ArrayOf(n), q) && depth > 0
    requires |items| == n && Chain(o, s, q, items, end, depth - 1)
    ensures Decode(o, true, s, p, depth) == Done(Arr(items), end)
  {
    hide ReadHeader, Chain;
    ItemsAccepted(o, s, q, n, depth - 1, [], items, end);
    assert [] + items == items;
  }

  /** A container that the recursion limit no longer allows is refused for that, whatever is in it. */
  lemma TooDeepIsStackError(o: Options, c: bool, s: Bytes, p: nat)
    requires p <= |s| && ReadHeader(o, s, p).Done?
    requires ReadHeader(o, s, p).value.ArrayOf? || ReadHeader(o, s, p).value.MapOf?
    ensures Decode(o, c, s, p, 0) == Fail(StackError)
  {
  }

  // ---------- the same for the machine ----------

  lemma {:induction false} MachinePairs(o: Options, stack: seq<Frame>, f: Frame, s: Bytes, p: nat, flat: seq<Value>,
                                        end: nat)
    requires Modelled(o) && LegalStack(true, stack) && |stack| < STACK_SIZE && 0 < p <= |s|
    requires LegalFrame(true, f) && f.ct == CT_MAP_KEY && |flat| == 2 * (f.size - f.count)
    requires Chain(o, s, p, flat, end, DepthBelow(stack) - 1)
    ensures end <= |s| && 0 < end
    ensures var h := Run(o, true, State(CS_HEADER, 0, stack + [f]), s, p);
            if KeysPass(o.strictMapKey, flat) then
              h == Refinement.After(o, true, stack, Push(Map(Stored(f.obj.pairs, flat))), s, end)
            else h.Broken? && h.error == KeyError(o.strictMapKey)
    decreases |flat|
  {
    hide Run, Decode, Refinement.After, DictSet, Chain;
    var depth := DepthBelow(stack) - 1;
    ChainOfPair(o, s, p, flat, end, depth);
    ChainBounds(o, s, p, flat, end, depth);
    ReadUnderBuilds(o, true);
    var k := Decode(o, true, s, p, depth);
    var v := Decode(o, true, s, k.end, depth);
    ObjectSimulates(o, true, stack + [f], s, p);
    AfterPushOnTop(o, true, stack, f, k.value, s, k.end);
    var g := f.(map_key := k.value, ct := CT_MAP_VALUE);
    ValueSimulates(o, true, stack, g, s, k.end);
    if if o.strictMapKey then IsText(k.value) else !IsContainer(k.value) {
      var next := NextPair(true, g, v.value);
      if g.count + 1 < g.size {
        MachinePairs(o, stack, next, s, v.end, flat[2..], end);
      } else {
        assert flat[2..] == [] && KeysPass(o.strictMapKey, flat[2..]);
        EmptyFlat(o, s, v.end, end, depth);
      }
    }
  }

  /** The machine accepts the same maps with the same dict, and raises the same exception for the others. */
  lemma MachineMapAcceptance(o: Options, s: Bytes, p: nat, n: nat, q: nat, flat: seq<Value>, end: nat)
    requires Modelled(o) && p <= |s| && ReadHeader(o, s, p) == Done(MapOf(n), q)
    requires |flat| == 2 * n && Chain(o, s, q, flat, end, STACK_SIZE - 1)
    ensures var h := Run(o, true, INITIAL, s, p);
            if KeysPass(o.strictMapKey, flat) then h == Returned(Map(Stored([], flat)), end)
            else h.Broken? && h.error == KeyError(o.strictMapKey)
  {
    hide Run, ReadHeader, Chain, DictSet;
    HeaderFollows(o, true, [], s, p);
    ReadUnderBuilds(o, true);
    ArrayHeaderLimit(o, s, p);
    if n == 0 {
      assert flat == [];
      EmptyFlat(o, s, q, end, STACK_SIZE - 1);
    } else {
      MachinePairs(o, [], Frame(Map([]), n, 0, CT_MAP_KEY, Nil), s, q, flat, end);
    }
  }

  lemma NothingThere(o: Options, s: Bytes, depth: nat)
    ensures Decode(o, true, s, |s|, depth) == NeedMore
  {
  }

  /**
   * A key has come but no byte of its value: the recursive decoder refuses it at once if it is not allowed, while the
   * machine waits for the value whatever the key is. Neither looks yet whether the key is a container.
   */
  lemma KeyWithoutValue(o: Options, stack: seq<Frame>, f: Frame, s: Bytes, p: nat, k: Value)
    requires Modelled(o) && LegalStack(true, stack) && |stack| < STACK_SIZE && 0 < p <= |s|
    requires LegalFrame(true, f) && f.ct == CT_MAP_KEY
    requires Decode(o, true, s, p, DepthBelow(stack) - 1) == Done(k, |s|)
    ensures LegalStack(true, stack + [f])
    ensures DecodePairs(o, true, s, p, f.size - f.count, DepthBelow(stack) - 1, f.obj.pairs) ==
            if o.strictMapKey && !IsText(k) then Fail(ValueError) else NeedMore
    ensures Run(o, true, State(CS_HEADER, 0, stack + [f]), s, p) ==
            Suspended(State(CS_HEADER, 0, stack + [f.(map_key := k, ct := CT_MAP_VALUE)]), |s|)
  {
    hide Run, Decode, Refinement.After, DictSet;
    ReadUnderBuilds(o, true);
    NothingThere(o, s, DepthBelow(stack) - 1);
    AfterPushOnTop(o, true, stack, f, k, s, |s|);
    ObjectSimulates(o, true, stack + [f], s, p);
    StarvedAtEnd(o, true, State(CS_HEADER, 0, stack + [f.(map_key := k, ct := CT_MAP_VALUE)]), s);
  }
}
