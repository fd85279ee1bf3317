/** Packer output never exhausts the stack of the C decoder, whatever its limits and key rules make of the values. */
module StackSafety {
  import opened ByteStrings
  import opened Timestamps
  import opened Values
  import opened Decoder
  import opened Machine
  import opened Refinement
  import opened Encoder
  import opened Nesting
  import opened RoundTrips

  // ---------- what skipping can count ----------

  /** No ext in `v` has the longest length there is, which the machine counts modulo 2^32 as none. */
  predicate ShortExts(v: Value)
    decreases v, 0
  {
    match v
    case Ext(_, b) => |b| < 0xffff_ffff
    case Arr(items) => ShortExtItems(items)
    case Map(pairs) => ShortExtPairs(pairs)
    case _ => true
  }

  predicate ShortExtItems(items: seq<Value>)
    decreases items, 1
  {
    items == [] || (ShortExts(items[0]) && ShortExtItems(items[1..]))
  }

  predicate ShortExtPair(pair: Pair)
    decreases pair, 1
  {
    ShortExts(pair.key) && ShortExts(pair.value)
  }

  predicate ShortExtPairs(pairs: seq<Pair>)
    decreases pairs, 1
  {
    pairs == [] || (ShortExtPair(pairs[0]) && ShortExtPairs(pairs[1..]))
  }

  /** Skipping an ext of 2^32 - 1 bytes stops right behind its length, before its type and data. */
  lemma SkippingLosesTheLongestExt(o: Options, rest: Bytes)
    requires Modelled(o)
    ensures Run(o, false, INITIAL, LONGEST_EXT + rest, 0) == Returned(Nil, 5)
  {
    var s := LONGEST_EXT + rest;
    var four: Bytes := s[1..5];
    assert four == [0xff, 0xff, 0xff, 0xff];
    LoadPositional(four);
    RunHeader(o, false, [], s, 0);
    assert HeaderAction(o, false, s[0]) == Await(CS_EXT_32, 4);
    RunTrail(o, false, [], CS_EXT_32, 4, s, 1);
    assert TrailAction(o, false, CS_EXT_32, four) == Push(Nil);
  }

  // ---------- headers ----------

  lemma SizedLimitsRefuse(o: Options, s: Bytes, q: nat, b: Byte)
    requires q <= |s| && 0xc4 <= b <= 0xdf
    ensures var g := ReadSized(Unlimited(o), s, q, b);
            g.Done? ==> ReadSized(o, s, q, b) == g || ReadSized(o, s, q, b) == Fail(ValueError)
  {
    hide Load;
  }

  /** Tighter limits refuse a header or read it as before. */
  lemma LimitsRefuse(o: Options, s: Bytes, p: nat)
    requires p <= |s|
    ensures var g := ReadHeader(Unlimited(o), s, p);
            g.Done? ==> ReadHeader(o, s, p) == g || ReadHeader(o, s, p) == Fail(ValueError)
  {
    hide ReadSized;
    if p < |s| && 0xc4 <= s[p] <= 0xdf {
      SizedLimitsRefuse(o, s, p + 1, s[p]);
    }
  }

  /** The run is over without an object, and not for want of stack; this does not happen to a skipping one. */
  ghost predicate Dead(c: bool, h: Halted) {
    c && !h.Returned? && h != Broken(StackError, h.p)
  }

  /** The run gets past `q` with some object pushed on `stack`, or dies first. */
  ghost predicate GetsTo(o: Options, c: bool, stack: seq<Frame>, h: Halted, s: Bytes, q: nat)
    requires Modelled(o) && LegalStack(c, stack) && 0 < q <= |s|
  {
    Dead(c, h) || exists w :: h == After(o, c, stack, Push(w), s, q)
  }

  lemma Pushed(o: Options, c: bool, stack: seq<Frame>, w: Value, s: Bytes, q: nat)
    requires Modelled(o) && LegalStack(c, stack) && 0 < q <= |s|
    ensures GetsTo(o, c, stack, After(o, c, stack, Push(w), s, q), s, q)
  {
  }

  lemma EncodingIsNotEmpty(useBin: bool, v: Value, nest: int)
    ensures EncodeC(useBin, v, nest).Ok? ==> |EncodeC(useBin, v, nest).value| > 0
  {
    hide PackC;
  }

  lemma ScalarFits(o: Options, useBin: bool, v: Value)
    requires !v.Arr? && !v.Map? && EncodeC(useBin, v, 0).Ok?
    ensures LengthFits(Unlimited(o), useBin, v)
    ensures ShortExts(v) ==> LengthFits(ReadUnder(o, false), useBin, v)
  {
    hide RawHeaderC, BinHeaderC, ExtHeaderC, PackC;
    if v.Time? {
      PayloadLength(v.t);
    }
  }

  /** What a packer writes with an ext header always converts. */
  lemma ExtTokensBuild(o: Options, useBin: bool, v: Value)
    requires !v.Arr? && !v.Map? && (v.Time? ==> ToBytes(v.t).Some?)
    ensures TokenOf(useBin, v).ExtBody? ==> Build(o, TokenOf(useBin, v)).Ok?
  {
    hide ToBytes, FromBytes, UnpackC;
    if v.Time? {
      RoundTrip(v.t);
      ReadersAgree(ToBytes(v.t).value);
    }
  }

  /** A scalar's header is read; only building it may be refused, by a limit. */
  lemma ScalarIsRead(o: Options, c: bool, useBin: bool, v: Value, s: Bytes, p: nat)
    requires !v.Arr? && !v.Map? && EncodeC(useBin, v, 0).Ok? && At(s, p, EncodeC(useBin, v, 0).value) && (c || ShortExts(v))
    ensures v.Time? ==> ToBytes(v.t).Some?
    ensures var r := ReadHeader(ReadUnder(o, c), s, p);
            r == Done(TokenOf(useBin, v), p + |EncodeC(useBin, v, 0).value|) || (c && r == Fail(ValueError))
  {
    hide ReadHeader;
    ScalarFits(o, useBin, v);
    if c {
      ScalarHeader(Unlimited(o), useBin, v, s, p);
      LimitsRefuse(o, s, p);
    } else {
      ScalarHeader(ReadUnder(o, false), useBin, v, s, p);
    }
  }

  lemma ScalarIsSafe(o: Options, c: bool, useBin: bool, v: Value, stack: seq<Frame>, s: Bytes, p: nat)
    requires Modelled(o) && LegalStack(c, stack) && |stack| < STACK_SIZE && (c || ShortExts(v))
    requires !v.Arr? && !v.Map? && EncodeC(useBin, v, 0).Ok? && At(s, p, EncodeC(useBin, v, 0).value)
    ensures |EncodeC(useBin, v, 0).value| > 0
    ensures GetsTo(o, c, stack, Run(o, c, State(CS_HEADER, 0, stack), s, p), s, p + |EncodeC(useBin, v, 0).value|)
  {
    hide Run, Perform, ReadHeader, Build, EncodeC, ReadUnder;
    EncodingIsNotEmpty(useBin, v, 0);
    ScalarIsRead(o, c, useBin, v, s, p);
    HeaderFollows(o, c, stack, s, p);
    match ReadHeader(ReadUnder(o, c), s, p)
    case Done(t, q) =>
      ExtTokensBuild(o, useBin, v);
      if !c {
        Pushed(o, c, stack, Nil, s, q);
      } else if Build(o, t).Ok? {
        Pushed(o, c, stack, Build(o, t).value, s, q);
      }
    case _ =>
  }

  /** The header of a container is read, or refused by a limit if the container is to be built. */
  lemma ContainerHeader(o: Options, c: bool, s: Bytes, p: nat, n: nat, isMap: bool)
    requires n < TWO_TO_THE_32 && At(s, p, if isMap then MapHeaderC(n) else ArrayHeaderC(n))
    ensures var q := p + if isMap then |MapHeaderC(n)| else |ArrayHeaderC(n)|;
            var r := ReadHeader(ReadUnder(o, c), s, p);
            p < q <= |s| && ((c && r == Fail(ValueError)) || r == Done(if isMap then MapOf(n) else ArrayOf(n), q))
  {
    hide ReadHeader, StoreC;
    LimitsRefuse(o, s, p);
    var u := if c then Unlimited(o) else ReadUnder(o, false);
    if isMap {
      MapHeaderRead(u, s, p, n);
    } else {
      ArrayHeaderRead(u, s, p, n);
    }
  }

  // ---------- values ----------

  /** Wherever the bytes of `v` stand and whatever is open around them, the stack suffices. */
  lemma {:induction false} ValueIsSafe(o: Options, c: bool, useBin: bool, v: Value, nest: int, stack: seq<Frame>, s: Bytes,
                                       p: nat)
    requires Modelled(o) && LegalStack(c, stack) && |stack| + Depth(v) < STACK_SIZE && (c || ShortExts(v))
    requires EncodeC(useBin, v, nest).Ok? && At(s, p, EncodeC(useBin, v, nest).value)
    ensures |EncodeC(useBin, v, nest).value| > 0
    ensures GetsTo(o, c, stack, Run(o, c, State(CS_HEADER, 0, stack), s, p), s, p + |EncodeC(useBin, v, nest).value|)
    decreases v, 0
  {
    hide Run, ReadHeader, Build, PushValue, ArrayHeaderC, MapHeaderC, RawHeaderC, BinHeaderC, ExtHeaderC, IntC, TimestampC;
    hide EncodeItemsC, EncodePairsC, DepthItems, DepthPairs, ShortExtItems, ShortExtPairs, At, ReadUnder;
    EncodingIsNotEmpty(useBin, v, nest);
    match v
    case Arr(items) =>
      var h, body := ArrayHeaderC(|items|), EncodeItemsC(useBin, items, nest - 1).value;
      AtConcat(s, p, h, body);
      ContainerHeader(o, c, s, p, |items|, false);
      HeaderFollows(o, c, stack, s, p);
      if ReadHeader(ReadUnder(o, c), s, p).Done? {
        LimitsAllow(o, c, s, p);
        ArrayIsSafe(o, c, useBin, items, nest - 1, stack, s, p + |h|);
      }
    case Map(pairs) =>
      var h, body := MapHeaderC(|pairs|), EncodePairsC(useBin, pairs, nest - 1).value;
      AtConcat(s, p, h, body);
      ContainerHeader(o, c, s, p, |pairs|, true);
      HeaderFollows(o, c, stack, s, p);
      if ReadHeader(ReadUnder(o, c), s, p).Done? {
        LimitsAllow(o, c, s, p);
        MapIsSafe(o, c, useBin, pairs, nest - 1, stack, s, p + |h|);
      }
    case _ => ScalarIsSafe(o, c, useBin, v, stack, s, p);
  }

  lemma {:induction false} ArrayIsSafe(o: Options, c: bool, useBin: bool, items: seq<Value>, nest: int, stack: seq<Frame>,
                                       s: Bytes, q: nat)
    requires Modelled(o) && LegalStack(c, stack) && |stack| + 1 + DepthItems(items) < STACK_SIZE
    requires (c ==> |items| <= o.maxArray) && 0 < q && (c || ShortExtItems(items))
    requires EncodeItemsC(useBin, items, nest).Ok? && At(s, q, EncodeItemsC(useBin, items, nest).value)
    ensures GetsTo(o, c, stack, After(o, c, stack, Open(CT_ARRAY_ITEM, |items|), s, q), s,
                   q + |EncodeItemsC(useBin, items, nest).value|)
    decreases items, 2
  {
    hide Run, PushValue, EncodeC;
    var n := |items|;
    var obj := if c then Arr(seq(n, _ => Nil)) else Nil;
    if n == 0 {
      Pushed(o, c, stack, obj, s, q);
    } else {
      ItemsAreSafe(o, c, useBin, items, nest, stack, Frame(obj, n, 0, CT_ARRAY_ITEM, Nil), s, q);
    }
  }

  lemma AtBounds(s: Bytes, p: nat, x: Bytes)
    requires At(s, p, x)
    ensures p + |x| <= |s|
  {
  }

  /** One more object for an array: its frame goes on or is complete. */
  lemma StoreItem(o: Options, c: bool, f: Frame, w: Value)
    requires LegalFrame(c, f) && f.ct == CT_ARRAY_ITEM
    ensures var r := StoreInFrame(o, c, f, w);
            r.Ok? && r.value.ct == CT_ARRAY_ITEM && r.value.size == f.size && r.value.count == f.count + 1
  {
  }

  lemma {:induction false} ItemsAreSafe(o: Options, c: bool, useBin: bool, items: seq<Value>, nest: int, stack: seq<Frame>,
                                        f: Frame, s: Bytes, p: nat)
    requires Modelled(o) && LegalStack(c, stack) && |stack| + 1 + DepthItems(items) < STACK_SIZE
    requires LegalFrame(c, f) && f.ct == CT_ARRAY_ITEM && |items| == f.size - f.count && 0 < p && (c || ShortExtItems(items))
    requires EncodeItemsC(useBin, items, nest).Ok? && At(s, p, EncodeItemsC(useBin, items, nest).value)
    ensures GetsTo(o, c, stack, Run(o, c, State(CS_HEADER, 0, stack + [f]), s, p), s,
                   p + |EncodeItemsC(useBin, items, nest).value|)
    decreases items, 1
  {
    hide Run, PushValue, EncodeC, At, After, StoreInFrame, Dead;
    var x, rest := EncodeC(useBin, items[0], nest).value, EncodeItemsC(useBin, items[1..], nest).value;
    AtConcat(s, p, x, rest);
    ValueIsSafe(o, c, useBin, items[0], nest, stack + [f], s, p);
    var q := p + |x|;
    var h := Run(o, c, State(CS_HEADER, 0, stack + [f]), s, p);
    if !Dead(c, h) {
      AtBounds(s, p, x);
      var w :| h == After(o, c, stack + [f], Push(w), s, q);
      AfterPushOnTop(o, c, stack, f, w, s, q);
      StoreItem(o, c, f, w);
      var g := StoreInFrame(o, c, f, w).value;
      if g.count == g.size {
        Pushed(o, c, stack, g.obj, s, q);
      } else {
        ItemsAreSafe(o, c, useBin, items[1..], nest, stack, g, s, q);
      }
    }
  }

  lemma {:induction false} MapIsSafe(o: Options, c: bool, useBin: bool, pairs: seq<Pair>, nest: int, stack: seq<Frame>,
                                     s: Bytes, q: nat)
    requires Modelled(o) && LegalStack(c, stack) && |stack| + 1 + DepthPairs(pairs) < STACK_SIZE
    requires (c ==> |pairs| <= o.maxMap) && 0 < q && (c || ShortExtPairs(pairs))
    requires EncodePairsC(useBin, pairs, nest).Ok? && At(s, q, EncodePairsC(useBin, pairs, nest).value)
    ensures GetsTo(o, c, stack, After(o, c, stack, Open(CT_MAP_KEY, |pairs|), s, q), s,
                   q + |EncodePairsC(useBin, pairs, nest).value|)
    decreases pairs, 3
  {
    hide Run, PushValue, EncodeC;
    var n := |pairs|;
    var obj := if c then Map([]) else Nil;
    if n == 0 {
      Pushed(o, c, stack, obj, s, q);
    } else {
      PairsAreSafe(o, c, useBin, pairs, nest, stack, Frame(obj, n, 0, CT_MAP_KEY, Nil), s, q);
    }
  }

  /** `g` is the frame `f` of a map with one more pair in it. */
  predicate NextFrame(c: bool, f: Frame, g: Frame) {
    g.size == f.size && g.count == f.count + 1 && g.ct == CT_MAP_KEY && (c ==> g.obj.Map?)
  }

  /** How a run goes on behind the pair that made the frame `g`. */
  ghost function AfterPair(o: Options, c: bool, stack: seq<Frame>, g: Frame, s: Bytes, q: nat): Halted
    requires Modelled(o) && LegalStack(c, stack) && |stack| < STACK_SIZE && 0 < q <= |s|
    requires g.count <= g.size && g.ct == CT_MAP_KEY && (c ==> g.obj.Map?)
  {
    if g.count == g.size then After(o, c, stack, Push(g.obj), s, q)
    else Run(o, c, State(CS_HEADER, 0, stack + [g]), s, q)
  }

  /** A key, and then a value unless the key is refused. */
  lemma StorePair(o: Options, c: bool, f: Frame, k: Value, v: Value)
    requires LegalFrame(c, f) && f.ct == CT_MAP_KEY
    ensures var g := f.(map_key := k, ct := CT_MAP_VALUE);
            && StoreInFrame(o, c, f, k) == Ok(g) && LegalFrame(c, g)
            && var r := StoreInFrame(o, c, g, v); if r.Ok? then NextFrame(c, f, r.value) else c
  {
  }

  lemma {:induction false} PairIsSafe(o: Options, c: bool, useBin: bool, pair: Pair, nest: int, stack: seq<Frame>, f: Frame,
                                      s: Bytes, p: nat)
    requires Modelled(o) && LegalStack(c, stack) && |stack| + 1 + DepthPair(pair) < STACK_SIZE
    requires LegalFrame(c, f) && f.ct == CT_MAP_KEY && 0 < p && (c || ShortExtPair(pair))
    requires EncodePairC(useBin, pair, nest).Ok? && At(s, p, EncodePairC(useBin, pair, nest).value)
    ensures p + |EncodePairC(useBin, pair, nest).value| <= |s|
    ensures var h := Run(o, c, State(CS_HEADER, 0, stack + [f]), s, p);
            Dead(c, h) ||
            exists g :: NextFrame(c, f, g) && h == AfterPair(o, c, stack, g, s, p + |EncodePairC(useBin, pair, nest).value|)
    decreases pair, 1
  {
    hide Run, PushValue, EncodeC, At, After, StoreInFrame;
    var k, x := EncodeC(useBin, pair.key, nest).value, EncodeC(useBin, pair.value, nest).value;
    AtConcat(s, p, k, x);
    AtBounds(s, p, k);
    AtBounds(s, p + |k|, x);
    ValueIsSafe(o, c, useBin, pair.key, nest, stack + [f], s, p);
    var h := Run(o, c, State(CS_HEADER, 0, stack + [f]), s, p);
    if !Dead(c, h) {
      var w :| h == After(o, c, stack + [f], Push(w), s, p + |k|);
      AfterPushOnTop(o, c, stack, f, w, s, p + |k|);
      var g := f.(map_key := w, ct := CT_MAP_VALUE);
      StorePair(o, c, f, w, Nil);
      assert h == Run(o, c, State(CS_HEADER, 0, stack + [g]), s, p + |k|);
      ValueIsSafe(o, c, useBin, pair.value, nest, stack + [g], s, p + |k|);
      var w' :| h == After(o, c, stack + [g], Push(w'), s, p + |k| + |x|);
      AfterPushOnTop(o, c, stack, g, w', s, p + |k| + |x|);
      StorePair(o, c, f, w, w');
    }
  }

  lemma {:induction false} PairsAreSafe(o: Options, c: bool, useBin: bool, pairs: seq<Pair>, nest: int, stack: seq<Frame>,
                                        f: Frame, s: Bytes, p: nat)
    requires Modelled(o) && LegalStack(c, stack) && |stack| + 1 + DepthPairs(pairs) < STACK_SIZE
    requires LegalFrame(c, f) && f.ct == CT_MAP_KEY && |pairs| == f.size - f.count && 0 < p && (c || ShortExtPairs(pairs))
    requires EncodePairsC(useBin, pairs, nest).Ok? && At(s, p, EncodePairsC(useBin, pairs, nest).value)
    ensures GetsTo(o, c, stack, Run(o, c, State(CS_HEADER, 0, stack + [f]), s, p), s,
                   p + |EncodePairsC(useBin, pairs, nest).value|)
    decreases pairs, 2
  {
    hide Run, PushValue, EncodePairC, At, DepthPair, ShortExtPair, Dead, After;
    var x, rest := EncodePairC(useBin, pairs[0], nest).value, EncodePairsC(useBin, pairs[1..], nest).value;
    AtConcat(s, p, x, rest);
    AtBounds(s, p, x);
    var q := p + |x|;
    var h := Run(o, c, State(CS_HEADER, 0, stack + [f]), s, p);
    PairIsSafe(o, c, useBin, pairs[0], nest, stack, f, s, p);
    if !Dead(c, h) {
      var g :| NextFrame(c, f, g) && h == AfterPair(o, c, stack, g, s, q);
      if g.count == g.size {
        Pushed(o, c, stack, g.obj, s, q);
      } else {
        PairsAreSafe(o, c, useBin, pairs[1..], nest, stack, g, s, q);
      }
    }
  }

  /**
   * The C decoder, unpacking or skipping, never reports StackError (-3) on what the C packer wrote under its
   * default nesting limit, with anything behind it: whatever the options refuse, they refuse for another
   * reason. Skipping refuses nothing and ends where `v` ends, provided it can count the lengths in it (see
   * `SkippingLosesTheLongestExt`).
   */
  lemma PackerOutputFitsTheStack(o: Options, c: bool, useBin: bool, v: Value, rest: Bytes)
    requires Modelled(o) && EncodeC(useBin, v, NEST_LIMIT).Ok? && (c || ShortExts(v))
    ensures var h := Run(o, c, INITIAL, EncodeC(useBin, v, NEST_LIMIT).value + rest, 0);
            && (h.Broken? ==> h.error != StackError)
            && (!c ==> h == Returned(Nil, |EncodeC(useBin, v, NEST_LIMIT).value|))
  {
    hide Run, EncodeC, ShortExts;
    var b := EncodeC(useBin, v, NEST_LIMIT).value;
    PackedDepth(useBin, v);
    assert (b + rest)[0..|b|] == b;
    ValueIsSafe(o, c, useBin, v, NEST_LIMIT, [], b + rest, 0);
  }
}
