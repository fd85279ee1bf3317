/** The limits `unpackb` derives from the length of its input never reject what unlimited decoding accepts. */
module Limits {
  import opened ByteStrings
  import opened Timestamps
  import opened Values
  import opened Decoder
  import opened Machine
  import opened OtherLimits

  /** Which of the `max_*_len` arguments are -1, to be derived from the length of the input. */
  datatype Derived = Derived(strLen: bool, binLen: bool, arrayLen: bool, mapLen: bool, extLen: bool)

  /** The options `unpackb` sets for an input of `n` bytes; the other limits are those of the caller. */
  function Automatic(o: Options, d: Derived, n: nat): (a: Options)
    ensures SameRules(a, o)
  {
    o.(maxStr := if d.strLen then n else o.maxStr,
       maxBin := if d.binLen then n else o.maxBin,
       maxArray := if d.arrayLen then n else o.maxArray,
       maxMap := if d.mapLen then n / 2 else o.maxMap,
       maxExt := if d.extLen then n else o.maxExt)
  }

  lemma CheckAndLimits(o: Options, d: Derived, n: nat, check: bool)
    ensures Automatic(o, d, n).(checkNanos := check) == Automatic(o.(checkNanos := check), d, n)
  {
  }

  lemma SizedWithinInput(o: Options, l: Derived, s: Bytes, q: nat, b: Byte)
    requires q <= |s| && 0xc4 <= b <= 0xdf
    ensures var a := Automatic(o, l, |s|);
            match ReadSized(o, s, q, b)
            case Done(ArrayOf(n), r) => n <= |s| ==> ReadSized(a, s, q, b) == Done(ArrayOf(n), r)
            case Done(MapOf(n), r) => 2 * n <= |s| ==> ReadSized(a, s, q, b) == Done(MapOf(n), r)
            case Done(t, r) => ReadSized(a, s, q, b) == Done(t, r)
            case _ => true
  {
    hide Load;
  }

  lemma HeaderWithinInput(o: Options, l: Derived, s: Bytes, p: nat)
    requires p <= |s|
    ensures var a := Automatic(o, l, |s|);
            match ReadHeader(o, s, p)
            case Done(ArrayOf(n), q) => n <= |s| ==> ReadHeader(a, s, p) == Done(ArrayOf(n), q)
            case Done(MapOf(n), q) => 2 * n <= |s| ==> ReadHeader(a, s, p) == Done(MapOf(n), q)
            case Done(t, q) => ReadHeader(a, s, p) == Done(t, q)
            case _ => true
  {
    hide ReadSized;
    if p < |s| && 0xc4 <= s[p] <= 0xdf {
      SizedWithinInput(o, l, s, p + 1, s[p]);
    }
  }

  /**
   * Automatic limits lose nothing, at any depth: n elements need n bytes, and n pairs need 2n.
   */
  lemma {:induction false} AutomaticLimitsLoseNothing(o: Options, l: Derived, s: Bytes, p: nat, depth: nat)
    requires p <= |s|
    ensures Decode(o, true, s, p, depth).Done? ==>
              Decode(Automatic(o, l, |s|), true, s, p, depth) == Decode(o, true, s, p, depth)
    decreases |s| - p, 0, 0
  {
    hide ReadHeader;
    HeaderWithinInput(o, l, s, p);
    match ReadHeader(o, s, p)
    case Done(ArrayOf(n), q) => if depth > 0 { ItemsLoseNothing(o, l, s, q, n, depth - 1, []); }
    case Done(MapOf(n), q) => if depth > 0 { PairsLoseNothing(o, l, s, q, n, depth - 1, []); }
    case _ =>
  }

  lemma {:induction false} ItemsLoseNothing(o: Options, l: Derived, s: Bytes, p: nat, n: nat, depth: nat, acc: seq<Value>)
    requires p <= |s|
    ensures DecodeItems(o, true, s, p, n, depth, acc).Done? ==>
              DecodeItems(Automatic(o, l, |s|), true, s, p, n, depth, acc) == DecodeItems(o, true, s, p, n, depth, acc)
    decreases |s| - p, 1, n
  {
    hide Decode;
    if n == 0 {
    } else {
      AutomaticLimitsLoseNothing(o, l, s, p, depth);
      match Decode(o, true, s, p, depth)
      case Done(v, q) => ItemsLoseNothing(o, l, s, q, n - 1, depth, acc + [v]);
      case _ =>
    }
  }

  lemma {:induction false} PairsLoseNothing(o: Options, l: Derived, s: Bytes, p: nat, n: nat, depth: nat, d: seq<Pair>)
    requires p <= |s|
    ensures DecodePairs(o, true, s, p, n, depth, d).Done? ==>
              DecodePairs(Automatic(o, l, |s|), true, s, p, n, depth, d) == DecodePairs(o, true, s, p, n, depth, d)
    decreases |s| - p, 1, n
  {
    hide Decode, DictSet;
    if n == 0 {
    } else {
      AutomaticLimitsLoseNothing(o, l, s, p, depth);
      match Decode(o, true, s, p, depth)
      case Done(k, q) =>
        AutomaticLimitsLoseNothing(o, l, s, q, depth);
        match Decode(o, true, s, q, depth) {
          case Done(v, r) => PairsLoseNothing(o, l, s, r, n - 1, depth, DictSet(d, k, v));
          case _ =>
        }
      case _ =>
    }
  }

  // ---------- the same for the C machine, by what its open frames still need ----------

  /** How many objects an open container still waits for. */
  function Missing(f: Frame): (n: nat)
    requires 0 <= f.count < f.size
    ensures n > 0
  {
    match f.ct
    case CT_ARRAY_ITEM => f.size - f.count
    case CT_MAP_KEY => 2 * (f.size - f.count)
    case CT_MAP_VALUE => 2 * (f.size - f.count) - 1
  }

  /**
   * The number of objects, hence of bytes, that must still begin before the outermost object is complete: an
   * inner container is one of those its outer container waits for.
   */
  ghost function Need(c: bool, stack: seq<Frame>): (n: nat)
    requires LegalStack(c, stack)
    ensures n > 0
    decreases |stack|
  {
    if stack == [] then 1
    else Need(c, stack[..|stack| - 1]) + Missing(stack[|stack| - 1]) - 1
  }

  lemma StoreMeetsOneNeed(o: Options, c: bool, f: Frame, v: Value)
    requires LegalFrame(c, f)
    ensures match StoreInFrame(o, c, f, v)
            case Raise(_) => true
            case Ok(g) => if g.count == g.size then Missing(f) == 1 else Missing(g) == Missing(f) - 1
  {
    hide KeyAllowed, Hashable, DictSet;
  }

  /** Pushing an object meets exactly one need, however many containers it closes. */
  lemma {:induction false} PushMeetsOneNeed(o: Options, c: bool, stack: seq<Frame>, v: Value)
    requires LegalStack(c, stack)
    ensures match PushValue(o, c, stack, v)
            case Continue(k) => Need(c, k) == Need(c, stack) - 1
            case Finish(_) => Need(c, stack) == 1
            case Failed(_) => true
    decreases |stack|
  {
    hide StoreInFrame, Missing;
    if stack == [] {
    } else {
      var rest, f := stack[..|stack| - 1], stack[|stack| - 1];
      StoreMeetsOneNeed(o, c, f, v);
      match StoreInFrame(o, c, f, v)
      case Ok(g) =>
        if g.count == g.size {
          PushMeetsOneNeed(o, c, rest, g.obj);
        } else {
          assert (rest + [g])[..|rest|] == rest;
        }
      case Raise(_) =>
    }
  }

  lemma OpenNeeds(c: bool, stack: seq<Frame>, f: Frame)
    requires LegalStack(c, stack) && |stack| < STACK_SIZE && LegalFrame(c, f)
    ensures LegalStack(c, stack + [f]) && Need(c, stack + [f]) == Need(c, stack) + Missing(f) - 1
  {
    assert (stack + [f])[..|stack|] == stack;
  }

  lemma PerformMeetsOneNeed(o: Options, c: bool, stack: seq<Frame>, a: Action, q: nat)
    requires q > 0 && LegalStack(c, stack) && LegalAction(a)
    ensures var x := Perform(o, c, stack, a, q);
            && (x.Next? ==> Need(c, stack) <= Need(c, x.st.stack) + 1)
            && (x.Finished? ==> Need(c, stack) == 1)
  {
    hide PushValue, Need;
    match a
    case Push(v) => PushMeetsOneNeed(o, c, stack, v);
    case Open(ct, n) =>
      if |stack| < STACK_SIZE && NewContainer(o, c, ct, n).Some? {
        var obj := NewContainer(o, c, ct, n).value;
        if n == 0 {
          PushMeetsOneNeed(o, c, stack, obj);
        } else {
          OpenNeeds(c, stack, Frame(obj, n, 0, ct, Nil));
        }
      }
    case _ =>
  }

  lemma TickMeetsOneNeed(o: Options, c: bool, st: State, s: Bytes, p: nat)
    requires p <= |s| && Modelled(o) && Legal(c, st)
    ensures var x := Tick(o, c, st, s, p);
            && (x.Next? ==> Need(c, st.stack) <= Need(c, x.st.stack) + 1)
            && (x.Finished? ==> Need(c, st.stack) == 1)
  {
    hide HeaderAction, TrailAction, Perform, Need;
    if st.cs == CS_HEADER {
      if p < |s| {
        HeaderActionIsLegal(o, c, s[p]);
        PerformMeetsOneNeed(o, c, st.stack, HeaderAction(o, c, s[p]), p + 1);
      }
    } else if p + st.trail <= |s| {
      var n := s[p..p + st.trail];
      TrailActionIsLegal(o, c, st.cs, n);
      PerformMeetsOneNeed(o, c, st.stack, TrailAction(o, c, st.cs, n), p + st.trail);
    }
  }

  /** A run that returns an object has consumed at least one byte for everything its open frames waited for. */
  lemma {:induction false} ObjectsNeedBytes(o: Options, c: bool, st: State, s: Bytes, p: nat)
    requires p <= |s| && Modelled(o) && Legal(c, st)
    ensures match Run(o, c, st, s, p)
            case Returned(_, q) => p + Need(c, st.stack) <= q
            case _ => true
    decreases |s| - p
  {
    hide Tick, Need;
    TickMeetsOneNeed(o, c, st, s, p);
    match Tick(o, c, st, s, p)
    case Next(t, q) => ObjectsNeedBytes(o, c, t, s, q);
    case _ =>
  }

  lemma HeaderActionWithinInput(o: Options, l: Derived, b: Byte, n: nat)
    ensures HeaderAction(o, true, b).Halt? || HeaderAction(Automatic(o, l, n), true, b) == HeaderAction(o, true, b)
  {
  }

  lemma BodyWithinInput(o: Options, l: Derived, body: Bytes, n: nat)
    requires |body| <= n
    ensures RawValue(o, true, body).Halt? || RawValue(Automatic(o, l, n), true, body) == RawValue(o, true, body)
    ensures BinValue(o, true, body).Halt? || BinValue(Automatic(o, l, n), true, body) == BinValue(o, true, body)
  {
  }

  lemma ExtWithinInput(o: Options, l: Derived, body: Bytes, n: nat)
    requires Modelled(o) && Modelled(Automatic(o, l, n)) && |body| <= n
    ensures ExtValue(o, true, body).Halt? || ExtValue(Automatic(o, l, n), true, body) == ExtValue(o, true, body)
  {
    hide UnpackC, SignedByte;
    if body == [] {
      assert (|body| - 1) % TWO_TO_THE_32 == 0xffff_ffff;
    }
  }

  lemma TrailActionWithinInput(o: Options, l: Derived, cs: int, body: Bytes, n: nat)
    requires Modelled(o) && cs != CS_HEADER && LegalControl(cs, |body|) && |body| <= n
    requires Modelled(Automatic(o, l, n))
    ensures TrailAction(o, true, cs, body).Halt? ||
            TrailAction(Automatic(o, l, n), true, cs, body) == TrailAction(o, true, cs, body)
  {
    hide Load, Signed, ExtValue, RawValue, BinValue;
    BodyWithinInput(o, l, body, n);
    BodyWithinInput(o, l, [], n);
    ExtWithinInput(o, l, body, n);
    ExtWithinInput(o, l, [], n);
  }

  lemma NewFrameIsLegal(o: Options, ct: ContainerType, k: nat)
    requires ct != CT_MAP_VALUE && k > 0
    ensures match NewContainer(o, true, ct, k)
            case Some(obj) => LegalFrame(true, Frame(obj, k, 0, ct, Nil))
            case None => true
  {
  }

  lemma ContainerWithinInput(o: Options, l: Derived, ct: ContainerType, k: nat, n: nat)
    requires ct != CT_MAP_VALUE && (if ct == CT_ARRAY_ITEM then k else 2 * k) <= n
    ensures NewContainer(o, true, ct, k).None? || NewContainer(Automatic(o, l, n), true, ct, k) == NewContainer(o, true, ct, k)
  {
  }

  lemma PerformWithinInput(o: Options, l: Derived, stack: seq<Frame>, a: Action, q: nat, n: nat)
    requires q > 0 && LegalStack(true, stack) && LegalAction(a)
    requires var x := Perform(o, true, stack, a, q); x.Next? ==> Need(true, x.st.stack) <= n
    ensures var x := Perform(o, true, stack, a, q); x.Stopped? || Perform(Automatic(o, l, n), true, stack, a, q) == x
  {
    hide PushValue, Need, Automatic, NewContainer;
    match a
    case Push(v) => PushUnderOtherLimits(Automatic(o, l, n), o, true, stack, v);
    case Open(ct, k) =>
      if |stack| < STACK_SIZE && NewContainer(o, true, ct, k).Some? {
        var obj := NewContainer(o, true, ct, k).value;
        if k == 0 {
          ContainerWithinInput(o, l, ct, k, n);
          PushUnderOtherLimits(Automatic(o, l, n), o, true, stack, obj);
        } else {
          NewFrameIsLegal(o, ct, k);
          OpenNeeds(true, stack, Frame(obj, k, 0, ct, Nil));
          ContainerWithinInput(o, l, ct, k, n);
        }
      }
    case _ =>
  }

  lemma HaltStops(o: Options, stack: seq<Frame>, a: Action, q: nat)
    requires q > 0 && LegalStack(true, stack) && LegalAction(a)
    ensures a.Halt? ==> Perform(o, true, stack, a, q).Stopped?
  {
  }

  lemma TickWithinInput(o: Options, l: Derived, st: State, s: Bytes, p: nat)
    requires p <= |s| && Modelled(o) && Modelled(Automatic(o, l, |s|)) && Legal(true, st)
    requires var x := Tick(o, true, st, s, p); x.Next? ==> Need(true, x.st.stack) <= |s|
    ensures var x := Tick(o, true, st, s, p); x.Stopped? || Tick(Automatic(o, l, |s|), true, st, s, p) == x
  {
    hide HeaderAction, TrailAction, Perform, Need, Automatic, LegalControl;
    var a := Automatic(o, l, |s|);
    if st.cs == CS_HEADER {
      if p < |s| {
        HeaderActionIsLegal(o, true, s[p]);
        HeaderActionWithinInput(o, l, s[p], |s|);
        HaltStops(o, st.stack, HeaderAction(o, true, s[p]), p + 1);
        PerformWithinInput(o, l, st.stack, HeaderAction(o, true, s[p]), p + 1, |s|);
      }
    } else if p + st.trail <= |s| {
      var body := s[p..p + st.trail];
      TrailActionIsLegal(o, true, st.cs, body);
      TrailActionWithinInput(o, l, st.cs, body, |s|);
      HaltStops(o, st.stack, TrailAction(o, true, st.cs, body), p + st.trail);
      PerformWithinInput(o, l, st.stack, TrailAction(o, true, st.cs, body), p + st.trail, |s|);
    }
  }

  /** Automatic limits lose nothing in the C decoder either, whatever state it goes on from. */
  lemma {:induction false} AutomaticLimitsLoseNothingC(o: Options, l: Derived, st: State, s: Bytes, p: nat)
    requires p <= |s| && Modelled(o) && Modelled(Automatic(o, l, |s|)) && Legal(true, st)
    ensures Run(o, true, st, s, p).Returned? ==>
              Run(Automatic(o, l, |s|), true, st, s, p) == Run(o, true, st, s, p)
    decreases |s| - p
  {
    hide Tick, Need;
    var x := Tick(o, true, st, s, p);
    if Run(o, true, st, s, p).Returned? {
      if x.Next? {
        ObjectsNeedBytes(o, true, x.st, s, x.p);
        AutomaticLimitsLoseNothingC(o, l, x.st, s, x.p);
      }
      TickWithinInput(o, l, st, s, p);
    }
  }
}
