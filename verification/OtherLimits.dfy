/** What other length limits can change: a decoder that does not fail either goes on as before or meets a limit. */
module OtherLimits {
  import opened ByteStrings
  import opened Timestamps
  import opened Values
  import opened Decoder
  import opened Machine

  /** The options `a` differ from `o` in the length limits at most. */
  ghost predicate SameRules(a: Options, o: Options) {
    a == o.(maxStr := a.maxStr, maxBin := a.maxBin, maxArray := a.maxArray, maxMap := a.maxMap, maxExt := a.maxExt)
  }

  // ---------- the recursive decoder ----------

  /** `r` is what `before` was, or the refusal of a limit; of a failure nothing is said. */
  predicate SameOrRefused<T(==)>(before: Read<T>, r: Read<T>) {
    before.Fail? || r == before || r == Fail(ValueError)
  }

  lemma SizedUnderOtherLimits(a: Options, o: Options, s: Bytes, q: nat, b: Byte)
    requires SameRules(a, o) && q <= |s| && 0xc4 <= b <= 0xdf
    ensures SameOrRefused(ReadSized(o, s, q, b), ReadSized(a, s, q, b))
  {
    hide Load;
  }

  lemma HeaderUnderOtherLimits(a: Options, o: Options, s: Bytes, p: nat)
    requires SameRules(a, o) && p <= |s|
    ensures SameOrRefused(ReadHeader(o, s, p), ReadHeader(a, s, p))
  {
    hide ReadSized;
    if p < |s| && 0xc4 <= s[p] <= 0xdf {
      SizedUnderOtherLimits(a, o, s, p + 1, s[p]);
    }
  }

  /** Under other limits an unfinished or successful decoding stays what it was, or is refused with a ValueError. */
  lemma {:induction false} DecodeUnderOtherLimits(a: Options, o: Options, c: bool, s: Bytes, p: nat, depth: nat)
    requires SameRules(a, o) && p <= |s|
    ensures SameOrRefused(Decode(o, c, s, p, depth), Decode(a, c, s, p, depth))
    decreases |s| - p, 0, 0
  {
    hide ReadHeader;
    HeaderUnderOtherLimits(a, o, s, p);
    match ReadHeader(o, s, p)
    case Done(ArrayOf(n), q) => if depth > 0 { ItemsUnderOtherLimits(a, o, c, s, q, n, depth - 1, []); }
    case Done(MapOf(n), q) => if depth > 0 { PairsUnderOtherLimits(a, o, c, s, q, n, depth - 1, []); }
    case _ =>
  }

  lemma {:induction false} ItemsUnderOtherLimits(a: Options, o: Options, c: bool, s: Bytes, p: nat, n: nat, depth: nat,
                                                 acc: seq<Value>)
    requires SameRules(a, o) && p <= |s|
    ensures SameOrRefused(DecodeItems(o, c, s, p, n, depth, acc), DecodeItems(a, c, s, p, n, depth, acc))
    decreases |s| - p, 1, n
  {
    hide Decode;
    if n == 0 {
    } else {
      DecodeUnderOtherLimits(a, o, c, s, p, depth);
      match Decode(o, c, s, p, depth)
      case Done(v, q) => ItemsUnderOtherLimits(a, o, c, s, q, n - 1, depth, if c then acc + [v] else []);
      case _ =>
    }
  }

  lemma {:induction false} PairsUnderOtherLimits(a: Options, o: Options, c: bool, s: Bytes, p: nat, n: nat, depth: nat,
                                                 d: seq<Pair>)
    requires SameRules(a, o) && p <= |s|
    ensures SameOrRefused(DecodePairs(o, c, s, p, n, depth, d), DecodePairs(a, c, s, p, n, depth, d))
    decreases |s| - p, 1, n
  {
    hide Decode, DictSet;
    if n == 0 {
    } else {
      DecodeUnderOtherLimits(a, o, c, s, p, depth);
      match Decode(o, c, s, p, depth)
      case Done(k, q) =>
        DecodeUnderOtherLimits(a, o, c, s, q, depth);
        match Decode(o, c, s, q, depth) {
          case Done(v, r) => PairsUnderOtherLimits(a, o, c, s, r, n - 1, depth, if c then DictSet(d, k, v) else []);
          case _ =>
        }
      case _ =>
    }
  }

  // ---------- the machine ----------

  lemma StoreUnderOtherLimits(a: Options, o: Options, c: bool, f: Frame, v: Value)
    requires a.strictMapKey == o.strictMapKey && LegalFrame(c, f)
    ensures StoreInFrame(a, c, f, v) == StoreInFrame(o, c, f, v)
  {
    hide Hashable, DictSet;
  }

  lemma {:induction false} PushUnderOtherLimits(a: Options, o: Options, c: bool, stack: seq<Frame>, v: Value)
    requires a.strictMapKey == o.strictMapKey && LegalStack(c, stack)
    ensures PushValue(a, c, stack, v) == PushValue(o, c, stack, v)
    decreases |stack|
  {
    hide StoreInFrame;
    if stack == [] {
    } else {
      var rest, f := stack[..|stack| - 1], stack[|stack| - 1];
      StoreUnderOtherLimits(a, o, c, f, v);
      match StoreInFrame(o, c, f, v)
      case Ok(g) => if g.count == g.size { PushUnderOtherLimits(a, o, c, rest, g.obj); }
      case Raise(_) =>
    }
  }

  lemma BodyUnderOtherLimits(a: Options, o: Options, c: bool, body: Bytes)
    requires SameRules(a, o) && Modelled(a) && Modelled(o)
    ensures var x := RawValue(o, c, body); x.Halt? || RawValue(a, c, body) == x || RawValue(a, c, body) == Halt(ValueError)
    ensures var x := BinValue(o, c, body); x.Halt? || BinValue(a, c, body) == x || BinValue(a, c, body) == Halt(ValueError)
    ensures var x := ExtValue(o, c, body); x.Halt? || ExtValue(a, c, body) == x || ExtValue(a, c, body) == Halt(ValueError)
  {
    hide UnpackC;
    if body == [] {
      assert (|body| - 1) % TWO_TO_THE_32 == 0xffff_ffff;
    }
  }

  lemma HeaderActionUnderOtherLimits(a: Options, o: Options, c: bool, b: Byte)
    requires SameRules(a, o) && Modelled(a) && Modelled(o)
    ensures var x, y := HeaderAction(o, c, b), HeaderAction(a, c, b); x.Halt? || y == x || y == Halt(ValueError)
  {
    hide RawValue;
    BodyUnderOtherLimits(a, o, c, []);
  }

  lemma TrailActionUnderOtherLimits(a: Options, o: Options, c: bool, cs: int, n: Bytes)
    requires SameRules(a, o) && Modelled(a) && Modelled(o) && cs != CS_HEADER && LegalControl(cs, |n|)
    ensures var x, y := TrailAction(o, c, cs, n), TrailAction(a, c, cs, n); x.Halt? || y == x || y == Halt(ValueError)
  {
    hide Load, Signed, ExtValue, RawValue, BinValue;
    BodyUnderOtherLimits(a, o, c, n);
    BodyUnderOtherLimits(a, o, c, []);
  }

  /** `x'` is what `x` was, or stops with the ValueError of a limit; of a stop nothing is said. */
  ghost predicate SameOrStopped(x: Step, x': Step) {
    x.Stopped? || x' == x || (x'.Stopped? && x'.error == ValueError)
  }

  lemma PerformUnderOtherLimits(a: Options, o: Options, c: bool, stack: seq<Frame>, act: Action, act': Action, q: nat)
    requires SameRules(a, o) && q > 0 && LegalStack(c, stack) && LegalAction(act) && LegalAction(act')
    requires act.Halt? || act' == act || act' == Halt(ValueError)
    ensures SameOrStopped(Perform(o, c, stack, act, q), Perform(a, c, stack, act', q))
  {
    hide PushValue;
    match act
    case Push(v) => PushUnderOtherLimits(a, o, c, stack, v);
    case Open(ct, n) =>
      if n == 0 && |stack| < STACK_SIZE && NewContainer(o, c, ct, n).Some? {
        PushUnderOtherLimits(a, o, c, stack, NewContainer(o, c, ct, n).value);
      }
    case _ =>
  }

  lemma TickUnderOtherLimits(a: Options, o: Options, c: bool, st: State, s: Bytes, p: nat)
    requires SameRules(a, o) && Modelled(a) && Modelled(o) && p <= |s| && Legal(c, st)
    ensures SameOrStopped(Tick(o, c, st, s, p), Tick(a, c, st, s, p))
  {
    hide HeaderAction, TrailAction, Perform;
    if st.cs == CS_HEADER {
      if p < |s| {
        HeaderActionIsLegal(o, c, s[p]);
        HeaderActionIsLegal(a, c, s[p]);
        HeaderActionUnderOtherLimits(a, o, c, s[p]);
        PerformUnderOtherLimits(a, o, c, st.stack, HeaderAction(o, c, s[p]), HeaderAction(a, c, s[p]), p + 1);
      }
    } else if p + st.trail <= |s| {
      var n := s[p..p + st.trail];
      TrailActionIsLegal(o, c, st.cs, n);
      TrailActionIsLegal(a, c, st.cs, n);
      TrailActionUnderOtherLimits(a, o, c, st.cs, n);
      PerformUnderOtherLimits(a, o, c, st.stack, TrailAction(o, c, st.cs, n), TrailAction(a, c, st.cs, n), p + st.trail);
    }
  }

  /** The same for a run of the machine, from whatever state it goes on. */
  lemma {:induction false} RunUnderOtherLimits(a: Options, o: Options, c: bool, st: State, s: Bytes, p: nat)
    requires SameRules(a, o) && Modelled(a) && Modelled(o) && p <= |s| && Legal(c, st)
    ensures var r, r' := Run(o, c, st, s, p), Run(a, c, st, s, p);
            r.Broken? || r' == r || (r'.Broken? && r'.error == ValueError)
    decreases |s| - p
  {
    hide Tick;
    TickUnderOtherLimits(a, o, c, st, s, p);
    match Tick(o, c, st, s, p)
    case Next(t, q) => RunUnderOtherLimits(a, o, c, t, s, q);
    case _ =>
  }

  // ---------- the check of the nanoseconds ----------

  lemma PerformIgnoresCheck(o: Options, check: bool, c: bool, stack: seq<Frame>, act: Action, q: nat)
    requires q > 0 && LegalStack(c, stack) && LegalAction(act)
    ensures Perform(o.(checkNanos := check), c, stack, act, q) == Perform(o, c, stack, act, q)
  {
    hide PushValue;
    var a := o.(checkNanos := check);
    match act
    case Push(v) => PushUnderOtherLimits(a, o, c, stack, v);
    case Open(ct, n) =>
      if n == 0 && |stack| < STACK_SIZE && NewContainer(o, c, ct, n).Some? {
        PushUnderOtherLimits(a, o, c, stack, NewContainer(o, c, ct, n).value);
      }
    case _ =>
  }

  lemma ActionsIgnoreCheck(o: Options, check: bool, c: bool, b: Byte, cs: int, n: Bytes)
    requires Modelled(o)
    ensures HeaderAction(o.(checkNanos := check), c, b) == HeaderAction(o, c, b)
    ensures LegalControl(cs, |n|) ==> TrailAction(o.(checkNanos := check), c, cs, n) == TrailAction(o, c, cs, n)
  {
    hide Load, Signed, UnpackC;
  }

  lemma TickIgnoresCheck(o: Options, check: bool, c: bool, st: State, s: Bytes, p: nat)
    requires Modelled(o) && p <= |s| && Legal(c, st)
    ensures Tick(o.(checkNanos := check), c, st, s, p) == Tick(o, c, st, s, p)
  {
    hide HeaderAction, TrailAction, Perform;
    if st.cs == CS_HEADER {
      if p < |s| {
        HeaderActionIsLegal(o, c, s[p]);
        ActionsIgnoreCheck(o, check, c, s[p], 0, []);
        PerformIgnoresCheck(o, check, c, st.stack, HeaderAction(o, c, s[p]), p + 1);
      }
    } else if p + st.trail <= |s| {
      var n := s[p..p + st.trail];
      TrailActionIsLegal(o, c, st.cs, n);
      ActionsIgnoreCheck(o, check, c, 0, st.cs, n);
      PerformIgnoresCheck(o, check, c, st.stack, TrailAction(o, c, st.cs, n), p + st.trail);
    }
  }

  /** The machine does not know `checkNanos`: it never checks. */
  lemma {:induction false} RunIgnoresCheck(o: Options, check: bool, c: bool, st: State, s: Bytes, p: nat)
    requires Modelled(o) && p <= |s| && Legal(c, st)
    ensures Run(o.(checkNanos := check), c, st, s, p) == Run(o, c, st, s, p)
    decreases |s| - p
  {
    hide Tick;
    TickIgnoresCheck(o, check, c, st, s, p);
    match Tick(o, c, st, s, p)
    case Next(t, q) => RunIgnoresCheck(o, check, c, t, s, q);
    case _ =>
  }
}
