/** The explicit-stack machine computes the recursive decoder. */
module Refinement {
  import opened ByteStrings
  import opened Timestamps
  import opened Values
  import opened Decoder
  import opened Machine
  import opened OtherLimits

  /**
   * Options under which the machine and the recursive decoder refuse the same timestamps: with `timestamp=2`
   * the C code does not check the nanoseconds, which only payloads of 8 bytes or more carry.
   */
  predicate SameTimestamps(o: Options) {
    !o.checkNanos || !o.timestampAsInt || o.maxExt < 8
  }

  /** The same options with length limits that no length of 32 bits exceeds. */
  function Unlimited(o: Options): Options {
    o.(maxStr := TWO_TO_THE_32, maxBin := TWO_TO_THE_32, maxArray := TWO_TO_THE_32, maxMap := TWO_TO_THE_32,
       maxExt := TWO_TO_THE_32)
  }

  /** The limits the machine reads headers under: skipping it knows none, but cannot count the longest ext. */
  function ReadUnder(o: Options, c: bool): Options {
    if c then o else Unlimited(o).(maxExt := 0xffff_fffe)
  }

  /** Whether the machine, too, refuses the header `t` if it does not convert to an object. */
  predicate SameRefusal(o: Options, t: Token) {
    SameTimestamps(o) || !t.ExtBody?
  }

  /** How a run ends that performs `a` just before `q`. */
  ghost function After(o: Options, c: bool, stack: seq<Frame>, a: Action, s: Bytes, q: nat): Halted
    requires Modelled(o) && LegalStack(c, stack) && LegalAction(a) && 0 < q <= |s|
  {
    Conclude(o, c, Perform(o, c, stack, a, q), s)
  }

  /** A run that still waits for what will be refused, or has refused it; a full stack is found out first. */
  ghost predicate Refused(stack: seq<Frame>, h: Halted) {
    h.Suspended? || (h.Broken? && (h.error == ValueError || (h.error == StackError && |stack| == STACK_SIZE)))
  }

  /** The header of an ext 32 with the longest length. */
  const LONGEST_EXT: Bytes := [0xc9, 0xff, 0xff, 0xff, 0xff]

  /** The input ends in such a header, or in bytes that look like one. */
  predicate EndsInLongestExt(s: Bytes) {
    |s| >= 5 && s[|s| - 5..] == LONGEST_EXT
  }

  /**
   * A run `h` ends where the recursive decoder has no object: where that needs more bytes it suspends, unless the
   * longest ext has made it count to zero; where that fails, it fails with the same exception, or if that is a
   * ValueError, which it may find out later, at least returns nothing, unless it is not asked to check what has failed.
   */
  ghost predicate EndsWithout<T>(o: Options, c: bool, r: Read<T>, h: Halted, s: Bytes)
    requires !r.Done?
  {
    match r
    case NeedMore => h.Suspended? || (EndsInLongestExt(s) && (c ==> h.Broken? && h.error == ValueError))
    case Fail(e) =>
      && (e != ValueError ==> h.Broken? && h.error == e)
      && (c && SameTimestamps(o) ==> !h.Returned?)
  }

  /** A run `h` does what the header `r` of the recursive decoder calls for. */
  ghost predicate Follows(o: Options, c: bool, stack: seq<Frame>, r: Read<Token>, h: Halted, s: Bytes)
    requires Modelled(o) && LegalStack(c, stack)
    requires r.Done? ==> 0 < r.end <= |s|
  {
    match r
    case Done(ArrayOf(n), q) => h == After(o, c, stack, Open(CT_ARRAY_ITEM, n), s, q)
    case Done(MapOf(n), q) => h == After(o, c, stack, Open(CT_MAP_KEY, n), s, q)
    case Done(t, q) => if !c then h == After(o, c, stack, Push(Nil), s, q)
                       else if Build(o, t).Ok? then h == After(o, c, stack, Push(Build(o, t).value), s, q)
                       else SameRefusal(o, t) ==> h.Broken? && h.error == ValueError
    case NeedMore => EndsWithout(o, c, r, h, s)
    case Fail(e) => if e == ValueError then c ==> Refused(stack, h) else h.Broken? && h.error == e
  }

  lemma RunHeader(o: Options, c: bool, stack: seq<Frame>, s: Bytes, p: nat)
    requires Modelled(o) && LegalStack(c, stack) && p < |s|
    ensures LegalAction(HeaderAction(o, c, s[p]))
    ensures Run(o, c, State(CS_HEADER, 0, stack), s, p) == After(o, c, stack, HeaderAction(o, c, s[p]), s, p + 1)
  {
    RunFromHeader(o, c, stack, s, p);
  }

  lemma RunTrail(o: Options, c: bool, stack: seq<Frame>, cs: int, trail: nat, s: Bytes, q: nat)
    requires Modelled(o) && LegalStack(c, stack) && 0 < q <= |s|
    requires cs != CS_HEADER && LegalControl(cs, trail)
    ensures LegalAction(Await(cs, trail))
    ensures |s| - q < trail ==> After(o, c, stack, Await(cs, trail), s, q).Suspended?
    ensures q + trail <= |s| ==>
              var a := TrailAction(o, c, cs, s[q..q + trail]);
              LegalAction(a) && After(o, c, stack, Await(cs, trail), s, q) == After(o, c, stack, a, s, q + trail)
  {
    hide Run, Perform;
    ConcludeAwait(o, c, stack, Await(cs, trail), s, q);
    RunFromTrail(o, c, stack, cs, trail, s, q);
  }

  // ---------- the payload states ----------

  lemma StopsWithoutObject(o: Options, c: bool, stack: seq<Frame>, a: Action, s: Bytes, q: nat)
    requires Modelled(o) && LegalStack(c, stack) && LegalAction(a) && 0 < q <= |s|
    ensures a.Halt? ==> After(o, c, stack, a, s, q) == Broken(a.error, q - 1)
  {
  }

  lemma RawFollows(o: Options, c: bool, stack: seq<Frame>, s: Bytes, q: nat, n: nat)
    requires Modelled(o) && LegalStack(c, stack) && 0 < q <= |s| && n < TWO_TO_THE_32
    ensures LegalAction(AwaitRaw(o, c, n))
    ensures Follows(o, c, stack, RawAt(ReadUnder(o, c), s, q, n), After(o, c, stack, AwaitRaw(o, c, n), s, q), s)
  {
    hide Perform, Run;
    if n > 0 {
      RunTrail(o, c, stack, ACS_RAW_VALUE, n, s, q);
    } else {
      assert s[q..q] == [];
    }
    if q + n <= |s| {
      StopsWithoutObject(o, c, stack, RawValue(o, c, s[q..q + n]), s, q + n);
    }
  }

  lemma BinFollows(o: Options, c: bool, stack: seq<Frame>, s: Bytes, q: nat, n: nat)
    requires Modelled(o) && LegalStack(c, stack) && 0 < q <= |s| && n < TWO_TO_THE_32
    ensures LegalAction(AwaitBin(o, c, n))
    ensures Follows(o, c, stack, BinAt(ReadUnder(o, c), s, q, n), After(o, c, stack, AwaitBin(o, c, n), s, q), s)
  {
    hide Perform, Run;
    if n > 0 {
      RunTrail(o, c, stack, ACS_BIN_VALUE, n, s, q);
    } else {
      assert s[q..q] == [];
    }
    if q + n <= |s| {
      StopsWithoutObject(o, c, stack, BinValue(o, c, s[q..q + n]), s, q + n);
    }
  }

  /** A body with its type byte at `q`, as the payload state sees it, and as `_read_header` splits it. */
  lemma ExtValueFollows(o: Options, s: Bytes, q: nat, n: nat)
    requires Modelled(o) && q + n + 1 <= |s| && n + 1 < TWO_TO_THE_32
    ensures var a := ExtValue(o, true, s[q..q + n + 1]);
            match ExtAt(o, s, q + 1, n, s[q])
            case Done(t, r) => r == q + n + 1 && match Build(o, t) {
                                                   case Ok(v) => a == Push(v)
                                                   case Raise(_) => SameTimestamps(o) ==> a == Halt(ValueError)
                                                 }
            case _ => a == Halt(ValueError)
  {
    var body := s[q..q + n + 1];
    assert body[0] == s[q] && body[1..] == s[q + 1..q + 1 + n];
    ReadersAgree(body[1..]);
  }

  lemma ExtFollows(o: Options, c: bool, stack: seq<Frame>, s: Bytes, q: nat, n: nat)
    requires Modelled(o) && LegalStack(c, stack) && 0 < q < |s| && n < TWO_TO_THE_32
    ensures LegalAction(AwaitExt(o, c, (n + 1) % TWO_TO_THE_32))
    ensures Follows(o, c, stack, ExtAt(ReadUnder(o, c), s, q + 1, n, s[q]),
                    After(o, c, stack, AwaitExt(o, c, (n + 1) % TWO_TO_THE_32), s, q), s)
  {
    hide Perform, Run, Build;
    if n + 1 == TWO_TO_THE_32 {
      StopsWithoutObject(o, c, stack, AwaitExt(o, c, 0), s, q);
    } else {
      SmallModulus(n + 1, TWO_TO_THE_32);
      RunTrail(o, c, stack, ACS_EXT_VALUE, n + 1, s, q);
      if q + n + 1 <= |s| {
        ExtValueFollows(o, s, q, n);
        StopsWithoutObject(o, c, stack, ExtValue(o, c, s[q..q + n + 1]), s, q + n + 1);
      }
    }
  }

  // ---------- headers with a length ----------

  lemma LoadFits(s: Bytes, q: nat, w: nat)
    requires q + w <= |s| && (w == 1 || w == 2 || w == 4)
    ensures Load(s[q..q + w]) < TWO_TO_THE_32
  {
    LoadBound(s[q..q + w]);
    Pow256Values();
  }

  lemma SizedBinFollows(o: Options, c: bool, stack: seq<Frame>, s: Bytes, q: nat, b: Byte)
    requires Modelled(o) && LegalStack(c, stack) && 0 < q <= |s| && 0xc4 <= b <= 0xc6
    ensures LegalAction(HeaderAction(o, c, b))
    ensures Follows(o, c, stack, ReadSized(ReadUnder(o, c), s, q, b), After(o, c, stack, HeaderAction(o, c, b), s, q), s)
  {
    hide Perform, Run, AwaitBin, BinAt;
    var w := if b == 0xc4 then 1 else if b == 0xc5 then 2 else 4;
    RunTrail(o, c, stack, b - 0xc0, w, s, q);
    if q + w <= |s| {
      LoadFits(s, q, w);
      BinFollows(o, c, stack, s, q + w, Load(s[q..q + w]));
    }
  }

  lemma SizedRawFollows(o: Options, c: bool, stack: seq<Frame>, s: Bytes, q: nat, b: Byte)
    requires Modelled(o) && LegalStack(c, stack) && 0 < q <= |s| && 0xd9 <= b <= 0xdb
    ensures LegalAction(HeaderAction(o, c, b))
    ensures Follows(o, c, stack, ReadSized(ReadUnder(o, c), s, q, b), After(o, c, stack, HeaderAction(o, c, b), s, q), s)
  {
    hide Perform, Run, AwaitRaw, RawAt;
    var w := if b == 0xd9 then 1 else if b == 0xda then 2 else 4;
    RunTrail(o, c, stack, b - 0xc0, w, s, q);
    if q + w <= |s| {
      LoadFits(s, q, w);
      RawFollows(o, c, stack, s, q + w, Load(s[q..q + w]));
    }
  }

  /** The 8- and 16-bit lengths never wrap when one is added. */
  lemma ShortLoad(s: Bytes, q: nat, w: nat)
    requires q + w <= |s| && (w == 1 || w == 2 || w == 4)
    ensures w < 4 ==> (Load(s[q..q + w]) + 1) % TWO_TO_THE_32 == Load(s[q..q + w]) + 1
  {
    LoadBound(s[q..q + w]);
    Pow256Values();
  }

  /** An ext whose type byte is missing: the machine waits for it, or counts it as all there is to come. */
  lemma ExtStarves(o: Options, c: bool, stack: seq<Frame>, s: Bytes, n: nat)
    requires Modelled(o) && LegalStack(c, stack) && 0 < |s| && n < TWO_TO_THE_32
    ensures LegalAction(AwaitExt(o, c, (n + 1) % TWO_TO_THE_32))
    ensures var h := After(o, c, stack, AwaitExt(o, c, (n + 1) % TWO_TO_THE_32), s, |s|);
            if n + 1 == TWO_TO_THE_32 then c ==> h.Broken? && h.error == ValueError else h.Suspended?
  {
    hide Run;
    if n + 1 < TWO_TO_THE_32 {
      hide Perform;
      SmallModulus(n + 1, TWO_TO_THE_32);
      RunTrail(o, c, stack, ACS_EXT_VALUE, n + 1, s, |s|);
    }
  }

  /** Only four bytes 0xff spell the longest length. */
  lemma LongestLength(s: Bytes, q: nat, w: nat)
    requires 0 < q && q + w == |s| && (w == 1 || w == 2 || w == 4) && (s[q - 1] == 0xc9 <==> w == 4)
    requires Load(s[q..q + w]) + 1 == TWO_TO_THE_32
    ensures EndsInLongestExt(s)
  {
    var length := s[q..q + w];
    LoadBound(length);
    LoadPositional(length);
    Pow256Values();
    assert s[|s| - 5..] == [s[q - 1]] + length;
    assert length == [length[0], length[1], length[2], length[3]];
  }

  lemma SizedExtFollows(o: Options, c: bool, stack: seq<Frame>, s: Bytes, q: nat, b: Byte)
    requires Modelled(o) && LegalStack(c, stack) && 0 < q <= |s| && 0xc7 <= b <= 0xc9 && s[q - 1] == b
    ensures LegalAction(HeaderAction(o, c, b))
    ensures Follows(o, c, stack, ReadSized(ReadUnder(o, c), s, q, b), After(o, c, stack, HeaderAction(o, c, b), s, q), s)
  {
    hide Perform, Run, AwaitExt, ExtAt;
    var w := if b == 0xc7 then 1 else if b == 0xc8 then 2 else 4;
    RunTrail(o, c, stack, b - 0xc0, w, s, q);
    if q + w <= |s| {
      var n := Load(s[q..q + w]);
      LoadFits(s, q, w);
      ShortLoad(s, q, w);
      if q + w < |s| {
        ExtFollows(o, c, stack, s, q + w, n);
      } else {
        ExtStarves(o, c, stack, s, n);
        if n + 1 == TWO_TO_THE_32 {
          LongestLength(s, q, w);
        }
      }
    }
  }

  lemma FixExtFollows(o: Options, c: bool, stack: seq<Frame>, s: Bytes, q: nat, b: Byte)
    requires Modelled(o) && LegalStack(c, stack) && 0 < q <= |s| && 0xd4 <= b <= 0xd8
    ensures LegalAction(HeaderAction(o, c, b))
    ensures Follows(o, c, stack, ReadSized(ReadUnder(o, c), s, q, b), After(o, c, stack, HeaderAction(o, c, b), s, q), s)
  {
    hide Perform, Run, Build;
    var n := if b == 0xd4 then 1 else if b == 0xd5 then 2 else if b == 0xd6 then 4 else if b == 0xd7 then 8 else 16;
    assert HeaderAction(o, c, b) == AwaitExt(o, c, n + 1);
    SmallModulus(n + 1, TWO_TO_THE_32);
    if q < |s| {
      ExtFollows(o, c, stack, s, q, n);
    } else {
      ExtStarves(o, c, stack, s, n);
    }
  }

  lemma NumberFollows(o: Options, c: bool, stack: seq<Frame>, s: Bytes, q: nat, b: Byte)
    requires Modelled(o) && LegalStack(c, stack) && 0 < q <= |s| && 0xca <= b <= 0xd3
    ensures LegalAction(HeaderAction(o, c, b))
    ensures Follows(o, c, stack, ReadSized(ReadUnder(o, c), s, q, b), After(o, c, stack, HeaderAction(o, c, b), s, q), s)
  {
    hide Perform, Run, NumberOf;
    var w := NumberWidth(b);
    assert HeaderAction(o, c, b) == Await(b - 0xc0, w);
    RunTrail(o, c, stack, b - 0xc0, w, s, q);
  }

  /** A container over its length limit never yields an object, whether the stack or the callback stops it. */
  lemma OverLimitStops(o: Options, c: bool, stack: seq<Frame>, ct: ContainerType, n: nat, s: Bytes, q: nat)
    requires Modelled(o) && LegalStack(c, stack) && 0 < q <= |s| && ct != CT_MAP_VALUE
    ensures c && n > (if ct == CT_ARRAY_ITEM then o.maxArray else o.maxMap) ==>
              Refused(stack, After(o, c, stack, Open(ct, n), s, q))
  {
  }

  lemma ContainerFollows(o: Options, c: bool, stack: seq<Frame>, s: Bytes, q: nat, b: Byte)
    requires Modelled(o) && LegalStack(c, stack) && 0 < q <= |s| && 0xdc <= b <= 0xdf
    ensures LegalAction(HeaderAction(o, c, b))
    ensures Follows(o, c, stack, ReadSized(ReadUnder(o, c), s, q, b), After(o, c, stack, HeaderAction(o, c, b), s, q), s)
  {
    hide Run, Perform, Load;
    var w := if b == 0xdc || b == 0xde then 2 else 4;
    RunTrail(o, c, stack, b - 0xc0, w, s, q);
    if q + w <= |s| {
      var ct := if b <= 0xdd then CT_ARRAY_ITEM else CT_MAP_KEY;
      OverLimitStops(o, c, stack, ct, Load(s[q..q + w]), s, q + w);
    }
  }

  lemma FixFollows(o: Options, c: bool, stack: seq<Frame>, s: Bytes, q: nat, b: Byte)
    requires Modelled(o) && LegalStack(c, stack) && 0 < q <= |s| && s[q - 1] == b
    requires b < 0xa0 || b >= 0xe0 || 0xc0 <= b <= 0xc3
    ensures LegalAction(HeaderAction(o, c, b))
    ensures Follows(o, c, stack, ReadHeader(ReadUnder(o, c), s, q - 1), After(o, c, stack, HeaderAction(o, c, b), s, q), s)
  {
    hide Perform, Run;
    if 0x80 <= b < 0xa0 {
      var ct := if b < 0x90 then CT_MAP_KEY else CT_ARRAY_ITEM;
      var n := if b < 0x90 then b - 0x80 else b - 0x90;
      OverLimitStops(o, c, stack, ct, n, s, q);
    } else {
      StopsWithoutObject(o, c, stack, HeaderAction(o, c, b), s, q);
    }
  }

  /** One header read by the recursive decoder is what the machine does from CS_HEADER. */
  lemma HeaderFollows(o: Options, c: bool, stack: seq<Frame>, s: Bytes, p: nat)
    requires Modelled(o) && LegalStack(c, stack) && p <= |s|
    ensures Follows(o, c, stack, ReadHeader(ReadUnder(o, c), s, p), Run(o, c, State(CS_HEADER, 0, stack), s, p), s)
  {
    hide Perform, ReadSized, RawAt;
    if p < |s| {
      hide Run;
      RunHeader(o, c, stack, s, p);
      var b, q := s[p], p + 1;
      if 0xc4 <= b <= 0xc6 { SizedBinFollows(o, c, stack, s, q, b); }
      else if 0xc7 <= b <= 0xc9 { SizedExtFollows(o, c, stack, s, q, b); }
      else if 0xca <= b <= 0xd3 { NumberFollows(o, c, stack, s, q, b); }
      else if 0xd4 <= b <= 0xd8 { FixExtFollows(o, c, stack, s, q, b); }
      else if 0xd9 <= b <= 0xdb { SizedRawFollows(o, c, stack, s, q, b); }
      else if 0xdc <= b <= 0xdf { ContainerFollows(o, c, stack, s, q, b); }
      else if 0xa0 <= b <= 0xbf { RawFollows(o, c, stack, s, q, b - 0xa0); }
      else { FixFollows(o, c, stack, s, q, b); }
    }
  }

  // ---------- objects ----------

  /** The depth the recursive decoder may use below the open frames of the machine. */
  function DepthBelow(stack: seq<Frame>): nat
    requires |stack| <= STACK_SIZE
  {
    STACK_SIZE - |stack|
  }

  /** `h` does with the recursive result `r` what has to be done with it: push it, wait, or fail. */
  ghost predicate Simulates(o: Options, c: bool, stack: seq<Frame>, r: Read<Value>, h: Halted, s: Bytes)
    requires Modelled(o) && LegalStack(c, stack)
    requires r.Done? ==> 0 < r.end <= |s|
  {
    if r.Done? then h == After(o, c, stack, Push(r.value), s, r.end) else EndsWithout(o, c, r, h, s)
  }

  lemma ArrayHeaderLimit(o: Options, s: Bytes, p: nat)
    requires p <= |s|
    ensures match ReadHeader(o, s, p)
            case Done(ArrayOf(n), q) => n <= o.maxArray
            case Done(MapOf(n), q) => n <= o.maxMap
            case _ => true
  {
  }

  lemma LimitsAllow(o: Options, c: bool, s: Bytes, p: nat)
    requires p <= |s|
    ensures match ReadHeader(ReadUnder(o, c), s, p)
            case Done(ArrayOf(n), _) => c ==> n <= o.maxArray
            case Done(MapOf(n), _) => c ==> n <= o.maxMap
            case _ => true
  {
    hide ReadHeader;
    ArrayHeaderLimit(ReadUnder(o, c), s, p);
  }

  /** Only limits are different when skipping, and building is under those of the caller. */
  lemma ReadUnderBuilds(o: Options, c: bool)
    ensures c ==> ReadUnder(o, c) == o
  {
  }

  /**
   * From CS_HEADER the machine decodes or skips one object as the recursive decoder does, under the limits it
   * knows, then pushes it.
   */
  lemma {:induction false} ObjectSimulates(o: Options, c: bool, stack: seq<Frame>, s: Bytes, p: nat)
    requires Modelled(o) && LegalStack(c, stack) && p <= |s|
    ensures Simulates(o, c, stack, Decode(ReadUnder(o, c), c, s, p, DepthBelow(stack)),
                      Run(o, c, State(CS_HEADER, 0, stack), s, p), s)
    decreases |s| - p, 0, 0
  {
    hide Run, ReadHeader, Build, StoreInFrame, PushValue, ReadUnder;
    HeaderFollows(o, c, stack, s, p);
    LimitsAllow(o, c, s, p);
    match ReadHeader(ReadUnder(o, c), s, p)
    case Done(ArrayOf(n), q) =>
      if |stack| < STACK_SIZE {
        var obj := if c then Arr(seq(n, _ => Nil)) else Nil;
        if n > 0 {
          ItemsSimulate(o, c, stack, Frame(obj, n, 0, CT_ARRAY_ITEM, Nil), s, q);
        } else {
          assert c ==> obj == Arr([]);
        }
      }
    case Done(MapOf(n), q) =>
      if |stack| < STACK_SIZE {
        var obj := if c then Map([]) else Nil;
        if n > 0 {
          PairsSimulate(o, c, stack, Frame(obj, n, 0, CT_MAP_KEY, Nil), s, q);
        }
      }
    case Done(t, q) => ReadUnderBuilds(o, c); BuildErrors(o, t);
    case _ =>
  }

  lemma PushOnTop(o: Options, c: bool, stack: seq<Frame>, f: Frame, v: Value)
    requires LegalStack(c, stack) && |stack| < STACK_SIZE && LegalFrame(c, f)
    ensures LegalStack(c, stack + [f])
    ensures PushValue(o, c, stack + [f], v) ==
            var r := StoreInFrame(o, c, f, v);
            if r.Raise? then Failed(r.error)
            else if r.value.count == r.value.size then PushValue(o, c, stack, r.value.obj)
            else Continue(stack + [r.value])
  {
    hide StoreInFrame;
    assert (stack + [f])[|stack|] == f;
    assert (stack + [f])[..|stack|] == stack;
  }

  /** Pushing an object on an open frame fails, closes the frame, or goes on with the next header. */
  lemma AfterPushOnTop(o: Options, c: bool, stack: seq<Frame>, f: Frame, v: Value, s: Bytes, q: nat)
    requires Modelled(o) && LegalStack(c, stack) && |stack| < STACK_SIZE && LegalFrame(c, f) && 0 < q <= |s|
    ensures LegalStack(c, stack + [f])
    ensures var h := After(o, c, stack + [f], Push(v), s, q);
            var r := StoreInFrame(o, c, f, v);
            && (r.Raise? ==> h == Broken(r.error, q - 1))
            && (r.Ok? && r.value.count == r.value.size ==> h == After(o, c, stack, Push(r.value.obj), s, q))
            && (r.Ok? && r.value.count < r.value.size ==>
                  LegalStack(c, stack + [r.value]) && h == Run(o, c, State(CS_HEADER, 0, stack + [r.value]), s, q))
  {
    hide StoreInFrame, Run, PushValue;
    PushOnTop(o, c, stack, f, v);
  }

  /** The rest of an array, from its open frame. */
  lemma {:induction false} ItemsSimulate(o: Options, c: bool, stack: seq<Frame>, f: Frame, s: Bytes, p: nat)
    requires Modelled(o) && LegalStack(c, stack) && |stack| < STACK_SIZE && 0 < p <= |s|
    requires LegalFrame(c, f) && f.ct == CT_ARRAY_ITEM && (!c ==> f.obj == Nil)
    ensures var r := DecodeItems(ReadUnder(o, c), c, s, p, f.size - f.count, DepthBelow(stack) - 1,
                                 if c then f.obj.items[..f.count] else []);
            var h := Run(o, c, State(CS_HEADER, 0, stack + [f]), s, p);
            if r.Done? then h == After(o, c, stack, Push(if c then Arr(r.value) else Nil), s, r.end)
            else EndsWithout(o, c, r, h, s)
    decreases |s| - p, 1, f.size - f.count
  {
    hide Run, Decode, After, ReadUnder;
    ObjectSimulates(o, c, stack + [f], s, p);
    match Decode(ReadUnder(o, c), c, s, p, DepthBelow(stack) - 1)
    case Done(v, q) =>
      var g := f.(obj := if c then Arr(f.obj.items[f.count := v]) else Nil, count := f.count + 1);
      assert c ==> g.obj.items[..g.count] == f.obj.items[..f.count] + [v];
      AfterPushOnTop(o, c, stack, f, v, s, q);
      if g.count == g.size {
        assert c ==> g.obj.items[..g.count] == g.obj.items;
        var acc := if c then g.obj.items else [];
        assert DecodeItems(ReadUnder(o, c), c, s, q, 0, DepthBelow(stack) - 1, acc) == Done(acc, q);
      } else {
        ItemsSimulate(o, c, stack, g, s, q);
      }
    case _ =>
  }

  function NextPair(c: bool, g: Frame, v: Value): Frame
    requires c ==> g.obj.Map?
  {
    g.(obj := if c then Map(DictSet(g.obj.pairs, g.map_key, v)) else g.obj, count := g.count + 1, ct := CT_MAP_KEY)
  }

  /** The rest of a map, from its open frame waiting for a key. */
  lemma {:induction false} PairsSimulate(o: Options, c: bool, stack: seq<Frame>, f: Frame, s: Bytes, p: nat)
    requires Modelled(o) && LegalStack(c, stack) && |stack| < STACK_SIZE && 0 < p <= |s|
    requires LegalFrame(c, f) && f.ct == CT_MAP_KEY && (!c ==> f.obj == Nil)
    ensures var r := DecodePairs(ReadUnder(o, c), c, s, p, f.size - f.count, DepthBelow(stack) - 1,
                                 if c then f.obj.pairs else []);
            var h := Run(o, c, State(CS_HEADER, 0, stack + [f]), s, p);
            if r.Done? then h == After(o, c, stack, Push(if c then Map(r.value) else Nil), s, r.end)
            else EndsWithout(o, c, r, h, s)
    decreases |s| - p, 1, f.size - f.count
  {
    hide Run, Decode, After, DictSet, KeyAllowed, Hashable, ReadUnder;
    ObjectSimulates(o, c, stack + [f], s, p);
    ReadUnderBuilds(o, c);
    match Decode(ReadUnder(o, c), c, s, p, DepthBelow(stack) - 1)
    case Done(k, q) =>
      var g := f.(map_key := k, ct := CT_MAP_VALUE);
      AfterPushOnTop(o, c, stack, f, k, s, q);
      ValueSimulates(o, c, stack, g, s, q);
      match Decode(ReadUnder(o, c), c, s, q, DepthBelow(stack) - 1) {
        case Done(v, r) =>
          if (c ==> KeyAllowed(o, k) && Hashable(k)) && g.count + 1 < g.size {
            PairsSimulate(o, c, stack, NextPair(c, g, v), s, r);
          } else {
            var d := if c then DictSet(f.obj.pairs, k, v) else [];
            assert DecodePairs(ReadUnder(o, c), c, s, r, 0, DepthBelow(stack) - 1, d) == Done(d, r);
          }
        case _ =>
      }
    case _ =>
  }

  /** One value of a map whose key is waiting in the frame. */
  lemma {:induction false} ValueSimulates(o: Options, c: bool, stack: seq<Frame>, g: Frame, s: Bytes, q: nat)
    requires Modelled(o) && LegalStack(c, stack) && |stack| < STACK_SIZE && q <= |s|
    requires LegalFrame(c, g) && g.ct == CT_MAP_VALUE && (!c ==> g.obj == Nil)
    ensures var h := Run(o, c, State(CS_HEADER, 0, stack + [g]), s, q);
            match Decode(ReadUnder(o, c), c, s, q, DepthBelow(stack) - 1)
            case Done(v, r) =>
              if c && !KeyAllowed(o, g.map_key) then h.Broken? && h.error == ValueError
              else if c && !Hashable(g.map_key) then h.Broken? && h.error == TypeError
              else if g.count + 1 == g.size then h == After(o, c, stack, Push(NextPair(c, g, v).obj), s, r)
              else h == Run(o, c, State(CS_HEADER, 0, stack + [NextPair(c, g, v)]), s, r)
            case x => EndsWithout(o, c, x, h, s)
    decreases |s| - q, 0, 1
  {
    hide Run, Decode, DictSet, After;
    ObjectSimulates(o, c, stack + [g], s, q);
    match Decode(ReadUnder(o, c), c, s, q, DepthBelow(stack) - 1)
    case Done(v, r) => AfterPushOnTop(o, c, stack, g, v, s, r);
    case _ =>
  }

  /**
   * Refinement: started fresh at `p`, the machine returns every object the recursive decoder decodes when
   * allowed as many open containers as the machine has frames, and ends in the same place. Where timestamps
   * are refused alike, it returns nothing else.
   */
  lemma MachineComputesDecode(o: Options, s: Bytes, p: nat, v: Value, q: nat)
    requires Modelled(o) && p <= |s|
    ensures Decode(o, true, s, p, STACK_SIZE) == Done(v, q) ==> Run(o, true, INITIAL, s, p) == Returned(v, q)
    ensures SameTimestamps(o) ==>
              (Run(o, true, INITIAL, s, p) == Returned(v, q) <==> Decode(o, true, s, p, STACK_SIZE) == Done(v, q))
  {
    hide Run, Decode;
    ObjectSimulates(o, true, [], s, p);
  }

  /**
   * For every option setting the machine returns exactly what the recursive decoder decodes when it does not
   * check nanoseconds, so in particular everything it decodes when it does, with whatever recursion limit up to
   * the size of the stack.
   */
  lemma MachineIsTheUncheckedDecoder(o: Options, s: Bytes, p: nat, v: Value, q: nat, depth: nat)
    requires Modelled(o) && p <= |s| && depth <= STACK_SIZE
    ensures Run(o, true, INITIAL, s, p) == Returned(v, q) <==>
            Decode(o.(checkNanos := false), true, s, p, STACK_SIZE) == Done(v, q)
    ensures Decode(o.(checkNanos := true), true, s, p, depth) == Done(v, q) ==>
            Run(o, true, INITIAL, s, p) == Returned(v, q)
  {
    hide Run, Decode;
    if Decode(o.(checkNanos := true), true, s, p, depth).Done? {
      DeeperIsTheSame(o.(checkNanos := true), true, s, p, depth, STACK_SIZE);
    }
    RunIgnoresCheck(o, false, true, INITIAL, s, p);
    RunIgnoresCheck(o, true, true, INITIAL, s, p);
    MachineComputesDecode(o.(checkNanos := false), s, p, v, q);
    MachineComputesDecode(o.(checkNanos := true), s, p, v, q);
  }

  /**
   * Where the recursive decoder waits for more bytes the machine suspends, unless the input ends in the header of
   * the longest ext: that the machine counts to zero, and refuses.
   */
  lemma MachineWaits(o: Options, s: Bytes, p: nat)
    requires Modelled(o) && p <= |s| && Decode(o, true, s, p, STACK_SIZE).NeedMore?
    ensures var h := Run(o, true, INITIAL, s, p);
            h.Suspended? || (EndsInLongestExt(s) && h.Broken? && h.error == ValueError)
  {
    hide Run, Decode;
    ObjectSimulates(o, true, [], s, p);
  }

  /** The exception is real. */
  lemma MachineRefusesTheLongestExt(o: Options)
    requires Modelled(o)
    ensures Decode(o, true, LONGEST_EXT, 0, STACK_SIZE) == NeedMore
    ensures Run(o, true, INITIAL, LONGEST_EXT, 0).Broken? && Run(o, true, INITIAL, LONGEST_EXT, 0).error == ValueError
  {
    var four: Bytes := LONGEST_EXT[1..5];
    assert four == [0xff, 0xff, 0xff, 0xff];
    LoadPositional(four);
    RunHeader(o, true, [], LONGEST_EXT, 0);
    assert HeaderAction(o, true, 0xc9) == Await(CS_EXT_32, 4);
    RunTrail(o, true, [], CS_EXT_32, 4, LONGEST_EXT, 1);
    assert TrailAction(o, true, CS_EXT_32, four) == Halt(ValueError);
  }

  /**
   * Skipping, on every input: the machine ends where the recursive `skip` ends under the limits the machine knows,
   * which are none but that of the longest ext, and otherwise returns nothing.
   */
  lemma MachineSkipsAsDecode(o: Options, s: Bytes, p: nat)
    requires Modelled(o) && p <= |s|
    ensures var r := Decode(ReadUnder(o, false), false, s, p, STACK_SIZE);
            var h := Run(o, false, INITIAL, s, p);
            if r.Done? then h == Returned(Nil, r.end) else EndsWithout(o, false, r, h, s)
  {
    hide Run, Decode, ReadUnder;
    ObjectSimulates(o, false, [], s, p);
  }

  // ---------- the one disagreement ----------

  /** The two decoders agree on `s`: the machine returns what the recursive decoder does, or neither returns. */
  ghost predicate AgreeOn(o: Options, s: Bytes)
    requires Modelled(o)
  {
    match Decode(o, true, s, 0, STACK_SIZE)
    case Done(v, q) => Run(o, true, INITIAL, s, 0) == Returned(v, q)
    case _ => !Run(o, true, INITIAL, s, 0).Returned?
  }

  /** A timestamp 64 whose nanosecond field is 2^30 - 1: more than a second. */
  const OVERLONG_NANOSECONDS: Bytes := [0xd7, 0xff, 0xff, 0xff, 0xff, 0xff, 0xff, 0xff, 0xff, 0xff]

  lemma {:induction false} LoadOnes(w: nat)
    ensures Load(seq(w, _ => 0xff)) == Pow256(w) - 1
  {
    if w == 0 {
    } else {
      LoadOnes(w - 1);
      assert seq(w, _ => 0xff)[..w - 1] == seq(w - 1, _ => 0xff);
    }
  }

  lemma OverlongNanoseconds(o: Options)
    requires Modelled(o) && !SameTimestamps(o)
    ensures Decode(o, true, OVERLONG_NANOSECONDS, 0, STACK_SIZE) == Fail(ValueError)
    ensures Run(o, true, INITIAL, OVERLONG_NANOSECONDS, 0).Returned?
  {
    var s := OVERLONG_NANOSECONDS;
    var payload: Bytes := s[2..10];
    assert Load(payload) == 0xffff_ffff_ffff_ffff by {
      var all: Bytes := [0xff, 0xff, 0xff, 0xff, 0xff, 0xff, 0xff, 0xff];
      assert payload == all;
      LoadOnes(8);
      Pow256Values();
      assert all == seq(8, _ => 0xff);
    }
    assert FromBytes(payload) == None;
    assert ReadHeader(o, s, 0) == Done(ExtBody(-1, payload), 10);
    RunHeader(o, true, [], s, 0);
    assert HeaderAction(o, true, s[0]) == Await(ACS_EXT_VALUE, 9);
    RunTrail(o, true, [], ACS_EXT_VALUE, 9, s, 1);
    assert s[1..10][0] == 0xff && s[1..10][1..] == payload;
  }

  /** The decoders agree on every input exactly under `SameTimestamps`. */
  lemma AgreementCondition(o: Options)
    requires Modelled(o)
    ensures (forall s :: AgreeOn(o, s)) <==> SameTimestamps(o)
  {
    hide Run, Decode;
    if SameTimestamps(o) {
      forall s ensures AgreeOn(o, s) {
        ObjectSimulates(o, true, [], s, 0);
      }
    } else {
      OverlongNanoseconds(o);
      assert !AgreeOn(o, OVERLONG_NANOSECONDS);
    }
  }
}
