/**
 * The resumable C decoder (`unpack_template.h`) as a transition system over positions in the input.
 * A state between two transitions is what `unpack_execute` saves in its context: the control state,
 * the number of bytes it waits for, and the frames of the open containers.
 */
module Machine {
  import opened ByteStrings
  import opened Timestamps
  import opened Values
  import opened Decoder

  const STACK_SIZE: nat := 1024

  // Control states: the header byte & 0x1f, or one of the three payload states.
  const CS_HEADER := 0x00
  const CS_BIN_8 := 0x04
  const CS_BIN_16 := 0x05
  const CS_BIN_32 := 0x06
  const CS_EXT_8 := 0x07
  const CS_EXT_16 := 0x08
  const CS_EXT_32 := 0x09
  const CS_FLOAT := 0x0a
  const CS_INT_64 := 0x13
  const CS_RAW_8 := 0x19
  const CS_RAW_16 := 0x1a
  const CS_RAW_32 := 0x1b
  const CS_ARRAY_16 := 0x1c
  const CS_ARRAY_32 := 0x1d
  const CS_MAP_16 := 0x1e
  const CS_MAP_32 := 0x1f
  const ACS_RAW_VALUE := 0x20
  const ACS_BIN_VALUE := 0x21
  const ACS_EXT_VALUE := 0x22

  /** Options the C decoder is modelled for: ext lengths plus one fit in 32 bits. */
  predicate Modelled(o: Options) {
    o.maxExt < 0xffff_ffff
  }

  datatype ContainerType = CT_ARRAY_ITEM | CT_MAP_KEY | CT_MAP_VALUE

  /** One open container. When skipping, `obj` and `map_key` stay Nil. */
  datatype Frame = Frame(obj: Value, size: nat, count: nat, ct: ContainerType, map_key: Value)

  datatype State = State(cs: int, trail: nat, stack: seq<Frame>)

  const INITIAL: State := State(CS_HEADER, 0, [])

  // ---------- what the bytes of one state make the machine do ----------

  datatype Action =
    | Push(obj: Value)                        // goto _push
    | Await(cs: int, trail: nat)              // again_fixed_trail
    | Open(ct: ContainerType, n: nat)         // start_container
    | Halt(error: Error)                      // goto _failed with this exception, or ret = -2

  /** `unpack_callback_raw` */
  function RawValue(o: Options, construct: bool, body: Bytes): Action {
    if !construct then Push(Nil)
    else if |body| > o.maxStr then Halt(ValueError)
    else if o.raw then Push(Bin(body))
    else if o.isUtf8(body) then Push(Str(body))
    else Halt(ValueError)
  }

  /** `unpack_callback_bin` */
  function BinValue(o: Options, construct: bool, body: Bytes): Action {
    if !construct then Push(Nil)
    else if |body| > o.maxBin then Halt(ValueError)
    else Push(Bin(body))
  }

  /** `unpack_callback_ext`: `body` starts with the type byte, so the payload is one byte shorter (in 32 bits). */
  function ExtValue(o: Options, construct: bool, body: Bytes): Action
    requires body == [] ==> Modelled(o)
  {
    if !construct then Push(Nil)
    else if (|body| - 1) % TWO_TO_THE_32 > o.maxExt then Halt(ValueError)
    else
      assert body != [];
      var code, payload := SignedByte(body[0]), body[1..];
      if code == -1 then
        match UnpackC(payload)
        case None => Halt(ValueError)
        case Some((sec, nsec)) =>
          if o.timestampAsInt then Push(Int(sec * GIGA + nsec))
          else if 0 <= nsec < GIGA then Push(Time(Stamp(sec, nsec)))
          else Halt(ValueError)
      else if 0 <= code <= 127 then Push(Ext(code, payload))
      else Halt(ValueError)
  }

  /** `again_fixed_trail_if_zero`: a payload state, or its value at once when nothing is to come. */
  function AwaitRaw(o: Options, c: bool, n: nat): Action {
    if n == 0 then RawValue(o, c, []) else Await(ACS_RAW_VALUE, n)
  }

  function AwaitBin(o: Options, c: bool, n: nat): Action {
    if n == 0 then BinValue(o, c, []) else Await(ACS_BIN_VALUE, n)
  }

  function AwaitExt(o: Options, c: bool, n: nat): Action
    requires Modelled(o)
  {
    if n == 0 then ExtValue(o, c, []) else Await(ACS_EXT_VALUE, n)
  }

  /** `NEXT_CS`: the header byte & 0x1f, which in this range takes off 0xc0. */
  function NextCs(b: Byte): (cs: int)
    requires 0xc0 <= b <= 0xdf
    ensures cs == b % 0x20
  {
    b - 0xc0
  }

  function ShiftLeft(n: nat, k: nat): nat
    requires k < 4
  {
    if k == 0 then n else if k == 1 then 2 * n else if k == 2 then 4 * n else 8 * n
  }

  /** The CS_HEADER case of the switch. */
  function HeaderAction(o: Options, c: bool, b: Byte): Action
  {
    if b <= 0x7f then Push(if c then Int(b) else Nil)
    else if 0xe0 <= b then Push(if c then Int(SignedByte(b)) else Nil)
    else if 0xc0 <= b then
      if b == 0xc0 then Push(Nil)
      else if b == 0xc2 then Push(if c then Bool(false) else Nil)
      else if b == 0xc3 then Push(if c then Bool(true) else Nil)
      else if b == 0xc4 || b == 0xc7 || b == 0xd9 then Await(NextCs(b), 1)
      else if b == 0xc5 || b == 0xc8 then Await(NextCs(b), 2)
      else if b == 0xc6 || b == 0xc9 then Await(NextCs(b), 4)
      else if 0xca <= b <= 0xd3 then Await(NextCs(b), ShiftLeft(1, b % 4))
      else if 0xd4 <= b <= 0xd7 then Await(ACS_EXT_VALUE, ShiftLeft(1, b % 4) + 1)
      else if b == 0xd8 then Await(ACS_EXT_VALUE, 16 + 1)
      else if 0xda <= b then Await(NextCs(b), ShiftLeft(2, b % 2))
      else Halt(FormatError)
    else if 0xa0 <= b then AwaitRaw(o, c, b - 0xa0)
    else if 0x90 <= b then Open(CT_ARRAY_ITEM, b - 0x90)
    else Open(CT_MAP_KEY, b - 0x80)
  }

  /** The exact number of bytes each control state waits for; a payload state waits for at least one. */
  predicate LegalControl(cs: int, trail: nat) {
    if cs == CS_HEADER then trail == 0
    else if cs == ACS_RAW_VALUE || cs == ACS_BIN_VALUE || cs == ACS_EXT_VALUE then 0 < trail < TWO_TO_THE_32
    else if cs == CS_BIN_8 || cs == CS_EXT_8 || cs == CS_RAW_8 then trail == 1
    else if cs == CS_BIN_16 || cs == CS_EXT_16 || cs == CS_RAW_16 || cs == CS_ARRAY_16 || cs == CS_MAP_16 then trail == 2
    else if cs == CS_BIN_32 || cs == CS_EXT_32 || cs == CS_RAW_32 || cs == CS_ARRAY_32 || cs == CS_MAP_32 then trail == 4
    else CS_FLOAT <= cs <= CS_INT_64 && trail == NumberWidth(cs + 0xc0)
  }

  /** The other cases of the switch, on the `trail` bytes they waited for. */
  function TrailAction(o: Options, c: bool, cs: int, n: Bytes): Action
    requires Modelled(o) && LegalControl(cs, |n|)
  {
    if cs == CS_EXT_8 || cs == CS_EXT_16 then AwaitExt(o, c, Load(n) + 1)
    else if cs == CS_EXT_32 then AwaitExt(o, c, (Load(n) + 1) % TWO_TO_THE_32)
    else if CS_FLOAT <= cs <= CS_INT_64 then Push(if c then NumberOf(o, cs + 0xc0, n) else Nil)
    else if cs == CS_BIN_8 || cs == CS_BIN_16 || cs == CS_BIN_32 then AwaitBin(o, c, Load(n))
    else if cs == ACS_BIN_VALUE then BinValue(o, c, n)
    else if cs == CS_RAW_8 || cs == CS_RAW_16 || cs == CS_RAW_32 then AwaitRaw(o, c, Load(n))
    else if cs == ACS_RAW_VALUE then RawValue(o, c, n)
    else if cs == ACS_EXT_VALUE then ExtValue(o, c, n)
    else if cs == CS_ARRAY_16 || cs == CS_ARRAY_32 then Open(CT_ARRAY_ITEM, Load(n))
    else if cs == CS_MAP_16 || cs == CS_MAP_32 then Open(CT_MAP_KEY, Load(n))
    else Halt(ValueError)
  }

  // ---------- container headers read on their own ----------

  /** `read_array_header` and `read_map_header` of the C code: the new offset and size, 0 or -1. */
  datatype HeaderRead = NotYet | Unexpected | Size(n: nat, end: nat)

  function ContainerHeaderC(s: Bytes, p: nat, fixedOffset: Byte, varOffset: Byte): HeaderRead
    requires p < |s| && varOffset < 0xff
  {
    if s[p] == varOffset then
      if |s| - p < 3 then NotYet else Size(Load(s[p + 1..p + 3]), p + 3)
    else if s[p] == varOffset + 1 then
      if |s| - p < 5 then NotYet else Size(Load(s[p + 1..p + 5]), p + 5)
    else if fixedOffset <= s[p] <= fixedOffset + 0xf then Size(s[p] - fixedOffset, p + 1)
    else Unexpected
  }

  /** A header found in a window is the header of the stream behind the window, and only a short window hides it. */
  lemma ContainerHeaderInWindow(w: Bytes, p: nat, s: Bytes, q: nat, fixedOffset: Byte, varOffset: Byte)
    requires p < |w| && q < |s| && varOffset < 0xff && w[p..] <= s[q..]
    ensures match ContainerHeaderC(w, p, fixedOffset, varOffset)
            case Size(n, end) => ContainerHeaderC(s, q, fixedOffset, varOffset) == Size(n, q + (end - p))
            case Unexpected => ContainerHeaderC(s, q, fixedOffset, varOffset) == Unexpected
            case NotYet => |w| - p == |s| - q ==> ContainerHeaderC(s, q, fixedOffset, varOffset) == NotYet
  {
    hide Load;
    assert w[p] == w[p..][0] == s[q..][0] == s[q];
    if |w| - p >= 3 { assert w[p + 1..p + 3] == w[p..][1..3] == s[q..][1..3] == s[q + 1..q + 3]; }
    if |w| - p >= 5 { assert w[p + 1..p + 5] == w[p..][1..5] == s[q..][1..5] == s[q + 1..q + 5]; }
  }

  // ---------- errors ----------

  /** The exceptions the callbacks raise. */
  predicate CallbackError(e: Error) {
    e == ValueError || e == TypeError
  }

  /** The return code for an exception: -1 leaves it to the callback that has raised it. */
  function ReturnCode(e: Error): (code: int)
    ensures code < 0
    ensures CallbackError(e) ==> code == -1
  {
    if e == FormatError then -2 else if e == StackError then -3 else -1
  }

  // ---------- legal states ----------

  /** An open container misses at least one element and holds a partial object of its own kind. */
  predicate LegalFrame(c: bool, f: Frame) {
    && 0 <= f.count < f.size
    && (c ==> if f.ct == CT_ARRAY_ITEM then f.obj.Arr? && |f.obj.items| == f.size else f.obj.Map?)
  }

  ghost predicate LegalStack(c: bool, stack: seq<Frame>) {
    && |stack| <= STACK_SIZE
    && forall i :: 0 <= i < |stack| ==> LegalFrame(c, stack[i])
  }

  ghost predicate Legal(c: bool, st: State) {
    LegalControl(st.cs, st.trail) && LegalStack(c, st.stack)
  }

  // ---------- transitions ----------

  /** The outcome of `_push`: the frames to go on with, the finished object, or `_failed` with an exception. */
  datatype Pushed = Continue(stack: seq<Frame>) | Finish(obj: Value) | Failed(error: Error)

  /** What one object does to the innermost frame, or the exception of a failed callback. */
  function StoreInFrame(o: Options, c: bool, f: Frame, obj: Value): (r: Outcome<Frame>)
    requires LegalFrame(c, f)
    ensures r.Ok? && r.value.count < r.value.size ==> LegalFrame(c, r.value)
    ensures r.Ok? ==> r.value.count <= r.value.size == f.size
    ensures r.Raise? ==> CallbackError(r.error)
  {
    match f.ct
    case CT_ARRAY_ITEM =>
      Ok(f.(obj := if c then Arr(f.obj.items[f.count := obj]) else f.obj, count := f.count + 1))
    case CT_MAP_KEY =>
      Ok(f.(map_key := obj, ct := CT_MAP_VALUE))
    case CT_MAP_VALUE =>
      if !c then Ok(f.(count := f.count + 1, ct := CT_MAP_KEY))
      else if !KeyAllowed(o, f.map_key) then Raise(ValueError)
      else if !Hashable(f.map_key) then Raise(TypeError)
      else Ok(f.(obj := Map(DictSet(f.obj.pairs, f.map_key, obj)), count := f.count + 1, ct := CT_MAP_KEY))
  }

  /** `_push`: hand a finished object to the innermost container, closing every container it completes. */
  ghost function PushValue(o: Options, c: bool, stack: seq<Frame>, obj: Value): (r: Pushed)
    requires LegalStack(c, stack)
    ensures r.Continue? ==> LegalStack(c, r.stack) && 0 < |r.stack| <= |stack|
    ensures r.Failed? ==> CallbackError(r.error)
    decreases |stack|
  {
    if stack == [] then Finish(if c then obj else Nil)
    else
      var rest, f := stack[..|stack| - 1], stack[|stack| - 1];
      match StoreInFrame(o, c, f, obj) {
        case Raise(e) => Failed(e)
        case Ok(g) => if g.count == g.size then PushValue(o, c, rest, g.obj) else Continue(rest + [g])
      }
  }

  /** The empty container object `start_container` makes; None is the length limit of its callback. */
  function NewContainer(o: Options, c: bool, ct: ContainerType, n: nat): Option<Value> {
    if !c then Some(Nil)
    else if ct == CT_ARRAY_ITEM then (if n > o.maxArray then None else Some(Arr(seq(n, _ => Nil))))
    else if n > o.maxMap then None else Some(Map([]))
  }

  /** One transition: not enough bytes, a new state, the finished object, or an error, with the new `p`. */
  datatype Step = Starve | Next(st: State, p: nat) | Finished(obj: Value, p: nat) | Stopped(error: Error, p: nat)

  ghost function AfterPush(r: Pushed, q: nat): Step
    requires q > 0
  {
    match r
    case Continue(stack) => Next(State(CS_HEADER, 0, stack), q)
    case Finish(v) => Finished(v, q)
    case Failed(e) => Stopped(e, q - 1)
  }

  predicate LegalAction(a: Action) {
    && (a.Await? ==> a.cs != CS_HEADER && LegalControl(a.cs, a.trail))
    && (a.Open? ==> a.ct != CT_MAP_VALUE)
    && (a.Halt? ==> a.error == ValueError || a.error == FormatError)
  }

  /** Carry out an action whose last byte is the one before `q`. */
  ghost function Perform(o: Options, c: bool, stack: seq<Frame>, a: Action, q: nat): (r: Step)
    requires q > 0 && LegalStack(c, stack)
    requires LegalAction(a)
    ensures r.Next? ==> Legal(c, r.st) && r.p == q
    ensures r.Finished? ==> r.p == q
    ensures r.Stopped? ==> r.p == q - 1 && DecodeError(r.error)
    ensures !r.Starve?
  {
    match a
    case Push(v) => AfterPush(PushValue(o, c, stack, v), q)
    case Await(cs, trail) => Next(State(cs, trail, stack), q)
    case Halt(e) => Stopped(e, q - 1)
    case Open(ct, n) =>
      if |stack| >= STACK_SIZE then Stopped(StackError, q - 1)
      else
        match NewContainer(o, c, ct, n) {
          case None => Stopped(ValueError, q - 1)
          case Some(obj) =>
            if n == 0 then AfterPush(PushValue(o, c, stack, obj), q)
            else Next(State(CS_HEADER, 0, stack + [Frame(obj, n, 0, ct, Nil)]), q)
        }
  }

  lemma HeaderActionIsLegal(o: Options, c: bool, b: Byte)
    ensures LegalAction(HeaderAction(o, c, b))
  {
  }

  lemma TrailActionIsLegal(o: Options, c: bool, cs: int, n: Bytes)
    requires Modelled(o) && cs != CS_HEADER && LegalControl(cs, |n|)
    ensures LegalAction(TrailAction(o, c, cs, n))
  {
    LoadBound(n);
    Pow256Values();
  }

  /** One transition of the machine at position `p`. */
  ghost function Tick(o: Options, c: bool, st: State, s: Bytes, p: nat): (r: Step)
    requires p <= |s| && Modelled(o) && Legal(c, st)
    ensures r.Next? ==> Legal(c, r.st) && p < r.p <= |s|
    ensures r.Finished? ==> p < r.p <= |s|
    ensures r.Stopped? ==> p <= r.p < |s| && DecodeError(r.error)
  {
    if st.cs == CS_HEADER then
      if p == |s| then Starve
      else
        HeaderActionIsLegal(o, c, s[p]);
        Perform(o, c, st.stack, HeaderAction(o, c, s[p]), p + 1)
    else if |s| - p < st.trail then Starve
    else
      TrailActionIsLegal(o, c, st.cs, s[p..p + st.trail]);
      Perform(o, c, st.stack, TrailAction(o, c, st.cs, s[p..p + st.trail]), p + st.trail)
  }

  /** How a whole run ends: suspended in a state, with an object, or with an error code. */
  datatype Halted = Suspended(st: State, p: nat) | Returned(obj: Value, p: nat) | Broken(error: Error, p: nat)

  ghost function Run(o: Options, c: bool, st: State, s: Bytes, p: nat): (r: Halted)
    requires p <= |s| && Modelled(o) && Legal(c, st)
    ensures r.Suspended? ==> Legal(c, r.st)
    ensures r.Broken? ==> DecodeError(r.error)
    ensures p <= r.p <= |s|
    decreases |s| - p
  {
    match Tick(o, c, st, s, p)
    case Starve => Suspended(st, p)
    case Next(st', q) => Run(o, c, st', s, q)
    case Finished(v, q) => Returned(v, q)
    case Stopped(e, q) => Broken(e, q)
  }

  /** How a run ends that has just made the step `x`. */
  ghost function Conclude(o: Options, c: bool, x: Step, s: Bytes): Halted
    requires Modelled(o) && !x.Starve?
    requires x.Next? ==> Legal(c, x.st) && x.p <= |s|
  {
    match x
    case Next(st, q) => Run(o, c, st, s, q)
    case Finished(v, q) => Returned(v, q)
    case Stopped(e, q) => Broken(e, q)
  }

  lemma RunFromHeader(o: Options, c: bool, stack: seq<Frame>, s: Bytes, p: nat)
    requires Modelled(o) && LegalStack(c, stack) && p < |s|
    ensures LegalAction(HeaderAction(o, c, s[p]))
    ensures Run(o, c, State(CS_HEADER, 0, stack), s, p) ==
            Conclude(o, c, Perform(o, c, stack, HeaderAction(o, c, s[p]), p + 1), s)
  {
    hide HeaderAction, TrailAction, Perform;
    HeaderActionIsLegal(o, c, s[p]);
  }

  lemma RunFromTrail(o: Options, c: bool, stack: seq<Frame>, cs: int, trail: nat, s: Bytes, p: nat)
    requires Modelled(o) && LegalStack(c, stack) && p <= |s|
    requires cs != CS_HEADER && LegalControl(cs, trail)
    ensures |s| - p < trail ==> Run(o, c, State(cs, trail, stack), s, p) == Suspended(State(cs, trail, stack), p)
    ensures p + trail <= |s| ==>
              var a := TrailAction(o, c, cs, s[p..p + trail]);
              && LegalAction(a)
              && Run(o, c, State(cs, trail, stack), s, p) == Conclude(o, c, Perform(o, c, stack, a, p + trail), s)
  {
    hide HeaderAction, TrailAction, Perform;
    if p + trail <= |s| {
      TrailActionIsLegal(o, c, cs, s[p..p + trail]);
    }
  }

  lemma ConcludeAwait(o: Options, c: bool, stack: seq<Frame>, a: Action, s: Bytes, q: nat)
    requires Modelled(o) && LegalStack(c, stack) && 0 < q <= |s| && a.Await? && LegalAction(a)
    ensures Conclude(o, c, Perform(o, c, stack, a, q), s) == Run(o, c, State(a.cs, a.trail, stack), s, q)
  {
    hide Run;
  }

  // ---------- splitting the input does not matter ----------

  lemma TickIsLocal(o: Options, c: bool, st: State, s: Bytes, p: nat, more: Bytes)
    requires p <= |s| && Modelled(o) && Legal(c, st)
    ensures !Tick(o, c, st, s, p).Starve? ==> Tick(o, c, st, s + more, p) == Tick(o, c, st, s, p)
  {
    hide HeaderAction, TrailAction, Perform;
    if st.cs != CS_HEADER && p + st.trail <= |s| {
      assert (s + more)[p..p + st.trail] == s[p..p + st.trail];
    }
  }

  /** Resuming a suspended run with more bytes is one run over the whole input. */
  lemma {:induction false} Resume(o: Options, c: bool, st: State, s: Bytes, p: nat, more: Bytes)
    requires p <= |s| && Modelled(o) && Legal(c, st)
    ensures var r := Run(o, c, st, s, p);
            Run(o, c, st, s + more, p) == if r.Suspended? then Run(o, c, r.st, s + more, r.p) else r
    decreases |s| - p
  {
    hide Tick;
    TickIsLocal(o, c, st, s, p, more);
    match Tick(o, c, st, s, p)
    case Next(st', q) => Resume(o, c, st', s, q, more);
    case _ =>
  }

  lemma PerformMovesOn(o: Options, c: bool, stack: seq<Frame>, a: Action, q: nat)
    requires q > 0 && LegalStack(c, stack)
    ensures LegalAction(a) && Perform(o, c, stack, a, q).Next? ==> Perform(o, c, stack, a, q).p == q
  {
  }

  lemma TickOnPrefix(o: Options, c: bool, st: State, s: Bytes, p: nat, q: nat)
    requires p <= q <= |s| && Modelled(o) && Legal(c, st)
    requires Tick(o, c, st, s, p).Next? && Tick(o, c, st, s, p).p <= q
    ensures Tick(o, c, st, s[..q], p) == Tick(o, c, st, s, p)
  {
    hide HeaderAction, TrailAction, Perform;
    assert s[..q] + s[q..] == s;
    if st.cs == CS_HEADER {
      PerformMovesOn(o, c, st.stack, HeaderAction(o, c, s[p]), p + 1);
    } else {
      assert s[..q][p..p + st.trail] == s[p..p + st.trail];
      PerformMovesOn(o, c, st.stack, TrailAction(o, c, st.cs, s[p..p + st.trail]), p + st.trail);
    }
  }

  lemma StarvedAtEnd(o: Options, c: bool, st: State, s: Bytes)
    requires Modelled(o) && Legal(c, st)
    ensures Run(o, c, st, s, |s|) == Suspended(st, |s|)
  {
  }

  /** A suspended run has seen only what it consumed: the bytes it left over do not matter. */
  lemma {:induction false} SuspendedOnPrefix(o: Options, c: bool, st: State, s: Bytes, p: nat)
    requires p <= |s| && Modelled(o) && Legal(c, st)
    ensures var r := Run(o, c, st, s, p); r.Suspended? ==> Run(o, c, st, s[..r.p], p) == r
    decreases |s| - p
  {
    hide Tick;
    var r := Run(o, c, st, s, p);
    var x := Tick(o, c, st, s, p);
    if r.Suspended? {
      if x.Next? {
        SuspendedOnPrefix(o, c, x.st, s, x.p);
        TickOnPrefix(o, c, st, s, p, r.p);
      } else {
        StarvedAtEnd(o, c, st, s[..p]);
      }
    }
  }

  /** Going on in state `st` behind the bytes `seen` is going on with the object that began at `start`. */
  ghost predicate Resumes(o: Options, c: bool, st: State, seen: Bytes, start: nat)
    requires Modelled(o) && Legal(c, st) && start <= |seen|
  {
    forall more :: Run(o, c, INITIAL, seen + more, start) == Run(o, c, st, seen + more, |seen|)
  }

  lemma InitialIsLegal(c: bool)
    ensures Legal(c, INITIAL)
  {
  }

  lemma ResumesWith(o: Options, c: bool, st: State, seen: Bytes, start: nat, x: Bytes, more: Bytes)
    requires Modelled(o) && Legal(c, st) && start <= |seen| && Resumes(o, c, st, seen, start)
    requires Run(o, c, st, seen + x, |seen|).Suspended? && Run(o, c, st, seen + x, |seen|).p == |seen + x|
    ensures var r := Run(o, c, st, seen + x, |seen|);
            Run(o, c, INITIAL, seen + x + more, start) == Run(o, c, r.st, seen + x + more, |seen + x|)
  {
    hide Run, Legal;
    InitialIsLegal(c);
    assert seen + (x + more) == seen + x + more;
    assert Run(o, c, INITIAL, seen + (x + more), start) == Run(o, c, st, seen + (x + more), |seen|);
    Resume(o, c, st, seen + x, |seen|, more);
  }

  /** A run that suspends leaves a state that resumes the same object. */
  lemma ResumesLater(o: Options, c: bool, st: State, seen: Bytes, start: nat, x: Bytes)
    requires Modelled(o) && Legal(c, st) && start <= |seen| && Resumes(o, c, st, seen, start)
    requires Run(o, c, st, seen + x, |seen|).Suspended?
    ensures var r := Run(o, c, st, seen + x, |seen|); Resumes(o, c, r.st, (seen + x)[..r.p], start)
  {
    hide Run, Legal;
    InitialIsLegal(c);
    var r := Run(o, c, st, seen + x, |seen|);
    var y := x[..r.p - |seen|];
    assert (seen + x)[..r.p] == seen + y;
    SuspendedOnPrefix(o, c, st, seen + x, |seen|);
    forall more ensures Run(o, c, INITIAL, seen + y + more, start) == Run(o, c, r.st, seen + y + more, |seen + y|) {
      ResumesWith(o, c, st, seen, start, y, more);
    }
  }

  function Concat(chunks: seq<Bytes>): Bytes {
    if chunks == [] then [] else chunks[0] + Concat(chunks[1..])
  }

  /**
   * Re-entering the machine once per chunk: `s` is what has arrived so far, of which everything up to
   * `p` has been consumed. Chunks after the end of an object or an error are not looked at.
   */
  ghost function RunChunks(o: Options, c: bool, st: State, s: Bytes, p: nat, chunks: seq<Bytes>): Halted
    requires p <= |s| && Modelled(o) && Legal(c, st)
    decreases |chunks|
  {
    match Run(o, c, st, s, p)
    case Suspended(st', q) =>
      if chunks == [] then Suspended(st', q) else RunChunks(o, c, st', s + chunks[0], q, chunks[1..])
    case r => r
  }

  /** Chunk invariance: every way of cutting the input gives the result, object and position of one run. */
  lemma {:induction false} ChunkInvariance(o: Options, c: bool, st: State, s: Bytes, p: nat, chunks: seq<Bytes>)
    requires p <= |s| && Modelled(o) && Legal(c, st)
    ensures RunChunks(o, c, st, s, p, chunks) == Run(o, c, st, s + Concat(chunks), p)
    decreases |chunks|
  {
    hide Tick, Run;
    Resume(o, c, st, s, p, Concat(chunks));
    var r := Run(o, c, st, s, p);
    if r.Suspended? {
      if chunks == [] {
        assert s + Concat(chunks) == s;
      } else {
        ChunkInvariance(o, c, r.st, s + chunks[0], r.p, chunks[1..]);
        assert s + chunks[0] + Concat(chunks[1..]) == s + Concat(chunks);
      }
    }
  }

  /** `b` is what `a` is, with every position moved by `shift`. */
  ghost predicate MovedStep(a: Step, b: Step, shift: int) {
    match (a, b)
    case (Starve, Starve) => true
    case (Next(t, q), Next(t', q')) => t == t' && q' == q + shift
    case (Finished(v, q), Finished(v', q')) => v == v' && q' == q + shift
    case (Stopped(e, q), Stopped(e', q')) => e == e' && q' == q + shift
    case _ => false
  }

  lemma PerformMoved(o: Options, c: bool, stack: seq<Frame>, a: Action, q: nat, q': nat)
    requires q > 0 && q' > 0 && LegalStack(c, stack) && LegalAction(a)
    ensures MovedStep(Perform(o, c, stack, a, q), Perform(o, c, stack, a, q'), q' - q)
  {
  }

  lemma TickMoved(o: Options, c: bool, st: State, s: Bytes, p: nat, s': Bytes, p': nat)
    requires p <= |s| && p' <= |s'| && Modelled(o) && Legal(c, st)
    requires s[p..] == s'[p'..]
    ensures MovedStep(Tick(o, c, st, s, p), Tick(o, c, st, s', p'), p' - p)
  {
    hide HeaderAction, TrailAction, Perform;
    assert |s| - p == |s'| - p';
    if st.cs == CS_HEADER {
      if p < |s| {
        assert s[p] == s[p..][0] == s'[p'..][0] == s'[p'];
        HeaderActionIsLegal(o, c, s[p]);
        PerformMoved(o, c, st.stack, HeaderAction(o, c, s[p]), p + 1, p' + 1);
      }
    } else if p + st.trail <= |s| {
      var n := s[p..p + st.trail];
      assert n == s[p..][..st.trail] == s'[p'..][..st.trail] == s'[p'..p' + st.trail];
      TrailActionIsLegal(o, c, st.cs, n);
      PerformMoved(o, c, st.stack, TrailAction(o, c, st.cs, n), p + st.trail, p' + st.trail);
    }
  }

  ghost predicate MovedRun(a: Halted, b: Halted, shift: int) {
    match (a, b)
    case (Suspended(t, q), Suspended(t', q')) => t == t' && q' == q + shift
    case (Returned(v, q), Returned(v', q')) => v == v' && q' == q + shift
    case (Broken(e, q), Broken(e', q')) => e == e' && q' == q + shift
    case _ => false
  }

  /** The machine looks only at the bytes from `p` on: it may be moved to another buffer. */
  lemma {:induction false} RunMoved(o: Options, c: bool, st: State, s: Bytes, p: nat, s': Bytes, p': nat)
    requires p <= |s| && p' <= |s'| && Modelled(o) && Legal(c, st)
    requires s[p..] == s'[p'..]
    ensures MovedRun(Run(o, c, st, s, p), Run(o, c, st, s', p'), p' - p)
    decreases |s| - p
  {
    hide Tick;
    TickMoved(o, c, st, s, p, s', p');
    var a, b := Tick(o, c, st, s, p), Tick(o, c, st, s', p');
    if a.Next? {
      assert s[a.p..] == s[p..][a.p - p..] == s'[p'..][a.p - p..] == s'[b.p..];
      RunMoved(o, c, a.st, s, a.p, s', b.p);
    }
  }
}
