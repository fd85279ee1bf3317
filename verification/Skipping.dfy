/** `construct` does not interfere with control: skipping walks the input exactly as unpacking does. */
module Skipping {
  import opened ByteStrings
  import opened Values
  import opened Decoder
  import opened Machine
  import Refinement

  /** Two frames that differ only in the objects they hold. */
  predicate SameShape(f: Frame, g: Frame) {
    f.size == g.size && f.count == g.count && f.ct == g.ct
  }

  ghost predicate SameShapes(a: seq<Frame>, b: seq<Frame>) {
    |a| == |b| && forall i :: 0 <= i < |a| ==> SameShape(a[i], b[i])
  }

  ghost predicate SameControl(a: State, b: State) {
    a.cs == b.cs && a.trail == b.trail && SameShapes(a.stack, b.stack)
  }

  /** The step `b` of the skipping machine moves as the step `a` of the building one. */
  ghost predicate SameStep(a: Step, b: Step) {
    match a
    case Starve => b == Starve
    case Next(st, p) => b.Next? && SameControl(st, b.st) && b.p == p
    case Finished(_, p) => b.Finished? && b.p == p
    case Stopped(e, p) => !CallbackError(e) ==> b == a
  }

  /** The same for actions; a failed callback has no counterpart. */
  predicate SameAction(a: Action, b: Action) {
    match a
    case Push(_) => b.Push?
    case Halt(e) => !CallbackError(e) ==> b == a
    case _ => b == a
  }

  lemma StoreKeepsShape(o: Options, f: Frame, f': Frame, v: Value, v': Value)
    requires LegalFrame(true, f) && LegalFrame(false, f') && SameShape(f, f')
    ensures StoreInFrame(o, false, f', v').Ok?
    ensures var r := StoreInFrame(o, true, f, v); r.Ok? ==> SameShape(r.value, StoreInFrame(o, false, f', v').value)
  {
    hide DictSet, KeyAllowed, Hashable;
  }

  lemma {:induction false} PushKeepsShape(o: Options, stack: seq<Frame>, stack': seq<Frame>, v: Value, v': Value)
    requires LegalStack(true, stack) && LegalStack(false, stack') && SameShapes(stack, stack')
    ensures var r, r' := PushValue(o, true, stack, v), PushValue(o, false, stack', v');
            match r
            case Continue(k) => r'.Continue? && SameShapes(k, r'.stack)
            case Finish(_) => r'.Finish?
            case Failed(_) => true
    decreases |stack|
  {
    hide StoreInFrame, LegalFrame;
    if stack == [] {
    } else {
      var n := |stack| - 1;
      StoreKeepsShape(o, stack[n], stack'[n], v, v');
      match (StoreInFrame(o, true, stack[n], v), StoreInFrame(o, false, stack'[n], v'))
      case (Ok(g), Ok(g')) =>
        assert SameShape(g, g');
        if g.count == g.size {
          PushKeepsShape(o, stack[..n], stack'[..n], g.obj, g'.obj);
        }
      case (Raise(_), _) =>
    }
  }

  lemma PerformKeepsControl(o: Options, stack: seq<Frame>, stack': seq<Frame>, a: Action, a': Action, q: nat)
    requires LegalStack(true, stack) && LegalStack(false, stack') && SameShapes(stack, stack')
    requires LegalAction(a) && LegalAction(a') && SameAction(a, a') && q > 0
    ensures SameStep(Perform(o, true, stack, a, q), Perform(o, false, stack', a', q))
  {
    match a
    case Push(v) => PushKeepsShape(o, stack, stack', v, a'.obj);
    case Open(ct, n) =>
      if n == 0 && |stack| < STACK_SIZE && NewContainer(o, true, ct, n).Some? {
        PushKeepsShape(o, stack, stack', NewContainer(o, true, ct, n).value, Nil);
      }
    case _ =>
  }

  lemma HeaderActionsMatch(o: Options, b: Byte)
    ensures SameAction(HeaderAction(o, true, b), HeaderAction(o, false, b))
  {
  }

  lemma TrailActionsMatch(o: Options, cs: int, n: Bytes)
    requires Modelled(o) && cs != CS_HEADER && LegalControl(cs, |n|)
    ensures SameAction(TrailAction(o, true, cs, n), TrailAction(o, false, cs, n))
  {
  }

  lemma TickKeepsControl(o: Options, st: State, st': State, s: Bytes, p: nat)
    requires Modelled(o) && p <= |s| && Legal(true, st) && Legal(false, st') && SameControl(st, st')
    ensures SameStep(Tick(o, true, st, s, p), Tick(o, false, st', s, p))
  {
    hide Perform, HeaderAction, TrailAction;
    if st.cs == CS_HEADER {
      if p < |s| {
        HeaderActionIsLegal(o, true, s[p]);
        HeaderActionIsLegal(o, false, s[p]);
        HeaderActionsMatch(o, s[p]);
        PerformKeepsControl(o, st.stack, st'.stack, HeaderAction(o, true, s[p]), HeaderAction(o, false, s[p]), p + 1);
      }
    } else if p + st.trail <= |s| {
      var n := s[p..p + st.trail];
      TrailActionIsLegal(o, true, st.cs, n);
      TrailActionIsLegal(o, false, st.cs, n);
      TrailActionsMatch(o, st.cs, n);
      PerformKeepsControl(o, st.stack, st'.stack, TrailAction(o, true, st.cs, n), TrailAction(o, false, st.cs, n),
                          p + st.trail);
    }
  }

  /**
   * Unless a callback fails, unpacking and skipping end the same way, in the same place, with the same
   * control state, also when both are resumed in the middle of an object.
   */
  lemma {:induction false} SkipFollowsUnpack(o: Options, st: State, st': State, s: Bytes, p: nat)
    requires Modelled(o) && p <= |s| && Legal(true, st) && Legal(false, st') && SameControl(st, st')
    ensures var r, r' := Run(o, true, st, s, p), Run(o, false, st', s, p);
            match r
            case Suspended(t, q) => r'.Suspended? && SameControl(t, r'.st) && r'.p == q
            case Returned(_, q) => r'.Returned? && r'.p == q
            case Broken(e, q) => !CallbackError(e) ==> r' == r
    decreases |s| - p
  {
    hide Tick;
    TickKeepsControl(o, st, st', s, p);
    match Tick(o, true, st, s, p)
    case Next(t, q) => SkipFollowsUnpack(o, t, Tick(o, false, st', s, p).st, s, q);
    case _ =>
  }

  /** Both implementations of `skip` stop where `unpack` does, on every input that `unpack` accepts. */
  lemma SkipEndsWhereUnpackDoes(o: Options, s: Bytes, p: nat)
    requires Modelled(o) && p <= |s| && Decode(o, true, s, p, STACK_SIZE).Done?
    ensures var q := Decode(o, true, s, p, STACK_SIZE).end;
            var r := Run(o, false, INITIAL, s, p);
            r.Returned? && r.p == q && Decode(o, false, s, p, STACK_SIZE) == Done(Nil, q)
  {
    hide Run, Decode;
    var r := Decode(o, true, s, p, STACK_SIZE);
    Refinement.MachineComputesDecode(o, s, p, r.value, r.end);
    SkipFollowsUnpack(o, INITIAL, INITIAL, s, p);
    SkipConsumesTheSame(o, s, p, STACK_SIZE);
  }
}
