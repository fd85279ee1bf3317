/** Which exception an input ends in: FormatError, StackError and the errors of keys, exactly. */
module Refusals {
  import opened ByteStrings
  import opened Values
  import opened Decoder
  import opened Machine
  import opened Limits
  import opened Refinement
  import opened WholeInputs
  import opened WireFormat
  import Keys
  import Streams

  // ---------- the machine ----------

  /** After the bytes before `q` the machine waits for a header, with `open` containers around it. */
  ghost predicate HeaderDue(o: Options, c: bool, st: State, s: Bytes, p: nat, q: nat, open: nat)
    requires Modelled(o) && Legal(c, st) && p <= q <= |s|
  {
    var r := Run(o, c, st, s[..q], p);
    r.Suspended? && r.p == q && r.st.cs == CS_HEADER && |r.st.stack| == open
  }

  /** The header of a list or dict that begins at `h` ends with the byte at `q`. */
  predicate ContainerHeaderEnds(s: Bytes, h: nat, q: nat) {
    && h <= q < |s|
    && ( || (0x80 <= s[h] <= 0x9f && q == h)
         || ((s[h] == 0xdc || s[h] == 0xde) && q == h + 2)
         || ((s[h] == 0xdd || s[h] == 0xdf) && q == h + 4))
  }

  /** The machine has read the first byte of such a header, with the stack full. */
  predicate InContainerHeader(st: State, p: nat, q: nat) {
    && |st.stack| == 1024
    && ( || ((st.cs == CS_ARRAY_16 || st.cs == CS_MAP_16) && q == p + 1)
         || ((st.cs == CS_ARRAY_32 || st.cs == CS_MAP_32) && q == p + 3))
  }

  lemma PerformStops(o: Options, c: bool, stack: seq<Frame>, a: Action, q: nat)
    requires q > 0 && LegalStack(c, stack) && LegalAction(a)
    ensures var x := Perform(o, c, stack, a, q);
            && (x.Stopped? && x.error == FormatError ==> a == Halt(FormatError))
            && (x.Stopped? && x.error == StackError ==> a.Open? && |stack| == 1024)
            && (a == Halt(FormatError) ==> x == Stopped(FormatError, q - 1))
            && (a.Open? && |stack| == 1024 ==> x == Stopped(StackError, q - 1))
            && (x.Next? && x.st.cs != CS_HEADER ==> a.Await? && x.st.stack == stack && x.st.cs == a.cs)
  {
  }

  lemma HeaderActions(o: Options, c: bool, b: Byte)
    ensures HeaderAction(o, c, b) == Halt(FormatError) <==> b == 0xc1
    ensures HeaderAction(o, c, b).Open? <==> 0x80 <= b <= 0x9f
    ensures var a := HeaderAction(o, c, b); a.Await? && CS_ARRAY_16 <= a.cs <= CS_MAP_32 ==> b == a.cs + 0xc0
    ensures 0xdc <= b <= 0xdf ==> HeaderAction(o, c, b) == Await(b - 0xc0, if b == 0xdc || b == 0xde then 2 else 4)
  {
  }

  lemma TrailActions(o: Options, c: bool, cs: int, n: Bytes)
    requires Modelled(o) && cs != CS_HEADER && LegalControl(cs, |n|)
    ensures TrailAction(o, c, cs, n) != Halt(FormatError)
    ensures TrailAction(o, c, cs, n).Open? <==> CS_ARRAY_16 <= cs <= CS_MAP_32
    ensures var a := TrailAction(o, c, cs, n); a.Await? ==> a.cs < CS_ARRAY_16 || a.cs > CS_MAP_32
  {
    hide Load, NumberOf;
  }

  /** Where and why one transition ends in one of these errors, and which transitions lead into a container header. */
  lemma TickStops(o: Options, c: bool, st: State, s: Bytes, p: nat)
    requires p <= |s| && Modelled(o) && Legal(c, st)
    ensures var x := Tick(o, c, st, s, p);
            && (x.Stopped? && x.error == FormatError ==> st.cs == CS_HEADER && x.p == p && s[p] == 0xc1)
            && (x.Stopped? && x.error == StackError ==>
                  (st.cs == CS_HEADER && |st.stack| == 1024 && ContainerHeaderEnds(s, p, x.p))
                  || InContainerHeader(st, p, x.p))
            && (x.Next? && CS_ARRAY_16 <= x.st.cs <= CS_MAP_32 ==>
                  st.cs == CS_HEADER && x.p == p + 1 && s[p] == x.st.cs + 0xc0 && x.st.stack == st.stack)
  {
    hide HeaderAction, TrailAction, Perform;
    if st.cs == CS_HEADER {
      if p < |s| {
        HeaderActionIsLegal(o, c, s[p]);
        HeaderActions(o, c, s[p]);
        PerformStops(o, c, st.stack, HeaderAction(o, c, s[p]), p + 1);
      }
    } else if p + st.trail <= |s| {
      var n := s[p..p + st.trail];
      TrailActionIsLegal(o, c, st.cs, n);
      TrailActions(o, c, st.cs, n);
      PerformStops(o, c, st.stack, TrailAction(o, c, st.cs, n), p + st.trail);
    }
  }

  /** A header due later on is due from the state before. */
  lemma DueBefore(o: Options, c: bool, st: State, s: Bytes, p: nat, q: nat, open: nat)
    requires p <= q <= |s| && Modelled(o) && Legal(c, st)
    requires var x := Tick(o, c, st, s, p); x.Next? && x.p <= q && HeaderDue(o, c, x.st, s, x.p, q, open)
    ensures HeaderDue(o, c, st, s, p, q, open)
  {
    hide Tick;
    TickOnPrefix(o, c, st, s, p, q);
  }

  lemma DueNow(o: Options, c: bool, st: State, s: Bytes, p: nat)
    requires p <= |s| && Modelled(o) && Legal(c, st) && st.cs == CS_HEADER
    ensures HeaderDue(o, c, st, s, p, p, |st.stack|)
  {
    StarvedAtEnd(o, c, st, s[..p]);
  }

  lemma {:induction false} FormatErrorFrom(o: Options, c: bool, st: State, s: Bytes, p: nat)
    requires p <= |s| && Modelled(o) && Legal(c, st)
    ensures var h := Run(o, c, st, s, p);
            h.Broken? && h.error == FormatError ==>
              h.p < |s| && s[h.p] == 0xc1 && exists open :: HeaderDue(o, c, st, s, p, h.p, open)
    decreases |s| - p
  {
    hide Tick, HeaderDue;
    var h := Run(o, c, st, s, p);
    if h.Broken? && h.error == FormatError {
      TickStops(o, c, st, s, p);
      match Tick(o, c, st, s, p)
      case Next(t, r) =>
        FormatErrorFrom(o, c, t, s, r);
        var open :| HeaderDue(o, c, t, s, r, h.p, open);
        DueBefore(o, c, st, s, p, h.p, open);
      case Stopped(_, q) => DueNow(o, c, st, s, p);
      case _ =>
    }
  }

  lemma HeaderOfState(s: Bytes, p: nat, cs: int, q: nat)
    requires p < q < |s| && s[p] == cs + 0xc0
    requires || ((cs == CS_ARRAY_16 || cs == CS_MAP_16) && q == p + 2)
             || ((cs == CS_ARRAY_32 || cs == CS_MAP_32) && q == p + 4)
    ensures ContainerHeaderEnds(s, p, q)
  {
  }

  lemma {:induction false} StackErrorFrom(o: Options, c: bool, st: State, s: Bytes, p: nat)
    requires p <= |s| && Modelled(o) && Legal(c, st)
    ensures var h := Run(o, c, st, s, p);
            h.Broken? && h.error == StackError ==>
              && h.p < |s|
              && (InContainerHeader(st, p, h.p) ||
                  exists i :: p <= i <= h.p && ContainerHeaderEnds(s, i, h.p) && HeaderDue(o, c, st, s, p, i, 1024))
    decreases |s| - p
  {
    hide Tick, HeaderDue, ContainerHeaderEnds;
    var h := Run(o, c, st, s, p);
    if h.Broken? && h.error == StackError {
      TickStops(o, c, st, s, p);
      match Tick(o, c, st, s, p)
      case Next(t, r) =>
        StackErrorFrom(o, c, t, s, r);
        if InContainerHeader(t, r, h.p) {
          DueNow(o, c, st, s, p);
          HeaderOfState(s, p, t.cs, h.p);
        } else {
          var i :| r <= i <= h.p && ContainerHeaderEnds(s, i, h.p) && HeaderDue(o, c, t, s, r, i, 1024);
          DueBefore(o, c, st, s, p, i, 1024);
        }
      case Stopped(_, q) => if st.cs == CS_HEADER { DueNow(o, c, st, s, p); }
      case _ =>
    }
  }

  /** What happens at a header that is due depends on nothing before it. */
  lemma GoesOnFromHeader(o: Options, c: bool, s: Bytes, p: nat, q: nat, open: nat)
    requires p <= q < |s| && Modelled(o) && HeaderDue(o, c, INITIAL, s, p, q, open)
    ensures s[q] == 0xc1 ==> Run(o, c, INITIAL, s, p) == Broken(FormatError, q)
    ensures open == 1024 ==> forall e :: ContainerHeaderEnds(s, q, e) ==> Run(o, c, INITIAL, s, p) == Broken(StackError, e)
  {
    hide Run, HeaderAction, TrailAction, Perform;
    assert s[..q] + s[q..] == s;
    Resume(o, c, INITIAL, s[..q], p, s[q..]);
    var stack := Run(o, c, INITIAL, s[..q], p).st.stack;
    RunFromHeader(o, c, stack, s, q);
    HeaderActions(o, c, s[q]);
    PerformStops(o, c, stack, HeaderAction(o, c, s[q]), q + 1);
    if 0xdc <= s[q] <= 0xdf {
      var w := if s[q] == 0xdc || s[q] == 0xde then 2 else 4;
      ConcludeAwait(o, c, stack, HeaderAction(o, c, s[q]), s, q + 1);
      RunFromTrail(o, c, stack, s[q] - 0xc0, w, s, q + 1);
      if q + 1 + w <= |s| {
        TrailActions(o, c, s[q] - 0xc0, s[q + 1..q + 1 + w]);
        PerformStops(o, c, stack, TrailAction(o, c, s[q] - 0xc0, s[q + 1..q + 1 + w]), q + 1 + w);
      }
    }
  }

  /** FormatError, exactly: the reserved byte stands where a header is due. */
  lemma MachineFormatError(o: Options, c: bool, s: Bytes, p: nat, q: nat)
    requires p <= |s| && Modelled(o)
    ensures Run(o, c, INITIAL, s, p) == Broken(FormatError, q) <==>
            p <= q < |s| && s[q] == 0xc1 && exists open :: HeaderDue(o, c, INITIAL, s, p, q, open)
  {
    hide Run, HeaderDue;
    FormatErrorFrom(o, c, INITIAL, s, p);
    if p <= q < |s| && s[q] == 0xc1 {
      forall open | HeaderDue(o, c, INITIAL, s, p, q, open) ensures Run(o, c, INITIAL, s, p) == Broken(FormatError, q) {
        GoesOnFromHeader(o, c, s, p, q, open);
      }
    }
  }

  lemma EndsInside(s: Bytes, q: nat)
    ensures forall i :: ContainerHeaderEnds(s, i, q) ==> q < |s|
  {
  }

  /** StackError, exactly: a container begins where 1024 are open. */
  lemma MachineStackError(o: Options, c: bool, s: Bytes, p: nat, q: nat)
    requires p <= |s| && Modelled(o)
    ensures Run(o, c, INITIAL, s, p) == Broken(StackError, q) <==>
            exists i :: p <= i <= q < |s| && ContainerHeaderEnds(s, i, q) && HeaderDue(o, c, INITIAL, s, p, i, 1024)
  {
    hide Run, HeaderDue, ContainerHeaderEnds;
    StackErrorFrom(o, c, INITIAL, s, p);
    EndsInside(s, q);
    forall i | p <= i <= q < |s| && ContainerHeaderEnds(s, i, q) && HeaderDue(o, c, INITIAL, s, p, i, 1024)
      ensures Run(o, c, INITIAL, s, p) == Broken(StackError, q)
    {
      GoesOnFromHeader(o, c, s, p, i, 1024);
    }
  }

  // ---------- the recursive decoder ----------

  /** The attempt at the object at `p` comes to a header at `q`, with `left` more containers allowed. */
  ghost predicate Comes(o: Options, c: bool, s: Bytes, p: nat, depth: nat, q: nat, left: nat)
    requires p <= |s|
    decreases |s| - p, 0, 0
  {
    || (q == p && left == depth)
    || match ReadHeader(o, s, p)
       case Done(ArrayOf(n), r) => depth > 0 && ComesInItems(o, c, s, r, n, depth - 1, q, left)
       case Done(MapOf(n), r) => depth > 0 && ComesInPairs(o, c, s, r, n, depth - 1, q, left)
       case _ => false
  }

  ghost predicate ComesInItems(o: Options, c: bool, s: Bytes, p: nat, n: nat, depth: nat, q: nat, left: nat)
    requires p <= |s|
    decreases |s| - p, 1, n
  {
    && n > 0
    && ( || Comes(o, c, s, p, depth, q, left)
         || match Decode(o, c, s, p, depth)
            case Done(_, r) => ComesInItems(o, c, s, r, n - 1, depth, q, left)
            case _ => false)
  }

  ghost predicate ComesInPairs(o: Options, c: bool, s: Bytes, p: nat, n: nat, depth: nat, q: nat, left: nat)
    requires p <= |s|
    decreases |s| - p, 1, n
  {
    && n > 0
    && ( || Comes(o, c, s, p, depth, q, left)
         || match Decode(o, c, s, p, depth)
            case Done(k, r) =>
              && (c && o.strictMapKey ==> Keys.IsText(k))
              && ( || Comes(o, c, s, r, depth, q, left)
                   || match Decode(o, c, s, r, depth)
                      case Done(_, t) => (c ==> !Keys.IsContainer(k)) && ComesInPairs(o, c, s, t, n - 1, depth, q, left)
                      case _ => false)
            case _ => false)
  }

  /** At the header at `q` the attempt fails with `e`: the reserved byte, or a container that is one too many. */
  predicate FailsAt(o: Options, s: Bytes, q: nat, left: nat, e: Error) {
    && q < |s|
    && ( || (e == FormatError && s[q] == 0xc1)
         || (e == StackError && left == 0 && match ReadHeader(o, s, q)
                                             case Done(ArrayOf(_), _) => true
                                             case Done(MapOf(_), _) => true
                                             case _ => false))
  }

  lemma {:induction false} FailureIsReported(o: Options, c: bool, s: Bytes, p: nat, depth: nat, q: nat, left: nat, e: Error)
    requires p <= |s| && Comes(o, c, s, p, depth, q, left) && FailsAt(o, s, q, left, e)
    ensures Decode(o, c, s, p, depth) == Fail(e)
    decreases |s| - p, 0, 0
  {
    hide ReadSized, RawAt;
    if !(q == p && left == depth) {
      match ReadHeader(o, s, p)
      case Done(ArrayOf(n), r) => FailureInItems(o, c, s, r, n, depth - 1, [], q, left, e);
      case Done(MapOf(n), r) => FailureInPairs(o, c, s, r, n, depth - 1, [], q, left, e);
      case _ =>
    }
  }

  lemma {:induction false} FailureInItems(o: Options, c: bool, s: Bytes, p: nat, n: nat, depth: nat, acc: seq<Value>,
                                          q: nat, left: nat, e: Error)
    requires p <= |s| && ComesInItems(o, c, s, p, n, depth, q, left) && FailsAt(o, s, q, left, e)
    ensures DecodeItems(o, c, s, p, n, depth, acc) == Fail(e)
    decreases |s| - p, 1, n
  {
    hide Decode, Comes, FailsAt;
    if Comes(o, c, s, p, depth, q, left) {
      FailureIsReported(o, c, s, p, depth, q, left, e);
    } else {
      var v := Decode(o, c, s, p, depth);
      FailureInItems(o, c, s, v.end, n - 1, depth, if c then acc + [v.value] else [], q, left, e);
    }
  }

  lemma {:induction false} FailureInPairs(o: Options, c: bool, s: Bytes, p: nat, n: nat, depth: nat, d: seq<Pair>,
                                          q: nat, left: nat, e: Error)
    requires p <= |s| && ComesInPairs(o, c, s, p, n, depth, q, left) && FailsAt(o, s, q, left, e)
    ensures DecodePairs(o, c, s, p, n, depth, d) == Fail(e)
    decreases |s| - p, 1, n
  {
    hide Decode, Comes, FailsAt, DictSet;
    if Comes(o, c, s, p, depth, q, left) {
      FailureIsReported(o, c, s, p, depth, q, left, e);
    } else {
      var k := Decode(o, c, s, p, depth);
      if Comes(o, c, s, k.end, depth, q, left) {
        FailureIsReported(o, c, s, k.end, depth, q, left, e);
      } else {
        var v := Decode(o, c, s, k.end, depth);
        FailureInPairs(o, c, s, v.end, n - 1, depth, if c then DictSet(d, k.value, v.value) else [], q, left, e);
      }
    }
  }

  ghost predicate HasCause(o: Options, c: bool, s: Bytes, p: nat, depth: nat, e: Error)
    requires p <= |s|
  {
    exists q, left :: Comes(o, c, s, p, depth, q, left) && FailsAt(o, s, q, left, e)
  }

  lemma HeaderRefusals(o: Options, s: Bytes, p: nat)
    requires p <= |s|
    ensures match ReadHeader(o, s, p)
            case Fail(e) => e == ValueError || (e == FormatError && p < |s| && s[p] == 0xc1)
            case _ => true
  {
    hide Load;
  }

  lemma {:induction false} FailureHasCause(o: Options, c: bool, s: Bytes, p: nat, depth: nat, e: Error)
    requires p <= |s| && (e == FormatError || e == StackError) && Decode(o, c, s, p, depth) == Fail(e)
    ensures HasCause(o, c, s, p, depth, e)
    decreases |s| - p, 0, 0
  {
    hide ReadSized, RawAt, Build;
    HeaderRefusals(o, s, p);
    match ReadHeader(o, s, p)
    case Done(ArrayOf(n), r) =>
      if depth == 0 {
        assert Comes(o, c, s, p, depth, p, depth);
      } else {
        CauseInItems(o, c, s, r, n, depth - 1, [], e);
        var q, left :| ComesInItems(o, c, s, r, n, depth - 1, q, left) && FailsAt(o, s, q, left, e);
        assert Comes(o, c, s, p, depth, q, left);
      }
    case Done(MapOf(n), r) =>
      if depth == 0 {
        assert Comes(o, c, s, p, depth, p, depth);
      } else {
        CauseInPairs(o, c, s, r, n, depth - 1, [], e);
        var q, left :| ComesInPairs(o, c, s, r, n, depth - 1, q, left) && FailsAt(o, s, q, left, e);
        assert Comes(o, c, s, p, depth, q, left);
      }
    case Done(t, _) => BuildErrors(o, t);
    case Fail(_) => assert Comes(o, c, s, p, depth, p, depth);
    case NeedMore =>
  }

  lemma {:induction false} CauseInItems(o: Options, c: bool, s: Bytes, p: nat, n: nat, depth: nat, acc: seq<Value>,
                                        e: Error)
    requires p <= |s| && (e == FormatError || e == StackError) && DecodeItems(o, c, s, p, n, depth, acc) == Fail(e)
    ensures exists q, left :: ComesInItems(o, c, s, p, n, depth, q, left) && FailsAt(o, s, q, left, e)
    decreases |s| - p, 1, n
  {
    hide Decode, Comes, FailsAt;
    match Decode(o, c, s, p, depth)
    case Done(v, r) =>
      var more := if c then acc + [v] else [];
      CauseInItems(o, c, s, r, n - 1, depth, more, e);
      var q, left :| ComesInItems(o, c, s, r, n - 1, depth, q, left) && FailsAt(o, s, q, left, e);
      assert ComesInItems(o, c, s, p, n, depth, q, left);
    case Fail(_) =>
      FailureHasCause(o, c, s, p, depth, e);
      var q, left :| Comes(o, c, s, p, depth, q, left) && FailsAt(o, s, q, left, e);
      assert ComesInItems(o, c, s, p, n, depth, q, left);
    case NeedMore =>
  }

  lemma {:induction false} CauseInPairs(o: Options, c: bool, s: Bytes, p: nat, n: nat, depth: nat, d: seq<Pair>, e: Error)
    requires p <= |s| && (e == FormatError || e == StackError) && DecodePairs(o, c, s, p, n, depth, d) == Fail(e)
    ensures exists q, left :: ComesInPairs(o, c, s, p, n, depth, q, left) && FailsAt(o, s, q, left, e)
    decreases |s| - p, 1, n
  {
    hide Decode, Comes, FailsAt, DictSet;
    match Decode(o, c, s, p, depth)
    case Done(k, r) =>
      match Decode(o, c, s, r, depth) {
        case Done(v, t) =>
          var more := if c then DictSet(d, k, v) else [];
          CauseInPairs(o, c, s, t, n - 1, depth, more, e);
          var q, left :| ComesInPairs(o, c, s, t, n - 1, depth, q, left) && FailsAt(o, s, q, left, e);
          assert ComesInPairs(o, c, s, p, n, depth, q, left);
        case Fail(_) =>
          FailureHasCause(o, c, s, r, depth, e);
          var q, left :| Comes(o, c, s, r, depth, q, left) && FailsAt(o, s, q, left, e);
          assert ComesInPairs(o, c, s, p, n, depth, q, left);
        case NeedMore =>
      }
    case Fail(_) =>
      FailureHasCause(o, c, s, p, depth, e);
      var q, left :| Comes(o, c, s, p, depth, q, left) && FailsAt(o, s, q, left, e);
      assert ComesInPairs(o, c, s, p, n, depth, q, left);
    case NeedMore =>
  }

  /** FormatError and StackError of the recursive decoder, exactly. */
  lemma DecoderRefusals(o: Options, c: bool, s: Bytes, p: nat, depth: nat, e: Error)
    requires p <= |s| && (e == FormatError || e == StackError)
    ensures Decode(o, c, s, p, depth) == Fail(e) <==>
            exists q, left :: Comes(o, c, s, p, depth, q, left) && FailsAt(o, s, q, left, e)
  {
    hide Decode, Comes, FailsAt;
    if Decode(o, c, s, p, depth) == Fail(e) {
      FailureHasCause(o, c, s, p, depth, e);
    }
    forall q, left | Comes(o, c, s, p, depth, q, left) && FailsAt(o, s, q, left, e)
      ensures Decode(o, c, s, p, depth) == Fail(e)
    {
      FailureIsReported(o, c, s, p, depth, q, left, e);
    }
  }

  // ---------- whole inputs ----------

  /** The C `unpackb` raises FormatError and StackError exactly where the machine meets their causes. */
  lemma UnpackbRefusalsC(o: Options, l: Derived, packed: Bytes)
    requires Modelled(Automatic(o, l, |packed|))
    ensures var a := Automatic(o, l, |packed|);
            && (UnpackbC(o, l, packed) == Refused(FormatError) <==>
                  exists q: nat, open :: q < |packed| && packed[q] == 0xc1 &&
                                         HeaderDue(a, true, INITIAL, packed, 0, q, open))
            && (UnpackbC(o, l, packed) == Refused(StackError) <==>
                  exists i: nat, q: nat :: i <= q < |packed| && ContainerHeaderEnds(packed, i, q) &&
                                 HeaderDue(a, true, INITIAL, packed, 0, i, 1024))
  {
    hide Run, HeaderDue, ContainerHeaderEnds, Automatic;
    var a := Automatic(o, l, |packed|);
    var h := Run(a, true, INITIAL, packed, 0);
    MachineFormatError(a, true, packed, 0, h.p);
    MachineStackError(a, true, packed, 0, h.p);
    forall q: nat, open | q < |packed| && packed[q] == 0xc1 && HeaderDue(a, true, INITIAL, packed, 0, q, open)
      ensures h == Broken(FormatError, q)
    {
      MachineFormatError(a, true, packed, 0, q);
    }
    forall i: nat, q: nat | i <= q < |packed| && ContainerHeaderEnds(packed, i, q) &&
                            HeaderDue(a, true, INITIAL, packed, 0, i, 1024)
      ensures h == Broken(StackError, q)
    {
      MachineStackError(a, true, packed, 0, q);
    }
  }

  /** The fallback `unpackb`, likewise. */
  lemma UnpackbRefusalsF(o: Options, l: Derived, packed: Bytes, depth: nat, e: Error)
    requires o.checkNanos && (e == FormatError || e == StackError)
    ensures var a := Automatic(o, l, BufferLimit(packed));
            UnpackbF(o, l, packed, depth) == Refused(e) <==>
              exists q, left :: Comes(a, true, packed, 0, depth, q, left) && FailsAt(a, packed, q, left, e)
  {
    hide Decode, Comes, FailsAt, Automatic;
    DecoderRefusals(Automatic(o, l, BufferLimit(packed)), true, packed, 0, depth, e);
  }

  lemma BeginsInside(s: Bytes, n: nat, q: nat)
    ensures CountHeader(s, 0, 0x90, 0xdc, n, q) || CountHeader(s, 0, 0x80, 0xde, n, q) ==> s != []
  {
  }

  /**
   * Automatic limits: a list said to have more elements than the input has bytes, or a dict more than half as many,
   * is refused as a ValueError whatever is in it, and before the interpreter or the stack could be the reason.
   */
  lemma UnpackbRefusesCounts(o: Options, l: Derived, packed: Bytes, n: nat, q: nat, depth: nat)
    requires o.checkNanos && Modelled(Automatic(o, l, |packed|))
    requires || (l.arrayLen && n > |packed| && CountHeader(packed, 0, 0x90, 0xdc, n, q))
             || (l.mapLen && 2 * n > |packed| && CountHeader(packed, 0, 0x80, 0xde, n, q))
    ensures UnpackbF(o, l, packed, depth) == UnpackbC(o, l, packed) == Refused(ValueError)
  {
    hide Run, ReadHeader, CountHeader;
    assert packed != [] by { BeginsInside(packed, n, q); }
    var a := Automatic(o, l, |packed|);
    if l.arrayLen && n > |packed| && CountHeader(packed, 0, 0x90, 0xdc, n, q) {
      ArrayHeaderDenotes(a, packed, 0, n, q);
      ArrayHeaderDenotes(ReadUnder(a, true), packed, 0, n, q);
    } else {
      MapHeaderDenotes(a, packed, 0, n, q);
      MapHeaderDenotes(ReadUnder(a, true), packed, 0, n, q);
    }
    HeaderFollows(a, true, [], packed, 0);
  }

  lemma {:induction false} DeeperChain(o: Options, s: Bytes, p: nat, vs: seq<Value>, q: nat, depth: nat, depth': nat)
    requires p <= |s| && depth <= depth' && Streams.Chain(o, s, p, vs, q, depth)
    ensures Streams.Chain(o, s, p, vs, q, depth')
    decreases |vs|
  {
    hide Decode;
    if vs == [] {
    } else {
      DeeperIsTheSame(o, true, s, p, depth, depth');
      DeeperChain(o, s, Decode(o, true, s, p, depth).end, vs[1..], q, depth, depth');
    }
  }

  /**
   * A dict at the start of an input whose keys and values decode: both functions return it, with ExtraData for what
   * is behind, if its keys pass, and else raise ValueError with `strict_map_key` and TypeError without.
   */
  lemma UnpackbKeys(o: Options, l: Derived, packed: Bytes, n: nat, q: nat, flat: seq<Value>, end: nat, depth: nat)
    requires o.checkNanos && Modelled(Automatic(o, l, |packed|)) && 0 < depth <= STACK_SIZE
    requires CountHeader(packed, 0, 0x80, 0xde, n, q) && n <= Automatic(o, l, |packed|).maxMap && |flat| == 2 * n
    requires Streams.Chain(Automatic(o, l, |packed|), packed, q, flat, end, depth - 1)
    ensures end <= |packed|
    ensures UnpackbF(o, l, packed, depth) == UnpackbC(o, l, packed) ==
            if Keys.KeysPass(o.strictMapKey, flat) then Ends(Map(Streams.Stored([], flat)), packed[end..])
            else Refused(Keys.KeyError(o.strictMapKey))
  {
    hide Run, Decode, ReadHeader, CountHeader, Streams.Chain, Keys.KeysPass;
    var a := Automatic(o, l, |packed|);
    BeginsInside(packed, n, q);
    MapHeaderDenotes(a, packed, 0, n, q);
    Keys.MapAcceptance(a, packed, 0, depth, n, q, flat, end);
    Streams.ChainBounds(a, packed, q, flat, end, depth - 1);
    DeeperChain(a, packed, q, flat, end, depth - 1, STACK_SIZE - 1);
    Keys.MachineMapAcceptance(a, packed, 0, n, q, flat, end);
  }
}
