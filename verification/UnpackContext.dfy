/** `unpack_execute`: the machine as the C code runs it, on an array of frames updated in place. */
module UnpackContext {
  import opened ByteStrings
  import opened Values
  import opened Decoder
  import opened Machine

  const NO_FRAME := Frame(Nil, 0, 0, CT_ARRAY_ITEM, Nil)

  /** The `trail` of a header state is a leftover that no state reads. */
  function Saved(cs: int, trail: nat, stack: seq<Frame>): State {
    State(cs, if cs == CS_HEADER then 0 else trail, stack)
  }

  lemma SliceOfPrefix(s: Bytes, len: nat, n: nat, m: nat)
    requires n <= m <= len <= |s|
    ensures s[..len][n..m] == s[n..m]
  {
  }

  /**
   * The first half of one turn of the loop: the header byte and the trailing fields after it, up to an
   * action of the container stack. `p` ends on the last byte used, or where the missing bytes start.
   */
  method ReadAction(o: Options, construct: bool, data: array<Byte>, len: nat, p0: nat, cs0: int, trail0: nat,
                    ghost stack: seq<Frame>)
    returns (starved: bool, act: Action, p: nat, cs: int, trail: nat)
    requires Modelled(o) && p0 < len <= data.Length && Legal(construct, Saved(cs0, trail0, stack))
    ensures starved ==> p0 <= p <= len && Legal(construct, Saved(cs, trail, stack))
    ensures starved ==> Run(o, construct, Saved(cs0, trail0, stack), data[..len], p0) == Suspended(Saved(cs, trail, stack), p)
    ensures !starved ==> p0 <= p < len && LegalAction(act) && !act.Await?
    ensures !starved ==> Run(o, construct, Saved(cs0, trail0, stack), data[..len], p0) ==
                         Conclude(o, construct, Perform(o, construct, stack, act, p + 1), data[..len])
  {
    hide HeaderAction, TrailAction, Run, Perform, Conclude;
    ghost var s := data[..len];
    assert s == data[..][..len];
    p, cs, trail, starved := p0, cs0, trail0, false;
    act := Await(cs, trail);
    if cs == CS_HEADER {
      act := HeaderAction(o, construct, data[p]);
      RunFromHeader(o, construct, stack, s, p);
      if act.Await? {
        ConcludeAwait(o, construct, stack, act, s, p + 1);
        cs, trail, p := act.cs, act.trail, p + 1;
      }
    }
    while act.Await?
      invariant p0 <= p <= len && LegalAction(act)
      invariant act.Await? ==> act == Await(cs, trail)
      invariant act.Await? ==> Run(o, construct, Saved(cs0, trail0, stack), s, p0) ==
                               Run(o, construct, Saved(cs, trail, stack), s, p)
      invariant !act.Await? ==> p < len
      invariant !act.Await? ==> Run(o, construct, Saved(cs0, trail0, stack), s, p0) ==
                                Conclude(o, construct, Perform(o, construct, stack, act, p + 1), s)
      decreases act.Await?, len - p
    {
      RunFromTrail(o, construct, stack, cs, trail, s, p);
      if len - p < trail {
        starved := true;
        return;
      }
      var n := p;
      p := p + trail - 1;
      var bytes := data[n..p + 1];
      SliceOfPrefix(data[..], len, n, p + 1);
      assert bytes == s[n..n + trail];
      act := TrailAction(o, construct, cs, bytes);
      if act.Await? {
        ConcludeAwait(o, construct, stack, act, s, p + 1);
        cs, trail, p := act.cs, act.trail, p + 1;
      }
    }
  }

  class Context {
    const o: Options
    var cs: int
    var trail: nat
    var top: nat
    const stack: array<Frame>
    /** The exception a failed callback has left behind. */
    var exception: Error

    ghost predicate Valid(construct: bool)
      reads this, stack
    {
      && Modelled(o)
      && stack.Length == STACK_SIZE && top <= STACK_SIZE
      && Legal(construct, Saved(cs, trail, stack[..top]))
    }

    /** What the context remembers between two calls. */
    ghost function State(): State
      reads this, stack
      requires top <= stack.Length
    {
      Saved(cs, trail, stack[..top])
    }

    constructor (o: Options)
      requires Modelled(o)
      ensures Valid(true) && Valid(false) && State() == INITIAL && this.o == o && fresh(stack)
    {
      this.o := o;
      stack := new Frame[STACK_SIZE](_ => NO_FRAME);
      cs, trail, top, exception := CS_HEADER, 0, 0, ValueError;
    }

    /** `unpack_init` */
    method Init()
      requires stack.Length == STACK_SIZE && Modelled(o)
      modifies this, stack
      ensures Valid(true) && Valid(false) && State() == INITIAL
    {
      cs, trail, top := CS_HEADER, 0, 0;
      stack[0] := stack[0].(obj := Nil);
    }

    /** `unpack_data` */
    function Data(): Value
      reads this, stack
      requires stack.Length == STACK_SIZE
    {
      stack[0].obj
    }

    /**
     * The switch under `_push`: store `obj` in the frame at `c`. `ret` is 1 when that completes the
     * container, 0 for `_header_again` and -1 for `_failed`.
     */
    method StoreTop(construct: bool, c: nat, obj: Value) returns (ret: int)
      requires stack.Length == STACK_SIZE && c < STACK_SIZE && LegalFrame(construct, stack[c])
      modifies stack, this`exception
      ensures forall i :: 0 <= i < STACK_SIZE && i != c ==> stack[i] == old(stack[i])
      ensures match StoreInFrame(o, construct, old(stack[c]), obj)
              case Raise(e) => ret == -1 && exception == e
              case Ok(g) => if g.count == g.size then ret == 1 && stack[c].obj == g.obj else ret == 0 && stack[c] == g
    {
      hide DictSet;
      match stack[c].ct {
        case CT_ARRAY_ITEM =>
          if construct {
            stack[c] := stack[c].(obj := Arr(stack[c].obj.items[stack[c].count := obj]));
          }
          stack[c] := stack[c].(count := stack[c].count + 1);
          return if stack[c].count == stack[c].size then 1 else 0;
        case CT_MAP_KEY =>
          stack[c] := stack[c].(map_key := obj, ct := CT_MAP_VALUE);
          return 0;
        case CT_MAP_VALUE =>
          if construct {
            if !KeyAllowed(o, stack[c].map_key) {
              exception := ValueError;
              return -1;
            }
            if !Hashable(stack[c].map_key) {
              exception := TypeError;
              return -1;
            }
            stack[c] := stack[c].(obj := Map(DictSet(stack[c].obj.pairs, stack[c].map_key, obj)));
          }
          stack[c] := stack[c].(count := stack[c].count + 1);
          if stack[c].count == stack[c].size {
            return 1;
          }
          stack[c] := stack[c].(ct := CT_MAP_KEY);
          return 0;
      }
    }

    /**
     * The `_push` label: store `v0` into the innermost open container and close what it completes.
     * `ret` is 1 for `_finish`, 0 for `_header_again` and -1 for `_failed`.
     */
    method PushObject(construct: bool, top0: nat, v0: Value) returns (ret: int, top: nat, obj: Value)
      requires stack.Length == STACK_SIZE && top0 <= STACK_SIZE && LegalStack(construct, stack[..top0])
      modifies stack, this`exception
      ensures top <= top0
      ensures match PushValue(o, construct, old(stack[..top0]), v0)
              case Continue(k) => ret == 0 && stack[..top] == k
              case Finish(v) => ret == 1 && obj == v
              case Failed(e) => ret == -1 && exception == e
    {
      hide StoreInFrame;
      ghost var k := stack[..top0];
      top, obj := top0, v0;
      while top > 0
        invariant top <= top0 && stack[..top] == k[..top]
        invariant PushValue(o, construct, k, v0) == PushValue(o, construct, k[..top], obj)
      {
        var c := top - 1;
        assert stack[c] == stack[..top][c] == k[..top][c] && k[..top][..c] == k[..c] && LegalFrame(construct, k[c]);
        ret := StoreTop(construct, c, obj);
        assert stack[..c] == k[..c];
        if ret != 1 {
          assert stack[..top] == k[..c] + [stack[c]];
          return;
        }
        obj := stack[c].obj;
        top := top - 1;
      }
      if !construct {
        obj := Nil;
      }
      ret := 1;
    }

    /**
     * `start_container`, for an array or map of `n`: `ret` is 0 when a frame has been pushed, 1 when the
     * empty container is already complete, or an error code.
     */
    method StartContainer(construct: bool, top0: nat, ct: ContainerType, n: nat) returns (ret: int, top: nat, obj: Value)
      requires stack.Length == STACK_SIZE && top0 <= STACK_SIZE
      modifies stack, this`exception
      ensures top0 <= top <= STACK_SIZE && stack[..top0] == old(stack[..top0])
      ensures top0 == STACK_SIZE ==> ret == -3
      ensures top0 < STACK_SIZE ==>
                match NewContainer(o, construct, ct, n)
                case None => ret == -1 && exception == ValueError
                case Some(made) =>
                  if n == 0 then ret == 1 && top == top0 && obj == made
                  else ret == 0 && stack[..top] == old(stack[..top0]) + [Frame(made, n, 0, ct, Nil)]
    {
      top, obj := top0, Nil;
      if top >= STACK_SIZE {
        return -3, top, obj;
      }
      var made := NewContainer(o, construct, ct, n);
      if made.None? {
        exception := ValueError;
        return -1, top, obj;
      }
      stack[top] := stack[top].(obj := made.value);
      if n == 0 {
        return 1, top, stack[top].obj;
      }
      stack[top] := Frame(stack[top].obj, n, 0, ct, Nil);
      top := top + 1;
      return 0, top, obj;
    }

    /** The writes to the context at `_end`. */
    method SaveContext(cs: int, trail: nat, top: nat)
      modifies this`cs, this`trail, this`top
      ensures this.cs == cs && this.trail == trail && this.top == top
    {
      this.cs, this.trail, this.top := cs, trail, top;
    }

    /** The second half of one turn of the loop: `start_container` and `_push`. */
    method PerformAction(construct: bool, top0: nat, act: Action, ghost s: Bytes, ghost q: nat)
      returns (status: int, top: nat, obj: Value)
      requires stack.Length == STACK_SIZE && top0 <= STACK_SIZE && LegalStack(construct, stack[..top0])
      requires Modelled(o) && LegalAction(act) && !act.Await? && 0 < q <= |s|
      modifies stack, this`exception
      ensures var h := Conclude(o, construct, Perform(o, construct, old(stack[..top0]), act, q), s);
              && (status == 0 ==> top <= STACK_SIZE && LegalStack(construct, stack[..top]) &&
                                  h == Run(o, construct, Saved(CS_HEADER, 0, stack[..top]), s, q))
              && (status == 1 ==> h == Returned(obj, q))
              && (status < 0 ==> h.Broken? && h.p == q - 1 && status == ReturnCode(h.error))
              && (status == -1 ==> exception == h.error)
      ensures status <= 1
    {
      hide Run, PushValue, NewContainer;
      status, top, obj := 1, top0, Nil;
      match act {
        case Halt(e) =>
          exception := e;
          return ReturnCode(e), top, obj;
        case Open(ct, n) =>
          status, top, obj := StartContainer(construct, top, ct, n);
          if status != 1 {
            return status, top, obj;
          }
        case Push(v) =>
          obj := v;
      }
      status, top, obj := PushObject(construct, top, obj);
    }

    /**
     * `unpack_execute` on `data[off..len]`: the return code is 1 for an object, 0 when more bytes are
     * needed and negative for an error, and `end` is the new offset. With -1 a callback has set `exception`.
     */
    method Execute(construct: bool, data: array<Byte>, len: nat, off: nat) returns (ret: int, end: nat)
      requires Valid(construct) && off <= len <= data.Length
      modifies this, stack
      ensures data[..] == old(data[..])
      ensures match Run(o, construct, old(State()), old(data[..len]), off)
              case Suspended(st, p) => ret == 0 && end == p && Valid(construct) && State() == st
              case Returned(v, p) => ret == 1 && end == p && Data() == v
              case Broken(e, p) => ret == ReturnCode(e) && end == p && (ret == -1 ==> exception == e)
    {
      hide Run, Perform, Conclude;
      ghost var s := data[..len];
      ghost var st0 := State();
      var p: nat, cs: int, trail: nat, top: nat := off, this.cs, this.trail, this.top;
      while p != len
        invariant off <= p <= len && data[..len] == s && data[..] == old(data[..])
        invariant top <= STACK_SIZE && Legal(construct, Saved(cs, trail, stack[..top]))
        invariant Run(o, construct, st0, s, off) == Run(o, construct, Saved(cs, trail, stack[..top]), s, p)
        decreases len - p
      {
        var starved, act;
        ghost var k := stack[..top];
        starved, act, p, cs, trail := ReadAction(o, construct, data, len, p, cs, trail, k);
        if starved {
          SaveContext(cs, trail, top);
          return 0, p;
        }
        var status, obj;
        status, top, obj := PerformAction(construct, top, act, s, p + 1);
        if status == 1 {
          SaveContext(cs, trail, top);
          stack[0] := stack[0].(obj := obj);
          return 1, p + 1;
        } else if status < 0 {
          SaveContext(cs, trail, top);
          return status, p;
        }
        cs, p := CS_HEADER, p + 1;
      }
      SaveContext(cs, trail, top);
      StarvedAtEnd(o, construct, Saved(cs, trail, stack[..top]), s);
      return 0, p;
    }

    /** `unpack_container_header` on `data[off..len]`: the size is left where `Data` finds it. */
    method ReadContainerHeader(data: array<Byte>, len: nat, off: nat, fixedOffset: Byte, varOffset: Byte)
      returns (ret: int, end: nat)
      requires stack.Length == STACK_SIZE && off < len <= data.Length && varOffset < 0xff
      modifies stack
      ensures forall i :: 1 <= i < STACK_SIZE ==> stack[i] == old(stack[i])
      ensures match ContainerHeaderC(data[..len], off, fixedOffset, varOffset)
              case Size(n, q) => ret == 1 && end == q && Data() == Int(n)
              case NotYet => ret == 0 && end == off
              case Unexpected => ret == -1 && end == off
    {
      hide Load;
      end := off;
      var size: nat;
      var b := data[off];
      if b == varOffset {
        if len - end < 3 {
          return 0, end;
        }
        end := end + 3;
        size := Load(data[off + 1..off + 3]);
        assert data[off + 1..off + 3] == data[..len][off + 1..off + 3];
      } else if b == varOffset + 1 {
        if len - end < 5 {
          return 0, end;
        }
        end := end + 5;
        size := Load(data[off + 1..off + 5]);
        assert data[off + 1..off + 5] == data[..len][off + 1..off + 5];
      } else if fixedOffset <= b <= fixedOffset + 0xf {
        end := end + 1;
        size := b - fixedOffset;
      } else {
        return -1, end;
      }
      stack[0] := stack[0].(obj := Int(size));
      return 1, end;
    }
  }
}
