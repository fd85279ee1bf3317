/** The streaming `Unpacker` of `_unpacker.pyx`: a sliding window in front of the resumable machine. */
module CUnpacker {
  import opened ByteStrings
  import opened Floats
  import opened Values
  import opened Decoder
  import opened Machine
  import opened FallbackUnpacker
  import Limits
  import Refinement
  import Skipping
  import Streams
  import UnpackContext
  import opened WholeInputs

  /**
   * How far the window can have grown: every reallocation doubled it, except one that hit the maximum,
   * after which there is no other.
   */
  predicate Growth(reallocations: nat, size: nat, readSize: nat, max: nat) {
    if reallocations == 0 then size == readSize
    else
      && Pow2(reallocations - 1) * readSize <= max
      && (size == max || Pow2(reallocations) * readSize <= size)
  }

  /** One reallocation keeps the bound. */
  lemma GrowthStep(k: nat, size: nat, need: nat, readSize: nat, max: nat)
    requires Growth(k, size, readSize, max) && size < need <= max && 0 < readSize <= max
    ensures Growth(k + 1, if need * 2 <= max then need * 2 else max, readSize, max)
  {
    assert Pow2(k + 1) * readSize == 2 * (Pow2(k) * readSize);
  }

  class Unpacker {
    const o: Options
    const maxBufferSize: nat
    const readSize: nat
    const ctx: UnpackContext.Context
    var buf: array<Byte>
    var head: nat
    var tail: nat
    var file: InputFile?
    var streamOffset: nat
    /** All input, read or not; the start of the object being decoded; whether it is being built or skipped. */
    ghost var stream: Bytes
    ghost var start: nat
    ghost var building: bool
    ghost var base: nat
    ghost var delivered: seq<Value>
    ghost var reallocations: nat

    ghost function Rest(): Bytes
      reads this, file
    {
      if file == null then [] else file.rest
    }

    /** The unread bytes in the window. */
    ghost function Window(): Bytes
      reads this, buf
      requires head <= tail <= buf.Length
    {
      buf[head..tail]
    }

    /** `0 <= head <= tail <= buf_size <= max_buffer_size`, and the bound on reallocations. */
    ghost predicate ValidWindow()
      reads this, buf
    {
      && 0 < readSize <= maxBufferSize
      && head <= tail <= buf.Length <= maxBufferSize
      && Growth(reallocations, buf.Length, readSize, maxBufferSize)
    }

    /** The window is the stream from the offset on. */
    ghost predicate ValidStream()
      reads this, buf, file
    {
      && head <= tail <= buf.Length
      && streamOffset <= |stream|
      && stream[streamOffset..] == Window() + Rest()
    }

    /** The saved context continues the object that began at `start`. */
    ghost predicate ValidContext()
      reads this, ctx, ctx.stack
    {
      && ctx.o == o && ctx.Valid(building)
      && start <= streamOffset <= |stream|
      && Resumes(o, building, ctx.State(), stream[..streamOffset], start)
    }

    /** The objects returned since `base` are those that stand there, each once. */
    ghost predicate Delivered()
      reads this
    {
      && base <= start <= |stream|
      && Modelled(o) && !o.checkNanos && Streams.Chain(o, stream, base, delivered, start, STACK_SIZE)
    }

    ghost predicate Valid()
      reads this, buf, file, ctx, ctx.stack
    {
      ValidWindow() && ValidStream() && ValidContext() && Delivered()
    }

    /** The abstract state, once nothing has been passed over: a partly consumed object is still to come. */
    ghost function Session(): Streams.Session
      reads this
    {
      Streams.Session(stream, start, delivered)
    }

    /** No object is partly consumed. */
    ghost predicate AtBoundary()
      reads this, ctx, ctx.stack
    {
      start == streamOffset && ctx.top == 0 && ctx.cs == CS_HEADER
    }

    constructor (o: Options, file: InputFile?, readSize: nat, maxBufferSize: nat)
      requires Modelled(o) && 0 < readSize <= maxBufferSize
      ensures Valid() && AtBoundary() && fresh(buf) && fresh(ctx) && fresh(ctx.stack)
      ensures this.o == o.(checkNanos := false) && this.file == file
      ensures this.maxBufferSize == maxBufferSize && this.readSize == readSize
      ensures stream == Rest() && streamOffset == 0 && start == base == 0 && delivered == [] && Window() == []
      ensures building
    {
      this.o := o.(checkNanos := false);
      this.file, this.readSize, this.maxBufferSize := file, readSize, maxBufferSize;
      buf := new Byte[readSize](_ => 0);
      head, tail, streamOffset := 0, 0, 0;
      ctx := new UnpackContext.Context(o.(checkNanos := false));
      stream := if file == null then [] else file.rest;
      start, building, base, delivered, reallocations := 0, true, 0, [], 0;
    }

    /** memcpy of new bytes behind the window. */
    method CopyBehind(data: Bytes)
      requires head <= tail && tail + |data| <= buf.Length
      modifies this`tail, buf
      ensures tail == old(tail) + |data| && Window() == old(Window()) + data
    {
      ghost var w := Window();
      forall i | 0 <= i < |data| {
        buf[tail + i] := data[i];
      }
      tail := tail + |data|;
      assert buf[head..tail] == w + data;
    }

    /** memmove of the window to the start of the buffer. */
    method MoveToFront()
      requires head <= tail <= buf.Length
      modifies this`head, this`tail, buf
      ensures head == 0 && tail == old(tail - head) && Window() == old(Window())
    {
      var n := tail - head;
      var h := head;
      forall i | 0 <= i < n {
        buf[i] := buf[h + i];
      }
      head, tail := 0, n;
      assert buf[0..n] == old(buf[head..tail]);
    }

    /** malloc of a larger buffer and memcpy of the window. */
    method Expand(newSize: nat)
      requires head <= tail <= buf.Length && tail - head <= newSize
      modifies this`buf, this`head, this`tail, this`reallocations
      ensures head == 0 && tail == old(tail - head) && fresh(buf) && buf.Length == newSize
      ensures Window() == old(Window()) && reallocations == old(reallocations) + 1
    {
      var n := tail - head;
      var bigger := new Byte[newSize](_ => 0);
      forall i | 0 <= i < n {
        bigger[i] := buf[head + i];
      }
      assert forall i :: 0 <= i < n ==> bigger[i] == buf[head + i];
      assert bigger[0..n] == buf[head..tail];
      buf, head, tail := bigger, 0, n;
      reallocations := reallocations + 1;
    }

    /** `append_buffer`: the window is moved to the front, or to a larger buffer, when the tail has no room. */
    method AppendBuffer(data: Bytes) returns (r: Outcome<()>)
      requires ValidWindow()
      modifies this`buf, this`head, this`tail, this`reallocations, buf
      ensures ValidWindow() && (buf == old(buf) || fresh(buf))
      ensures r == if old(tail - head) + |data| > maxBufferSize then Raise(BufferFull) else Ok(())
      ensures Window() == if r.Ok? then old(Window()) + data else old(Window())
      ensures r.Raise? ==> tail - head == old(tail - head)
      ensures buf != old(buf) ==> old(tail - head) + |data| > old(buf.Length)
      ensures reallocations == old(reallocations) + if buf == old(buf) then 0 else 1
    {
      hide Growth;
      ghost var w := Window();
      if tail + |data| > buf.Length {
        if tail - head + |data| <= buf.Length {
          MoveToFront();
        } else {
          var newSize := tail - head + |data|;
          if newSize > maxBufferSize {
            return Raise(BufferFull);
          }
          GrowthStep(reallocations, buf.Length, newSize, readSize, maxBufferSize);
          Expand(if newSize * 2 <= maxBufferSize then newSize * 2 else maxBufferSize);
        }
      }
      CopyBehind(data);
      return Ok(());
    }

    /** What holds of the stream so far still holds when bytes are added to it. */
    lemma ExtendStream(data: Bytes)
      requires streamOffset <= |stream| && Delivered()
      ensures (stream + data)[streamOffset..] == stream[streamOffset..] + data
      ensures (stream + data)[..streamOffset] == stream[..streamOffset]
      ensures Streams.Chain(o, stream + data, base, delivered, start, STACK_SIZE)
    {
      hide Decode;
      Streams.ChainIsStable(o, stream, base, delivered, start, STACK_SIZE, data);
    }

    /** Note that `data` has been appended to the window. */
    ghost method Extend(data: Bytes)
      requires ValidWindow() && ValidContext() && Delivered() && stream[streamOffset..] + data == Window() + Rest()
      modifies this`stream
      ensures Valid() && stream == old(stream) + data
    {
      hide Run, Streams.Chain, Growth, Legal, Resumes;
      ExtendStream(data);
      stream := stream + data;
    }

    /** `feed` */
    method Feed(data: Bytes) returns (r: Outcome<()>)
      requires Valid() && file == null
      modifies this`buf, this`head, this`tail, this`reallocations, this`stream, buf
      ensures Valid() && (buf == old(buf) || fresh(buf)) && (old(AtBoundary()) ==> AtBoundary())
      ensures r == if old(tail - head) + |data| > maxBufferSize then Raise(BufferFull) else Ok(())
      ensures stream == if r.Ok? then old(stream) + data else old(stream)
      ensures r.Raise? ==> tail - head == old(tail - head)
    {
      hide Run, Streams.Chain, Growth, Legal, Resumes;
      ghost var w := Window();
      r := AppendBuffer(data);
      if r.Ok? {
        assert w + Rest() + data == w + data + Rest();
        Extend(data);
      }
    }

    lemma Regroup(a: Bytes, b: Bytes, c: Bytes)
      ensures a + (b + c) == a + b + c
    {
    }

    /** `read_from_file`: never overflows the window, and forgets the file at its end. */
    method ReadFromFile() returns (r: Outcome<()>)
      requires ValidWindow() && ValidStream() && file != null
      modifies this`buf, this`head, this`tail, this`reallocations, this`file, buf, file
      ensures ValidWindow() && ValidStream() && (buf == old(buf) || fresh(buf))
      ensures r == if old(tail - head) >= maxBufferSize then Raise(BufferFull) else Ok(())
      ensures r.Raise? ==> file == old(file) && tail - head == old(tail - head) && Window() == old(Window())
      ensures r.Ok? ==> (file == null && old(file.rest) == []) || (file == old(file) && |file.rest| < old(|file.rest|))
      ensures r.Raise? ==> unchanged(file)
      ensures r.Ok? ==> old(file).calls == old(file.calls) + 1 && old(file).left == old(|file.rest|) &&
                        old(file).asked == old(if readSize <= maxBufferSize - (tail - head) then readSize
                                               else maxBufferSize - (tail - head))
    {
      hide Growth;
      var remains: int := maxBufferSize - (tail - head);
      if remains <= 0 {
        return Raise(BufferFull);
      }
      var data := file.Read(if readSize <= remains then readSize else remains);
      if data != [] {
        Regroup(old(Window()), data, file.rest);
        r := AppendBuffer(data);
      } else {
        file := null;
        r := Ok(());
      }
    }

    // ---------- `_unpack` ----------

    /** The part of the stream that has arrived: consumed, or waiting in the window. */
    ghost function Arrived(): Bytes
      reads this, buf
      requires head <= tail <= buf.Length && streamOffset <= |stream|
    {
      stream[..streamOffset] + Window()
    }

    /** Moving the offset into the window leaves what has arrived. */
    lemma SplitArrived(from: nat, to: nat, w: Bytes, rest: Bytes)
      requires from <= to <= from + |w| && from <= |stream| && stream[from..] == w + rest
      ensures to <= |stream| && stream[..from] + w == stream[..to] + w[to - from..]
      ensures stream[to..] == w[to - from..] + rest
    {
      var n := to - from;
      assert stream[to..] == stream[from..][n..] == w[n..] + rest;
      assert w[..n] == stream[from..][..n] == stream[from..to];
      assert stream[..to] == stream[..from] + stream[from..to];
      assert w == w[..n] + w[n..];
    }

    lemma ArrivedPart()
      requires ValidStream()
      ensures stream == Arrived() + Rest()
      ensures |Arrived()| == streamOffset + (tail - head)
      ensures buf[..tail][head..] == Arrived()[streamOffset..]
    {
      assert stream == stream[..streamOffset] + stream[streamOffset..];
    }

    /** What running the machine over the window means for the object that began at `start`. */
    lemma RunOverWindow()
      requires Valid()
      ensures MovedRun(Run(o, building, ctx.State(), buf[..tail], head), Run(o, building, INITIAL, Arrived(), start),
                       streamOffset - head)
      ensures var r := Run(o, building, INITIAL, Arrived(), start);
              !r.Suspended? ==> Run(o, building, INITIAL, stream, start) == r
      ensures var r := Run(o, building, INITIAL, Arrived(), start);
              r.Suspended? ==> streamOffset <= r.p <= |Arrived()| && Resumes(o, building, r.st, Arrived()[..r.p], start)
    {
      hide Run, Legal, Growth, Streams.Chain;
      InitialIsLegal(building);
      ArrivedPart();
      var seen := stream[..streamOffset];
      assert Run(o, building, INITIAL, seen + Window(), start) == Run(o, building, ctx.State(), seen + Window(), |seen|);
      RunMoved(o, building, ctx.State(), buf[..tail], head, Arrived(), streamOffset);
      Resume(o, building, INITIAL, Arrived(), start, Rest());
      if Run(o, building, INITIAL, Arrived(), start).Suspended? {
        ResumesLater(o, building, ctx.State(), seen, start, Window());
      }
    }

    /** The call of `execute` on the window, which moves head and offset by the same amount. */
    method ExecuteOnWindow(construct: bool) returns (ret: int)
      requires head <= tail <= buf.Length && ctx.Valid(construct)
      modifies this`head, this`streamOffset, ctx, ctx.stack
      ensures buf[..] == old(buf[..]) && ctx.stack.Length == STACK_SIZE
      ensures old(head) <= head <= tail && streamOffset - old(streamOffset) == head - old(head)
      ensures match Run(ctx.o, construct, old(ctx.State()), old(buf[..tail]), old(head))
              case Suspended(st, q) => ret == 0 && head == q && ctx.Valid(construct) && ctx.State() == st
              case Returned(v, q) => ret == 1 && head == q && ctx.Data() == v
              case Broken(e, q) => ret == ReturnCode(e) && head == q && (ret == -1 ==> ctx.exception == e)
    {
      hide Run, Legal;
      StarvedAtEnd(ctx.o, construct, ctx.State(), buf[..tail]);
      var prevHead := head;
      if prevHead < tail {
        var end;
        ret, end := ctx.Execute(construct, buf, tail, head);
        head := end;
        streamOffset := streamOffset + (head - prevHead);
      } else {
        ret := 0;
      }
    }

    /** One turn of the `_unpack` loop, up to the return code of the machine. */
    method Turn(construct: bool) returns (ret: int)
      requires Valid() && construct == building
      modifies this`head, this`streamOffset, ctx, ctx.stack
      ensures ValidWindow() && ValidStream() && Delivered()
      ensures ctx.stack.Length == STACK_SIZE && Modelled(o) && ctx.o == o
      ensures head <= tail <= buf.Length && Arrived() == old(Arrived())
      ensures match Run(o, building, INITIAL, old(Arrived()), start)
              case Suspended(st, q) => ret == 0 && Valid() && streamOffset == q && ctx.State() == st
              case Returned(v, q) => ret == 1 && streamOffset == q && ctx.Data() == v
              case Broken(e, q) => ret == ReturnCode(e) && (ret == -1 ==> ctx.exception == e)
      ensures ret != 0 ==> Run(o, building, INITIAL, stream, start) == Run(o, building, INITIAL, old(Arrived()), start)
    {
      hide Run, Legal, Growth, Streams.Chain, Resumes;
      RunOverWindow();
      ArrivedPart();
      ghost var w, off, h, arrived := Window(), streamOffset, head, Arrived();
      ret := ExecuteOnWindow(construct);
      SplitArrived(off, streamOffset, w, Rest());
      assert buf[head..tail] == w[head - h..];
      assert Arrived() == arrived;
    }

    /** At a boundary the context continues the object that begins at the offset. */
    lemma Afresh()
      requires ctx.o == o && ctx.Valid(building) && AtBoundary() && streamOffset <= |stream|
      ensures ValidContext()
    {
      hide Run, Legal;
      assert ctx.State() == INITIAL;
    }

    /** Between two objects the next one may be built or skipped. */
    ghost method Switch(construct: bool)
      requires Valid() && AtBoundary()
      modifies this`building
      ensures Valid() && AtBoundary() && building == construct
    {
      hide Run, Growth, Streams.Chain, Resumes;
      building := construct;
      assert ctx.State() == INITIAL;
      Afresh();
    }

    /** Start a new chain of deliveries at the offset: bytes or an object have been passed over. */
    ghost method Rebase()
      requires streamOffset <= |stream| && Modelled(o) && !o.checkNanos
      modifies this`start, this`base, this`delivered
      ensures start == base == streamOffset && delivered == [] && Delivered()
    {
      start, base, delivered := streamOffset, streamOffset, [];
    }

    /** The end of an object: the context starts afresh, and a built object counts as delivered. */
    method Finish(construct: bool, ghost v: Value)
      requires ValidWindow() && ValidStream() && Delivered() && construct == building
      requires ctx.stack.Length == STACK_SIZE && Modelled(o) && ctx.o == o
      requires Run(o, construct, INITIAL, stream, start) == Returned(v, streamOffset)
      modifies this`start, this`base, this`delivered, ctx, ctx.stack
      ensures Valid() && AtBoundary()
      ensures if construct then base == old(base) && delivered == old(delivered) + [v]
              else base == streamOffset && delivered == []
    {
      hide Run, Growth, Streams.Chain, Decode, Resumes;
      ctx.Init();
      if construct {
        Refinement.MachineComputesDecode(o, stream, start, v, streamOffset);
        Streams.ChainGrows(o, stream, base, delivered, start, STACK_SIZE);
        delivered := delivered + [v];
        start := streamOffset;
      } else {
        Rebase();
      }
      Afresh();
    }

    /** The exception for a negative return code; -1 lets the exception of the callback through. */
    function ErrorOf(ret: int): Error
      reads ctx
    {
      if ret == -2 then FormatError else if ret == -3 then StackError else ctx.exception
    }

    lemma AllArrived()
      requires ValidStream() && file == null
      ensures head <= tail <= buf.Length && Arrived() == stream
    {
      ArrivedPart();
    }

    /** `read_from_file` leaves the context and the object being decoded alone. */
    method Refill() returns (r: Outcome<()>)
      requires Valid() && file != null
      modifies this`buf, this`head, this`tail, this`reallocations, this`file, buf, file
      ensures Valid() && (buf == old(buf) || fresh(buf)) && (file == old(file) || file == null)
      ensures r.Ok? ==> (if file == null then 0 else 1 + |file.rest|) < old(1 + |file.rest|)
      ensures r.Raise? ==> r.error == BufferFull && file == old(file) && tail - head >= maxBufferSize
      ensures r.Raise? ==> Window() == old(Window()) && unchanged(file)
      ensures r.Ok? ==> old(file).left == old(|file.rest|)
    {
      hide Run, Growth, Streams.Chain, Resumes, Legal;
      r := ReadFromFile();
    }

    /** What a return code of the machine that is not 0 comes back as: an object, or an exception. */
    method Settle(construct: bool, ret: int) returns (r: Outcome<Value>)
      requires ValidWindow() && ValidStream() && Delivered() && construct == building && ret != 0
      requires ctx.stack.Length == STACK_SIZE && Modelled(o) && ctx.o == o
      requires match Run(o, construct, INITIAL, stream, start)
               case Suspended(_, _) => false
               case Returned(v, q) => ret == 1 && streamOffset == q && ctx.Data() == v
               case Broken(e, _) => ret == ReturnCode(e) && (ret == -1 ==> ctx.exception == e)
      modifies this`start, this`base, this`delivered, ctx, ctx.stack
      ensures ValidWindow() && ValidStream()
      ensures match r
              case Ok(v) =>
                && Valid() && AtBoundary()
                && Run(o, construct, INITIAL, stream, old(start)) == Returned(v, streamOffset)
                && (if construct then base == old(base) && delivered == old(delivered) + [v]
                    else base == streamOffset && delivered == [])
              case Raise(e) =>
                && start == old(start) && base == old(base) && delivered == old(delivered)
                && Run(o, construct, INITIAL, stream, start) == Broken(e, Run(o, construct, INITIAL, stream, start).p)
    {
      hide Run, Legal, Growth, Streams.Chain, Resumes, ValidContext;
      if ret == 1 {
        var v := ctx.Data();
        Finish(construct, v);
        return Ok(v);
      }
      return Raise(ErrorOf(ret));
    }

    /**
     * The case for BufferFull: the machine has run over everything that has arrived and waits for more, there may be
     * more in the file, and the window has no room for it.
     */
    ghost predicate Starved()
      requires Modelled(o) && start <= streamOffset <= |stream| && head <= tail <= buf.Length
      reads this, buf
    {
      && file != null && tail - head >= maxBufferSize
      && var h := Run(o, building, INITIAL, Arrived(), start); h.Suspended? && h.p == streamOffset
    }

    /** The file `f` has last been read, if at all, when the machine had run over all bytes there were and waited. */
    twostate predicate Patient(f: InputFile?, from: nat)
      requires Modelled(o)
      reads this, f
    {
      f == null || unchanged(f) ||
      (from <= |stream| - f.left && Run(o, building, INITIAL, stream[..|stream| - f.left], from).Suspended?)
    }

    /** The machine has stopped for want of bytes: read some, or give up. */
    method More(iter: bool) returns (r: Outcome<()>)
      requires Valid()
      requires match Run(o, building, INITIAL, Arrived(), start)
               case Suspended(_, q) => streamOffset == q
               case _ => false
      modifies this`buf, this`head, this`tail, this`reallocations, this`file, buf, file
      ensures Valid() && (buf == old(buf) || fresh(buf)) && (file == old(file) || file == null)
      ensures match r
              case Ok(_) =>
                old(file) != null && (if file == null then 0 else 1 + |file.rest|) < old(1 + |file.rest|)
              case Raise(e) =>
                file == old(file) &&
                if e == BufferFull then Starved()
                else file == null && e == (if iter then StopIteration else OutOfData) &&
                     var h := Run(o, building, INITIAL, stream, start); h.Suspended? && h.p == streamOffset
      ensures Patient(old(file), start)
    {
      hide Run, Legal, Growth, Streams.Chain, Resumes;
      if file == null {
        AllArrived();
        return Raise(if iter then StopIteration else OutOfData);
      }
      ArrivedPart();
      assert stream[..|Arrived()|] == Arrived();
      r := Refill();
    }

    /** What `_unpack` comes back with, for the object that began at `from`, and how it leaves the unpacker. */
    ghost predicate ComesBack(construct: bool, iter: bool, from: nat, since: nat, before: seq<Value>, r: Outcome<Value>)
      requires Modelled(o) && from <= |stream| && head <= tail <= buf.Length
      reads this, buf, file, ctx, ctx.stack
    {
      match r
      case Ok(v) =>
        && Valid() && AtBoundary() && building == construct
        && Run(o, construct, INITIAL, stream, from) == Returned(v, streamOffset)
        && (if construct then base == since && delivered == before + [v] else base == streamOffset && delivered == [])
      case Raise(e) =>
        && start == from && base == since && delivered == before
        && if e == BufferFull then Valid() && building == construct && Starved()
           else
             match Run(o, construct, INITIAL, stream, from)
             case Suspended(_, q) => e == (if iter then StopIteration else OutOfData) &&
                                     Valid() && building == construct && streamOffset == q && file == null
             case Broken(error, _) => e == error
             case Returned(_, _) => false
    }

    lemma StartsInside()
      requires Valid()
      ensures start <= |stream| && Modelled(o)
    {
      hide Growth, Streams.Chain, Resumes, Legal;
    }

    /** One turn of the `_unpack` loop: it comes back, or has read more bytes. */
    method Round(construct: bool, iter: bool) returns (done: bool, r: Outcome<Value>)
      requires Valid() && construct == building
      modifies this, buf, file, ctx, ctx.stack
      ensures stream == old(stream) && building == construct && ValidWindow() && ValidStream() && Modelled(o)
      ensures (buf == old(buf) || fresh(buf)) && (file == old(file) || file == null)
      ensures done ==> old(start) <= |stream| && ComesBack(construct, iter, old(start), old(base), old(delivered), r)
      ensures !done ==>
                && Valid() && building == construct
                && start == old(start) && base == old(base) && delivered == old(delivered)
                && old(file) != null && (if file == null then 0 else 1 + |file.rest|) < old(1 + |file.rest|)
      ensures Patient(old(file), old(start))
    {
      hide Run, Growth, Streams.Chain, Resumes, Legal, ValidWindow, ValidStream, ValidContext, Delivered, ReturnCode;
      StartsInside();
      var ret := Turn(construct);
      r := Raise(OutOfData);
      if ret != 0 {
        r := Settle(construct, ret);
        return true, r;
      }
      var more := More(iter);
      if more.Raise? {
        return true, Raise(more.error);
      }
      return false, r;
    }

    /**
     * `_unpack`: run the machine, refill the window from the file, and run it again, until it returns an
     * object or an error or the input ends.
     */
    method UnpackWith(construct: bool, iter: bool) returns (r: Outcome<Value>)
      requires Valid() && (construct == building || AtBoundary())
      modifies this, buf, file, ctx, ctx.stack
      ensures stream == old(stream) && ValidWindow() && ValidStream() && Modelled(o)
      ensures (buf == old(buf) || fresh(buf)) && (file == old(file) || file == null)
      ensures old(start) <= |stream| && ComesBack(construct, iter, old(start), old(base), old(delivered), r)
      ensures Patient(old(file), old(start))
    {
      hide Run, Growth, Streams.Chain, Resumes, Legal, ValidWindow, ValidStream, ValidContext, ComesBack;
      if construct != building {
        Switch(construct);
      }
      while true
        invariant Valid() && building == construct && stream == old(stream)
        invariant start == old(start) && base == old(base) && delivered == old(delivered)
        invariant Patient(old(file), start)
        invariant (buf == old(buf) || fresh(buf)) && (file == old(file) || file == null)
        decreases if file == null then 0 else 1 + |file.rest|
      {
        var done;
        done, r := Round(construct, iter);
        if done {
          return;
        }
      }
    }

    // ---------- the public calls ----------

    /** What has been delivered followed by what is to come is all there is. */
    lemma DeliveredSoFar()
      requires Delivered()
      ensures Streams.DecodeAll(o, stream, base, STACK_SIZE) == delivered + Streams.DecodeAll(o, stream, start, STACK_SIZE)
    {
      hide Decode, Streams.Chain;
      Streams.NothingLostOrRepeated(o, stream, base, delivered, start, STACK_SIZE);
    }

    /**
     * `unpack` and `__next__` (`iter`): an object comes back exactly when the recursive decoder finds one where
     * the last object ended, unless the window is full; a call that runs out of input loses nothing, and then
     * every object of the stream has been delivered.
     */
    method Unpack(iter: bool) returns (r: Outcome<Value>)
      requires Valid() && (building || AtBoundary())
      modifies this, buf, file, ctx, ctx.stack
      ensures stream == old(stream) && base == old(base) <= start <= |stream|
      ensures (buf == old(buf) || fresh(buf)) && (file == old(file) || file == null)
      ensures r.Ok? ==> Valid() && building && AtBoundary() && delivered == old(delivered) + [r.value]
      ensures r.Raise? ==> start == old(start)
      ensures r == Raise(if iter then StopIteration else OutOfData) ==>
                && Valid() && building && file == null && start == old(start) && delivered == old(delivered)
                && delivered == Streams.DecodeAll(o, stream, base, STACK_SIZE)
      ensures r == Raise(BufferFull) ==> Valid() && building && start == old(start) && file != null && Starved()
      ensures r != Raise(BufferFull) ==>
                match Decode(o, true, stream, old(start), STACK_SIZE)
                case Done(v, q) => r == Ok(v) && streamOffset == q
                case _ => r.Raise?
      ensures r.Raise? && r.error != BufferFull ==>
                match Run(o, true, INITIAL, stream, start)
                case Suspended(_, _) => r.error == if iter then StopIteration else OutOfData
                case Broken(e, _) => r.error == e
                case Returned(_, _) => false
      ensures Modelled(o) && Patient(old(file), old(start))
    {
      hide Run, Growth, Streams.Chain, Resumes, Legal, ValidWindow, ValidStream, Decode;
      ghost var from := start;
      r := UnpackWith(true, iter);
      Refinement.ObjectSimulates(o, true, [], stream, from);
      if r == Raise(if iter then StopIteration else OutOfData) {
        DeliveredSoFar();
      }
    }

    /**
     * `skip`: the position moves to the end of the object, wherever the recursive `skip` finds one that knows no
     * limit but that of the longest ext, and so wherever `unpack` accepts one.
     */
    method Skip() returns (r: Outcome<Value>)
      requires Valid() && (!building || AtBoundary())
      modifies this, buf, file, ctx, ctx.stack
      ensures stream == old(stream)
      ensures r.Ok? ==> Valid() && AtBoundary()
      ensures r == Raise(OutOfData) ==> Valid() && !building && file == null && start == old(start)
      ensures r == Raise(BufferFull) ==> Valid() && !building && start == old(start) && file != null && Starved()
      ensures r.Raise? && r.error != BufferFull ==>
                match Run(o, false, INITIAL, stream, old(start))
                case Suspended(_, _) => r.error == OutOfData
                case Broken(e, _) => r.error == e
                case Returned(_, _) => false
      ensures r != Raise(BufferFull) &&
              Decode(Refinement.ReadUnder(o, false), false, stream, old(start), STACK_SIZE).Done? ==>
                r.Ok? &&
                streamOffset == Decode(Refinement.ReadUnder(o, false), false, stream, old(start), STACK_SIZE).end
      ensures r != Raise(BufferFull) && Decode(o, true, stream, old(start), STACK_SIZE).Done? ==>
                r.Ok? && streamOffset == Decode(o, true, stream, old(start), STACK_SIZE).end
      ensures Modelled(o) && Patient(old(file), old(start))
    {
      hide Run, Growth, Streams.Chain, Resumes, Legal, ValidWindow, ValidStream, Decode;
      ghost var from := start;
      r := UnpackWith(false, false);
      Refinement.MachineSkipsAsDecode(o, stream, from);
      if Decode(o, true, stream, from, STACK_SIZE).Done? {
        Skipping.SkipEndsWhereUnpackDoes(o, stream, from);
      }
    }

    lemma ContainerHeaderEnds(s: Bytes, p: nat, fixedOffset: Byte, varOffset: Byte)
      requires p < |s| && varOffset < 0xff
      ensures match ContainerHeaderC(s, p, fixedOffset, varOffset)
              case Size(_, q) => p < q <= |s|
              case _ => true
    {
    }

    /** The call of the header reader on the window, which moves head and offset by the same amount. */
    method HeaderOnWindow(fixedOffset: Byte, varOffset: Byte) returns (ret: int, n: nat)
      requires head < tail <= buf.Length && ctx.stack.Length == STACK_SIZE && varOffset < 0xff
      modifies this`head, this`streamOffset, ctx.stack
      ensures old(head) <= head <= tail && streamOffset - old(streamOffset) == head - old(head)
      ensures match ContainerHeaderC(buf[..tail], old(head), fixedOffset, varOffset)
              case Size(k, q) => ret == 1 && n == k && head == q
              case NotYet => ret == 0 && head == old(head)
              case Unexpected => ret == -1 && head == old(head)
    {
      hide ContainerHeaderC;
      var prevHead := head;
      var end;
      ContainerHeaderEnds(buf[..tail], prevHead, fixedOffset, varOffset);
      ret, end := ctx.ReadContainerHeader(buf, tail, head, fixedOffset, varOffset);
      head := end;
      streamOffset := streamOffset + (head - prevHead);
      n := 0;
      if ret == 1 {
        var size := ctx.Data();
        n := size.i;
      }
    }

    /** What the window shows of a header is what the stream holds. */
    lemma HeaderOfWindow(fixedOffset: Byte, varOffset: Byte)
      requires ValidStream() && head < tail && varOffset < 0xff
      ensures streamOffset < |stream|
      ensures match ContainerHeaderC(buf[..tail], head, fixedOffset, varOffset)
              case Size(k, q) =>
                ContainerHeaderC(stream, streamOffset, fixedOffset, varOffset) == Size(k, streamOffset + (q - head))
              case Unexpected => ContainerHeaderC(stream, streamOffset, fixedOffset, varOffset) == Unexpected
              case NotYet => file == null ==> ContainerHeaderC(stream, streamOffset, fixedOffset, varOffset) == NotYet
    {
      hide ContainerHeaderC;
      assert buf[..tail][head..] == Window() && Window() <= stream[streamOffset..];
      ContainerHeaderInWindow(buf[..tail], head, stream, streamOffset, fixedOffset, varOffset);
    }

    /** One turn of the `_unpack` loop for a container header. */
    method HeaderTurn(fixedOffset: Byte, varOffset: Byte) returns (ret: int, n: nat)
      requires Valid() && AtBoundary() && varOffset < 0xff
      modifies this`head, this`streamOffset, ctx.stack
      ensures ValidWindow() && ValidStream() && ctx.stack.Length == STACK_SIZE && Modelled(o) && ctx.o == o
      ensures ret == 1 ==> old(streamOffset) < |stream| &&
                           ContainerHeaderC(stream, old(streamOffset), fixedOffset, varOffset) == Size(n, streamOffset)
      ensures ret != 1 ==> Valid() && AtBoundary() && head == old(head) && streamOffset == old(streamOffset)
      ensures ret == 0 ==> Window() == [] || ContainerHeaderC(Window(), 0, fixedOffset, varOffset) == NotYet
      ensures ret == 0 && file == null ==>
                streamOffset == |stream| || ContainerHeaderC(stream, streamOffset, fixedOffset, varOffset) == NotYet
      ensures ret == -1 ==> streamOffset < |stream| &&
                            ContainerHeaderC(stream, streamOffset, fixedOffset, varOffset) == Unexpected
      ensures ret == 1 || ret == 0 || ret == -1
    {
      hide ContainerHeaderC, Run, Growth, Legal, Streams.Chain, Resumes;
      ghost var h, off, w := head, streamOffset, Window();
      if head == tail {
        return 0, 0;
      }
      HeaderOfWindow(fixedOffset, varOffset);
      assert buf[..tail][head..] == w[0..];
      ContainerHeaderInWindow(buf[..tail], head, w, 0, fixedOffset, varOffset);
      ret, n := HeaderOnWindow(fixedOffset, varOffset);
      SplitArrived(off, streamOffset, w, Rest());
      assert buf[head..tail] == w[head - h..];
      if ret != 1 {
        Afresh();
      }
    }

    /** The context starts afresh at the offset, and so does the chain of deliveries. */
    method Restart()
      requires ValidWindow() && ValidStream() && ctx.stack.Length == STACK_SIZE && Modelled(o) && ctx.o == o
      requires !o.checkNanos
      modifies this`start, this`base, this`delivered, ctx, ctx.stack
      ensures Valid() && AtBoundary()
    {
      hide Run, Growth, Streams.Chain, Resumes;
      ctx.Init();
      Rebase();
      Afresh();
    }

    /** The file `f` has last been read, if at all, when the bytes there were did not hold the whole header at `from`. */
    twostate predicate PatientHeader(f: InputFile?, from: nat, fixedOffset: Byte, varOffset: Byte)
      requires varOffset < 0xff
      reads this, f
    {
      f == null || unchanged(f) ||
      (from <= |stream| - f.left <= |stream| &&
       var arrived := stream[from..|stream| - f.left];
       arrived == [] || ContainerHeaderC(arrived, 0, fixedOffset, varOffset) == NotYet)
    }

    lemma WindowIsNext()
      requires ValidStream()
      ensures streamOffset <= |stream| - |Rest()| && stream[streamOffset..|stream| - |Rest()|] == Window()
    {
      assert stream[streamOffset..|stream| - |Rest()|] == stream[streamOffset..][..|Window()|];
    }

    lemma FullIsNotEmpty()
      requires ValidWindow() && tail - head >= maxBufferSize
      ensures Window() != []
    {
      hide Growth;
    }

    /** `read_array_header` (0x90, 0xdc) and `read_map_header` (0x80, 0xde), between two objects. */
    method ReadContainerHeader(fixedOffset: Byte, varOffset: Byte) returns (r: Outcome<nat>)
      requires Valid() && AtBoundary() && varOffset < 0xff
      modifies this, buf, file, ctx, ctx.stack
      ensures Valid() && AtBoundary() && stream == old(stream)
      ensures match r
              case Ok(n) => old(streamOffset) < |stream| &&
                            ContainerHeaderC(stream, old(streamOffset), fixedOffset, varOffset) == Size(n, streamOffset)
              case Raise(e) =>
                && streamOffset == old(streamOffset)
                && if e == BufferFull then
                     file != null && tail - head >= maxBufferSize &&
                     ContainerHeaderC(Window(), 0, fixedOffset, varOffset) == NotYet
                   else if streamOffset == |stream| then e == OutOfData && file == null
                   else match ContainerHeaderC(stream, streamOffset, fixedOffset, varOffset)
                     case NotYet => e == OutOfData && file == null
                     case Unexpected => e == ValueError
                     case Size(_, _) => false
      ensures PatientHeader(old(file), old(streamOffset), fixedOffset, varOffset)
    {
      hide ContainerHeaderC, Run, Growth, Streams.Chain, Resumes, ValidWindow, ValidStream, ValidContext;
      while true
        invariant Valid() && AtBoundary() && stream == old(stream) && streamOffset == old(streamOffset)
        invariant PatientHeader(old(file), streamOffset, fixedOffset, varOffset)
        invariant (buf == old(buf) || fresh(buf)) && (file == old(file) || file == null)
        decreases if file == null then 0 else 1 + |file.rest|
      {
        var ret, n := HeaderTurn(fixedOffset, varOffset);
        if ret == 1 {
          Restart();
          return Ok(n);
        } else if ret != 0 {
          return Raise(ValueError);
        }
        if file == null {
          return Raise(OutOfData);
        }
        WindowIsNext();
        var filled := Refill();
        if filled.Raise? {
          FullIsNotEmpty();
          return Raise(BufferFull);
        }
      }
    }

    /** Up to `n` bytes from the front of the window. */
    method TakeWindow(n: nat) returns (data: Bytes)
      requires head <= tail <= buf.Length
      modifies this`head
      ensures head <= tail && |data| <= n && data + Window() == old(Window())
      ensures if |old(Window())| >= n then data == old(Window())[..n] else data == old(Window()) && Window() == []
    {
      var nread := if tail - head < n then tail - head else n;
      data := buf[head..head + nread];
      head := head + nread;
    }

    /**
     * What `read_bytes` takes: from the window alone if that has enough; else all of it, and behind it what one read
     * of the file for the missing bytes gives, which is nothing only if the file has nothing left.
     */
    ghost predicate TookBytes(n: nat, window: Bytes, rest: Bytes, data: Bytes)
      reads this, buf, file
      requires head <= tail <= buf.Length
    {
      if |window| >= n then data == window[..n] && Rest() == rest
      else
        && Window() == [] && window <= data && rest == data[|window|..] + Rest()
        && |data| <= n && (rest != [] ==> |data| > |window|)
    }

    /** The file `f` has been read once for exactly the bytes the window did not have, or not at all if it had all. */
    twostate predicate AskedForRest(f: InputFile?, n: nat)
      requires old(head <= tail)
      reads this, f
    {
      f == null ||
      if old(tail - head) >= n then unchanged(f)
      else f.calls == old(f.calls) + 1 && f.asked == n - old(tail - head)
    }

    lemma BehindWindow(w: Bytes, more: Bytes, rest: Bytes, data: Bytes)
      requires data == w + more
      ensures w <= data && data[|w|..] == more && w + (more + rest) == data + ([] + rest)
    {
    }

    /** The bytes of `read_bytes`: what the window holds, and then one read from the file. */
    method TakeBytes(n: nat) returns (data: Bytes)
      requires ValidWindow() && ValidStream()
      modifies this`head, file
      ensures ValidWindow() && |data| <= n && stream[streamOffset..] == data + (Window() + Rest())
      ensures TookBytes(n, old(Window()), old(Rest()), data)
      ensures AskedForRest(old(file), n)
    {
      hide Growth;
      ghost var w, rest := Window(), Rest();
      data := TakeWindow(n);
      Regroup(data, Window(), rest);
      if |data| < n && file != null {
        var more := file.Read(n - |data|);
        data := data + more;
        BehindWindow(w, more, Rest(), data);
      }
    }

    lemma AfterBytes(off: nat, data: Bytes, rest: Bytes)
      requires off <= |stream| && stream[off..] == data + rest
      ensures off + |data| <= |stream|
      ensures stream[off + |data|..] == rest && stream[off..off + |data|] == data
    {
      assert stream[off + |data|..] == stream[off..][|data|..];
      assert stream[off..off + |data|] == stream[off..][..|data|];
    }

    /** `read_bytes`, between two objects. */
    method ReadBytes(n: nat) returns (data: Bytes)
      requires Valid() && AtBoundary()
      modifies this`head, this`streamOffset, this`start, this`base, this`delivered, file
      ensures Valid() && AtBoundary() && stream == old(stream)
      ensures |data| <= n && streamOffset == old(streamOffset) + |data|
      ensures data == stream[old(streamOffset)..streamOffset]
      ensures TookBytes(n, old(Window()), old(Rest()), data)
      ensures AskedForRest(old(file), n)
    {
      hide Run, Growth, Streams.Chain, Legal, Resumes;
      data := TakeBytes(n);
      AfterBytes(streamOffset, data, Window() + Rest());
      streamOffset := streamOffset + |data|;
      Rebase();
      Afresh();
    }
  }

  /** Where complete objects are to come, the machine never breaks off. */
  lemma CompleteNeverBreaks(o: Options, s: Bytes, p: nat, more: Bytes)
    requires Modelled(o) && p <= |s| && Streams.Complete(o, s + more, p, STACK_SIZE)
    ensures !Run(o, true, INITIAL, s, p).Broken?
  {
    hide Run, Decode;
    InitialIsLegal(true);
    Resume(o, true, INITIAL, s, p, more);
    Refinement.ObjectSimulates(o, true, [], s + more, p);
    if Decode(o, true, s + more, p, STACK_SIZE).Done? {
      var r := Decode(o, true, s + more, p, STACK_SIZE);
      Refinement.MachineComputesDecode(o, s + more, p, r.value, r.end);
    } else {
      StarvedAtEnd(o, true, INITIAL, s);
    }
  }

  /** Where the abstract session goes on, so does `next`, but for the longest ext at the end of the stream. */
  lemma NextFollows(u: Unpacker, x: Streams.Session)
    requires Modelled(u.o) && x.offset <= |x.input| && Streams.After(u.o, STACK_SIZE, x, Streams.Next).Ok?
    requires !Decode(u.o, true, x.input, x.offset, STACK_SIZE).Done?
    ensures Streams.After(u.o, STACK_SIZE, x, Streams.Next) == Ok(x)
    ensures var h := Run(u.o, true, INITIAL, x.input, x.offset);
            h.Suspended? || (Refinement.EndsInLongestExt(x.input) && h.Broken? && h.error == ValueError)
  {
    hide Run, Decode;
    Refinement.MachineWaits(u.o, x.input, x.offset);
  }

  /** One `feed` of a client, with `rest` still to be fed. */
  method FeedStep(u: Unpacker, data: Bytes, ghost rest: Bytes) returns (r: Outcome<()>)
    requires u.Valid() && u.building && u.file == null
    modifies u`buf, u`head, u`tail, u`reallocations, u`stream, u.buf
    ensures u.Valid() && (u.buf == old(u.buf) || fresh(u.buf)) && r in {Ok(()), Raise(BufferFull)}
    ensures r.Raise? ==> u.Session() == old(u.Session()) && u.tail - u.head + |data| > u.maxBufferSize
    ensures r.Ok? ==> u.stream == old(u.stream) + data && u.stream + rest == old(u.stream) + (data + rest)
    ensures r.Ok? ==> Streams.After(u.o, STACK_SIZE, old(u.Session()), Streams.Feed(data)) == Ok(u.Session())
  {
    hide Run, Decode, Growth, Streams.Chain, Resumes, Legal;
    hide Unpacker.ValidWindow, Unpacker.ValidStream, Unpacker.ValidContext;
    r := u.Feed(data);
    assert old(u.stream) + data + rest == old(u.stream) + (data + rest);
  }

  /** One `next` of a client that carries on after StopIteration, with `rest` still to be fed. */
  method NextStep(u: Unpacker, ghost rest: Bytes) returns (r: Outcome<()>)
    requires u.Valid() && u.building && u.file == null
    modifies u, u.buf, u.ctx, u.ctx.stack
    ensures u.stream == old(u.stream) && u.base == old(u.base) <= u.start <= |u.stream| && u.file == null
    ensures u.buf == old(u.buf) || fresh(u.buf)
    ensures r.Ok? ==> u.Valid() && u.building
    ensures r.Raise? ==> u.start == old(u.start) && r.error != BufferFull && r.error != StopIteration
    ensures r.Raise? ==> Run(u.o, true, INITIAL, u.stream, u.start) ==
                         Broken(r.error, Run(u.o, true, INITIAL, u.stream, u.start).p)
    ensures var x := Streams.After(u.o, STACK_SIZE, old(u.Session()), Streams.Next);
            x.Ok? ==> if r.Ok? then x == Ok(u.Session()) else r.error == ValueError && Refinement.EndsInLongestExt(u.stream)
    ensures forall more | Streams.Complete(u.o, u.stream + rest + more, old(u.start), STACK_SIZE) ::
              r.Ok? && Streams.Complete(u.o, u.stream + rest + more, u.start, STACK_SIZE)
  {
    hide Run, Decode, Growth, Streams.Chain, Streams.DecodeAll, Streams.Complete, Resumes, Legal;
    hide Unpacker.ValidWindow, Unpacker.ValidStream, Unpacker.ValidContext;
    ghost var x := u.Session();
    var v := u.Unpack(true);
    r := if v.Raise? && v.error != StopIteration then Raise(v.error) else Ok(());
    if Streams.After(u.o, STACK_SIZE, x, Streams.Next).Ok? && v.Raise? {
      NextFollows(u, x);
    }
    forall more | Streams.Complete(u.o, u.stream + rest + more, x.offset, STACK_SIZE)
      ensures r.Ok? && Streams.Complete(u.o, u.stream + rest + more, u.start, STACK_SIZE)
    {
      assert u.stream + (rest + more) == u.stream + rest + more;
      CompleteNeverBreaks(u.o, u.stream, x.offset, rest + more);
      if v.Ok? {
        Streams.CompleteGoesOn(u.o, u.stream, x.offset, STACK_SIZE, rest + more);
      }
    }
  }

  /**
   * The unpacker is where the events before `k` have taken it, and event `k` is a `feed` of more than its window can
   * take.
   */
  ghost predicate Rejected(u: Unpacker, before: Streams.Session, events: seq<Streams.Event>, k: nat)
    requires before.offset <= |before.input|
    reads u
  {
    && k < |events| && events[k].Feed? && u.tail - u.head + |events[k].data| > u.maxBufferSize
    && u.stream == before.input + Streams.Fed(events[..k])
    && var x := Streams.Play(u.o, STACK_SIZE, before, events[..k]); x.Ok? ==> x == Ok(u.Session())
  }

  /**
   * A whole run of a feeding unpacker, as for the fallback: a client calls `feed` and `next` in any order and
   * carries on after StopIteration. Wherever the abstract session goes through, the unpacker ends where it does,
   * or raises ValueError for the longest ext at the end of the stream; and if complete objects are to come, it
   * raises nothing but BufferFull. Whatever is raised, the machine has raised it on the stream.
   */
  method Drive(u: Unpacker, events: seq<Streams.Event>) returns (r: Outcome<()>)
    requires u.Valid() && u.building && u.file == null
    modifies u, u.buf, u.ctx, u.ctx.stack
    ensures u.start <= |u.stream| && u.base == old(u.base) <= |u.stream|
    ensures r.Ok? ==> u.Valid() && u.stream == old(u.stream) + Streams.Fed(events)
    ensures r.Ok? ==> Streams.DecodeAll(u.o, u.stream, u.base, STACK_SIZE) ==
                      u.delivered + Streams.DecodeAll(u.o, u.stream, u.start, STACK_SIZE)
    ensures Streams.Play(u.o, STACK_SIZE, old(u.Session()), events).Ok? ==>
              && (r.Ok? ==> Streams.Play(u.o, STACK_SIZE, old(u.Session()), events) == Ok(u.Session()))
              && (r.Raise? && r.error != BufferFull ==> r.error == ValueError && Refinement.EndsInLongestExt(u.stream))
    ensures (exists more :: Streams.Complete(u.o, old(u.stream) + Streams.Fed(events) + more, old(u.start), STACK_SIZE)) ==>
              r.Ok? || r.error == BufferFull
    ensures r == Raise(BufferFull) ==>
              u.Valid() && exists k: nat :: Rejected(u, old(u.Session()), events, k)
    ensures r.Raise? && r.error != BufferFull ==>
              Run(u.o, true, INITIAL, u.stream, u.start) ==
              Broken(r.error, Run(u.o, true, INITIAL, u.stream, u.start).p)
  {
    hide Run, Decode, Growth, Streams.Chain, Streams.DecodeAll, Streams.After, Resumes, Legal;
    hide Unpacker.ValidWindow, Unpacker.ValidStream, Unpacker.ValidContext;
    ghost var before := u.Session();
    ghost var whole := u.stream + Streams.Fed(events);
    var i: nat := 0;
    assert events[0..] == events;
    while i < |events|
      invariant i <= |events| && u.Valid() && u.building && u.file == null && u.base == old(u.base)
      invariant u.buf == old(u.buf) || fresh(u.buf)
      invariant u.stream + Streams.Fed(events[i..]) == whole && u.stream == before.input + Streams.Fed(events[..i])
      invariant var x := Streams.Play(u.o, STACK_SIZE, before, events[..i]); x.Ok? ==> x == Ok(u.Session())
      invariant forall more :: Streams.Complete(u.o, whole + more, old(u.start), STACK_SIZE) ==>
                               Streams.Complete(u.o, whole + more, u.start, STACK_SIZE)
    {
      Streams.PlayStep(u.o, STACK_SIZE, before, events, i);
      Streams.FedStep(events, i);
      Streams.FedSoFar(before.input, events, i);
      match events[i] {
        case Feed(data) =>
          r := FeedStep(u, data, Streams.Fed(events[i + 1..]));
          if r.Raise? {
            assert Rejected(u, before, events, i);
            return;
          }
        case Next =>
          r := NextStep(u, Streams.Fed(events[i + 1..]));
          if r.Raise? {
            return;
          }
      }
      i := i + 1;
    }
    assert events[..i] == events && whole == u.stream + [];
    u.DeliveredSoFar();
    return Ok(());
  }

  /** `unpackb`: one run over the whole input, with the limits left open taken from its length. */
  method Unpackb(o: Options, l: Limits.Derived, packed: array<Byte>) returns (r: Unpacked)
    requires Modelled(Limits.Automatic(o, l, packed.Length))
    ensures r == UnpackbC(o, l, packed[..])
  {
    hide Run, Legal;
    var ctx := new UnpackContext.Context(Limits.Automatic(o, l, packed.Length));
    assert packed[..packed.Length] == packed[..];
    var ret, off := ctx.Execute(true, packed, packed.Length, 0);
    if ret == 1 {
      var v := ctx.Data();
      return if off < packed.Length then ExtraData(v, packed[off..]) else Object(v);
    }
    return Refused(if ret == 0 then ValueError else if ret == -2 then FormatError else if ret == -3 then StackError
                   else ctx.exception);
  }
}
