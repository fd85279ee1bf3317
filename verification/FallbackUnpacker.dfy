/** The streaming `Unpacker` of `fallback.py`: a buffer with a read position that is rolled back when data runs short. */
module FallbackUnpacker {
  import opened ByteStrings
  import opened Values
  import opened Decoder
  import opened Attempts
  import Limits
  import Streams
  import opened WholeInputs

  /** A file-like object: `rest` is what has not been read yet. */
  class InputFile {
    var rest: Bytes
    /** How often it has been read; how many bytes were asked for last, and how many were left before that. */
    ghost var calls: nat
    ghost var asked: nat
    ghost var left: nat

    constructor (content: Bytes)
      ensures rest == content && calls == 0
    {
      rest := content;
      calls := 0;
    }

    /** `read(n)`: at most `n` bytes, and none only at the end of the file. */
    method Read(n: nat) returns (data: Bytes)
      requires n > 0
      modifies this
      ensures |data| <= n && old(rest) == data + rest && (data == [] ==> old(rest) == [])
      ensures calls == old(calls) + 1 && asked == n && left == old(|rest|)
    {
      calls, asked, left := calls + 1, n, |rest|;
      var k: nat;
      if rest == [] {
        k := 0;
      } else {
        k :| 0 < k <= n && k <= |rest|;
      }
      data, rest := rest[..k], rest[k..];
    }
  }

  lemma LengthAndType(s: Bytes, p: nat, w: nat)
    requires p + w < |s|
    ensures s[p..p + w + 1][..w] == s[p..p + w] && s[p..p + w + 1][w] == s[p + w]
  {
  }

  class Unpacker {
    const o: Options
    const maxBufferSize: nat
    const readSize: nat
    const file: InputFile?
    var buffer: Bytes
    var buffI: nat
    var checkpoint: nat
    var streamOffset: nat
    /** Everything this unpacker has been fed, or everything its file holds. */
    ghost var stream: Bytes
    /** The objects returned since position `base`. */
    ghost var delivered: seq<Value>
    ghost var base: nat
    const depth: nat

    /** What the file still holds; nothing when feeding. */
    ghost function Rest(): Bytes
      reads this, file
    {
      if file == null then [] else file.rest
    }

    /** The buffer from the checkpoint on is the stream from the offset on. */
    ghost predicate Valid()
      reads this, file
      ensures Valid() ==> checkpoint <= buffI && streamOffset + (buffI - checkpoint) <= |stream|
    {
      && 0 < readSize <= maxBufferSize
      && checkpoint <= buffI <= |buffer|
      && streamOffset <= |stream|
      && stream[streamOffset..] == buffer[checkpoint..] + Rest()
      && (file != null ==> |buffer| <= maxBufferSize + readSize - 1)
    }

    /** The read position in the whole stream. */
    ghost function Pos(): nat
      reads this
      requires checkpoint <= buffI
    {
      streamOffset + (buffI - checkpoint)
    }

    /** Between two calls: nothing read past the last object, and every object since `base` delivered once. */
    ghost predicate Aligned()
      reads this, file
    {
      && Valid() && buffI == checkpoint && base <= streamOffset
      && Streams.Chain(o, stream, base, delivered, streamOffset, depth)
      && (file == null ==> |buffer| <= maxBufferSize)
    }

    /** The abstract state, once nothing has been passed over. */
    ghost function Session(): Streams.Session
      reads this
    {
      Streams.Session(stream, streamOffset, delivered)
    }

    lemma Window()
      requires Valid()
      ensures Pos() <= |stream| && stream[Pos()..] == buffer[buffI..] + Rest()
    {
      assert stream[Pos()..] == stream[streamOffset..][buffI - checkpoint..];
      assert buffer[buffI..] == buffer[checkpoint..][buffI - checkpoint..];
    }

    /** The bytes at the read position, as the stream has them. */
    lemma InBuffer(n: nat)
      requires Valid() && buffI + n <= |buffer|
      ensures Pos() + n <= |stream| && stream[Pos()..Pos() + n] == buffer[buffI..buffI + n]
    {
      Window();
      assert stream[Pos()..Pos() + n] == stream[Pos()..][..n];
      assert buffer[buffI..buffI + n] == buffer[buffI..][..n];
    }

    /**
     * How the outcome of an attempt that asks for bytes up to `reach` matches the recursive decoder's: it is that,
     * except that BufferFull is raised where a file would have to be read further than `max_buffer_size` bytes.
     * OutOfData leaves the read position at the checkpoint, any other outcome where the attempt has asked last.
     */
    ghost predicate Matches<T>(r: Outcome<T>, spec: Read<T>, reach: nat)
      reads this
      requires checkpoint <= buffI
    {
      match r
      case Ok(v) => spec == Done(v, Pos()) && reach == Pos()
      case Raise(e) =>
        if e == OutOfData then
          spec.NeedMore? && buffI == checkpoint && (file != null ==> reach <= streamOffset + maxBufferSize)
        else if e == BufferFull then file != null && reach > streamOffset + maxBufferSize
        else spec == Fail(e) && reach == Pos()
    }

    /** The file has been read, if at all, while bytes before `end` were missing, for those or `read_size` bytes. */
    twostate predicate AsksForMissing(end: nat)
      requires file != null
      reads this, file
    {
      unchanged(file) ||
      var missing := end - (|stream| - file.left);
      missing > 0 && file.asked == if readSize >= missing then readSize else missing
    }

    /**
     * An attempt that asks for bytes up to `reach` has read the file, if at all, only before those had arrived, each
     * time for `read_size` bytes or for all that it still needed.
     */
    twostate predicate Lazy(reach: nat)
      reads this, file
    {
      file == null || unchanged(file) ||
      (|stream| - file.left < reach && readSize <= file.asked &&
       (file.asked == readSize || |stream| - file.left + file.asked <= reach))
    }

    constructor (o: Options, file: InputFile?, maxBufferSize: nat, readSize: nat, depth: nat)
      requires 0 < readSize <= maxBufferSize
      ensures Aligned() && this.file == file && this.o == o.(checkNanos := true) && this.depth == depth
      ensures this.maxBufferSize == maxBufferSize
      ensures delivered == [] && streamOffset == 0 && base == 0 && buffer == [] && stream == Rest()
    {
      this.o := o.(checkNanos := true);
      this.file, this.maxBufferSize, this.readSize, this.depth := file, maxBufferSize, readSize, depth;
      buffer, buffI, checkpoint, streamOffset := [], 0, 0, 0;
      stream := if file == null then [] else file.rest;
      delivered, base := [], 0;
    }

    /** Drop the part of the buffer before the checkpoint. */
    method Strip()
      requires Valid()
      modifies this`buffer, this`buffI, this`checkpoint
      ensures Valid() && checkpoint == 0 && Pos() == old(Pos()) && |buffer| == old(|buffer| - checkpoint)
      ensures |buffer| - buffI == old(|buffer| - buffI)
    {
      if checkpoint > 0 {
        buffer := buffer[checkpoint..];
        buffI := buffI - checkpoint;
        checkpoint := 0;
      }
    }

    /** `feed` */
    method Feed(data: Bytes) returns (r: Outcome<()>)
      requires Valid() && file == null
      modifies this`buffer, this`buffI, this`checkpoint, this`stream
      ensures Valid() && Pos() == old(Pos())
      ensures r == if old(|buffer| - buffI) + |data| > maxBufferSize then Raise(BufferFull) else Ok(())
      ensures stream == if r.Ok? then old(stream) + data else old(stream)
      ensures old(Aligned()) ==> Aligned()
      ensures r.Ok? ==> Streams.After(o, depth, old(Session()), Streams.Feed(data)) == Ok(Session())
    {
      hide Decode;
      if |buffer| - buffI + |data| > maxBufferSize {
        return Raise(BufferFull);
      }
      Strip();
      assert buffer[0..] == buffer && (buffer + data)[0..] == buffer + data;
      assert (stream + data)[streamOffset..] == stream[streamOffset..] + data;
      buffer := buffer + data;
      if base <= |stream| && Streams.Chain(o, stream, base, delivered, streamOffset, depth) {
        Streams.ChainIsStable(o, stream, base, delivered, streamOffset, depth, data);
      }
      stream := stream + data;
      return Ok(());
    }

    /** `_consume` */
    method Consume()
      requires Valid()
      modifies this`streamOffset, this`checkpoint
      ensures Valid() && Pos() == old(Pos()) == streamOffset && buffI == checkpoint
    {
      Window();
      streamOffset := streamOffset + (buffI - checkpoint);
      checkpoint := buffI;
    }

    lemma AppendRead(before: Bytes, data: Bytes, rest: Bytes)
      ensures before[0..] + (data + rest) == (before + data)[0..] + rest
    {
    }

    /** The refill loop of `_reserve`: read until `remain` more bytes are there or the file ends. */
    method Refill(remain0: nat)
      requires Valid() && checkpoint == 0 && file != null && remain0 + |buffer| <= maxBufferSize
      modifies this`buffer, file
      ensures Valid() && (|buffer| >= old(|buffer|) + remain0 || Rest() == [])
      ensures AsksForMissing(streamOffset + old(|buffer|) + remain0)
    {
      var remain: int := remain0;
      while remain > 0
        invariant Valid() && |buffer| + remain == old(|buffer|) + remain0
        invariant AsksForMissing(streamOffset + old(|buffer|) + remain0)
        invariant remain > 0 ==> remain + |buffer| <= maxBufferSize
        decreases |file.rest|
      {
        var data := file.Read(if readSize >= remain then readSize else remain);
        if data == [] {
          break;
        }
        AppendRead(buffer, data, file.rest);
        buffer := buffer + data;
        remain := remain - |data|;
      }
    }

    /** `_reserve` */
    method Reserve(n: nat, raiseOutOfData: bool) returns (r: Outcome<()>)
      requires Valid()
      modifies this`buffer, this`buffI, this`checkpoint, file
      ensures file == null ==> buffer == old(buffer)
      ensures Valid()
      ensures r.Ok? ==> Pos() == old(Pos()) && (buffI + n <= |buffer| || (!raiseOutOfData && file != null && Rest() == []))
      ensures match r
              case Ok(_) => true
              case Raise(e) => if e == OutOfData then |stream| < old(Pos()) + n && buffI == checkpoint else e == BufferFull
      ensures r == if old(buffI + n <= |buffer|) then Ok(())
                   else if file == null then Raise(OutOfData)
                   else if old(Pos()) + n > streamOffset + maxBufferSize then Raise(BufferFull)
                   else if raiseOutOfData && |stream| < old(Pos()) + n then Raise(OutOfData)
                   else Ok(())
      ensures Lazy(old(Pos()) + n)
    {
      var remainBytes := |buffer| - buffI - n;
      if remainBytes >= 0 {
        return Ok(());
      }
      Window();
      if file == null {
        buffI := checkpoint;
        return Raise(OutOfData);
      }
      Strip();
      remainBytes := -remainBytes;
      if remainBytes + |buffer| > maxBufferSize {
        return Raise(BufferFull);
      }
      Refill(remainBytes);
      Window();
      if |buffer| < n + buffI && raiseOutOfData {
        buffI := 0;
        return Raise(OutOfData);
      }
      return Ok(());
    }

    /** `_read` */
    method Read(n: nat, raiseOutOfData: bool) returns (r: Outcome<Bytes>)
      requires Valid()
      modifies this`buffer, this`buffI, this`checkpoint, file
      ensures file == null ==> buffer == old(buffer)
      ensures Valid()
      ensures match r
              case Ok(data) => Pos() == old(Pos()) + |data| && data == stream[old(Pos())..Pos()] &&
                               (|data| == n || (!raiseOutOfData && file != null && |data| < n && Pos() == |stream|))
              case Raise(e) =>
                if e == OutOfData then
                  |stream| < old(Pos()) + n && buffI == checkpoint && (file == null || raiseOutOfData)
                else e == BufferFull
      ensures old(buffI + n <= |buffer|) ==> r.Ok?
      ensures old(buffI + n > |buffer|) ==>
                (r == Raise(BufferFull) <==> file != null && old(Pos()) + n > streamOffset + maxBufferSize)
      ensures Lazy(old(Pos()) + n)
    {
      var ok := Reserve(n, raiseOutOfData);
      if ok.Raise? {
        return Raise(ok.error);
      }
      Window();
      var i := buffI;
      var data := buffer[i..if i + n <= |buffer| then i + n else |buffer|];
      InBuffer(|data|);
      buffI := i + |data|;
      return Ok(data);
    }

    // ---------- `_read_header` ----------

    /** `_reserve(w)` and the big-endian number there. */
    method ReadSize(w: nat) returns (r: Outcome<nat>)
      requires Valid()
      modifies this`buffer, this`buffI, this`checkpoint, file
      ensures file == null ==> buffer == old(buffer)
      ensures Valid() && Matches(r, SizeAt(stream, old(Pos()), w), old(Pos()) + w)
      ensures Lazy(old(Pos()) + w)
    {
      hide Valid, Load;
      var bytes := Read(w, true);
      match bytes
      case Raise(e) => return Raise(e);
      case Ok(data) => return Ok(Load(data));
    }

    /** A limit check and the body behind it. */
    method ReadBody(n: nat, max: nat) returns (r: Outcome<Bytes>)
      requires Valid()
      modifies this`buffer, this`buffI, this`checkpoint, file
      ensures file == null ==> buffer == old(buffer)
      ensures Valid() && Matches(r, BodyAt(stream, old(Pos()), n, max), BodyReach(old(Pos()), n, max))
      ensures Lazy(BodyReach(old(Pos()), n, max))
    {
      if n > max {
        return Raise(ValueError);
      }
      r := Read(n, true);
    }

    /** The headers whose number of `w` bytes is the length of a bin or str body. */
    method ReadBlob(w: nat, bin: bool) returns (r: Outcome<Token>)
      requires Valid()
      modifies this`buffer, this`buffI, this`checkpoint, file
      ensures file == null ==> buffer == old(buffer)
      ensures Valid()
      ensures Matches(r, match SizeAt(stream, old(Pos()), w)
                         case NeedMore => NeedMore
                         case Done(n, q) => if bin then BinAt(o, stream, q, n) else RawAt(o, stream, q, n),
                      BlobReach(stream, old(Pos()), w, if bin then o.maxBin else o.maxStr))
      ensures Lazy(BlobReach(stream, old(Pos()), w, if bin then o.maxBin else o.maxStr))
    {
      var n := ReadSize(w);
      if n.Raise? {
        return Raise(n.error);
      }
      var body := ReadBody(n.value, if bin then o.maxBin else o.maxStr);
      if body.Raise? {
        return Raise(body.error);
      }
      return Ok(if bin then BinBody(body.value) else RawBody(body.value));
    }

    /** The length and the type byte of an ext 8, 16 or 32, which are reserved together. */
    method ReadExtHead(w: nat) returns (r: Outcome<(nat, Byte)>)
      requires Valid()
      modifies this`buffer, this`buffI, this`checkpoint, file
      ensures Valid() && (file == null ==> buffer == old(buffer))
      ensures match r
              case Ok((n, code)) => Pos() == old(Pos()) + w + 1 && code == stream[old(Pos()) + w] &&
                                    n == Load(stream[old(Pos())..old(Pos()) + w])
              case Raise(e) =>
                if e == OutOfData then
                  |stream| < old(Pos()) + w + 1 && buffI == checkpoint &&
                  (file != null ==> old(Pos()) + w + 1 <= streamOffset + maxBufferSize)
                else e == BufferFull && file != null && old(Pos()) + w + 1 > streamOffset + maxBufferSize
      ensures Lazy(old(Pos()) + w + 1)
    {
      hide Valid, Load;
      var head := Read(w + 1, true);
      if head.Raise? {
        return Raise(head.error);
      }
      LengthAndType(stream, old(Pos()), w);
      return Ok((Load(head.value[..w]), head.value[w]));
    }

    /** The headers whose number of `w` bytes is the length of an ext body. */
    method ReadExt(w: nat) returns (r: Outcome<Token>)
      requires Valid()
      modifies this`buffer, this`buffI, this`checkpoint, file
      ensures file == null ==> buffer == old(buffer)
      ensures Valid()
      ensures Matches(r, if |stream| - old(Pos()) < w + 1 then NeedMore
                         else ExtAt(o, stream, old(Pos()) + w + 1, Load(stream[old(Pos())..old(Pos()) + w]),
                                    stream[old(Pos()) + w]),
                      ExtReach(stream, old(Pos()), w, o.maxExt))
      ensures Lazy(ExtReach(stream, old(Pos()), w, o.maxExt))
    {
      hide Valid, Load, SignedByte, BodyAt;
      var head := ReadExtHead(w);
      if head.Raise? {
        return Raise(head.error);
      }
      var body := ReadBody(head.value.0, o.maxExt);
      if body.Raise? {
        return Raise(body.error);
      }
      return Ok(ExtBody(SignedByte(head.value.1), body.value));
    }

    method ReadFixExt(n: nat) returns (r: Outcome<Token>)
      requires Valid()
      modifies this`buffer, this`buffI, this`checkpoint, file
      ensures file == null ==> buffer == old(buffer)
      ensures Valid() && Matches(r, FixExtAt(o, stream, old(Pos()), n), FixExtReach(old(Pos()), n, o.maxExt))
      ensures Lazy(FixExtReach(old(Pos()), n, o.maxExt))
    {
      hide Valid, SignedByte;
      if o.maxExt < n {
        return Raise(ValueError);
      }
      var all := Read(n + 1, true);
      if all.Raise? {
        return Raise(all.error);
      }
      var h := all.value;
      assert h[0] == stream[old(Pos())] && h[1..] == stream[old(Pos()) + 1..old(Pos()) + 1 + n];
      return Ok(ExtBody(SignedByte(h[0]), h[1..]));
    }

    method ReadNumber(b: Byte) returns (r: Outcome<Token>)
      requires Valid() && 0xca <= b <= 0xd3
      modifies this`buffer, this`buffI, this`checkpoint, file
      ensures file == null ==> buffer == old(buffer)
      ensures Valid() && Matches(r, ReadSized(o, stream, old(Pos()), b), SizedReach(o, stream, old(Pos()), b))
      ensures Lazy(SizedReach(o, stream, old(Pos()), b))
    {
      hide Valid, NumberOf;
      var bytes := Read(NumberWidth(b), true);
      if bytes.Raise? {
        return Raise(bytes.error);
      }
      return Ok(Immediate(NumberOf(o, b, bytes.value)));
    }

    method ReadCount(b: Byte) returns (r: Outcome<Token>)
      requires Valid() && 0xdc <= b <= 0xdf
      modifies this`buffer, this`buffI, this`checkpoint, file
      ensures file == null ==> buffer == old(buffer)
      ensures Valid() && Matches(r, ReadSized(o, stream, old(Pos()), b), SizedReach(o, stream, old(Pos()), b))
      ensures Lazy(SizedReach(o, stream, old(Pos()), b))
    {
      hide Valid, Load;
      var n := ReadSize(if b == 0xdc || b == 0xde then 2 else 4);
      if n.Raise? {
        return Raise(n.error);
      }
      if n.value > (if b <= 0xdd then o.maxArray else o.maxMap) {
        return Raise(ValueError);
      }
      return Ok(if b <= 0xdd then ArrayOf(n.value) else MapOf(n.value));
    }

    /** The headers with a length or number behind the header byte. */
    method ReadSizedHeader(b: Byte) returns (r: Outcome<Token>)
      requires Valid() && 0xc4 <= b <= 0xdf
      modifies this`buffer, this`buffI, this`checkpoint, file
      ensures file == null ==> buffer == old(buffer)
      ensures Valid() && Matches(r, ReadSized(o, stream, old(Pos()), b), SizedReach(o, stream, old(Pos()), b))
      ensures Lazy(SizedReach(o, stream, old(Pos()), b))
    {
      hide Valid, RawAt, BinAt, ExtAt, SizeAt, FixExtAt, Load;
      if b <= 0xc6 {
        r := ReadBlob(if b == 0xc4 then 1 else if b == 0xc5 then 2 else 4, true);
      } else if b <= 0xc9 {
        r := ReadExt(if b == 0xc7 then 1 else if b == 0xc8 then 2 else 4);
      } else if b <= 0xd3 {
        r := ReadNumber(b);
      } else if b <= 0xd8 {
        r := ReadFixExt(if b == 0xd4 then 1 else if b == 0xd5 then 2 else if b == 0xd6 then 4
                        else if b == 0xd7 then 8 else 16);
      } else if b <= 0xdb {
        r := ReadBlob(if b == 0xd9 then 1 else if b == 0xda then 2 else 4, false);
      } else {
        r := ReadCount(b);
      }
    }

    /** What `_read_header` does once it has read the byte `b`. */
    method ReadBehind(b: Byte) returns (r: Outcome<Token>)
      requires Valid() && 0 < Pos() && stream[Pos() - 1] == b
      modifies this`buffer, this`buffI, this`checkpoint, file
      ensures file == null ==> buffer == old(buffer)
      ensures Valid() && Matches(r, ReadHeader(o, stream, old(Pos()) - 1), HeaderReach(o, stream, old(Pos()) - 1))
      ensures Lazy(HeaderReach(o, stream, old(Pos()) - 1))
    {
      hide Valid, ReadSized, BodyAt;
      if b < 0x80 {
        r := Ok(Immediate(Int(b)));
      } else if b >= 0xe0 {
        r := Ok(Immediate(Int(SignedByte(b))));
      } else if b >= 0xc4 {
        r := ReadSizedHeader(b);
      } else if 0xa0 <= b < 0xc0 {
        var body := ReadBody(b - 0xa0, o.maxStr);
        r := if body.Raise? then Raise(body.error) else Ok(RawBody(body.value));
      } else if 0x90 <= b < 0xa0 {
        r := if b - 0x90 > o.maxArray then Raise(ValueError) else Ok(ArrayOf(b - 0x90));
      } else if b < 0x90 {
        r := if b - 0x80 > o.maxMap then Raise(ValueError) else Ok(MapOf(b - 0x80));
      } else if b == 0xc0 {
        r := Ok(Immediate(Nil));
      } else if b == 0xc2 || b == 0xc3 {
        r := Ok(Immediate(Bool(b == 0xc3)));
      } else {
        r := Raise(FormatError);
      }
    }

    /** `_read_header` */
    method ReadToken() returns (r: Outcome<Token>)
      requires Valid()
      modifies this`buffer, this`buffI, this`checkpoint, file
      ensures file == null ==> buffer == old(buffer)
      ensures Valid() && Matches(r, ReadHeader(o, stream, old(Pos())), HeaderReach(o, stream, old(Pos())))
      ensures Lazy(HeaderReach(o, stream, old(Pos())))
    {
      hide Valid, ReadSized, SizedReach, BodyAt;
      var first := Read(1, true);
      HeaderAhead(o, stream, old(Pos()));
      if first.Raise? {
        return Raise(first.error);
      }
      r := ReadBehind(first.value[0]);
    }

    // ---------- `_unpack` ----------

    /** `_unpack`, with `level` more containers allowed by the interpreter's recursion limit. */
    method Unpack(construct: bool, level: nat) returns (r: Outcome<Value>)
      requires Valid()
      modifies this`buffer, this`buffI, this`checkpoint, file
      ensures file == null ==> buffer == old(buffer)
      ensures Valid() && Matches(r, Decode(o, construct, stream, old(Pos()), level),
                                 Reach(o, construct, stream, old(Pos()), level))
      ensures Lazy(Reach(o, construct, stream, old(Pos()), level))
      decreases |stream| - Pos(), 0, 0
    {
      hide Valid, ReadHeader, HeaderReach, Build, DecodeItems, DecodePairs, ItemsReach, PairsReach;
      ReachAhead(o, construct, stream, Pos(), level);
      var token := ReadToken();
      if token.Raise? {
        return Raise(token.error);
      }
      match token.value {
        case ArrayOf(n) =>
          if level == 0 {
            return Raise(StackError);
          }
          var items := UnpackItems(construct, n, level - 1);
          return if items.Raise? then Raise(items.error) else Ok(if construct then Arr(items.value) else Nil);
        case MapOf(n) =>
          if level == 0 {
            return Raise(StackError);
          }
          var pairs := UnpackPairs(construct, n, level - 1);
          return if pairs.Raise? then Raise(pairs.error) else Ok(if construct then Map(pairs.value) else Nil);
        case _ =>
          if !construct {
            return Ok(Nil);
          }
          r := Build(o, token.value);
          BuildErrors(o, token.value);
      }
    }

    /** The loop over the elements of an array. */
    method UnpackItems(construct: bool, n: nat, level: nat) returns (r: Outcome<seq<Value>>)
      requires Valid()
      modifies this`buffer, this`buffI, this`checkpoint, file
      ensures file == null ==> buffer == old(buffer)
      ensures Valid() && Matches(r, DecodeItems(o, construct, stream, old(Pos()), n, level, []),
                                 ItemsReach(o, construct, stream, old(Pos()), n, level))
      ensures Lazy(ItemsReach(o, construct, stream, old(Pos()), n, level))
      decreases |stream| - Pos(), 1, n
    {
      hide Valid, Decode, Reach;
      var items: seq<Value>, i := [], 0;
      while i < n
        invariant i <= n && Valid() && old(Pos()) <= Pos() <= |stream|
        invariant file == null ==> buffer == old(buffer)
        invariant DecodeItems(o, construct, stream, old(Pos()), n, level, []) ==
                  DecodeItems(o, construct, stream, Pos(), n - i, level, items)
        invariant ItemsReach(o, construct, stream, old(Pos()), n, level) ==
                  ItemsReach(o, construct, stream, Pos(), n - i, level)
        invariant Lazy(ItemsReach(o, construct, stream, old(Pos()), n, level))
      {
        ItemsAhead(o, construct, stream, Pos(), n - i, level);
        var item := Unpack(construct, level);
        if item.Raise? {
          return Raise(item.error);
        }
        items := if construct then items + [item.value] else [];
        i := i + 1;
      }
      return Ok(items);
    }

    /** One turn of the loop over the pairs of a map: a key is checked before its value is read, and hashed after. */
    method UnpackPair(construct: bool, level: nat) returns (r: Outcome<Pair>)
      requires Valid()
      modifies this`buffer, this`buffI, this`checkpoint, file
      ensures file == null ==> buffer == old(buffer)
      ensures Valid() && Matches(r, PairAt(o, construct, stream, old(Pos()), level),
                                 PairReach(o, construct, stream, old(Pos()), level))
      ensures Lazy(PairReach(o, construct, stream, old(Pos()), level))
      decreases |stream| - Pos(), 1
    {
      hide Valid, Decode, Reach, KeyAllowed, Hashable;
      PairAhead(o, construct, stream, Pos(), level);
      ReachFits(o, construct, stream, Pos(), level);
      var key := Unpack(construct, level);
      if key.Raise? {
        return Raise(key.error);
      }
      if construct && !KeyAllowed(o, key.value) {
        return Raise(ValueError);
      }
      ReachFits(o, construct, stream, Pos(), level);
      var value := Unpack(construct, level);
      if value.Raise? {
        return Raise(value.error);
      }
      if construct && !Hashable(key.value) {
        return Raise(TypeError);
      }
      return Ok(Pair(key.value, value.value));
    }

    lemma NoPairs(d: seq<Pair>, construct: bool, level: nat)
      requires checkpoint <= buffI && Pos() <= |stream|
      ensures DecodePairs(o, construct, stream, Pos(), 0, level, d) == Done(d, Pos())
      ensures PairsReach(o, construct, stream, Pos(), 0, level) == Pos()
    {
    }

    /** The loop over the pairs of a map. */
    method UnpackPairs(construct: bool, n: nat, level: nat) returns (r: Outcome<seq<Pair>>)
      requires Valid()
      modifies this`buffer, this`buffI, this`checkpoint, file
      ensures file == null ==> buffer == old(buffer)
      ensures Valid() && Matches(r, DecodePairs(o, construct, stream, old(Pos()), n, level, []),
                                 PairsReach(o, construct, stream, old(Pos()), n, level))
      ensures Lazy(PairsReach(o, construct, stream, old(Pos()), n, level))
      decreases |stream| - Pos(), 2, n
    {
      hide Valid, PairAt, PairReach, DecodePairs, PairsReach, DictSet;
      var d: seq<Pair>, i := [], 0;
      while i < n
        invariant i <= n && Valid() && old(Pos()) <= Pos() <= |stream|
        invariant file == null ==> buffer == old(buffer)
        invariant DecodePairs(o, construct, stream, old(Pos()), n, level, []) ==
                  DecodePairs(o, construct, stream, Pos(), n - i, level, d)
        invariant PairsReach(o, construct, stream, old(Pos()), n, level) ==
                  PairsReach(o, construct, stream, Pos(), n - i, level)
        invariant Lazy(PairsReach(o, construct, stream, old(Pos()), n, level))
      {
        PairsFromPair(o, construct, stream, Pos(), n - i, level, d);
        var pair := UnpackPair(construct, level);
        if pair.Raise? {
          return Raise(pair.error);
        }
        d := if construct then DictSet(d, pair.value.key, pair.value.value) else [];
        i := i + 1;
      }
      NoPairs(d, construct, level);
      return Ok(d);
    }

    // ---------- the public calls ----------

    /** Note that one more object, from position `from` to the offset, has been delivered. */
    ghost method Deliver(v: Value, from: nat)
      requires Valid() && from <= |stream| && Decode(o, true, stream, from, depth) == Done(v, streamOffset)
      requires buffI == checkpoint && base <= from && Streams.Chain(o, stream, base, delivered, from, depth)
      requires file == null ==> |buffer| <= maxBufferSize
      modifies this`delivered
      ensures Aligned() && delivered == old(delivered) + [v]
    {
      hide Decode, Streams.Chain;
      Streams.ChainGrows(o, stream, base, delivered, from, depth);
      delivered := delivered + [v];
    }

    /** Start a new chain of deliveries here: bytes or an object have been passed over. */
    ghost method Rebase()
      requires Valid() && buffI == checkpoint && (file == null ==> |buffer| <= maxBufferSize)
      modifies this`delivered, this`base
      ensures Aligned() && delivered == [] && base == streamOffset
    {
      delivered, base := [], streamOffset;
    }

    /**
     * `unpack`: the next object of the stream, whatever the buffer held, or OutOfData with nothing moved.
     */
    method UnpackOne() returns (r: Outcome<Value>)
      requires Aligned()
      modifies this`buffer, this`buffI, this`checkpoint, this`streamOffset, this`delivered, file
      ensures Valid()
      ensures match r
              case Ok(v) => Aligned() && Decode(o, true, stream, old(streamOffset), depth) == Done(v, streamOffset) &&
                            delivered == old(delivered) + [v]
              case Raise(e) =>
                && streamOffset == old(streamOffset) && delivered == old(delivered)
                && Matches(r, Decode(o, true, stream, old(streamOffset), depth),
                           Reach(o, true, stream, old(streamOffset), depth))
                && (e == OutOfData ==> Aligned())
      ensures Lazy(Reach(o, true, stream, old(streamOffset), depth))
    {
      hide Decode, Streams.Chain, Valid;
      r := Unpack(true, depth);
      if r.Ok? {
        ghost var from := streamOffset;
        Consume();
        Deliver(r.value, from);
      }
    }

    lemma NoStopIteration(p: nat)
      requires p <= |stream|
      ensures Decode(o, true, stream, p, depth) != Fail(StopIteration)
      ensures Decode(o, true, stream, p, depth) != Fail(OutOfData)
      ensures Decode(o, true, stream, p, depth) != Fail(BufferFull)
    {
      hide Decode;
      DecodeErrors(o, true, stream, p, depth);
    }

    /** `__next__`: one step of the abstract stream; only OutOfData becomes StopIteration. */
    method Next() returns (r: Outcome<Value>)
      requires Aligned()
      modifies this`buffer, this`buffI, this`checkpoint, this`streamOffset, this`delivered, file
      ensures Valid() && stream == old(stream)
      ensures r.Ok? || r == Raise(StopIteration) ==>
                Aligned() && Streams.After(o, depth, old(Session()), Streams.Next) == Ok(Session())
      ensures r == Raise(StopIteration) ==> Session() == old(Session())
      ensures r.Raise? && r.error != StopIteration && r.error != BufferFull ==>
                Streams.After(o, depth, old(Session()), Streams.Next) == Raise(r.error)
      ensures r == Raise(BufferFull) ==>
                file != null && Reach(o, true, stream, old(streamOffset), depth) > old(streamOffset) + maxBufferSize
      ensures r == Raise(StopIteration) ==>
                file == null || Reach(o, true, stream, old(streamOffset), depth) <= old(streamOffset) + maxBufferSize
      ensures r != Raise(BufferFull) ==>
                (r == Raise(StopIteration) <==> Decode(o, true, stream, old(streamOffset), depth).NeedMore?)
      ensures Lazy(Reach(o, true, stream, old(streamOffset), depth))
    {
      hide Decode, Streams.Chain, Valid;
      r := UnpackOne();
      if r == Raise(OutOfData) {
        Consume();
        return Raise(StopIteration);
      }
      NoStopIteration(old(streamOffset));
    }

    /** `skip`: the position moves to the end of the object. */
    method Skip() returns (r: Outcome<()>)
      requires Aligned()
      modifies this`buffer, this`buffI, this`checkpoint, this`streamOffset, this`delivered, this`base, file
      ensures Valid()
      ensures r.Ok? ==> Aligned() && Decode(o, false, stream, old(streamOffset), depth) == Done(Nil, streamOffset)
      ensures r == Raise(OutOfData) ==> Aligned()
      ensures r.Raise? ==>
                && streamOffset == old(streamOffset) && delivered == old(delivered)
                && Matches(Raise(r.error), Decode(o, false, stream, old(streamOffset), depth),
                           Reach(o, false, stream, old(streamOffset), depth))
      ensures Decode(o, true, stream, old(streamOffset), depth).Done? && r != Raise(BufferFull) ==>
                r.Ok? && streamOffset == Decode(o, true, stream, old(streamOffset), depth).end
      ensures Lazy(Reach(o, false, stream, old(streamOffset), depth))
    {
      hide Decode, Streams.Chain, Valid;
      ghost var from := streamOffset;
      var skipped := Unpack(false, depth);
      SkipConsumesTheSame(o, stream, from, depth);
      SkippingBuildsNothing(o, stream, from, depth);
      if skipped.Raise? {
        return Raise(skipped.error);
      }
      Consume();
      Rebase();
      return Ok(());
    }

    /**
     * `read_bytes`: the next `n` bytes of the stream; fewer only from a file that has ended, while a fed
     * unpacker raises OutOfData and keeps its position.
     */
    method ReadBytes(n: nat) returns (r: Outcome<Bytes>)
      requires Aligned()
      modifies this`buffer, this`buffI, this`checkpoint, this`streamOffset, this`delivered, this`base, file
      ensures Valid()
      ensures match r
              case Ok(data) => Aligned() && streamOffset == old(streamOffset) + |data| &&
                               data == stream[old(streamOffset)..streamOffset] &&
                               (|data| == n || (file != null && |data| < n && streamOffset == |stream|))
              case Raise(e) => streamOffset == old(streamOffset) &&
                               if e == OutOfData then Aligned() && |stream| < streamOffset + n && file == null
                               else e == BufferFull
      ensures r == Raise(BufferFull) <==> file != null && n > maxBufferSize && old(|buffer| - buffI) < n
      ensures Lazy(old(streamOffset) + n)
    {
      hide Streams.Chain;
      r := Read(n, false);
      if r.Ok? {
        Consume();
        Rebase();
      }
    }

    /** The size of the container that begins at `p`; anything else there is a ValueError. */
    ghost function ContainerAt(wantMap: bool, p: nat): Read<nat>
      reads this
      requires p <= |stream|
    {
      match ReadHeader(o, stream, p)
      case NeedMore => NeedMore
      case Fail(e) => Fail(e)
      case Done(ArrayOf(n), q) => if wantMap then Fail(ValueError) else Done(n, q)
      case Done(MapOf(n), q) => if wantMap then Done(n, q) else Fail(ValueError)
      case Done(_, _) => Fail(ValueError)
    }

    /** `read_array_header` and `read_map_header`: consume a container's header and return its size. */
    method ReadContainerHeader(wantMap: bool) returns (r: Outcome<nat>)
      requires Aligned()
      modifies this`buffer, this`buffI, this`checkpoint, this`streamOffset, this`delivered, this`base, file
      ensures Valid()
      ensures match r
              case Ok(n) => Aligned() && ContainerAt(wantMap, old(streamOffset)) == Done(n, streamOffset)
              case Raise(e) =>
                && streamOffset == old(streamOffset) && delivered == old(delivered)
                && Matches(r, ContainerAt(wantMap, old(streamOffset)), HeaderReach(o, stream, old(streamOffset)))
                && (e == OutOfData ==> Aligned())
      ensures Lazy(HeaderReach(o, stream, old(streamOffset)))
    {
      hide ReadHeader, Streams.Chain, Valid;
      ghost var from := streamOffset;
      var token := ReadToken();
      if token.Raise? {
        return Raise(token.error);
      }
      match token.value {
        case MapOf(n) =>
          if !wantMap { return Raise(ValueError); }
          r := Ok(n);
        case ArrayOf(n) =>
          if wantMap { return Raise(ValueError); }
          r := Ok(n);
        case _ =>
          return Raise(ValueError);
      }
      Consume();
      Rebase();
    }
  }

  /**
   * A whole run of a feeding unpacker: a client calls `feed` and `next` in any order and carries on after
   * StopIteration. The unpacker ends where the abstract session does; a fresh one has then delivered the
   * objects of everything it was fed, up to those still to come. After BufferFull it is where the calls
   * before the rejected one have taken it.
   */
  method Drive(u: Unpacker, events: seq<Streams.Event>) returns (r: Outcome<()>)
    requires u.Aligned() && u.file == null
    modifies u
    ensures u.streamOffset <= |u.stream|
    ensures r.Ok? ==> u.Aligned() && Streams.Play(u.o, u.depth, old(u.Session()), events) == Ok(u.Session())
    ensures r.Raise? && r.error != BufferFull ==> Streams.Play(u.o, u.depth, old(u.Session()), events) == Raise(r.error)
    ensures r == Raise(BufferFull) ==>
              u.Aligned() && exists k: nat :: k < |events| && events[k].Feed? &&
                               Streams.Play(u.o, u.depth, old(u.Session()), events[..k]) == Ok(u.Session()) &&
                               |u.stream| - u.streamOffset + |events[k].data| > u.maxBufferSize
    ensures r.Ok? && old(u.Session()) == Streams.FRESH ==>
              && u.stream == Streams.Fed(events)
              && Streams.DecodeAll(u.o, u.stream, 0, u.depth) ==
                 u.delivered + Streams.DecodeAll(u.o, u.stream, u.streamOffset, u.depth)
  {
    hide Decode, Streams.Chain, Streams.After, Streams.DecodeAll;
    ghost var before := u.Session();
    var i: nat := 0;
    while i < |events|
      invariant i <= |events| && u.Aligned()
      invariant Streams.Play(u.o, u.depth, before, events[..i]) == Ok(u.Session())
    {
      Streams.PlayStep(u.o, u.depth, before, events, i);
      match events[i] {
        case Feed(data) =>
          r := u.Feed(data);
          if r.Raise? {
            return;
          }
        case Next =>
          var v := u.Next();
          if v.Raise? && v.error != StopIteration {
            return Raise(v.error);
          }
      }
      i := i + 1;
    }
    assert events[..i] == events;
    if before == Streams.FRESH {
      Streams.AnyInterleaving(u.o, u.depth, events);
    }
    return Ok(());
  }

  /** `unpackb`: a fresh unpacker is fed the whole input, which is its `max_buffer_size` and the source of its limits. */
  method Unpackb(o: Options, l: Limits.Derived, packed: Bytes, depth: nat) returns (r: Unpacked)
    ensures r == UnpackbF(o.(checkNanos := true), l, packed, depth)
  {
    hide Decode, Streams.Chain, Limits.Automatic;
    var max := BufferLimit(packed);
    Limits.CheckAndLimits(o, l, max, true);
    var u := new Unpacker(Limits.Automatic(o, l, max), null, max, if max < 16384 then max else 16384, depth);
    var fed := u.Feed(packed);
    assert u.stream == packed;
    var v := u.Unpack(true, depth);
    DecodeErrors(u.o, true, packed, 0, depth);
    if v.Raise? {
      return Refused(if v.error == OutOfData then ValueError else v.error);
    }
    u.Window();
    var extra := u.buffer[u.buffI..];
    return if u.buffI < |u.buffer| then ExtraData(v.value, extra) else Object(v.value);
  }
}
