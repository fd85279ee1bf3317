/**
 * The recursive decoder of `fallback.py` as a function of the whole input and a position in it.
 * `NeedMore` is its OutOfData, `Fail` any other exception.
 */
module Decoder {
  import opened ByteStrings
  import opened Timestamps
  import opened Values

  datatype Read<+T> = NeedMore | Fail(error: Error) | Done(value: T, end: nat)

  /** What `_read_header` returns: a finished object, an undecoded body, or the size of a container. */
  datatype Token =
    | Immediate(v: Value)
    | RawBody(body: Bytes)
    | BinBody(body: Bytes)
    | ExtBody(code: int, body: Bytes)
    | ArrayOf(n: nat)
    | MapOf(n: nat)

  // ---------- headers ----------

  /** The width of the number after header byte `b`, as in `_MSGPACK_HEADERS`. */
  function NumberWidth(b: Byte): (w: nat)
    requires 0xca <= b <= 0xd3
    ensures w == 1 || w == 2 || w == 4 || w == 8
  {
    if b == 0xcc || b == 0xd0 then 1
    else if b == 0xcd || b == 0xd1 then 2
    else if b == 0xca || b == 0xce || b == 0xd2 then 4
    else 8
  }

  function NumberOf(o: Options, b: Byte, bytes: Bytes): Value
    requires 0xca <= b <= 0xd3 && |bytes| == NumberWidth(b)
  {
    if b == 0xca then Float(o.widen(bytes))
    else if b == 0xcb then Float(bytes)
    else if b <= 0xcf then Int(Load(bytes))
    else Int(Signed(Load(bytes), |bytes|))
  }

  /** `_reserve(w)` followed by reading a big-endian length of `w` bytes. */
  function SizeAt(s: Bytes, p: nat, w: nat): (r: Read<nat>)
    requires p <= |s|
    ensures r.Done? ==> r.end == p + w <= |s|
    ensures !r.Fail?
  {
    if |s| - p < w then NeedMore else Done(Load(s[p..p + w]), p + w)
  }

  /** A limit check on a length followed by reading that many bytes. */
  function BodyAt(s: Bytes, p: nat, n: nat, max: nat): (r: Read<Bytes>)
    requires p <= |s|
    ensures r.Done? ==> r.end == p + n <= |s| && |r.value| == n
  {
    if n > max then Fail(ValueError)
    else if |s| - p < n then NeedMore
    else Done(s[p..p + n], p + n)
  }

  function RawAt(o: Options, s: Bytes, p: nat, n: nat): Read<Token>
    requires p <= |s|
  {
    match BodyAt(s, p, n, o.maxStr)
    case NeedMore => NeedMore
    case Fail(e) => Fail(e)
    case Done(body, q) => Done(RawBody(body), q)
  }

  function BinAt(o: Options, s: Bytes, p: nat, n: nat): Read<Token>
    requires p <= |s|
  {
    match BodyAt(s, p, n, o.maxBin)
    case NeedMore => NeedMore
    case Fail(e) => Fail(e)
    case Done(body, q) => Done(BinBody(body), q)
  }

  function SignedByte(b: Byte): int {
    if b < 0x80 then b else b - 0x100
  }

  /** The body of an ext 8/16/32 whose length and type byte have been read. */
  function ExtAt(o: Options, s: Bytes, p: nat, n: nat, code: Byte): Read<Token>
    requires p <= |s|
  {
    match BodyAt(s, p, n, o.maxExt)
    case NeedMore => NeedMore
    case Fail(e) => Fail(e)
    case Done(body, q) => Done(ExtBody(SignedByte(code), body), q)
  }

  /** A fixext: the type byte and the body are reserved together. */
  function FixExtAt(o: Options, s: Bytes, p: nat, n: nat): Read<Token>
    requires p <= |s|
  {
    if o.maxExt < n then Fail(ValueError)
    else if |s| - p < n + 1 then NeedMore
    else Done(ExtBody(SignedByte(s[p]), s[p + 1..p + 1 + n]), p + 1 + n)
  }

  function ArrayHead(o: Options, n: nat, q: nat): Read<Token> {
    if n > o.maxArray then Fail(ValueError) else Done(ArrayOf(n), q)
  }

  function MapHead(o: Options, n: nat, q: nat): Read<Token> {
    if n > o.maxMap then Fail(ValueError) else Done(MapOf(n), q)
  }

  /** The headers 0xc4 to 0xdf, from the byte after the header byte on. */
  function ReadSized(o: Options, s: Bytes, q: nat, b: Byte): Read<Token>
    requires q <= |s| && 0xc4 <= b <= 0xdf
  {
    if b <= 0xc6 then
      match SizeAt(s, q, if b == 0xc4 then 1 else if b == 0xc5 then 2 else 4)
      case NeedMore => NeedMore
      case Done(n, r) => BinAt(o, s, r, n)
    else if b <= 0xc9 then
      var w := if b == 0xc7 then 1 else if b == 0xc8 then 2 else 4;
      if |s| - q < w + 1 then NeedMore
      else ExtAt(o, s, q + w + 1, Load(s[q..q + w]), s[q + w])
    else if b <= 0xd3 then
      var w := NumberWidth(b);
      if |s| - q < w then NeedMore
      else Done(Immediate(NumberOf(o, b, s[q..q + w])), q + w)
    else if b <= 0xd8 then
      FixExtAt(o, s, q, if b == 0xd4 then 1 else if b == 0xd5 then 2 else if b == 0xd6 then 4
                        else if b == 0xd7 then 8 else 16)
    else if b <= 0xdb then
      match SizeAt(s, q, if b == 0xd9 then 1 else if b == 0xda then 2 else 4)
      case NeedMore => NeedMore
      case Done(n, r) => RawAt(o, s, r, n)
    else if b <= 0xdd then
      match SizeAt(s, q, if b == 0xdc then 2 else 4)
      case NeedMore => NeedMore
      case Done(n, r) => ArrayHead(o, n, r)
    else
      match SizeAt(s, q, if b == 0xde then 2 else 4)
      case NeedMore => NeedMore
      case Done(n, r) => MapHead(o, n, r)
  }

  /** `_read_header`. */
  function ReadHeader(o: Options, s: Bytes, p: nat): (r: Read<Token>)
    requires p <= |s|
    ensures r.Done? ==> p < r.end <= |s|
  {
    if p == |s| then NeedMore
    else
      var b, q := s[p], p + 1;
      if b < 0x80 then Done(Immediate(Int(b)), q)
      else if b >= 0xe0 then Done(Immediate(Int(SignedByte(b))), q)
      else if 0xa0 <= b < 0xc0 then RawAt(o, s, q, b - 0xa0)
      else if 0x90 <= b < 0xa0 then ArrayHead(o, b - 0x90, q)
      else if b < 0x90 then MapHead(o, b - 0x80, q)
      else if b == 0xc0 then Done(Immediate(Nil), q)
      else if b == 0xc2 then Done(Immediate(Bool(false)), q)
      else if b == 0xc3 then Done(Immediate(Bool(true)), q)
      else if 0xc4 <= b then ReadSized(o, s, q, b)
      else Fail(FormatError)
  }

  // ---------- objects ----------

  function BuildTimestamp(o: Options, b: Bytes): Outcome<Value> {
    if o.timestampAsInt && !o.checkNanos then
      match UnpackC(b)
      case None => Raise(ValueError)
      case Some((sec, nsec)) => Ok(Int(sec * GIGA + nsec))
    else
      match FromBytes(b)
      case None => Raise(ValueError)
      case Some(t) => if o.timestampAsInt then Ok(Int(ToUnixNano(t))) else Ok(Time(t))
  }

  /** The conversion of a header that is not a container into an object. */
  function Build(o: Options, t: Token): Outcome<Value>
    requires !t.ArrayOf? && !t.MapOf?
  {
    match t
    case Immediate(v) => Ok(v)
    case RawBody(b) => if o.raw then Ok(Bin(b)) else if o.isUtf8(b) then Ok(Str(b)) else Raise(ValueError)
    case BinBody(b) => Ok(Bin(b))
    case ExtBody(code, b) =>
      if code == -1 then BuildTimestamp(o, b)
      else if 0 <= code <= 127 then Ok(Ext(code, b))
      else Raise(ValueError)
  }

  predicate KeyAllowed(o: Options, k: Value) {
    o.strictMapKey ==> k.Str? || k.Bin?
  }

  /**
   * `_unpack` at position `p`, building objects if `construct` and skipping otherwise. `depth` is the
   * number of containers the interpreter still lets us open inside each other (RecursionError beyond it).
   */
  function Decode(o: Options, construct: bool, s: Bytes, p: nat, depth: nat): (r: Read<Value>)
    requires p <= |s|
    decreases |s| - p, 0, 0
    ensures r.Done? ==> p < r.end <= |s|
  {
    match ReadHeader(o, s, p)
    case NeedMore => NeedMore
    case Fail(e) => Fail(e)
    case Done(t, q) =>
      match t {
        case ArrayOf(n) =>
          if depth == 0 then Fail(StackError)
          else
            match DecodeItems(o, construct, s, q, n, depth - 1, []) {
              case NeedMore => NeedMore
              case Fail(e) => Fail(e)
              case Done(vs, r) => Done(if construct then Arr(vs) else Nil, r)
            }
        case MapOf(n) =>
          if depth == 0 then Fail(StackError)
          else
            match DecodePairs(o, construct, s, q, n, depth - 1, []) {
              case NeedMore => NeedMore
              case Fail(e) => Fail(e)
              case Done(d, r) => Done(if construct then Map(d) else Nil, r)
            }
        case _ =>
          if !construct then Done(Nil, q)
          else
            match Build(o, t) {
              case Ok(v) => Done(v, q)
              case Raise(e) => Fail(e)
            }
      }
  }

  /** The loop over the `n` remaining elements of an array, after the elements `acc`. */
  function DecodeItems(o: Options, construct: bool, s: Bytes, p: nat, n: nat, depth: nat, acc: seq<Value>)
    : (r: Read<seq<Value>>)
    requires p <= |s|
    decreases |s| - p, 1, n
    ensures r.Done? ==> p + n <= r.end <= |s|
  {
    if n == 0 then Done(acc, p)
    else
      match Decode(o, construct, s, p, depth)
      case NeedMore => NeedMore
      case Fail(e) => Fail(e)
      case Done(v, q) => DecodeItems(o, construct, s, q, n - 1, depth, if construct then acc + [v] else [])
  }

  /** The loop over the `n` remaining pairs of a map whose dict is `d` so far. */
  function DecodePairs(o: Options, construct: bool, s: Bytes, p: nat, n: nat, depth: nat, d: seq<Pair>)
    : (r: Read<seq<Pair>>)
    requires p <= |s|
    decreases |s| - p, 1, n
    ensures r.Done? ==> p + 2 * n <= r.end <= |s|
  {
    if n == 0 then Done(d, p)
    else
      match Decode(o, construct, s, p, depth)
      case NeedMore => NeedMore
      case Fail(e) => Fail(e)
      case Done(k, q) =>
        if construct && !KeyAllowed(o, k) then Fail(ValueError)
        else
          match Decode(o, construct, s, q, depth) {
            case NeedMore => NeedMore
            case Fail(e) => Fail(e)
            case Done(v, r) =>
              if construct && !Hashable(k) then Fail(TypeError)
              else DecodePairs(o, construct, s, r, n - 1, depth, if construct then DictSet(d, k, v) else [])
          }
  }

  // ---------- the decoder never looks past the object ----------

  lemma BodyIsLocal(s: Bytes, p: nat, n: nat, max: nat, more: Bytes)
    requires p <= |s|
    ensures !BodyAt(s, p, n, max).NeedMore? ==> BodyAt(s + more, p, n, max) == BodyAt(s, p, n, max)
  {
    if p + n <= |s| {
      assert (s + more)[p..p + n] == s[p..p + n];
    }
  }

  lemma SizedIsLocal(o: Options, s: Bytes, q: nat, b: Byte, more: Bytes)
    requires q <= |s| && 0xc4 <= b <= 0xdf
    ensures !ReadSized(o, s, q, b).NeedMore? ==> ReadSized(o, s + more, q, b) == ReadSized(o, s, q, b)
  {
    hide Load, BodyAt;
    var t := s + more;
    var w := if b == 0xc4 || b == 0xc7 || b == 0xd9 then 1
             else if b == 0xc5 || b == 0xc8 || b == 0xda || b == 0xdc || b == 0xde then 2
             else if 0xca <= b <= 0xd3 then NumberWidth(b) else 4;
    if 0xd4 <= b <= 0xd8 {
      var n := if b == 0xd4 then 1 else if b == 0xd5 then 2 else if b == 0xd6 then 4 else if b == 0xd7 then 8 else 16;
      assert q + n + 1 <= |s| ==> t[q] == s[q] && t[q + 1..q + 1 + n] == s[q + 1..q + 1 + n];
    } else if q + w <= |s| {
      assert t[q..q + w] == s[q..q + w];
      var n := Load(s[q..q + w]);
      if b <= 0xc6 { BodyIsLocal(s, q + w, n, o.maxBin, more); }
      else if b <= 0xc9 && q + w < |s| { BodyIsLocal(s, q + w + 1, n, o.maxExt, more); }
      else if 0xd9 <= b <= 0xdb { BodyIsLocal(s, q + w, n, o.maxStr, more); }
    }
  }

  lemma HeaderIsLocal(o: Options, s: Bytes, p: nat, more: Bytes)
    requires p <= |s|
    ensures !ReadHeader(o, s, p).NeedMore? ==> ReadHeader(o, s + more, p) == ReadHeader(o, s, p)
  {
    hide ReadSized;
    if p < |s| {
      var b := s[p];
      assert (s + more)[p] == b;
      if 0xc4 <= b <= 0xdf {
        SizedIsLocal(o, s, p + 1, b, more);
      } else if 0xa0 <= b < 0xc0 && p + 1 + b - 0xa0 <= |s| {
        assert (s + more)[p + 1..p + 1 + b - 0xa0] == s[p + 1..p + 1 + b - 0xa0];
      }
    }
  }

  /** Once the decoder has an answer, bytes that arrive later do not change it. */
  lemma {:induction false} DecodeIsLocal(o: Options, c: bool, s: Bytes, p: nat, depth: nat, more: Bytes)
    requires p <= |s|
    ensures !Decode(o, c, s, p, depth).NeedMore? ==> Decode(o, c, s + more, p, depth) == Decode(o, c, s, p, depth)
    decreases |s| - p, 0, 0
  {
    HeaderIsLocal(o, s, p, more);
    match ReadHeader(o, s, p)
    case Done(ArrayOf(n), q) => if depth > 0 { ItemsAreLocal(o, c, s, q, n, depth - 1, [], more); }
    case Done(MapOf(n), q) => if depth > 0 { PairsAreLocal(o, c, s, q, n, depth - 1, [], more); }
    case _ =>
  }

  lemma {:induction false} ItemsAreLocal(o: Options, c: bool, s: Bytes, p: nat, n: nat, depth: nat, acc: seq<Value>,
                                         more: Bytes)
    requires p <= |s|
    ensures !DecodeItems(o, c, s, p, n, depth, acc).NeedMore? ==>
              DecodeItems(o, c, s + more, p, n, depth, acc) == DecodeItems(o, c, s, p, n, depth, acc)
    decreases |s| - p, 1, n
  {
    if n == 0 {
    } else {
      DecodeIsLocal(o, c, s, p, depth, more);
      match Decode(o, c, s, p, depth)
      case Done(v, q) => ItemsAreLocal(o, c, s, q, n - 1, depth, if c then acc + [v] else [], more);
      case _ =>
    }
  }

  lemma {:induction false} PairsAreLocal(o: Options, c: bool, s: Bytes, p: nat, n: nat, depth: nat, d: seq<Pair>,
                                         more: Bytes)
    requires p <= |s|
    ensures !DecodePairs(o, c, s, p, n, depth, d).NeedMore? ==>
              DecodePairs(o, c, s + more, p, n, depth, d) == DecodePairs(o, c, s, p, n, depth, d)
    decreases |s| - p, 1, n
  {
    if n == 0 {
    } else {
      DecodeIsLocal(o, c, s, p, depth, more);
      match Decode(o, c, s, p, depth)
      case Done(k, q) =>
        DecodeIsLocal(o, c, s, q, depth, more);
        match Decode(o, c, s, q, depth) {
          case Done(v, r) =>
            PairsAreLocal(o, c, s, r, n - 1, depth, if c then DictSet(d, k, v) else [], more);
          case _ =>
        }
      case _ =>
    }
  }

  // ---------- the errors of the decoder are its own ----------

  predicate DecodeError(e: Error) {
    e == FormatError || e == ValueError || e == TypeError || e == StackError
  }

  lemma BuildErrors(o: Options, t: Token)
    requires !t.ArrayOf? && !t.MapOf?
    ensures Build(o, t).Raise? ==> Build(o, t).error == ValueError
  {
  }

  lemma HeaderErrors(o: Options, s: Bytes, p: nat)
    requires p <= |s|
    ensures ReadHeader(o, s, p).Fail? ==> DecodeError(ReadHeader(o, s, p).error)
  {
  }

  lemma {:induction false} DecodeErrors(o: Options, c: bool, s: Bytes, p: nat, depth: nat)
    requires p <= |s|
    ensures Decode(o, c, s, p, depth).Fail? ==> DecodeError(Decode(o, c, s, p, depth).error)
    decreases |s| - p, 0, 0
  {
    hide ReadHeader;
    HeaderErrors(o, s, p);
    match ReadHeader(o, s, p)
    case Done(ArrayOf(n), q) => if depth > 0 { ItemErrors(o, c, s, q, n, depth - 1, []); }
    case Done(MapOf(n), q) => if depth > 0 { PairErrors(o, c, s, q, n, depth - 1, []); }
    case _ =>
  }

  lemma {:induction false} ItemErrors(o: Options, c: bool, s: Bytes, p: nat, n: nat, depth: nat, acc: seq<Value>)
    requires p <= |s|
    ensures DecodeItems(o, c, s, p, n, depth, acc).Fail? ==> DecodeError(DecodeItems(o, c, s, p, n, depth, acc).error)
    decreases |s| - p, 1, n
  {
    hide Decode;
    if n == 0 {
    } else {
      DecodeErrors(o, c, s, p, depth);
      match Decode(o, c, s, p, depth)
      case Done(v, q) => ItemErrors(o, c, s, q, n - 1, depth, if c then acc + [v] else []);
      case _ =>
    }
  }

  lemma {:induction false} PairErrors(o: Options, c: bool, s: Bytes, p: nat, n: nat, depth: nat, d: seq<Pair>)
    requires p <= |s|
    ensures DecodePairs(o, c, s, p, n, depth, d).Fail? ==> DecodeError(DecodePairs(o, c, s, p, n, depth, d).error)
    decreases |s| - p, 1, n
  {
    hide Decode, DictSet;
    if n == 0 {
    } else {
      DecodeErrors(o, c, s, p, depth);
      match Decode(o, c, s, p, depth)
      case Done(k, q) =>
        DecodeErrors(o, c, s, q, depth);
        match Decode(o, c, s, q, depth) {
          case Done(v, r) => PairErrors(o, c, s, r, n - 1, depth, if c then DictSet(d, k, v) else []);
          case _ =>
        }
      case _ =>
    }
  }

  // ---------- skipping ----------

  lemma SkippingBuildsNothing(o: Options, s: Bytes, p: nat, depth: nat)
    requires p <= |s|
    ensures Decode(o, false, s, p, depth).Done? ==> Decode(o, false, s, p, depth).value == Nil
  {
  }

  /** `skip` consumes exactly what `unpack` would, on every input `unpack` accepts. */
  lemma {:induction false} SkipConsumesTheSame(o: Options, s: Bytes, p: nat, depth: nat)
    requires p <= |s|
    ensures match Decode(o, true, s, p, depth)
            case Done(v, q) => Decode(o, false, s, p, depth) == Done(Nil, q)
            case _ => true
    decreases |s| - p, 0, 0
  {
    match ReadHeader(o, s, p)
    case Done(ArrayOf(n), q) => if depth > 0 { SkipItems(o, s, q, n, depth - 1, []); }
    case Done(MapOf(n), q) => if depth > 0 { SkipPairs(o, s, q, n, depth - 1, []); }
    case _ =>
  }

  lemma {:induction false} SkipItems(o: Options, s: Bytes, p: nat, n: nat, depth: nat, acc: seq<Value>)
    requires p <= |s|
    ensures match DecodeItems(o, true, s, p, n, depth, acc)
            case Done(_, q) => DecodeItems(o, false, s, p, n, depth, []) == Done([], q)
            case _ => true
    decreases |s| - p, 1, n
  {
    if n == 0 {
    } else {
      SkipConsumesTheSame(o, s, p, depth);
      match Decode(o, true, s, p, depth)
      case Done(v, q) => SkipItems(o, s, q, n - 1, depth, acc + [v]);
      case _ =>
    }
  }

  lemma {:induction false} SkipPairs(o: Options, s: Bytes, p: nat, n: nat, depth: nat, d: seq<Pair>)
    requires p <= |s|
    ensures match DecodePairs(o, true, s, p, n, depth, d)
            case Done(_, q) => DecodePairs(o, false, s, p, n, depth, []) == Done([], q)
            case _ => true
    decreases |s| - p, 1, n
  {
    hide DictSet, KeyAllowed, Hashable;
    if n == 0 {
    } else {
      SkipConsumesTheSame(o, s, p, depth);
      match Decode(o, true, s, p, depth)
      case Done(k, q) =>
        SkipConsumesTheSame(o, s, q, depth);
        match Decode(o, true, s, q, depth) {
          case Done(v, r) => SkipPairs(o, s, r, n - 1, depth, DictSet(d, k, v));
          case _ =>
        }
      case _ =>
    }
  }

  // ---------- the recursion limit ----------

  /** A deeper recursion limit does not change a successful decoding. */
  lemma {:induction false} DeeperIsTheSame(o: Options, c: bool, s: Bytes, p: nat, depth: nat, depth': nat)
    requires p <= |s| && depth <= depth' && Decode(o, c, s, p, depth).Done?
    ensures Decode(o, c, s, p, depth') == Decode(o, c, s, p, depth)
    decreases |s| - p, 0, 0
  {
    hide ReadHeader, Build;
    match ReadHeader(o, s, p)
    case Done(ArrayOf(n), q) => DeeperItems(o, c, s, q, n, depth - 1, depth' - 1, []);
    case Done(MapOf(n), q) => DeeperPairs(o, c, s, q, n, depth - 1, depth' - 1, []);
    case _ =>
  }

  lemma {:induction false} DeeperItems(o: Options, c: bool, s: Bytes, p: nat, n: nat, depth: nat, depth': nat, acc: seq<Value>)
    requires p <= |s| && depth <= depth' && DecodeItems(o, c, s, p, n, depth, acc).Done?
    ensures DecodeItems(o, c, s, p, n, depth', acc) == DecodeItems(o, c, s, p, n, depth, acc)
    decreases |s| - p, 1, n
  {
    hide Decode;
    if n == 0 {
    } else {
      DeeperIsTheSame(o, c, s, p, depth, depth');
      var r := Decode(o, c, s, p, depth);
      DeeperItems(o, c, s, r.end, n - 1, depth, depth', if c then acc + [r.value] else []);
    }
  }

  lemma {:induction false} DeeperPairs(o: Options, c: bool, s: Bytes, p: nat, n: nat, depth: nat, depth': nat, d: seq<Pair>)
    requires p <= |s| && depth <= depth' && DecodePairs(o, c, s, p, n, depth, d).Done?
    ensures DecodePairs(o, c, s, p, n, depth', d) == DecodePairs(o, c, s, p, n, depth, d)
    decreases |s| - p, 1, n
  {
    hide Decode, DictSet;
    if n == 0 {
    } else {
      DeeperIsTheSame(o, c, s, p, depth, depth');
      var k := Decode(o, c, s, p, depth);
      DeeperIsTheSame(o, c, s, k.end, depth, depth');
      var v := Decode(o, c, s, k.end, depth);
      DeeperPairs(o, c, s, v.end, n - 1, depth, depth', if c then DictSet(d, k.value, v.value) else []);
    }
  }
}
