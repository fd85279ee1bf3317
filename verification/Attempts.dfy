/** How far one attempt of the recursive decoder asks into its input, whether it succeeds, fails or runs short. */
module Attempts {
  import opened ByteStrings
  import opened Values
  import opened Decoder

  /** A body is asked for unless its length is refused. */
  function BodyReach(p: nat, n: nat, max: nat): nat {
    if n > max then p else p + n
  }

  /** A length of `w` bytes, and behind it a body of that length. */
  function BlobReach(s: Bytes, p: nat, w: nat, max: nat): nat
    requires p <= |s|
  {
    match SizeAt(s, p, w)
    case Done(n, q) => BodyReach(q, n, max)
    case _ => p + w
  }

  /** A length of `w` bytes with a type byte, and behind them a body of that length. */
  function ExtReach(s: Bytes, p: nat, w: nat, max: nat): nat
    requires p <= |s|
  {
    if |s| - p < w + 1 then p + w + 1 else BodyReach(p + w + 1, Load(s[p..p + w]), max)
  }

  /** A type byte and a body of `n` bytes, asked for together unless the length is refused. */
  function FixExtReach(p: nat, n: nat, max: nat): nat {
    if max < n then p else p + n + 1
  }

  /** The headers 0xc4 to 0xdf, from the byte after the header byte on. */
  function SizedReach(o: Options, s: Bytes, q: nat, b: Byte): nat
    requires q <= |s| && 0xc4 <= b <= 0xdf
  {
    if b <= 0xc6 then BlobReach(s, q, if b == 0xc4 then 1 else if b == 0xc5 then 2 else 4, o.maxBin)
    else if b <= 0xc9 then ExtReach(s, q, if b == 0xc7 then 1 else if b == 0xc8 then 2 else 4, o.maxExt)
    else if b <= 0xd3 then q + NumberWidth(b)
    else if b <= 0xd8 then
      FixExtReach(q, if b == 0xd4 then 1 else if b == 0xd5 then 2 else if b == 0xd6 then 4
                     else if b == 0xd7 then 8 else 16, o.maxExt)
    else if b <= 0xdb then BlobReach(s, q, if b == 0xd9 then 1 else if b == 0xda then 2 else 4, o.maxStr)
    else q + if b == 0xdc || b == 0xde then 2 else 4
  }

  function HeaderReach(o: Options, s: Bytes, p: nat): nat
    requires p <= |s|
  {
    if p == |s| then p + 1
    else if 0xa0 <= s[p] < 0xc0 then BodyReach(p + 1, s[p] - 0xa0, o.maxStr)
    else if 0xc4 <= s[p] <= 0xdf then SizedReach(o, s, p + 1, s[p])
    else p + 1
  }

  /** The end of the last read of an attempt at one object. */
  function Reach(o: Options, c: bool, s: Bytes, p: nat, depth: nat): nat
    requires p <= |s|
    decreases |s| - p, 0, 0
  {
    match ReadHeader(o, s, p)
    case Done(ArrayOf(n), q) => if depth == 0 then q else ItemsReach(o, c, s, q, n, depth - 1)
    case Done(MapOf(n), q) => if depth == 0 then q else PairsReach(o, c, s, q, n, depth - 1)
    case _ => HeaderReach(o, s, p)
  }

  function ItemsReach(o: Options, c: bool, s: Bytes, p: nat, n: nat, depth: nat): nat
    requires p <= |s|
    decreases |s| - p, 1, n
  {
    if n == 0 then p
    else
      match Decode(o, c, s, p, depth)
      case Done(_, q) => ItemsReach(o, c, s, q, n - 1, depth)
      case _ => Reach(o, c, s, p, depth)
  }

  function PairsReach(o: Options, c: bool, s: Bytes, p: nat, n: nat, depth: nat): nat
    requires p <= |s|
    decreases |s| - p, 1, n
  {
    if n == 0 then p
    else
      match Decode(o, c, s, p, depth)
      case Done(k, q) =>
        if c && !KeyAllowed(o, k) then q
        else
          match Decode(o, c, s, q, depth) {
            case Done(_, r) => if c && !Hashable(k) then r else PairsReach(o, c, s, r, n - 1, depth)
            case _ => Reach(o, c, s, q, depth)
          }
      case _ => Reach(o, c, s, p, depth)
  }

  // ---------- what the reach says of the outcome ----------

  /** `reach` is the end of a success, inside the input for a failure, and outside of it where more is needed. */
  predicate Consistent<T>(r: Read<T>, reach: nat, s: Bytes) {
    match r
    case Done(_, q) => reach == q
    case Fail(_) => reach <= |s|
    case NeedMore => reach > |s|
  }

  lemma SizedReachFits(o: Options, s: Bytes, q: nat, b: Byte)
    requires q <= |s| && 0xc4 <= b <= 0xdf
    ensures Consistent(ReadSized(o, s, q, b), SizedReach(o, s, q, b), s)
  {
    hide Load, NumberOf;
  }

  lemma HeaderReachFits(o: Options, s: Bytes, p: nat)
    requires p <= |s|
    ensures Consistent(ReadHeader(o, s, p), HeaderReach(o, s, p), s)
  {
    hide ReadSized, SizedReach;
    if p < |s| && 0xc4 <= s[p] <= 0xdf {
      SizedReachFits(o, s, p + 1, s[p]);
    }
  }

  /** An attempt needs more bytes exactly if it asks beyond the input, and an object ends where it has asked last. */
  lemma {:induction false} ReachFits(o: Options, c: bool, s: Bytes, p: nat, depth: nat)
    requires p <= |s|
    ensures Consistent(Decode(o, c, s, p, depth), Reach(o, c, s, p, depth), s)
    decreases |s| - p, 0, 0
  {
    hide ReadHeader, HeaderReach;
    HeaderReachFits(o, s, p);
    match ReadHeader(o, s, p)
    case Done(ArrayOf(n), q) => if depth > 0 { ItemsReachFits(o, c, s, q, n, depth - 1, []); }
    case Done(MapOf(n), q) => if depth > 0 { PairsReachFits(o, c, s, q, n, depth - 1, []); }
    case _ =>
  }

  lemma {:induction false} ItemsReachFits(o: Options, c: bool, s: Bytes, p: nat, n: nat, depth: nat, acc: seq<Value>)
    requires p <= |s|
    ensures Consistent(DecodeItems(o, c, s, p, n, depth, acc), ItemsReach(o, c, s, p, n, depth), s)
    decreases |s| - p, 1, n
  {
    hide Decode, Reach;
    if n == 0 {
    } else {
      ReachFits(o, c, s, p, depth);
      match Decode(o, c, s, p, depth)
      case Done(v, q) => ItemsReachFits(o, c, s, q, n - 1, depth, if c then acc + [v] else []);
      case _ =>
    }
  }

  lemma {:induction false} PairsReachFits(o: Options, c: bool, s: Bytes, p: nat, n: nat, depth: nat, d: seq<Pair>)
    requires p <= |s|
    ensures Consistent(DecodePairs(o, c, s, p, n, depth, d), PairsReach(o, c, s, p, n, depth), s)
    decreases |s| - p, 1, n
  {
    hide Decode, Reach, DictSet, KeyAllowed, Hashable;
    if n == 0 {
    } else {
      ReachFits(o, c, s, p, depth);
      match Decode(o, c, s, p, depth)
      case Done(k, q) =>
        ReachFits(o, c, s, q, depth);
        match Decode(o, c, s, q, depth) {
          case Done(v, r) => PairsReachFits(o, c, s, r, n - 1, depth, if c then DictSet(d, k, v) else []);
          case _ =>
        }
      case _ =>
    }
  }

  // ---------- an attempt asks further and further ----------

  lemma HeaderAhead(o: Options, s: Bytes, p: nat)
    requires p <= |s|
    ensures p + 1 <= HeaderReach(o, s, p)
  {
    hide Load;
  }

  /** What is asked for a header is asked for the object. */
  lemma {:induction false} ReachAhead(o: Options, c: bool, s: Bytes, p: nat, depth: nat)
    requires p <= |s|
    ensures p <= HeaderReach(o, s, p) <= Reach(o, c, s, p, depth)
    decreases |s| - p, 0, 0
  {
    hide ReadHeader, HeaderReach;
    HeaderAhead(o, s, p);
    HeaderReachFits(o, s, p);
    match ReadHeader(o, s, p)
    case Done(ArrayOf(n), q) => if depth > 0 { ItemsAhead(o, c, s, q, n, depth - 1); }
    case Done(MapOf(n), q) => if depth > 0 { PairsAhead(o, c, s, q, n, depth - 1); }
    case _ =>
  }

  lemma {:induction false} ItemsAhead(o: Options, c: bool, s: Bytes, p: nat, n: nat, depth: nat)
    requires p <= |s|
    ensures p <= ItemsReach(o, c, s, p, n, depth)
    ensures n > 0 ==> Reach(o, c, s, p, depth) <= ItemsReach(o, c, s, p, n, depth)
    decreases |s| - p, 1, n
  {
    hide Decode, Reach;
    if n == 0 {
    } else {
      ReachFits(o, c, s, p, depth);
      ReachAhead(o, c, s, p, depth);
      match Decode(o, c, s, p, depth)
      case Done(_, q) => ItemsAhead(o, c, s, q, n - 1, depth);
      case _ =>
    }
  }

  lemma {:induction false} PairsAhead(o: Options, c: bool, s: Bytes, p: nat, n: nat, depth: nat)
    requires p <= |s|
    ensures p <= PairsReach(o, c, s, p, n, depth)
    ensures n > 0 ==> Reach(o, c, s, p, depth) <= PairsReach(o, c, s, p, n, depth)
    ensures n > 0 && Decode(o, c, s, p, depth).Done? && (c ==> KeyAllowed(o, Decode(o, c, s, p, depth).value)) ==>
              Reach(o, c, s, Decode(o, c, s, p, depth).end, depth) <= PairsReach(o, c, s, p, n, depth)
    decreases |s| - p, 1, n
  {
    hide Decode, Reach, KeyAllowed, Hashable;
    if n == 0 {
    } else {
      ReachFits(o, c, s, p, depth);
      ReachAhead(o, c, s, p, depth);
      match Decode(o, c, s, p, depth)
      case Done(k, q) =>
        ReachFits(o, c, s, q, depth);
        ReachAhead(o, c, s, q, depth);
        match Decode(o, c, s, q, depth) {
          case Done(_, r) => PairsAhead(o, c, s, r, n - 1, depth);
          case _ =>
        }
      case _ =>
    }
  }

  // ---------- one pair of a map ----------

  /** The key and value at `p`, as the loop over the pairs of a map takes them. */
  function PairAt(o: Options, c: bool, s: Bytes, p: nat, depth: nat): (r: Read<Pair>)
    requires p <= |s|
    ensures r.Done? ==> p < r.end <= |s|
  {
    match Decode(o, c, s, p, depth)
    case NeedMore => NeedMore
    case Fail(e) => Fail(e)
    case Done(k, q) =>
      if c && !KeyAllowed(o, k) then Fail(ValueError)
      else
        match Decode(o, c, s, q, depth) {
          case NeedMore => NeedMore
          case Fail(e) => Fail(e)
          case Done(v, r) => if c && !Hashable(k) then Fail(TypeError) else Done(Pair(k, v), r)
        }
  }

  function PairReach(o: Options, c: bool, s: Bytes, p: nat, depth: nat): nat
    requires p <= |s|
  {
    match Decode(o, c, s, p, depth)
    case Done(k, q) => if c && !KeyAllowed(o, k) then q else Reach(o, c, s, q, depth)
    case _ => Reach(o, c, s, p, depth)
  }

  lemma PairAhead(o: Options, c: bool, s: Bytes, p: nat, depth: nat)
    requires p <= |s|
    ensures p <= Reach(o, c, s, p, depth) <= PairReach(o, c, s, p, depth)
  {
    hide Decode, Reach, KeyAllowed;
    ReachAhead(o, c, s, p, depth);
    ReachFits(o, c, s, p, depth);
    match Decode(o, c, s, p, depth)
    case Done(_, q) => ReachAhead(o, c, s, q, depth);
    case _ =>
  }

  /** The loop over the pairs of a map takes one pair and goes on behind it. */
  lemma PairsFromPair(o: Options, c: bool, s: Bytes, p: nat, n: nat, depth: nat, d: seq<Pair>)
    requires p <= |s| && n > 0
    ensures DecodePairs(o, c, s, p, n, depth, d) ==
            match PairAt(o, c, s, p, depth)
            case NeedMore => NeedMore
            case Fail(e) => Fail(e)
            case Done(x, r) => DecodePairs(o, c, s, r, n - 1, depth, if c then DictSet(d, x.key, x.value) else [])
    ensures PairsReach(o, c, s, p, n, depth) ==
            match PairAt(o, c, s, p, depth)
            case Done(_, r) => PairsReach(o, c, s, r, n - 1, depth)
            case _ => PairReach(o, c, s, p, depth)
    ensures PairReach(o, c, s, p, depth) <= PairsReach(o, c, s, p, n, depth)
  {
    hide Decode, Reach, DictSet, KeyAllowed, Hashable;
    match Decode(o, c, s, p, depth)
    case Done(k, q) =>
      ReachFits(o, c, s, q, depth);
      match Decode(o, c, s, q, depth) {
        case Done(_, r) => PairsAhead(o, c, s, r, n - 1, depth);
        case _ =>
      }
    case _ =>
  }
}
