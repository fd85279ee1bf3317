/** A stream of objects: what has been delivered, what is still to come, and any interleaving of `feed` and `next`. */
module Streams {
  import opened ByteStrings
  import opened Values
  import opened Decoder
  import Machine

  /** All complete objects from position `p` on, up to the first that is incomplete or malformed. */
  ghost function DecodeAll(o: Options, s: Bytes, p: nat, depth: nat): seq<Value>
    requires p <= |s|
    decreases |s| - p
  {
    match Decode(o, true, s, p, depth)
    case Done(v, q) => [v] + DecodeAll(o, s, q, depth)
    case _ => []
  }

  /** `vs` are the objects that stand in `s` one after the other from `p` to `q`. */
  ghost predicate Chain(o: Options, s: Bytes, p: nat, vs: seq<Value>, q: nat, depth: nat)
    requires p <= |s|
    decreases |vs|
  {
    if vs == [] then p == q
    else
      match Decode(o, true, s, p, depth)
      case Done(v, r) => v == vs[0] && Chain(o, s, r, vs[1..], q, depth)
      case _ => false
  }

  /** A chain ends inside the input, and goes forward. */
  lemma {:induction false} ChainBounds(o: Options, s: Bytes, p: nat, vs: seq<Value>, q: nat, depth: nat)
    requires p <= |s| && Chain(o, s, p, vs, q, depth)
    ensures p <= q <= |s|
    decreases |vs|
  {
    hide Decode;
    if vs == [] {
    } else {
      ChainBounds(o, s, Decode(o, true, s, p, depth).end, vs[1..], q, depth);
    }
  }

  /** One more object at the end of a chain. */
  lemma {:induction false} ChainGrows(o: Options, s: Bytes, p: nat, vs: seq<Value>, q: nat, depth: nat)
    requires p <= |s| && q <= |s| && Chain(o, s, p, vs, q, depth) && Decode(o, true, s, q, depth).Done?
    ensures var r := Decode(o, true, s, q, depth); Chain(o, s, p, vs + [r.value], r.end, depth)
    decreases |vs|
  {
    hide Decode;
    var x := Decode(o, true, s, q, depth).value;
    if vs == [] {
      assert [x][1..] == [];
    } else {
      ChainGrows(o, s, Decode(o, true, s, p, depth).end, vs[1..], q, depth);
      assert (vs + [x])[1..] == vs[1..] + [x];
    }
  }

  /** Bytes that arrive later leave a chain as it is. */
  lemma {:induction false} ChainIsStable(o: Options, s: Bytes, p: nat, vs: seq<Value>, q: nat, depth: nat, more: Bytes)
    requires p <= |s| && Chain(o, s, p, vs, q, depth)
    ensures Chain(o, s + more, p, vs, q, depth)
    decreases |vs|
  {
    hide Decode;
    if vs == [] {
    } else {
      DecodeIsLocal(o, true, s, p, depth, more);
      ChainIsStable(o, s, Decode(o, true, s, p, depth).end, vs[1..], q, depth, more);
    }
  }

  /** Conservation: what has been delivered followed by what is to come is all there is, each object once. */
  lemma {:induction false} NothingLostOrRepeated(o: Options, s: Bytes, p: nat, vs: seq<Value>, q: nat, depth: nat)
    requires p <= |s| && q <= |s| && Chain(o, s, p, vs, q, depth)
    ensures DecodeAll(o, s, p, depth) == vs + DecodeAll(o, s, q, depth)
    decreases |vs|
  {
    hide Decode;
    if vs == [] {
    } else {
      NothingLostOrRepeated(o, s, Decode(o, true, s, p, depth).end, vs[1..], q, depth);
      assert vs == [vs[0]] + vs[1..];
    }
  }

  // ---------- runs ----------

  /** An unpacker between two calls: all input so far, the end of the last object, and the objects delivered. */
  datatype Session = Session(input: Bytes, offset: nat, delivered: seq<Value>)

  datatype Event = Feed(data: Bytes) | Next

  const FRESH: Session := Session([], 0, [])

  /** One call: a rejected `next` (StopIteration) changes nothing; any other exception ends the run. */
  ghost function After(o: Options, depth: nat, x: Session, e: Event): Outcome<Session>
    requires x.offset <= |x.input|
    ensures After(o, depth, x, e).Ok? ==> var y := After(o, depth, x, e).value; y.offset <= |y.input|
  {
    match e
    case Feed(data) => Ok(x.(input := x.input + data))
    case Next =>
      match Decode(o, true, x.input, x.offset, depth) {
        case Done(v, q) => Ok(Session(x.input, q, x.delivered + [v]))
        case NeedMore => Ok(x)
        case Fail(e) => Raise(e)
      }
  }

  ghost function Play(o: Options, depth: nat, x: Session, events: seq<Event>): Outcome<Session>
    requires x.offset <= |x.input|
    ensures Play(o, depth, x, events).Ok? ==> var y := Play(o, depth, x, events).value; y.offset <= |y.input|
    decreases |events|
  {
    if events == [] then Ok(x)
    else
      match After(o, depth, x, events[0])
      case Ok(y) => Play(o, depth, y, events[1..])
      case Raise(e) => Raise(e)
  }

  /** A run may be cut in two; an exception in the first part is the exception of the whole. */
  lemma {:induction false} PlayConcat(o: Options, depth: nat, x: Session, a: seq<Event>, b: seq<Event>)
    requires x.offset <= |x.input|
    ensures Play(o, depth, x, a + b) ==
            var y := Play(o, depth, x, a);
            if y.Ok? then Play(o, depth, y.value, b) else y
    decreases |a|
  {
    hide After;
    if a == [] {
      assert a + b == b;
    } else {
      assert (a + b)[0] == a[0] && (a + b)[1..] == a[1..] + b;
      if After(o, depth, x, a[0]).Ok? {
        PlayConcat(o, depth, After(o, depth, x, a[0]).value, a[1..], b);
      }
    }
  }

  /** One more call at the end of a run, and what the run so far means for a longer one. */
  lemma PlayStep(o: Options, depth: nat, x: Session, events: seq<Event>, i: nat)
    requires x.offset <= |x.input| && i < |events|
    ensures var y := Play(o, depth, x, events[..i]);
            && Play(o, depth, x, events[..i + 1]) == (if y.Ok? then After(o, depth, y.value, events[i]) else y)
            && (Play(o, depth, x, events[..i + 1]).Raise? ==>
                  Play(o, depth, x, events) == Play(o, depth, x, events[..i + 1]))
  {
    hide After;
    PlayConcat(o, depth, x, events[..i], [events[i]]);
    assert events[..i] + [events[i]] == events[..i + 1];
    var y := Play(o, depth, x, events[..i]);
    if y.Ok? {
      assert [events[i]][1..] == [];
    }
    PlayConcat(o, depth, x, events[..i + 1], events[i + 1..]);
    assert events[..i + 1] + events[i + 1..] == events;
  }

  function Fed(events: seq<Event>): Bytes {
    if events == [] then []
    else match events[0]
      case Feed(data) => data + Fed(events[1..])
      case Next => Fed(events[1..])
  }

  lemma {:induction false} FedConcat(a: seq<Event>, b: seq<Event>)
    ensures Fed(a + b) == Fed(a) + Fed(b)
  {
    if a == [] {
      assert a + b == b;
    } else {
      assert (a + b)[0] == a[0] && (a + b)[1..] == a[1..] + b;
      FedConcat(a[1..], b);
    }
  }

  /** Behind `before`, event `i` brings its data, if any. */
  lemma FedSoFar(before: Bytes, events: seq<Event>, i: nat)
    requires i < |events|
    ensures before + Fed(events[..i + 1]) ==
            if events[i].Feed? then before + Fed(events[..i]) + events[i].data else before + Fed(events[..i])
  {
    assert events[..i + 1] == events[..i] + [events[i]];
    FedConcat(events[..i], [events[i]]);
    assert [events[i]][1..] == [];
    if events[i].Feed? {
      assert events[i].data + [] == events[i].data;
      assert before + Fed(events[..i]) + events[i].data == before + (Fed(events[..i]) + events[i].data);
    } else {
      assert Fed(events[..i]) + [] == Fed(events[..i]);
    }
  }

  lemma {:induction false} FedStep(events: seq<Event>, i: nat)
    requires i < |events|
    ensures Fed(events[i..]) == (if events[i].Feed? then events[i].data else []) + Fed(events[i + 1..])
  {
    assert events[i..][0] == events[i] && events[i..][1..] == events[i + 1..];
    assert [] + Fed(events[i + 1..]) == Fed(events[i + 1..]);
  }

  lemma {:induction false} PlayKeepsChain(o: Options, depth: nat, x: Session, events: seq<Event>)
    requires x.offset <= |x.input| && Chain(o, x.input, 0, x.delivered, x.offset, depth)
    ensures match Play(o, depth, x, events)
            case Ok(y) => y.input == x.input + Fed(events) && Chain(o, y.input, 0, y.delivered, y.offset, depth)
            case Raise(_) => true
    decreases |events|
  {
    hide Decode, Chain;
    if events == [] {
      assert x.input + [] == x.input;
    } else {
      match events[0] {
        case Feed(data) => ChainIsStable(o, x.input, 0, x.delivered, x.offset, depth, data);
          assert x.input + data + Fed(events[1..]) == x.input + (data + Fed(events[1..]));
        case Next =>
          if Decode(o, true, x.input, x.offset, depth).Done? {
            ChainGrows(o, x.input, 0, x.delivered, x.offset, depth);
          }
      }
      match After(o, depth, x, events[0])
      case Ok(y) => PlayKeepsChain(o, depth, y, events[1..]);
      case Raise(_) =>
    }
  }

  /** `next` would be rejected. */
  ghost predicate Drained(o: Options, depth: nat, x: Session)
    requires x.offset <= |x.input|
  {
    Decode(o, true, x.input, x.offset, depth).NeedMore?
  }

  /**
   * For any interleaving of `feed` and `next` that raises nothing but StopIteration, the objects delivered
   * are a prefix of the decoding of the concatenated input, and once `next` is rejected they are all of it.
   */
  lemma AnyInterleaving(o: Options, depth: nat, events: seq<Event>)
    requires Play(o, depth, FRESH, events).Ok?
    ensures var y, s := Play(o, depth, FRESH, events).value, Fed(events);
            && y.input == s
            && DecodeAll(o, s, 0, depth) == y.delivered + DecodeAll(o, s, y.offset, depth)
            && (Drained(o, depth, y) ==> DecodeAll(o, s, 0, depth) == y.delivered)
  {
    hide Decode;
    PlayKeepsChain(o, depth, FRESH, events);
    var y := Play(o, depth, FRESH, events).value;
    NothingLostOrRepeated(o, y.input, 0, y.delivered, y.offset, depth);
  }

  /** From `p` on the stream holds complete objects and then at most the beginning of one. */
  ghost predicate WellFormed(o: Options, s: Bytes, p: nat, depth: nat)
    requires p <= |s|
    decreases |s| - p
  {
    match Decode(o, true, s, p, depth)
    case Done(_, q) => WellFormed(o, s, q, depth)
    case NeedMore => true
    case Fail(_) => false
  }

  /** From `p` on the input is complete objects, to its end. */
  ghost predicate Complete(o: Options, s: Bytes, p: nat, depth: nat)
    requires p <= |s|
    decreases |s| - p
  {
    match Decode(o, true, s, p, depth)
    case Done(_, q) => Complete(o, s, q, depth)
    case _ => p == |s|
  }

  /** An object found in the first part of a complete input leaves it complete behind the object. */
  lemma CompleteGoesOn(o: Options, s: Bytes, p: nat, depth: nat, more: Bytes)
    requires p <= |s| && Complete(o, s + more, p, depth) && Decode(o, true, s, p, depth).Done?
    ensures Complete(o, s + more, Decode(o, true, s, p, depth).end, depth)
  {
    hide Decode;
    DecodeIsLocal(o, true, s, p, depth, more);
  }

  /** On a well-formed input no interleaving raises anything but StopIteration. */
  lemma {:induction false} WellFormedNeverRaises(o: Options, depth: nat, x: Session, events: seq<Event>)
    requires x.offset <= |x.input| && WellFormed(o, x.input + Fed(events), x.offset, depth)
    ensures Play(o, depth, x, events).Ok?
    decreases |events|
  {
    hide Decode;
    if events == [] {
    } else {
      match events[0] {
        case Feed(data) =>
          assert x.input + data + Fed(events[1..]) == x.input + (data + Fed(events[1..]));
          WellFormedNeverRaises(o, depth, x.(input := x.input + data), events[1..]);
        case Next =>
          DecodeIsLocal(o, true, x.input, x.offset, depth, Fed(events));
          WellFormedNeverRaises(o, depth, After(o, depth, x, Next).value, events[1..]);
      }
    }
  }

  /** Two drained runs over the same bytes, however cut and interleaved, delivered the same objects. */
  lemma CuttingDoesNotMatter(o: Options, depth: nat, events: seq<Event>, events': seq<Event>)
    requires Fed(events) == Fed(events')
    requires Play(o, depth, FRESH, events).Ok? && Drained(o, depth, Play(o, depth, FRESH, events).value)
    requires Play(o, depth, FRESH, events').Ok? && Drained(o, depth, Play(o, depth, FRESH, events').value)
    ensures Play(o, depth, FRESH, events).value.delivered == Play(o, depth, FRESH, events').value.delivered
  {
    hide Decode;
    AnyInterleaving(o, depth, events);
    AnyInterleaving(o, depth, events');
  }

  // ---------- reading a container piece by piece ----------

  lemma EmptyChain(o: Options, s: Bytes, p: nat, depth: nat)
    requires p <= |s|
    ensures Chain(o, s, p, [], p, depth)
  {
  }

  lemma LeavesAreNotArrays(o: Options, s: Bytes, p: nat)
    requires p <= |s|
    ensures match ReadHeader(o, s, p)
            case Done(Immediate(v), _) => !v.Arr?
            case _ => true
  {
  }

  lemma {:induction false} ItemsAreAChain(o: Options, s: Bytes, from: nat, p: nat, n: nat, depth: nat, acc: seq<Value>)
    requires from <= p <= |s| && depth > 0 && Chain(o, s, from, acc, p, depth)
    requires DecodeItems(o, true, s, p, n, depth - 1, acc).Done?
    ensures var r := DecodeItems(o, true, s, p, n, depth - 1, acc);
            |r.value| == |acc| + n && Chain(o, s, from, r.value, r.end, depth)
    decreases n
  {
    hide Decode, Chain;
    if n == 0 {
    } else {
      DeeperIsTheSame(o, true, s, p, depth - 1, depth);
      var r := Decode(o, true, s, p, depth - 1);
      ChainGrows(o, s, from, acc, p, depth);
      ItemsAreAChain(o, s, from, r.end, n - 1, depth, acc + [r.value]);
    }
  }

  /**
   * After `read_array_header` has returned n, the next n `unpack` calls return the elements of the array
   * and end where the array ends.
   */
  lemma ArrayPieceByPiece(o: Options, s: Bytes, p: nat, depth: nat)
    requires p <= |s| && Decode(o, true, s, p, depth).Done? && Decode(o, true, s, p, depth).value.Arr?
    ensures var r := Decode(o, true, s, p, depth);
            var h := ReadHeader(o, s, p);
            h.Done? && h.value == ArrayOf(|r.value.items|) && Chain(o, s, h.end, r.value.items, r.end, depth)
  {
    hide Chain, ReadHeader;
    match ReadHeader(o, s, p)
    case Done(ArrayOf(n), q) =>
      assert Chain(o, s, q, [], q, depth) by { EmptyChain(o, s, q, depth); }
      ItemsAreAChain(o, s, q, q, n, depth, []);
    case Done(MapOf(n), q) =>
    case Done(t, q) => LeavesAreNotArrays(o, s, p);
  }

  /** Keys and values in turn, stored into a dict that holds `d` already. */
  function Stored(d: seq<Pair>, flat: seq<Value>): seq<Pair>
    requires |flat| % 2 == 0
    decreases |flat|
  {
    if flat == [] then d else Stored(DictSet(d, flat[0], flat[1]), flat[2..])
  }

  lemma LeavesAreNotMaps(o: Options, s: Bytes, p: nat)
    requires p <= |s|
    ensures match ReadHeader(o, s, p)
            case Done(Immediate(v), _) => !v.Map?
            case _ => true
  {
  }

  lemma {:induction false} PairsAreAChain(o: Options, s: Bytes, p: nat, n: nat, depth: nat, d: seq<Pair>)
    requires p <= |s| && depth > 0 && DecodePairs(o, true, s, p, n, depth - 1, d).Done?
    ensures var r := DecodePairs(o, true, s, p, n, depth - 1, d);
            exists flat :: Chain(o, s, p, flat, r.end, depth) && |flat| == 2 * n && Stored(d, flat) == r.value
    decreases n
  {
    hide Decode, DictSet;
    if n == 0 {
      assert Chain(o, s, p, [], p, depth) && Stored(d, []) == d;
    } else {
      var end := DecodePairs(o, true, s, p, n, depth - 1, d).end;
      DeeperIsTheSame(o, true, s, p, depth - 1, depth);
      var k := Decode(o, true, s, p, depth - 1);
      DeeperIsTheSame(o, true, s, k.end, depth - 1, depth);
      var v := Decode(o, true, s, k.end, depth - 1);
      PairsAreAChain(o, s, v.end, n - 1, depth, DictSet(d, k.value, v.value));
      var rest :| Chain(o, s, v.end, rest, end, depth) && |rest| == 2 * (n - 1) &&
                  Stored(DictSet(d, k.value, v.value), rest) == DecodePairs(o, true, s, p, n, depth - 1, d).value;
      var flat := [k.value, v.value] + rest;
      assert flat[1..] == [v.value] + rest && flat[1..][1..] == rest && flat[2..] == rest;
      assert Chain(o, s, k.end, flat[1..], end, depth);
      assert Chain(o, s, p, flat, end, depth);
    }
  }

  /**
   * After `read_map_header` has returned n, the next 2n `unpack` calls return keys and values that, stored
   * in turn, make the dict `unpack` would have returned, and end where the map ends.
   */
  lemma MapPieceByPiece(o: Options, s: Bytes, p: nat, depth: nat)
    requires p <= |s| && Decode(o, true, s, p, depth).Done? && Decode(o, true, s, p, depth).value.Map?
    ensures var r := Decode(o, true, s, p, depth);
            var h := ReadHeader(o, s, p);
            && h.Done? && h.value.MapOf?
            && exists flat ::
                 Chain(o, s, h.end, flat, r.end, depth) && |flat| == 2 * h.value.n && Stored([], flat) == r.value.pairs
  {
    hide Chain, ReadHeader;
    match ReadHeader(o, s, p)
    case Done(ArrayOf(n), q) =>
    case Done(MapOf(n), q) => PairsAreAChain(o, s, q, n, depth, []);
    case Done(t, q) => LeavesAreNotMaps(o, s, p);
  }

  /** The two implementations read the same container sizes; only the fallback checks them against its limits. */
  lemma ContainerHeadersAgree(o: Options, s: Bytes, p: nat)
    requires p < |s|
    ensures match Machine.ContainerHeaderC(s, p, 0x90, 0xdc)
            case Size(n, q) => ReadHeader(o, s, p) == if n > o.maxArray then Fail(ValueError) else Done(ArrayOf(n), q)
            case NotYet => ReadHeader(o, s, p) == NeedMore
            case Unexpected => !ReadHeader(o, s, p).Done? || !ReadHeader(o, s, p).value.ArrayOf?
    ensures match Machine.ContainerHeaderC(s, p, 0x80, 0xde)
            case Size(n, q) => ReadHeader(o, s, p) == if n > o.maxMap then Fail(ValueError) else Done(MapOf(n), q)
            case NotYet => ReadHeader(o, s, p) == NeedMore
            case Unexpected => !ReadHeader(o, s, p).Done? || !ReadHeader(o, s, p).value.MapOf?
  {
    hide Load;
  }
}
