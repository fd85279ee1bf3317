/** Python values as the codec sees them, dictionaries, decoding options and exceptions. */
module Values {
  import opened ByteStrings
  import opened Timestamps
  import opened Floats

  /** The codes the constructor of ExtType lets through. */
  type ExtCode = c: int | 0 <= c <= 127

  /**
   * A `Str` holds the encoded form of a Python string; a `Map` lists the entries of a dict in
   * insertion order.
   */
  datatype Value =
    | Nil
    | Bool(b: bool)
    | Int(i: int)
    | Float(bits: Double)
    | Str(utf8: Bytes)
    | Bin(data: Bytes)
    | Ext(code: ExtCode, payload: Bytes)
    | Time(t: Timestamp)
    | Arr(items: seq<Value>)
    | Map(pairs: seq<Pair>)

  datatype Pair = Pair(key: Value, value: Value)

  datatype Error =
    | OutOfData
    | StopIteration
    | BufferFull
    | FormatError
    | StackError
    | ValueError
    | TypeError
    | OverflowError
    | StructError

  /** What a call that may raise comes back with. */
  datatype Outcome<+T> = Ok(value: T) | Raise(error: Error)

  /**
   * Decoding options. `isUtf8` tells which byte strings decode as UTF-8 and `widen` is the conversion
   * of a 4-byte float image to an 8-byte one; nothing is assumed of either. `checkNanos` is no choice of
   * the caller but of the implementation: only the Python one checks the nanoseconds of a timestamp that
   * is asked for as an integer.
   */
  datatype Options = Options(
    raw: bool,
    strictMapKey: bool,
    timestampAsInt: bool,
    checkNanos: bool,
    isUtf8: Bytes -> bool,
    widen: Bytes -> Double,
    maxStr: nat,
    maxBin: nat,
    maxArray: nat,
    maxMap: nat,
    maxExt: nat)

  // ---------- dictionaries ----------

  /** True, 1 and 1.0 are the same dict key in Python, and so are 0.0 and -0.0. */
  function KeyImage(k: Value): Value {
    match k
    case Bool(b) => Int(if b then 1 else 0)
    case Float(bits) => if IntegerOf(bits).Some? then Int(IntegerOf(bits).value) else k
    case _ => k
  }

  /** No NaN is the same key as another. */
  predicate SameKey(a: Value, b: Value) {
    KeyImage(a) == KeyImage(b) && !(a.Float? && IsNaN(a.bits))
  }

  predicate Hashable(v: Value) {
    !v.Arr? && !v.Map?
  }

  predicate HasKey(d: seq<Pair>, k: Value) {
    exists i :: 0 <= i < |d| && SameKey(d[i].key, k)
  }

  /** The entries of a dict: hashable keys, no two the same. */
  ghost predicate IsDict(d: seq<Pair>) {
    && (forall i :: 0 <= i < |d| ==> Hashable(d[i].key))
    && forall i, j :: 0 <= i < j < |d| ==> !SameKey(d[i].key, d[j].key)
  }

  /** `d[k] = v`: a known key keeps its place and its old spelling. */
  function DictSet(d: seq<Pair>, k: Value, v: Value): (r: seq<Pair>)
    ensures |d| <= |r| <= |d| + 1
  {
    if d == [] then [Pair(k, v)]
    else if SameKey(d[0].key, k) then [Pair(d[0].key, v)] + d[1..]
    else [d[0]] + DictSet(d[1..], k, v)
  }

  lemma {:induction false} DictSetFresh(d: seq<Pair>, k: Value, v: Value)
    requires !HasKey(d, k)
    ensures DictSet(d, k, v) == d + [Pair(k, v)]
  {
    if d == [] {
    } else {
      assert forall i :: 0 <= i < |d[1..]| ==> d[1..][i] == d[i + 1];
      assert !SameKey(d[0].key, k);
      DictSetFresh(d[1..], k, v);
      assert d == [d[0]] + d[1..];
    }
  }

  /** After `d[k] = v` the keys are those of `d` and `k`, `k` maps to `v`, and no other entry changed. */
  lemma {:induction false} DictSetLookup(d: seq<Pair>, k: Value, v: Value)
    requires IsDict(d) && Hashable(k)
    ensures IsDict(DictSet(d, k, v))
    ensures |DictSet(d, k, v)| == if HasKey(d, k) then |d| else |d| + 1
    ensures forall i :: 0 <= i < |d| ==>
              DictSet(d, k, v)[i] == if SameKey(d[i].key, k) then Pair(d[i].key, v) else d[i]
    ensures !HasKey(d, k) ==> DictSet(d, k, v)[|d|] == Pair(k, v)
  {
    hide KeyImage, Hashable;
    if HasKey(d, k) {
      if SameKey(d[0].key, k) {
      } else {
        var i :| 0 <= i < |d| && SameKey(d[i].key, k);
        assert d[1..][i - 1] == d[i];
        DictSetLookup(d[1..], k, v);
      }
    } else {
      DictSetFresh(d, k, v);
    }
  }
}
