/** The timestamp extension type: the Python class of `ext.py` and the C pair that packs and unpacks it. */
module Timestamps {
  import opened ByteStrings

  const GIGA: int := 1_000_000_000
  const TWO_TO_THE_32: int := 0x1_0000_0000
  const TWO_TO_THE_34: int := 0x4_0000_0000
  const TWO_TO_THE_63: int := 0x8000_0000_0000_0000
  const TWO_TO_THE_64: int := 0x1_0000_0000_0000_0000

  datatype Option<+T> = None | Some(value: T)

  datatype Stamp = Stamp(seconds: int, nanoseconds: int)

  /** What the constructor of the Python class lets through. */
  type Timestamp = t: Stamp | 0 <= t.nanoseconds < GIGA witness Stamp(0, 0)

  /** The constructor: None stands for its ValueError. */
  function Make(seconds: int, nanoseconds: int): Option<Timestamp> {
    if 0 <= nanoseconds < GIGA then Some(Stamp(seconds, nanoseconds)) else None
  }

  /**
   * The payload of a timestamp. `seconds >> 34` is floor division; below 2^34 the two halves of
   * `nanoseconds << 34 | seconds` do not overlap, so the bit-or is a sum. None stands for the
   * struct.error of a number of seconds outside 64 bits.
   */
  function ToBytes(t: Timestamp): Option<Bytes>
  {
    if t.seconds / TWO_TO_THE_34 == 0 then
      var data64 := t.nanoseconds * TWO_TO_THE_34 + t.seconds;
      if data64 / TWO_TO_THE_32 % TWO_TO_THE_32 == 0 then Some(Store(data64, 4))
      else Some(Store(data64, 8))
    else if -TWO_TO_THE_63 <= t.seconds < TWO_TO_THE_63 then
      Pow256Values();
      Some(Store(t.nanoseconds, 4) + Store(Unsigned(t.seconds, 8), 8))
    else None
  }

  /** The inverse direction; None stands for the ValueError of a length or of the constructor. */
  function FromBytes(b: Bytes): Option<Timestamp>
  {
    if |b| == 4 then Make(Load(b), 0)
    else if |b| == 8 then Make(Load(b) % TWO_TO_THE_34, Load(b) / TWO_TO_THE_34)
    else if |b| == 12 then Make(Signed(Load(b[4..]), 8), Load(b[..4]))
    else None
  }

  /** `msgpack_pack_timestamp`, which works on 64-bit words and writes the payload only. */
  function PackC(seconds: int, nanoseconds: nat): Bytes
    requires -TWO_TO_THE_63 <= seconds < TWO_TO_THE_63 && nanoseconds < TWO_TO_THE_32
  {
    if seconds / TWO_TO_THE_34 == 0 then
      var data64 := nanoseconds * TWO_TO_THE_34 % TWO_TO_THE_64 + seconds;
      if data64 / TWO_TO_THE_32 % TWO_TO_THE_32 == 0 then Store(data64 % TWO_TO_THE_32, 4)
      else Store(data64, 8)
    else
      Pow256Values();
      Store(nanoseconds, 4) + Store(Unsigned(seconds, 8), 8)
  }

  /** `unpack_timestamp`: it fills (tv_sec, tv_nsec) and, unlike the class, does not check tv_nsec. */
  function UnpackC(b: Bytes): Option<(int, int)>
  {
    if |b| == 4 then Some((Load(b), 0))
    else if |b| == 8 then Some((Load(b) % TWO_TO_THE_34, Load(b) / TWO_TO_THE_34))
    else if |b| == 12 then Some((Signed(Load(b[4..]), 8), Load(b[..4])))
    else None
  }

  function FromUnixNano(ns: int): Timestamp {
    Stamp(ns / GIGA, ns % GIGA)
  }

  function ToUnixNano(t: Timestamp): int {
    t.seconds * GIGA + t.nanoseconds
  }

  /** Packing fails exactly on seconds outside 64 bits, and unpacking what was packed gives the timestamp back. */
  lemma RoundTrip(t: Timestamp)
    ensures ToBytes(t).Some? <==> -TWO_TO_THE_63 <= t.seconds < TWO_TO_THE_63
    ensures ToBytes(t).Some? ==> FromBytes(ToBytes(t).value) == Some(t)
  {
    Pow256Values();
    if t.seconds / TWO_TO_THE_34 == 0 {
      var data64 := t.nanoseconds * TWO_TO_THE_34 + t.seconds;
      assert data64 % TWO_TO_THE_34 == t.seconds && data64 / TWO_TO_THE_34 == t.nanoseconds;
      if data64 / TWO_TO_THE_32 % TWO_TO_THE_32 == 0 {
        assert data64 < TWO_TO_THE_32;
        LoadStore(data64, 4);
      } else {
        LoadStore(data64, 8);
      }
    } else if ToBytes(t).Some? {
      LoadStore(t.nanoseconds, 4);
      LoadStore(Unsigned(t.seconds, 8), 8);
      SignedUnsigned(t.seconds, 8);
      var b := ToBytes(t).value;
      assert b[..4] == Store(t.nanoseconds, 4) && b[4..] == Store(Unsigned(t.seconds, 8), 8);
    }
  }

  /** No payload that decodes to a timestamp is shorter than the one `ToBytes` picks for it. */
  lemma ShortestPayload(b: Bytes)
    requires FromBytes(b).Some?
    ensures ToBytes(FromBytes(b).value).Some?
    ensures |ToBytes(FromBytes(b).value).value| <= |b|
  {
    Pow256Values();
    LoadBound(b);
    var t := FromBytes(b).value;
    if |b| == 4 {
      assert t.nanoseconds * TWO_TO_THE_34 == 0;
    } else if |b| == 12 {
      LoadBound(b[4..]);
    }
  }

  /** The nanosecond conversions are mutually inverse, also before the epoch. */
  lemma UnixNanoInverse(t: Timestamp, ns: int)
    ensures FromUnixNano(ToUnixNano(t)) == t
    ensures ToUnixNano(FromUnixNano(ns)) == ns
  {
  }

  lemma SmallModulus(n: nat, m: nat)
    requires n < m
    ensures n % m == n
  {
  }

  /** The C packer writes what the Python class writes, wherever the class writes anything. */
  lemma PackersAgree(t: Timestamp)
    requires -TWO_TO_THE_63 <= t.seconds < TWO_TO_THE_63
    ensures ToBytes(t) == Some(PackC(t.seconds, t.nanoseconds))
  {
    if t.seconds / TWO_TO_THE_34 == 0 {
      var shifted := t.nanoseconds * TWO_TO_THE_34;
      assert shifted < TWO_TO_THE_64 - TWO_TO_THE_34;
      SmallModulus(shifted, TWO_TO_THE_64);
      var data64 := shifted + t.seconds;
      if data64 / TWO_TO_THE_32 % TWO_TO_THE_32 == 0 {
        SmallModulus(data64 / TWO_TO_THE_32, TWO_TO_THE_32);
        SmallModulus(data64, TWO_TO_THE_32);
      }
    }
  }

  /** The C reader agrees with the Python one except that it lets nanoseconds of a second or more through. */
  lemma ReadersAgree(b: Bytes)
    ensures FromBytes(b) ==
            match UnpackC(b)
            case None => None
            case Some(pair) => Make(pair.0, pair.1)
  {
  }
}
