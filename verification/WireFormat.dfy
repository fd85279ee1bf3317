/**
 * The wire format, spelled out byte by byte: what every format denotes for every value of its fields, and which format
 * is written for which value. Nothing here speaks through the functions that read and write numbers.
 */
module WireFormat {
  import opened ByteStrings
  import opened Timestamps
  import opened Values
  import opened Decoder
  import opened Encoder

  // ---------- numbers in bytes ----------

  function Word(s: Bytes, p: nat): nat
    requires p + 4 <= |s|
  {
    0x100_0000 * (s[p] as int) + 0x1_0000 * (s[p + 1] as int) + 0x100 * (s[p + 2] as int) + s[p + 3]
  }

  /** The `w` bytes at `p` spell `n`, most significant byte first. */
  predicate Spells(s: Bytes, p: nat, w: nat, n: int) {
    && p + w <= |s|
    && (w == 1 || w == 2 || w == 4 || w == 8)
    && (w == 1 ==> n == s[p])
    && (w == 2 ==> n == 0x100 * (s[p] as int) + s[p + 1])
    && (w == 4 ==> n == Word(s, p))
    && (w == 8 ==> n == 0x1_0000_0000 * Word(s, p) + Word(s, p + 4))
  }

  lemma WordIsLoad(s: Bytes, p: nat)
    requires p + 4 <= |s|
    ensures Load(s[p..p + 4]) == Word(s, p)
  {
    LoadPositional(s[p..p + 4]);
  }

  lemma SpellsIsLoad(s: Bytes, p: nat, w: nat, n: int)
    requires p + w <= |s| && (w == 1 || w == 2 || w == 4 || w == 8)
    ensures Spells(s, p, w, n) <==> Load(s[p..p + w]) == n
  {
    LoadPositional(s[p..p + w]);
    if w == 4 {
      WordIsLoad(s, p);
    } else if w == 8 {
      assert s[p..p + 8][..4] == s[p..p + 4] && s[p..p + 8][4..] == s[p + 4..p + 8];
      WordIsLoad(s, p);
      WordIsLoad(s, p + 4);
    }
  }

  /** The width of the field of a number format, and the number of values of that width. */
  function Width(k: nat): nat
    requires k < 4
  {
    if k == 0 then 1 else if k == 1 then 2 else if k == 2 then 4 else 8
  }

  function Half(k: nat): int
    requires k < 4
  {
    if k == 0 then 0x80 else if k == 1 then 0x8000 else if k == 2 then 0x8000_0000 else 0x8000_0000_0000_0000
  }

  // ---------- what numbers and constants denote ----------

  lemma SpellsFits(s: Bytes, p: nat, w: nat, n: int)
    requires Spells(s, p, w, n)
    ensures p + w <= |s|
  {
  }

  /** uint 8 to uint 64: the field is the integer, also in a wider format than it needs. */
  lemma UnsignedDenotes(o: Options, s: Bytes, p: nat, depth: nat, k: nat, n: int)
    requires k < 4 && p < |s| && s[p] == 0xcc + k && Spells(s, p + 1, Width(k), n)
    ensures Decode(o, true, s, p, depth) == Done(Int(n), p + 1 + Width(k))
  {
    hide Load, Spells;
    SpellsFits(s, p + 1, Width(k), n);
    SpellsIsLoad(s, p + 1, Width(k), n);
  }

  /** int 8 to int 64: the field is the integer in two's complement, also in a wider format than it needs. */
  lemma SignedDenotes(o: Options, s: Bytes, p: nat, depth: nat, k: nat, i: int)
    requires k < 4 && p < |s| && s[p] == 0xd0 + k && -Half(k) <= i < Half(k)
    requires Spells(s, p + 1, Width(k), if i < 0 then i + 2 * Half(k) else i)
    ensures Decode(o, true, s, p, depth) == Done(Int(i), p + 1 + Width(k))
  {
    hide Load, Spells;
    var n := if i < 0 then i + 2 * Half(k) else i;
    SpellsFits(s, p + 1, Width(k), n);
    SpellsIsLoad(s, p + 1, Width(k), n);
    Pow256Values();
  }

  /** float 64 is its image; float 32 is its image widened. */
  lemma FloatsDenote(o: Options, s: Bytes, p: nat, depth: nat)
    requires p < |s|
    ensures s[p] == 0xca && p + 5 <= |s| ==>
              Decode(o, true, s, p, depth) == Done(Float(o.widen(s[p + 1..p + 5])), p + 5)
    ensures s[p] == 0xcb && p + 9 <= |s| ==> Decode(o, true, s, p, depth) == Done(Float(s[p + 1..p + 9]), p + 9)
  {
  }

  /** The formats of a single byte. */
  lemma SingleBytesDenote(o: Options, s: Bytes, p: nat, depth: nat)
    requires p < |s|
    ensures s[p] < 0x80 ==> Decode(o, true, s, p, depth) == Done(Int(s[p]), p + 1)
    ensures s[p] >= 0xe0 ==> Decode(o, true, s, p, depth) == Done(Int(s[p] as int - 256), p + 1)
    ensures s[p] == 0xc0 ==> Decode(o, true, s, p, depth) == Done(Nil, p + 1)
    ensures s[p] == 0xc2 ==> Decode(o, true, s, p, depth) == Done(Bool(false), p + 1)
    ensures s[p] == 0xc3 ==> Decode(o, true, s, p, depth) == Done(Bool(true), p + 1)
  {
  }

  /** The one byte that is no format. */
  lemma OnlyTheReservedByteIsNoFormat(o: Options, s: Bytes, p: nat)
    requires p <= |s|
    ensures ReadHeader(o, s, p) == Fail(FormatError) <==> p < |s| && s[p] == 0xc1
  {
    hide Load, NumberOf;
  }

  // ---------- what byte strings denote ----------

  /** The length limit, the bytes still to come, or the body: in this order. */
  predicate BodyOrRefusal(r: Read<Value>, s: Bytes, q: nat, n: nat, max: nat, body: Outcome<Value>) {
    r == if n > max then Fail(ValueError)
         else if q + n > |s| then NeedMore
         else match body
           case Ok(v) => Done(v, q + n)
           case Raise(e) => Fail(e)
  }

  function Part(s: Bytes, q: nat, n: nat): Bytes {
    if q + n <= |s| then s[q..q + n] else []
  }

  /** A str of `n` bytes begins at `p`, and its body at `q`. */
  predicate StrHeader(s: Bytes, p: nat, n: nat, q: nat) {
    && p < |s|
    && ( || (n < 32 && s[p] == 0xa0 + n && q == p + 1)
         || (s[p] == 0xd9 && Spells(s, p + 1, 1, n) && q == p + 2)
         || (s[p] == 0xda && Spells(s, p + 1, 2, n) && q == p + 3)
         || (s[p] == 0xdb && Spells(s, p + 1, 4, n) && q == p + 5))
  }

  lemma StrReads(o: Options, s: Bytes, p: nat, n: nat, q: nat)
    requires StrHeader(s, p, n, q)
    ensures q <= |s| && ReadHeader(o, s, p) == RawAt(o, s, q, n)
  {
    hide Load, RawAt;
    if s[p] >= 0xd9 {
      SpellsIsLoad(s, p + 1, if s[p] == 0xd9 then 1 else if s[p] == 0xda then 2 else 4, n);
    }
  }

  lemma StrDenotes(o: Options, s: Bytes, p: nat, depth: nat, n: nat, q: nat)
    requires StrHeader(s, p, n, q)
    ensures var body := Part(s, q, n);
            BodyOrRefusal(Decode(o, true, s, p, depth), s, q, n, o.maxStr,
                          if o.raw then Ok(Bin(body)) else if o.isUtf8(body) then Ok(Str(body)) else Raise(ValueError))
    ensures BodyOrRefusal(Decode(o, false, s, p, depth), s, q, n, o.maxStr, Ok(Nil))
  {
    hide ReadHeader, StrHeader;
    StrReads(o, s, p, n, q);
  }

  /** A bin of `n` bytes begins at `p`, and its body at `q`. */
  predicate BinHeader(s: Bytes, p: nat, n: nat, q: nat) {
    && p < |s|
    && ( || (s[p] == 0xc4 && Spells(s, p + 1, 1, n) && q == p + 2)
         || (s[p] == 0xc5 && Spells(s, p + 1, 2, n) && q == p + 3)
         || (s[p] == 0xc6 && Spells(s, p + 1, 4, n) && q == p + 5))
  }

  lemma BinDenotes(o: Options, s: Bytes, p: nat, depth: nat, n: nat, q: nat)
    requires BinHeader(s, p, n, q)
    ensures BodyOrRefusal(Decode(o, true, s, p, depth), s, q, n, o.maxBin, Ok(Bin(Part(s, q, n))))
    ensures BodyOrRefusal(Decode(o, false, s, p, depth), s, q, n, o.maxBin, Ok(Nil))
  {
    hide Load;
    SpellsIsLoad(s, p + 1, if s[p] == 0xc4 then 1 else if s[p] == 0xc5 then 2 else 4, n);
  }

  /** An ext of `n` bytes with type byte `c` begins at `p`, and its body at `q`. */
  predicate ExtHeader(s: Bytes, p: nat, n: nat, c: int, q: nat) {
    && p < q <= |s| && s[q - 1] == c
    && ( || (s[p] == 0xd4 && n == 1 && q == p + 2)
         || (s[p] == 0xd5 && n == 2 && q == p + 2)
         || (s[p] == 0xd6 && n == 4 && q == p + 2)
         || (s[p] == 0xd7 && n == 8 && q == p + 2)
         || (s[p] == 0xd8 && n == 16 && q == p + 2)
         || (s[p] == 0xc7 && Spells(s, p + 1, 1, n) && q == p + 3)
         || (s[p] == 0xc8 && Spells(s, p + 1, 2, n) && q == p + 4)
         || (s[p] == 0xc9 && Spells(s, p + 1, 4, n) && q == p + 6))
  }

  predicate ExtReads(o: Options, s: Bytes, p: nat, n: nat, c: int, q: nat)
    requires p <= |s|
  {
    ReadHeader(o, s, p) == if n > o.maxExt then Fail(ValueError)
                           else if q + n > |s| then NeedMore
                           else Done(ExtBody(if c < 128 then c else c - 256, s[q..q + n]), q + n)
  }

  lemma FixExtReads(o: Options, s: Bytes, p: nat, n: nat, c: int, q: nat)
    requires ExtHeader(s, p, n, c, q) && s[p] >= 0xd4
    ensures ExtReads(o, s, p, n, c, q)
  {
  }

  lemma SizedExtReads(o: Options, s: Bytes, p: nat, n: nat, c: int, q: nat)
    requires ExtHeader(s, p, n, c, q) && s[p] < 0xd4
    ensures ExtReads(o, s, p, n, c, q)
  {
    hide Load, Spells;
    var w := q - p - 2;
    SpellsIsLoad(s, p + 1, w, n);
  }

  /** Type bytes 0 to 127 are application types, 255 is a timestamp, and nothing else is allowed. */
  lemma ExtDenotes(o: Options, s: Bytes, p: nat, depth: nat, n: nat, c: int, q: nat)
    requires ExtHeader(s, p, n, c, q)
    ensures BodyOrRefusal(Decode(o, true, s, p, depth), s, q, n, o.maxExt,
                          if 0 <= c <= 127 then Ok(Ext(c, Part(s, q, n)))
                          else if c == 255 then BuildTimestamp(o, Part(s, q, n))
                          else Raise(ValueError))
    ensures BodyOrRefusal(Decode(o, false, s, p, depth), s, q, n, o.maxExt, Ok(Nil))
  {
    hide ReadHeader, BuildTimestamp, Spells;
    if s[p] >= 0xd4 {
      FixExtReads(o, s, p, n, c, q);
    } else {
      SizedExtReads(o, s, p, n, c, q);
    }
  }

  // ---------- what timestamps denote ----------

  /** The three payloads of `seconds` and `nanoseconds`. */
  predicate TimestampPayload(b: Bytes, seconds: int, nanoseconds: int) {
    || (|b| == 4 && Spells(b, 0, 4, seconds) && nanoseconds == 0)
    || (|b| == 8 && 0 <= seconds < 0x4_0000_0000 && Spells(b, 0, 8, nanoseconds * 0x4_0000_0000 + seconds))
    || (|b| == 12 && Spells(b, 0, 4, nanoseconds) &&
        -0x8000_0000_0000_0000 <= seconds < 0x8000_0000_0000_0000 &&
        Spells(b, 4, 8, if seconds < 0 then seconds + 0x1_0000_0000_0000_0000 else seconds))
  }

  lemma TimestampFields(b: Bytes, seconds: int, nanoseconds: int)
    requires TimestampPayload(b, seconds, nanoseconds)
    ensures UnpackC(b) == Some((seconds, nanoseconds))
  {
    hide Spells;
    assert b[0..|b|] == b && b[..|b|] == b;
    if |b| == 4 {
      SpellsIsLoad(b, 0, 4, seconds);
    } else if |b| == 8 {
      SpellsIsLoad(b, 0, 8, nanoseconds * 0x4_0000_0000 + seconds);
    } else {
      assert b[0..4] == b[..4] && b[4..12] == b[4..];
      SpellsIsLoad(b, 0, 4, nanoseconds);
      SpellsIsLoad(b, 4, 8, if seconds < 0 then seconds + 0x1_0000_0000_0000_0000 else seconds);
      Pow256Values();
    }
  }

  lemma NanosecondsFit(b: Bytes, seconds: int, nanoseconds: int)
    requires TimestampPayload(b, seconds, nanoseconds)
    ensures 0 <= nanoseconds
  {
  }

  /** A timestamp has 10^9 nanoseconds a second; overlong ones are refused unless nobody checks. */
  lemma TimestampDenotes(o: Options, b: Bytes, seconds: int, nanoseconds: int)
    requires TimestampPayload(b, seconds, nanoseconds)
    ensures BuildTimestamp(o, b) ==
            if o.timestampAsInt && (nanoseconds < 1_000_000_000 || !o.checkNanos) then
              Ok(Int(1_000_000_000 * seconds + nanoseconds))
            else if nanoseconds < 1_000_000_000 then Ok(Time(Stamp(seconds, nanoseconds)))
            else Raise(ValueError)
  {
    hide UnpackC, FromBytes, Spells;
    TimestampFields(b, seconds, nanoseconds);
    NanosecondsFit(b, seconds, nanoseconds);
    ReadersAgree(b);
  }

  /** Payloads of any other length are no timestamps. */
  lemma OtherPayloadsDenoteNothing(o: Options, b: Bytes)
    requires |b| != 4 && |b| != 8 && |b| != 12
    ensures BuildTimestamp(o, b) == Raise(ValueError)
  {
  }

  // ---------- what container headers denote ----------

  /** A container with headers `fix`, `var` and `var + 1` and `n` entries begins at `p`, and its entries at `q`. */
  predicate CountHeader(s: Bytes, p: nat, fix: int, var16: int, n: nat, q: nat) {
    && p < |s|
    && ( || (n < 16 && s[p] == fix + n && q == p + 1)
         || (s[p] == var16 && Spells(s, p + 1, 2, n) && q == p + 3)
         || (s[p] == var16 + 1 && Spells(s, p + 1, 4, n) && q == p + 5))
  }

  lemma ArrayHeaderDenotes(o: Options, s: Bytes, p: nat, n: nat, q: nat)
    requires CountHeader(s, p, 0x90, 0xdc, n, q)
    ensures ReadHeader(o, s, p) == if n > o.maxArray then Fail(ValueError) else Done(ArrayOf(n), q)
  {
    hide Load;
    if s[p] >= 0xdc {
      SpellsIsLoad(s, p + 1, if s[p] == 0xdc then 2 else 4, n);
    }
  }

  lemma MapHeaderDenotes(o: Options, s: Bytes, p: nat, n: nat, q: nat)
    requires CountHeader(s, p, 0x80, 0xde, n, q)
    ensures ReadHeader(o, s, p) == if n > o.maxMap then Fail(ValueError) else Done(MapOf(n), q)
  {
    hide Load;
    if s[p] >= 0xde {
      SpellsIsLoad(s, p + 1, if s[p] == 0xde then 2 else 4, n);
    }
  }

  // ---------- which format is written ----------

  /** `r` is the byte `h` and a field of `w` bytes that spells `n`. */
  predicate Written(r: Outcome<Bytes>, h: int, w: nat, n: int) {
    r.Ok? && |r.value| == 1 + w && r.value[0] == h && Spells(r.value, 1, w, n)
  }

  lemma StoreIsWritten(h: Byte, w: nat, n: nat)
    requires (w == 1 || w == 2 || w == 4 || w == 8) && n < Pow256(w)
    ensures Written(Ok([h] + Store(n, w)), h, w, n)
  {
    hide Store, Load, Spells;
    var b := [h] + Store(n, w);
    assert b[1..1 + w] == Store(n, w);
    LoadStore(n, w);
    SpellsIsLoad(b, 1, w, n);
  }

  /** Integers: the least width, unsigned from 128 on and in two's complement below -32. */
  lemma IntegerFormats(i: int)
    ensures 0 <= i < 0x80 ==> IntF(i) == Ok([i])
    ensures -32 <= i < 0 ==> IntF(i) == Ok([i + 256])
    ensures 0x80 <= i < 0x100 ==> Written(IntF(i), 0xcc, 1, i)
    ensures 0x100 <= i < 0x1_0000 ==> Written(IntF(i), 0xcd, 2, i)
    ensures 0x1_0000 <= i < 0x1_0000_0000 ==> Written(IntF(i), 0xce, 4, i)
    ensures 0x1_0000_0000 <= i < 0x1_0000_0000_0000_0000 ==> Written(IntF(i), 0xcf, 8, i)
    ensures -0x80 <= i < -32 ==> Written(IntF(i), 0xd0, 1, i + 0x100)
    ensures -0x8000 <= i < -0x80 ==> Written(IntF(i), 0xd1, 2, i + 0x1_0000)
    ensures -0x8000_0000 <= i < -0x8000 ==> Written(IntF(i), 0xd2, 4, i + 0x1_0000_0000)
    ensures -0x8000_0000_0000_0000 <= i < -0x8000_0000 ==> Written(IntF(i), 0xd3, 8, i + 0x1_0000_0000_0000_0000)
    ensures i < -0x8000_0000_0000_0000 || i >= 0x1_0000_0000_0000_0000 ==> IntF(i) == Raise(OverflowError)
  {
    hide Store;
    Pow256Values();
    var a := if i < 0 then -i - 1 else i;
    if -0x8000_0000_0000_0000 <= i < -32 {
      var (h, w) := if -0x80 <= i then (0xd0, 1) else if -0x8000 <= i then (0xd1, 2)
                    else if -0x8000_0000 <= i then (0xd2, 4) else (0xd3, 8);
      StoreIsWritten(h, w, i + Pow256(w));
    } else if 0x100 <= i < 0x1_0000_0000_0000_0000 {
      var (h, w) := if i < 0x1_0000 then (0xcd, 2) else if i < 0x1_0000_0000 then (0xce, 4) else (0xcf, 8);
      StoreIsWritten(h, w, i);
    }
  }

  /** Lengths: the least width; without bin types no str 8 and no bin. */
  lemma LengthFormats(useBin: bool, n: nat)
    ensures n < 32 ==> RawHeaderF(useBin, n) == Ok([0xa0 + n])
    ensures 32 <= n < 0x100 && useBin ==> Written(RawHeaderF(useBin, n), 0xd9, 1, n)
    ensures 32 <= n < 0x1_0000 && (!useBin || n >= 0x100) ==> Written(RawHeaderF(useBin, n), 0xda, 2, n)
    ensures 0x1_0000 <= n < 0x1_0000_0000 ==> Written(RawHeaderF(useBin, n), 0xdb, 4, n)
    ensures !useBin ==> BinHeaderF(useBin, n) == RawHeaderF(useBin, n)
    ensures useBin && n < 0x100 ==> Written(BinHeaderF(useBin, n), 0xc4, 1, n)
    ensures useBin && 0x100 <= n < 0x1_0000 ==> Written(BinHeaderF(useBin, n), 0xc5, 2, n)
    ensures useBin && 0x1_0000 <= n < 0x1_0000_0000 ==> Written(BinHeaderF(useBin, n), 0xc6, 4, n)
    ensures n >= 0x1_0000_0000 ==> RawHeaderF(useBin, n) == BinHeaderF(useBin, n) == Raise(ValueError)
  {
    hide Store;
    Pow256Values();
    if 32 <= n < 0x1_0000 { StoreIsWritten(0xda, 2, n); StoreIsWritten(0xc5, 2, n); }
    else if n < 0x1_0000_0000 && n >= 0x1_0000 { StoreIsWritten(0xdb, 4, n); StoreIsWritten(0xc6, 4, n); }
  }

  lemma CountFormats(n: nat)
    ensures n < 16 ==> ArrayHeaderF(n) == Ok([0x90 + n]) && MapHeaderF(n) == Ok([0x80 + n])
    ensures 16 <= n < 0x1_0000 ==> Written(ArrayHeaderF(n), 0xdc, 2, n) && Written(MapHeaderF(n), 0xde, 2, n)
    ensures 0x1_0000 <= n < 0x1_0000_0000 ==> Written(ArrayHeaderF(n), 0xdd, 4, n) && Written(MapHeaderF(n), 0xdf, 4, n)
    ensures n >= 0x1_0000_0000 ==> ArrayHeaderF(n) == MapHeaderF(n) == Raise(ValueError)
  {
    hide Store;
    Pow256Values();
    if 16 <= n < 0x1_0000 { StoreIsWritten(0xdc, 2, n); StoreIsWritten(0xde, 2, n); }
    else if 0x1_0000 <= n < 0x1_0000_0000 { StoreIsWritten(0xdd, 4, n); StoreIsWritten(0xdf, 4, n); }
  }

  /** Ext headers: the five fixed lengths, else the least width. */
  lemma ExtFormats(n: nat)
    ensures n == 1 ==> ExtHeaderF(n) == Ok([0xd4])
    ensures n == 2 ==> ExtHeaderF(n) == Ok([0xd5])
    ensures n == 4 ==> ExtHeaderF(n) == Ok([0xd6])
    ensures n == 8 ==> ExtHeaderF(n) == Ok([0xd7])
    ensures n == 16 ==> ExtHeaderF(n) == Ok([0xd8])
    ensures n !in {1, 2, 4, 8, 16} && n < 0x100 ==> Written(ExtHeaderF(n), 0xc7, 1, n)
    ensures 0x100 <= n < 0x1_0000 ==> Written(ExtHeaderF(n), 0xc8, 2, n)
    ensures 0x1_0000 <= n < 0x1_0000_0000 ==> Written(ExtHeaderF(n), 0xc9, 4, n)
    ensures n >= 0x1_0000_0000 ==> ExtHeaderF(n) == Raise(StructError)
  {
    hide Store;
    Pow256Values();
    if 0x100 <= n < 0x1_0000 { StoreIsWritten(0xc8, 2, n); }
    else if 0x1_0000 <= n < 0x1_0000_0000 { StoreIsWritten(0xc9, 4, n); }
  }

  /** Timestamps: 32 bits for whole seconds, 64 up to 2^34 seconds, else 96. */
  lemma TimestampFormats(t: Timestamp)
    ensures match ToBytes(t)
            case Some(b) =>
              && TimestampPayload(b, t.seconds, t.nanoseconds)
              && |b| == (if 0 <= t.seconds < 0x1_0000_0000 && t.nanoseconds == 0 then 4
                         else if 0 <= t.seconds < 0x4_0000_0000 then 8 else 12)
            case None => t.seconds < -0x8000_0000_0000_0000 || t.seconds >= 0x8000_0000_0000_0000
  {
    hide Store, Load, Spells;
    RoundTrip(t);
    Pow256Values();
    if ToBytes(t).Some? {
      var b := ToBytes(t).value;
      assert b[0..|b|] == b;
      if 0 <= t.seconds < 0x4_0000_0000 {
        var data64 := t.nanoseconds * 0x4_0000_0000 + t.seconds;
        if |b| == 4 {
          assert data64 == t.seconds;
          LoadStore(data64, 4);
          SpellsIsLoad(b, 0, 4, data64);
        } else {
          LoadStore(data64, 8);
          SpellsIsLoad(b, 0, 8, data64);
        }
      } else {
        var pattern := Unsigned(t.seconds, 8);
        LoadStore(t.nanoseconds, 4);
        LoadStore(pattern, 8);
        assert b[0..4] == Store(t.nanoseconds, 4) && b[4..12] == Store(pattern, 8);
        SpellsIsLoad(b, 0, 4, t.nanoseconds);
        SpellsIsLoad(b, 4, 8, pattern);
      }
    }
  }

  lemma IntRefusals(i: int)
    ensures IntC(i).Raise? ==> IntC(i) == Raise(OverflowError)
  {
  }

  /** The values that are not containers, in full, and the exceptions of both packers. */
  lemma ScalarFormats(useBin: bool, v: Value, nest: nat)
    ensures match v
            case Nil => EncodeF(useBin, v, nest) == Ok([0xc0])
            case Bool(b) => EncodeF(useBin, v, nest) == Ok([if b then 0xc3 else 0xc2])
            case Float(bits) => EncodeF(useBin, v, nest) == Ok([0xcb] + bits)
            case Int(i) => EncodeF(useBin, v, nest) == IntF(i)
            case Str(b) => EncodeF(useBin, v, nest) == Joined(RawHeaderF(useBin, |b|), Ok(b))
            case Bin(b) => EncodeF(useBin, v, nest) == Joined(BinHeaderF(useBin, |b|), Ok(b))
            case Ext(code, b) => EncodeF(useBin, v, nest) == Joined(ExtHeaderF(|b|), Ok([code] + b))
            case Time(t) => EncodeF(useBin, v, nest) ==
                              if ToBytes(t).None? then Raise(StructError)
                              else Joined(ExtHeaderF(|ToBytes(t).value|), Ok([255] + ToBytes(t).value))
            case _ => true
    ensures match v
            case Int(i) => EncodeC(useBin, v, nest).Raise? ==> EncodeC(useBin, v, nest) == Raise(OverflowError)
            case Time(t) => EncodeC(useBin, v, nest).Raise? ==> EncodeC(useBin, v, nest) == Raise(OverflowError)
            case Arr(_) => true
            case Map(_) => true
            case _ => EncodeC(useBin, v, nest).Raise? ==> EncodeC(useBin, v, nest) == Raise(ValueError)
  {
    hide IntF, IntC, RawHeaderF, BinHeaderF, ExtHeaderF, RawHeaderC, BinHeaderC, ExtHeaderC, ToBytes, PackC;
    match v
    case Int(i) => IntRefusals(i);
    case Str(b) => LengthFormats(useBin, |b|);
    case Bin(b) => LengthFormats(useBin, |b|);
    case _ =>
  }

  /** Below the nesting limit nothing is packed. */
  lemma TooDeepIsRefused(useBin: bool, v: Value, nest: int)
    requires nest < 0
    ensures EncodeF(useBin, v, nest) == EncodeC(useBin, v, nest) == Raise(ValueError)
  {
  }
}
