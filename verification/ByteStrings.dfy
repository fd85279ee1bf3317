/** Byte strings and the big-endian integers the wire format stores in them. */
module ByteStrings {

  type Byte = b: int | 0 <= b < 0x100

  type Bytes = seq<Byte>

  /** 256 to the power `w`: one more than the largest unsigned integer of `w` bytes. */
  function Pow256(w: nat): (p: nat)
    ensures p > 0
    ensures w > 0 ==> p % 2 == 0
  {
    if w == 0 then 1 else 256 * Pow256(w - 1)
  }

  lemma Pow256Values()
    ensures Pow256(1) == 0x100
    ensures Pow256(2) == 0x1_0000
    ensures Pow256(4) == 0x1_0000_0000
    ensures Pow256(8) == 0x1_0000_0000_0000_0000
  {
    assert Pow256(2) == 256 * Pow256(1);
    assert Pow256(3) == 256 * Pow256(2);
    assert Pow256(4) == 256 * Pow256(3);
    assert Pow256(5) == 256 * Pow256(4);
    assert Pow256(6) == 256 * Pow256(5);
    assert Pow256(7) == 256 * Pow256(6);
    assert Pow256(8) == 256 * Pow256(7);
  }

  /** The unsigned integer a byte string spells, most significant byte first. */
  function Load(s: Bytes): (n: nat)
  {
    if s == [] then 0 else 256 * Load(s[..|s| - 1]) + s[|s| - 1]
  }

  /** The `w` bytes that spell `n`, most significant byte first; higher digits are cut off. */
  function Store(n: nat, w: nat): (s: Bytes)
    ensures |s| == w
  {
    if w == 0 then [] else Store(n / 256, w - 1) + [n % 256]
  }

  /** A `w`-byte pattern read as a two's complement integer. */
  function Signed(n: nat, w: nat): int
  {
    if 2 * n < Pow256(w) then n else n - Pow256(w)
  }

  /** The `w`-byte pattern of an integer that may be negative. */
  function Unsigned(i: int, w: nat): nat
    requires 0 <= 2 * i + Pow256(w)
  {
    if i < 0 then i + Pow256(w) else i
  }

  lemma {:induction false} LoadBound(s: Bytes)
    ensures Load(s) < Pow256(|s|)
  {
    if s == [] {
    } else {
      LoadBound(s[..|s| - 1]);
    }
  }

  /** A word is its upper half shifted over its lower half. */
  lemma {:induction false} LoadConcat(a: Bytes, b: Bytes)
    ensures Load(a + b) == Pow256(|b|) * Load(a) + Load(b)
  {
    if b == [] {
      assert a + b == a;
    } else {
      var k := |b| - 1;
      LoadConcat(a, b[..k]);
      assert (a + b)[..|a + b| - 1] == a + b[..k];
      assert 256 * (Pow256(k) * Load(a)) == (256 * Pow256(k)) * Load(a);
    }
  }

  /** The shift-and-or loads of the C code are the positional value. */
  lemma LoadPositional(s: Bytes)
    ensures |s| == 1 ==> Load(s) == s[0]
    ensures |s| == 2 ==> Load(s) == 0x100 * (s[0] as int) + s[1]
    ensures |s| == 4 ==> Load(s) == 0x100_0000 * (s[0] as int) + 0x1_0000 * (s[1] as int) + 0x100 * (s[2] as int) + s[3]
    ensures |s| == 8 ==> Load(s) == 0x1_0000_0000 * Load(s[..4]) + Load(s[4..])
  {
    if |s| == 1 || |s| == 2 || |s| == 4 {
      var k := |s|;
      assert s[..k - 1][..0] == [] && Load(s[..0]) == 0;
      assert k > 1 ==> s[..k - 1][..k - 2] == s[..k - 2];
      assert k > 2 ==> s[..k - 2][..k - 3] == s[..k - 3] && s[..k - 3][..k - 4] == s[..k - 4];
    } else if |s| == 8 {
      Pow256Values();
      LoadConcat(s[..4], s[4..]);
      assert s == s[..4] + s[4..];
    }
  }

  lemma {:induction false} LoadStore(n: nat, w: nat)
    requires n < Pow256(w)
    ensures Load(Store(n, w)) == n
  {
    if w == 0 {
    } else {
      LoadStore(n / 256, w - 1);
      assert Store(n, w)[..w - 1] == Store(n / 256, w - 1);
    }
  }

  lemma {:induction false} StoreLoad(s: Bytes)
    ensures Store(Load(s), |s|) == s
  {
    if s == [] {
    } else {
      StoreLoad(s[..|s| - 1]);
      assert s == s[..|s| - 1] + [s[|s| - 1]];
    }
  }

  lemma SignedUnsigned(i: int, w: nat)
    requires w > 0 && 0 <= 2 * i + Pow256(w) && 2 * i < Pow256(w)
    ensures Unsigned(i, w) < Pow256(w)
    ensures Signed(Unsigned(i, w), w) == i
  {
  }

  /** `b` stands in `s` at position `p`. */
  ghost predicate At(s: Bytes, p: nat, b: Bytes)
  {
    p + |b| <= |s| && s[p..p + |b|] == b
  }

  lemma AtConcat(s: Bytes, p: nat, a: Bytes, b: Bytes)
    ensures At(s, p, a + b) <==> At(s, p, a) && At(s, p + |a|, b)
  {
    if At(s, p, a + b) {
      assert s[p..p + |a|] == s[p..p + |a + b|][..|a|] == a;
      assert s[p + |a|..p + |a| + |b|] == s[p..p + |a + b|][|a|..] == b;
    }
  }

  lemma AtByte(s: Bytes, p: nat, b: Byte)
    ensures At(s, p, [b]) <==> p < |s| && s[p] == b
  {
    if p < |s| {
      assert s[p..p + 1] == [s[p]];
    }
  }
}
