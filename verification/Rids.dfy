// Synthetic RIDs: FNV-1a (section 2 of draft-eastlake-fnv) folded into 2^29
// values above 1000 (ridFromName in pacbuilder.go).

module Rids {
  import opened GoStrings
  import ByteXor

  newtype uint32 = x: int | 0 <= x < 0x1_0000_0000

  const TWO_32: nat := 0x1_0000_0000
  const OFFSET_BASIS: nat := 2166136261
  const PRIME: nat := 16777619
  const PRIME_INVERSE: nat := 899433627
  const SYNTH_SPACE: nat := 0x2000_0000
  const FIRST_RID: nat := 1000
  const BAND_WIDTH: nat := 200000

  // Exclusive or of a word and a byte: only the low byte changes.
  function Xor(h: nat, b: byte): nat { h - h % 256 + ByteXor.XorByte((h % 256) as byte, b) as nat }

  // One byte of the hash: xor, then multiply in 32 bits.
  function Step(h: nat, b: byte): nat { Xor(h, b) * PRIME % TWO_32 }

  function Hash(h: nat, data: GoString): nat
    decreases |data|
  {
    if data == [] then h else Hash(Step(h, data[0]), data[1..])
  }

  // ridFromName and ridFromSubject
  function Rid(name: GoString): (rid: uint32)
    ensures FIRST_RID <= rid as nat < FIRST_RID + SYNTH_SPACE
    ensures (Hash(OFFSET_BASIS, name) - (rid as nat - FIRST_RID)) % SYNTH_SPACE == 0
  {
    (FIRST_RID + Hash(OFFSET_BASIS, name) % SYNTH_SPACE) as uint32
  }

  // The hasher that ridFromName writes into.
  class Hasher {
    var h: nat

    constructor ()
      ensures h == OFFSET_BASIS
    {
      h := OFFSET_BASIS;
    }

    method Write(data: GoString)
      modifies this
      ensures h == Hash(old(h), data)
    {
      for i := 0 to |data|
        invariant Hash(h, data[i..]) == Hash(old(h), data)
      {
        h := Xor(h, data[i]);
        h := h * PRIME % TWO_32;
        assert data[i..][1..] == data[i + 1..];
      }
    }
  }

  method RidFromName(name: GoString) returns (rid: uint32)
    ensures rid == Rid(name)
  {
    var hasher := new Hasher();
    hasher.Write(name);
    rid := (FIRST_RID + hasher.h % SYNTH_SPACE) as uint32;
  }

  // A RID is 1000 and the residue of the hash.
  lemma RidMeaning(name: GoString)
    ensures exists q: nat :: Hash(OFFSET_BASIS, name) == q * SYNTH_SPACE + (Rid(name) as nat - FIRST_RID)
  {
    var q := Hash(OFFSET_BASIS, name) / SYNTH_SPACE;
    assert Hash(OFFSET_BASIS, name) == q * SYNTH_SPACE + (Rid(name) as nat - FIRST_RID);
  }

  // The RID of "a".
  lemma KnownRid()
    ensures Rid([0x61]) == 67906836
  {
    KnownHashes();
  }

  // The published hashes of the empty string and of "a".
  lemma KnownHashes()
    ensures Hash(OFFSET_BASIS, []) == 0x811C9DC5
    ensures Hash(OFFSET_BASIS, [0x61]) == 0xE40C292C
  {
    ByteXor.BitsOfByte(0xC5);
    ByteXor.BitsOfByte(0x61);
    ByteXor.XorOfBits(0xC5, 0x61, 0xC5, 0x61);
    assert (0xC5 as bv8) as byte == 0xC5 && (0x61 as bv8) as byte == 0x61 && (0xA4 as bv8) as byte == 0xA4;
    KnownStep(OFFSET_BASIS, 0x61, 0xA4);
  }

  lemma KnownStep(h: nat, b: byte, x: byte)
    requires ByteXor.XorByte((h % 256) as byte, b) == x
    ensures Hash(h, [b]) == (h - h % 256 + x as nat) * PRIME % TWO_32
  {
    assert [b][1..] == [];
  }

  // The FNV-1a step: x is the exclusive or of the low byte with b, and next is the
  // product with the prime less a multiple q of 2^32.
  predicate IsNext(h: nat, b: byte, next: nat, x: byte, q: nat) {
    && x as bv8 == ((h % 256) as byte as bv8) ^ (b as bv8)
    && (h / 256 * 256 + x as nat) * 16777619 == q * 0x1_0000_0000 + next && next < 0x1_0000_0000
  }

  // What a string hashes to after one more byte.
  lemma HashOneMore(h: nat, s: GoString, b: byte)
    ensures exists x, q :: IsNext(Hash(h, s), b, Hash(h, s + [b]), x, q)
  {
    var was := Hash(h, s);
    HashAppend(h, s, [b]);
    NextIsStep(was, b);
    assert [b][1..] == [] && Hash(was, [b]) == Hash(Step(was, b), []);
  }

  lemma NextIsStep(h: nat, b: byte)
    ensures exists x, q :: IsNext(h, b, Step(h, b), x, q)
  {
    var x := ByteXor.XorByte((h % 256) as byte, b);
    var q := Xor(h, b) * PRIME / TWO_32;
    ByteXor.BitsOfByte(((h % 256) as byte as bv8) ^ (b as bv8));
    assert IsNext(h, b, Step(h, b), x, q);
  }

  // ---- the hash step is a bijection modulo 2^29 ----

  lemma XorByteInjective(x: byte, y: byte, z: byte)
    ensures ByteXor.XorByte(x, y) == ByteXor.XorByte(x, z) <==> y == z
    ensures ByteXor.XorByte(y, x) == ByteXor.XorByte(z, x) <==> y == z
  {
    ByteXor.XorByteTwice(x, y);
    ByteXor.XorByteTwice(x, z);
  }

  lemma XorInjective(h: nat, g: nat, b: byte, c: byte)
    ensures Xor(h, b) == Xor(g, b) <==> h == g
    ensures Xor(h, b) == Xor(h, c) <==> b == c
  {
    var l, m := (h % 256) as byte, (g % 256) as byte;
    XorByteInjective(b, l, m);
    XorByteInjective(l, b, c);
    SameWord(h, g, ByteXor.XorByte(l, b), ByteXor.XorByte(m, b));
    SameWord(h, h, ByteXor.XorByte(l, b), ByteXor.XorByte(l, c));
    SameWord(h, g, l, m);
  }

  lemma SameWord(h: nat, g: nat, x: byte, y: byte)
    ensures h - h % 256 + x as nat == g - g % 256 + y as nat <==> h / 256 == g / 256 && x == y
  {
    assert h - h % 256 == h / 256 * 256 && g - g % 256 == g / 256 * 256;
  }

  // Xor with a byte acts on the residue modulo 2^29.
  lemma XorResidue(h: nat, b: byte)
    ensures Xor(h, b) % SYNTH_SPACE == Xor(h % SYNTH_SPACE, b)
  {
    var q, r := h / SYNTH_SPACE, h % SYNTH_SPACE;
    assert h == r + q * SYNTH_SPACE;
    assert h % 256 == r % 256;
    assert Xor(h, b) == Xor(r, b) + q * SYNTH_SPACE;
    MultipleDrops(Xor(r, b), q, SYNTH_SPACE);
    assert Xor(r, b) < SYNTH_SPACE;
  }

  lemma QuotientUnique(a: int, m: int, q: int, r: int)
    requires m > 0 && a == q * m + r && 0 <= r < m
    ensures a / m == q && a % m == r
  {
    var d := a / m - q;
    assert d * m == r - a % m;
    assert d >= 1 ==> d * m >= m;
    assert d <= -1 ==> d * m <= -m;
  }

  lemma MultipleDrops(a: int, k: int, m: nat)
    requires m > 0
    ensures (a + k * m) % m == a % m
  {
    QuotientUnique(a + k * m, m, a / m + k, a % m);
  }

  // Congruence modulo 2^29 survives multiplication by a constant.
  lemma MulCongruent(x: int, y: int, c: int)
    requires x % SYNTH_SPACE == y % SYNTH_SPACE
    ensures x * c % SYNTH_SPACE == y * c % SYNTH_SPACE
  {
    var k := x / SYNTH_SPACE - y / SYNTH_SPACE;
    assert x == y + k * SYNTH_SPACE;
    assert x * c == y * c + (k * c) * SYNTH_SPACE;
    MultipleDrops(y * c, k * c, SYNTH_SPACE);
  }

  // The prime has an inverse, so multiplying by it loses nothing modulo 2^29.
  lemma PrimeCancels(x: int, y: int)
    ensures x * PRIME % SYNTH_SPACE == y * PRIME % SYNTH_SPACE <==> x % SYNTH_SPACE == y % SYNTH_SPACE
  {
    var k := (PRIME * PRIME_INVERSE - 1) / SYNTH_SPACE;
    assert PRIME * PRIME_INVERSE == 1 + k * SYNTH_SPACE;
    if x * PRIME % SYNTH_SPACE == y * PRIME % SYNTH_SPACE {
      MulCongruent(x * PRIME, y * PRIME, PRIME_INVERSE);
      assert x * PRIME * PRIME_INVERSE == x + (x * k) * SYNTH_SPACE;
      assert y * PRIME * PRIME_INVERSE == y + (y * k) * SYNTH_SPACE;
      MultipleDrops(x, x * k, SYNTH_SPACE);
      MultipleDrops(y, y * k, SYNTH_SPACE);
    }
    if x % SYNTH_SPACE == y % SYNTH_SPACE {
      MulCongruent(x, y, PRIME);
    }
  }

  // The low 29 bits of a step, before and after: xor with the byte is what counts.
  lemma StepLow(h: nat, g: nat, b: byte, c: byte)
    ensures Step(h, b) % SYNTH_SPACE == Step(g, c) % SYNTH_SPACE <==>
            Xor(h % SYNTH_SPACE, b) == Xor(g % SYNTH_SPACE, c)
  {
    var u, v := Xor(h, b), Xor(g, c);
    XorResidue(h, b);
    XorResidue(g, c);
    PrimeCancels(u, v);
    FoldMod(u * PRIME);
    FoldMod(v * PRIME);
  }

  lemma FoldMod(n: nat)
    ensures n % TWO_32 % SYNTH_SPACE == n % SYNTH_SPACE
  {
  }

  // Hashing the same bytes keeps equal states equal and distinct states distinct.
  lemma {:induction false} HashReflects(h: nat, g: nat, data: GoString)
    ensures Hash(h, data) % SYNTH_SPACE == Hash(g, data) % SYNTH_SPACE <==> h % SYNTH_SPACE == g % SYNTH_SPACE
    decreases |data|
  {
    if data != [] {
      StepLow(h, g, data[0], data[0]);
      XorInjective(h % SYNTH_SPACE, g % SYNTH_SPACE, data[0], data[0]);
      HashReflects(Step(h, data[0]), Step(g, data[0]), data[1..]);
    }
  }

  lemma {:induction false} HashAppend(h: nat, a: GoString, b: GoString)
    ensures Hash(h, a + b) == Hash(Hash(h, a), b)
    decreases |a|
  {
    if a == [] {
      assert a + b == b;
    } else {
      assert (a + b)[1..] == a[1..] + b;
      HashAppend(Step(h, a[0]), a[1..], b);
    }
  }

  lemma RidEqual(a: GoString, b: GoString)
    ensures Rid(a) == Rid(b) <==> Hash(OFFSET_BASIS, a) % SYNTH_SPACE == Hash(OFFSET_BASIS, b) % SYNTH_SPACE
  {
  }

  // A common suffix neither makes nor breaks a collision.
  lemma SuffixReflectsCollision(a: GoString, b: GoString, suffix: GoString)
    ensures Rid(a + suffix) == Rid(b + suffix) <==> Rid(a) == Rid(b)
  {
    HashAppend(OFFSET_BASIS, a, suffix);
    HashAppend(OFFSET_BASIS, b, suffix);
    HashReflects(Hash(OFFSET_BASIS, a), Hash(OFFSET_BASIS, b), suffix);
    RidEqual(a, b);
    RidEqual(a + suffix, b + suffix);
  }

  // Names that differ in one byte never share a RID.
  lemma OneByteApart(prefix: GoString, b: byte, c: byte, suffix: GoString)
    requires b != c
    ensures Rid(prefix + [b] + suffix) != Rid(prefix + [c] + suffix)
  {
    var h := Hash(OFFSET_BASIS, prefix);
    HashAppend(OFFSET_BASIS, prefix, [b]);
    HashAppend(OFFSET_BASIS, prefix, [c]);
    assert Hash(h, [b]) == Step(h, b) && Hash(h, [c]) == Step(h, c);
    StepLow(h, h, b, c);
    XorInjective(h % SYNTH_SPACE, h % SYNTH_SPACE, b, c);
    RidEqual(prefix + [b], prefix + [c]);
    SuffixReflectsCollision(prefix + [b], prefix + [c], suffix);
  }

  // ---- density ----

  function Bands(names: set<GoString>): set<int> {
    set n | n in names :: Rid(n) as int / BAND_WIDTH
  }

  function Below(n: nat): (r: set<int>)
    ensures |r| == n
    ensures forall i :: i in r <==> 0 <= i < n
  {
    if n == 0 then {} else Below(n - 1) + {n - 1}
  }

  // However many names there are, their RIDs fall into at most 2685 bands.
  lemma FewBands(names: set<GoString>)
    ensures |Bands(names)| <= 2685
  {
    SubsetSize(Bands(names), Below(2685));
  }

  lemma {:induction false} SubsetSize<T>(a: set<T>, b: set<T>)
    requires a <= b
    ensures |a| <= |b|
  {
    if |a| > 0 {
      var x :| x in a;
      SubsetSize(a - {x}, b - {x});
    }
  }
}
