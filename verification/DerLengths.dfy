// DER length fields (derLength and lenDERLen in apreq.go; sections 8.1.3 and
// 10.1 of X.690), and the reader inside collectGeneralizedTimes.

module DerLengths {
  import opened GoStrings

  const TWO_63: int := 0x8000_0000_0000_0000
  const TWO_64: int := 0x1_0000_0000_0000_0000

  // Go's int.
  newtype int64 = x: int | -0x8000_0000_0000_0000 <= x < 0x8000_0000_0000_0000

  // The bytes of n without leading zeros; nothing for 0.
  function BigEndian(n: nat): seq<byte> {
    if n == 0 then [] else BigEndian(n / 256) + [(n % 256) as byte]
  }

  // The number that bytes denote.
  function Number(s: seq<byte>): nat {
    if s == [] then 0 else 256 * Number(s[..|s| - 1]) + s[|s| - 1] as nat
  }

  function Pow256(k: nat): (p: nat)
    ensures p > 0
  {
    if k == 0 then 1 else 256 * Pow256(k - 1)
  }

  // The DER length field for n.
  function Encode(n: nat): (r: seq<byte>)
    ensures |r| > 0
  {
    if n < 0x80 then [n as byte]
    else [((0x80 + |BigEndian(n)|) % 256) as byte] + BigEndian(n)
  }

  lemma {:induction false} BigEndianSize(n: nat, k: nat)
    ensures |BigEndian(n)| <= k <==> n < Pow256(k)
    decreases k
  {
    if k > 0 && n > 0 {
      BigEndianSize(n / 256, k - 1);
    }
  }

  lemma IntBytes(n: nat)
    requires n < TWO_64
    ensures |BigEndian(n)| <= 8
  {
    assert Pow256(8) == TWO_64;
    BigEndianSize(n, 8);
  }

  // derLength. A negative n, which no caller passes, is truncated to one byte.
  method DerLength(n: int64) returns (out: seq<byte>)
    ensures n >= 0 ==> out == Encode(n as nat)
    ensures n < 0 ==> out == [(n as int % 256) as byte]
  {
    if n < 0x80 {
      return [(n as int % 256) as byte];
    }
    var nBytes := CountBytes(n);
    IntBytes(n as nat);
    var buf := new byte[1 + nBytes];
    buf[0] := (0x80 + nBytes) as byte;
    FillBackwards(buf, n, nBytes);
    assert buf[..] == [buf[0]] + buf[1..];
    return buf[..];
  }

  // The loop of derLength that fills the buffer from its end.
  method FillBackwards(buf: array<byte>, n: int64, nBytes: nat)
    requires n >= 0 && nBytes == |BigEndian(n as nat)| && buf.Length == 1 + nBytes
    modifies buf
    ensures buf[0] == old(buf[0]) && buf[1..] == BigEndian(n as nat)
  {
    var rest, i := n, nBytes;
    while i >= 1
      invariant 0 <= i <= nBytes && rest >= 0
      invariant buf[0] == old(buf[0])
      invariant |BigEndian(rest as nat)| == i
      invariant BigEndian(rest as nat) + buf[i + 1..] == BigEndian(n as nat)
    {
      ghost var tail := buf[i + 1..];
      buf[i] := (rest % 256) as byte;
      rest := rest / 256;
      i := i - 1;
      assert buf[i + 1..] == [buf[i + 1]] + tail;
    }
    assert BigEndian(rest as nat) == [];
  }

  // The counting loop that derLength and lenDERLen share.
  method CountBytes(n: int64) returns (nBytes: nat)
    requires n >= 0
    ensures nBytes == |BigEndian(n as nat)|
  {
    nBytes := 0;
    var tmp := n;
    while tmp > 0
      invariant tmp >= 0
      invariant nBytes + |BigEndian(tmp as nat)| == |BigEndian(n as nat)|
    {
      nBytes := nBytes + 1;
      tmp := tmp / 256;
    }
  }

  method LenDERLen(n: int64) returns (r: nat)
    ensures n >= 0 ==> r == |Encode(n as nat)|
    ensures n < 0 ==> r == 1
  {
    if n < 0x80 {
      return 1;
    }
    var nBytes := CountBytes(n);
    return 1 + nBytes;
  }

  // ---- reading a length field ----

  // A value kept in a Go int.
  function Wrap(n: int): (r: int)
    ensures -TWO_63 <= r < TWO_63
  {
    var m := n % TWO_64;
    if m < TWO_63 then m else m - TWO_64
  }

  datatype Header = Header(length: int, used: nat)

  // The reader takes as many of the announced bytes as there are, shifting them
  // into an int.
  function Read(b: seq<byte>): (h: Header)
    requires |b| > 0
    ensures 0 < h.used <= |b|
  {
    if b[0] < 0x80 then Header(b[0] as int, 1)
    else
      var n := b[0] as nat - 0x80;
      var k := if n < |b| - 1 then n else |b| - 1;
      Header(Wrap(Number(b[1..1 + k])), 1 + k)
  }

  lemma WrapStep(v: int, c: int)
    ensures Wrap(Wrap(v) * 256 + c) == Wrap(v * 256 + c)
  {
    var q := v / TWO_64 + (if v % TWO_64 < TWO_63 then 0 else 1);
    assert v == Wrap(v) + q * TWO_64;
    WrapDrops(Wrap(v) * 256 + c, q * 256);
  }

  lemma WrapDrops(v: int, k: int)
    ensures Wrap(v + k * TWO_64) == Wrap(v)
  {
  }

  method ReadLength(b: seq<byte>) returns (l: int64, used: nat)
    requires |b| > 0
    ensures Header(l as int, used) == Read(b)
  {
    var i := 1;
    if b[0] < 0x80 {
      return b[0] as int64, i;
    }
    var n := b[0] as nat - 0x80;
    var acc := 0;
    assert b[1..1] == [];
    var j := 0;
    while j < n && i < |b|
      invariant 0 <= j <= n && i == 1 + j <= |b|
      invariant acc == Wrap(Number(b[1..i]))
    {
      WrapStep(Number(b[1..i]), b[i] as int);
      assert b[1..i + 1][..i - 1] == b[1..i];
      acc := Wrap(acc * 256 + b[i] as int);
      i := i + 1;
      j := j + 1;
    }
    return acc as int64, i;
  }

  lemma {:induction false} NumberOfBigEndian(n: nat)
    ensures Number(BigEndian(n)) == n
  {
    if n > 0 {
      NumberOfBigEndian(n / 256);
      assert BigEndian(n)[..|BigEndian(n)| - 1] == BigEndian(n / 256);
    }
  }

  // Reading inverts writing and consumes the field exactly, whatever follows.
  lemma ReadEncode(n: nat, rest: seq<byte>)
    requires n < TWO_63
    ensures Read(Encode(n) + rest) == Header(n, |Encode(n)|)
  {
    if n < 0x80 {
      assert (Encode(n) + rest)[0] == n as byte;
    } else {
      var first, digits := EncodeLongForm(n);
      ReadLongForm(first, digits, rest);
      WrapSmall(n);
    }
  }

  lemma EncodeLongForm(n: nat) returns (first: byte, digits: seq<byte>)
    requires 0x80 <= n < TWO_63
    ensures Encode(n) == [first] + digits && first as int == 0x80 + |digits|
    ensures digits == BigEndian(n) && Number(digits) == n
  {
    digits := BigEndian(n);
    IntBytes(n);
    NumberOfBigEndian(n);
    first := (0x80 + |digits|) as byte;
  }

  lemma WrapSmall(n: int)
    ensures 0 <= n < TWO_63 ==> Wrap(n) == n
  {
  }

  lemma ReadLongForm(first: byte, digits: seq<byte>, rest: seq<byte>)
    requires first as int == 0x80 + |digits|
    ensures Read([first] + digits + rest) == Header(Wrap(Number(digits)), 1 + |digits|)
  {
    assert ([first] + digits + rest)[1..1 + |digits|] == digits;
  }

  // Different lengths never have encodings of which one starts the other.
  lemma PrefixFree(m: nat, n: nat)
    requires m < TWO_63 && n < TWO_63 && Encode(m) <= Encode(n)
    ensures m == n
  {
    var rest := Encode(n)[|Encode(m)|..];
    assert Encode(n) == Encode(m) + rest;
    ReadEncode(m, rest);
    ReadEncode(n, []);
    assert Encode(n) + [] == Encode(n);
  }

  // ---- canonicity ----

  // A definite form of n: one byte below 0x80, or a count of 1 to 126 and that
  // many bytes, leading zeros allowed (section 8.1.3 of X.690).
  predicate IsDefiniteForm(h: seq<byte>, n: nat) {
    || (|h| == 1 && h[0] < 0x80 && h[0] as nat == n)
    || (|h| >= 2 && 0x80 < h[0] < 0xFF && |h| == 1 + h[0] as nat - 0x80 && Number(h[1..]) == n)
  }

  lemma {:induction false} NumberBound(s: seq<byte>)
    ensures Number(s) < Pow256(|s|)
  {
    if s != [] {
      NumberBound(s[..|s| - 1]);
    }
  }

  lemma {:induction false} NumberInjective(s: seq<byte>, t: seq<byte>)
    requires |s| == |t| && Number(s) == Number(t)
    ensures s == t
  {
    if s != [] {
      NumberInjective(s[..|s| - 1], t[..|t| - 1]);
      assert s == s[..|s| - 1] + [s[|s| - 1]] && t == t[..|t| - 1] + [t[|t| - 1]];
    }
  }

  // Encode gives a definite form of n, no other is shorter, and no other is as short.
  lemma UniqueShortest(h: seq<byte>, n: nat)
    requires n < TWO_63
    ensures IsDefiniteForm(Encode(n), n)
    ensures IsDefiniteForm(h, n) ==> |h| >= |Encode(n)| && (|h| == |Encode(n)| ==> h == Encode(n))
  {
    if n >= 0x80 {
      var first, digits := EncodeLongForm(n);
      assert Encode(n)[1..] == digits;
      IntBytes(n);
      if IsDefiniteForm(h, n) {
        NoneShorter(h, n, first, digits);
      }
    }
  }

  lemma NoneShorter(h: seq<byte>, n: nat, first: byte, digits: seq<byte>)
    requires n >= 0x80 && IsDefiniteForm(h, n) && digits == BigEndian(n)
    requires Number(digits) == n && first as int == 0x80 + |digits|
    ensures |h| >= 1 + |digits| && (|h| == 1 + |digits| ==> h == [first] + digits)
  {
    NumberBound(h[1..]);
    BigEndianSize(n, |h| - 1);
    if |h| == 1 + |digits| {
      NumberInjective(h[1..], digits);
      assert h == [h[0]] + h[1..];
    }
  }

  // ---- lengths longer than an int ----

  lemma {:induction false} NumberAppend(s: seq<byte>, t: seq<byte>)
    ensures Number(s + t) == Number(s) * Pow256(|t|) + Number(t)
  {
    if t == [] {
      assert s + t == s;
    } else {
      var init := t[..|t| - 1];
      NumberAppend(s, init);
      assert (s + t)[..|s + t| - 1] == s + init;
      assert 256 * (Number(s) * Pow256(|init|)) == Number(s) * (256 * Pow256(|init|));
    }
  }

  // The last eight bytes, or all of fewer.
  function LastEight(s: seq<byte>): (r: seq<byte>)
    ensures |r| <= 8
  {
    if |s| <= 8 then s else s[|s| - 8..]
  }

  // Earlier bytes have been shifted out of the int.
  lemma WrapOfLastEight(s: seq<byte>)
    ensures Number(LastEight(s)) < TWO_64
    ensures Wrap(Number(s)) == Wrap(Number(LastEight(s)))
  {
    assert Pow256(8) == TWO_64;
    NumberBound(LastEight(s));
    Pow256Monotone(|LastEight(s)|, 8);
    if |s| > 8 {
      var before := s[..|s| - 8];
      assert s == before + LastEight(s);
      NumberAppend(before, LastEight(s));
      WrapDrops(Number(LastEight(s)), Number(before));
    }
  }

  lemma {:induction false} Pow256Monotone(a: nat, b: nat)
    requires a <= b
    ensures Pow256(a) <= Pow256(b)
    decreases b
  {
    if a < b {
      Pow256Monotone(a, b - 1);
    }
  }

  // The size of the length field at the front of b, as far as it is there.
  function FieldSize(b: seq<byte>): (n: nat)
    requires |b| > 0
    ensures 0 < n <= |b|
  {
    if b[0] < 0x80 then 1 else if b[0] as nat - 0x7F <= |b| then b[0] as nat - 0x7F else |b|
  }

  // Those of its bytes that carry the value.
  function LengthBytes(b: seq<byte>): seq<byte>
    requires |b| > 0
  {
    if b[0] < 0x80 then b[..1] else b[1..FieldSize(b)]
  }

  // The value, unsigned, that its last eight bytes give.
  function Declared(b: seq<byte>): nat
    requires |b| > 0
  {
    Number(LastEight(LengthBytes(b)))
  }

  // What the reader makes of it.
  lemma ReadMeaning(b: seq<byte>)
    requires |b| > 0
    ensures Read(b) == Header(Wrap(Declared(b)), FieldSize(b))
    ensures 0 <= Declared(b) < TWO_64
  {
    WrapOfLastEight(LengthBytes(b));
    if b[0] < 0x80 {
      assert b[..1][..0] == [];
      assert Number(b[..1]) == b[0] as nat;
    }
  }

  lemma WrapFits(v: int, end: int)
    requires 0 <= v < TWO_64 && 0 <= end < TWO_63
    ensures 0 <= Wrap(v) < TWO_63 - end <==> v < TWO_63 - end
  {
  }
}
