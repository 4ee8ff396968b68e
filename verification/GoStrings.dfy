// Go strings and byte slices, and the few library operations on them that the
// modelled code uses.

module GoStrings {
  import ByteXor

  // A Go byte, and a Go string: any sequence of bytes, not necessarily UTF-8.
  type byte = ByteXor.byte
  type GoString = seq<byte>

  const NUL: byte := 0
  const SPACE: byte := 0x20
  const COMMA: byte := 0x2C
  const DASH: byte := 0x2D
  const SLASH: byte := 0x2F
  const DIGIT_0: byte := 0x30
  const DIGIT_9: byte := 0x39
  const AT: byte := 0x40

  datatype Option<+T> = None | Some(value: T)

  // The bytes of an ASCII literal.
  function Ascii(s: string): (r: GoString)
    ensures |r| == |s|
  {
    seq(|s|, i requires 0 <= i < |s| => (s[i] as int % 256) as byte)
  }

  // strings.IndexByte: the first position of c in s, or -1.
  function IndexByte(s: GoString, c: byte): (r: int)
    ensures -1 <= r < |s|
  {
    if s == [] then -1
    else if s[0] == c then 0
    else
      var r := IndexByte(s[1..], c);
      if r == -1 then -1 else r + 1
  }

  lemma {:induction false} IndexByteMeaning(s: GoString, c: byte)
    ensures var r := IndexByte(s, c);
            if r == -1 then c !in s else c !in s[..r] && s == s[..r] + [c] + s[r + 1..]
  {
    if s != [] && s[0] != c {
      IndexByteMeaning(s[1..], c);
      assert s == [s[0]] + s[1..];
    }
  }

  // strings.Split for a one-byte separator: always at least one part.
  function Split(s: GoString, sep: byte): (parts: seq<GoString>)
    ensures |parts| > 0
    decreases |s|
  {
    var at := IndexByte(s, sep);
    if at == -1 then [s] else [s[..at]] + Split(s[at + 1..], sep)
  }

  // The inverse of Split: the parts with the separator between neighbours.
  function Join(parts: seq<GoString>, sep: byte): GoString
    requires |parts| > 0
  {
    if |parts| == 1 then parts[0] else parts[0] + [sep] + Join(parts[1..], sep)
  }

  lemma {:induction false} FirstIndexUnique(left: GoString, c: byte, right: GoString)
    requires c !in left
    ensures IndexByte(left + [c] + right, c) == |left|
    ensures (left + [c] + right)[..|left|] == left
    ensures (left + [c] + right)[|left| + 1..] == right
  {
    var s := left + [c] + right;
    if left != [] {
      assert left[0] in left;
      assert s[1..] == left[1..] + [c] + right;
      FirstIndexUnique(left[1..], c, right);
    }
  }

  lemma {:induction false} NoIndex(s: GoString, c: byte)
    requires c !in s
    ensures IndexByte(s, c) == -1
  {
    IndexByteMeaning(s, c);
  }

  // Cutting at the last separator is unambiguous when neither right part has one.
  lemma LastCutUnique(l1: GoString, r1: GoString, l2: GoString, r2: GoString, c: byte)
    requires c !in r1 && c !in r2
    requires l1 + [c] + r1 == l2 + [c] + r2
    ensures l1 == l2 && r1 == r2
  {
    var s := l1 + [c] + r1;
    assert s[|l1|] == c && s[|l1| + 1..] == r1;
    assert s[|l2|] == c && s[|l2| + 1..] == r2;
    assert s[..|l1|] == l1 && s[..|l2|] == l2;
  }

  lemma SplitWhole(s: GoString, sep: byte)
    requires sep !in s
    ensures Split(s, sep) == [s]
  {
    NoIndex(s, sep);
  }

  lemma SplitFirst(left: GoString, sep: byte, right: GoString)
    requires sep !in left
    ensures Split(left + [sep] + right, sep) == [left] + Split(right, sep)
  {
    FirstIndexUnique(left, sep, right);
  }

  // Two parts are the two sides of the only separator.
  lemma SplitInTwo(s: GoString, sep: byte)
    ensures var at := IndexByte(s, sep);
            if at >= 0 && sep !in s[at + 1..] then Split(s, sep) == [s[..at], s[at + 1..]]
            else |Split(s, sep)| != 2
  {
    var at := IndexByte(s, sep);
    IndexByteMeaning(s, sep);
    if at == -1 {
      SplitWhole(s, sep);
    } else {
      var rest := s[at + 1..];
      SplitFirst(s[..at], sep, rest);
      var next := IndexByte(rest, sep);
      IndexByteMeaning(rest, sep);
      if next == -1 {
        SplitWhole(rest, sep);
      } else {
        SplitFirst(rest[..next], sep, rest[next + 1..]);
      }
    }
  }

  lemma {:induction false} JoinSplit(s: GoString, sep: byte)
    ensures Join(Split(s, sep), sep) == s
    ensures forall p :: p in Split(s, sep) ==> sep !in p
    decreases |s|
  {
    var at := IndexByte(s, sep);
    IndexByteMeaning(s, sep);
    if at >= 0 {
      JoinSplit(s[at + 1..], sep);
      assert ([s[..at]] + Split(s[at + 1..], sep))[1..] == Split(s[at + 1..], sep);
    }
  }

  lemma {:induction false} SplitJoin(parts: seq<GoString>, sep: byte)
    requires |parts| > 0
    requires forall p :: p in parts ==> sep !in p
    ensures Split(Join(parts, sep), sep) == parts
  {
    assert parts[0] in parts;
    if |parts| > 1 {
      SplitFirst(parts[0], sep, Join(parts[1..], sep));
      SplitJoin(parts[1..], sep);
    } else {
      SplitWhole(parts[0], sep);
    }
  }
}
