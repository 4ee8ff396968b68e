// What the DER walker makes of any bytes whatever: lengths need not be minimal,
// and each level may end in bytes that are no complete node.

module DerLevels {
  import opened GoStrings
  import opened DerLengths
  import opened DerForests

  datatype Node = Leaf(tag: byte, field: seq<byte>, content: seq<byte>)
                | Inner(tag: byte, field: seq<byte>, inside: Level)
  datatype Level = End(junk: seq<byte>) | More(head: Node, tail: Level)

  function Content(n: Node): seq<byte> {
    match n
    case Leaf(_, _, content) => content
    case Inner(_, _, inside) => Bytes(inside)
  }

  function Bytes(l: Level): seq<byte> {
    match l
    case End(junk) => junk
    case More(n, tail) => [n.tag] + n.field + Content(n) + Bytes(tail)
  }

  // A length field of any size that declares n bytes, with rest after those. Cut
  // short by the end of the level it still counts, if all it has declares nothing.
  predicate IsField(field: seq<byte>, n: nat, rest: seq<byte>) {
    && |field| > 0 && Declared(field) == n < TWO_63
    && var size := if field[0] < 0x80 then 1 else field[0] as nat - 0x7F;
    |field| == size || (|field| < size && n == 0 && rest == [])
  }

  // Too short for a header, or a header whose contents end past the end, though
  // within Go's int; i is where this stands in its level.
  predicate IsJunk(junk: seq<byte>, i: nat) {
    |junk| > 1 ==>
      var from := 1 + FieldSize(junk[1..]);
      |junk| < from + Declared(junk[1..]) < TWO_63 - i
  }

  // The bit 0x20 of a tag says which kind of node it is.
  predicate IsLevel(l: Level, i: nat) {
    match l
    case End(junk) => IsJunk(junk, i)
    case More(n, tail) =>
      && IsField(n.field, |Content(n)|, Bytes(tail))
      && (n.Inner? <==> n.tag % 0x40 >= 0x20)
      && (n.Inner? ==> IsLevel(n.inside, 0))
      && IsLevel(tail, i + 1 + |n.field| + |Content(n)|)
  }

  // The contents of the leaves tagged as GeneralizedTime, left to right.
  function LevelTimes(l: Level): seq<seq<byte>> {
    match l
    case End(_) => []
    case More(n, tail) => NodeTimes(n) + LevelTimes(tail)
  }

  function NodeTimes(n: Node): seq<seq<byte>> {
    match n
    case Leaf(tag, _, content) => if tag == 0x18 then [content] else []
    case Inner(_, _, inside) => LevelTimes(inside)
  }

  ghost predicate Reads(l: Level, b: seq<byte>, times: seq<seq<byte>>) {
    Bytes(l) == b && IsLevel(l, 0) && LevelTimes(l) == times
  }

  lemma ConstructedBit(tag: byte)
    ensures Constructed(tag) <==> tag % 0x40 >= 0x20
  {
  }

  // ---- from a reading to the walk ----

  lemma FieldAlone(field: seq<byte>, body: seq<byte>, after: seq<byte>)
    requires IsField(field, |body|, after)
    ensures Read(field + (body + after)) == Header(|body|, |field|)
  {
    var b := field + (body + after);
    ReadMeaning(b);
    assert FieldSize(b) == |field|;
    assert LengthBytes(b) == LengthBytes(field);
    WrapSmall(|body|);
  }

  lemma HeadOfNode(b: seq<byte>, i: nat, field: seq<byte>, body: seq<byte>, after: seq<byte>)
    requires i + 1 < |b| < TWO_63 && IsField(field, |body|, after)
    requires b[i + 1..] == field + (body + after)
    ensures HeadAt(b, i) == Item(|b| - |after| - |body|, |b| - |after|)
  {
    FieldAlone(field, body, after);
    assert |b[i + 1..]| == |field| + |body| + |after|;
  }

  lemma HeadOfJunk(b: seq<byte>, i: nat, junk: seq<byte>)
    requires i <= |b| < TWO_63 && b[i..] == junk && |junk| > 1
    ensures HeadAt(b, i) == PastEnd <==> IsJunk(junk, i)
  {
    var field := junk[1..];
    assert b[i + 1..] == field;
    ReadMeaning(field);
    WrapFits(Declared(field), i + 1 + FieldSize(field));
    WrapSmall(Declared(field));
  }

  lemma {:induction false} WalkOfLevel(before: seq<byte>, l: Level)
    requires IsLevel(l, |before|) && |before + Bytes(l)| < TWO_63
    ensures WalkFrom(before + Bytes(l), |before|) == Some(LevelTimes(l))
    decreases l
  {
    match l
    case End(junk) =>
      if |junk| > 1 {
        assert (before + junk)[|before|..] == junk;
        HeadOfJunk(before + junk, |before|, junk);
      }
    case More(n, tail) =>
      var field, body, after := n.field, Content(n), Bytes(tail);
      var next := before + [n.tag] + field + body;
      Layout(before, n.tag, field, body, after);
      HeadOfNode(next + after, |before|, field, body, after);
      WalkOfLevel(next, tail);
      WalkOfNode(n);
  }

  lemma {:induction false} WalkOfNode(n: Node)
    requires (n.Inner? <==> n.tag % 0x40 >= 0x20) && (n.Inner? ==> IsLevel(n.inside, 0)) && |Content(n)| < TWO_63
    ensures DerForests.Node(n.tag, Content(n)) == Some(NodeTimes(n))
    decreases n
  {
    ConstructedBit(n.tag);
    if n.Inner? {
      assert [] + Bytes(n.inside) == Bytes(n.inside);
      WalkOfLevel([], n.inside);
    }
  }

  // ---- from the walk to a reading ----

  lemma {:induction false} LevelOfWalk(b: seq<byte>, i: nat) returns (l: Level)
    requires i <= |b| < TWO_63 && WalkFrom(b, i).Some?
    ensures Bytes(l) == b[i..] && IsLevel(l, i)
    decreases |b|, |b| - i
  {
    if i + 1 >= |b| {
      l := End(b[i..]);
    } else if HeadAt(b, i).PastEnd? {
      HeadOfJunk(b, i, b[i..]);
      l := End(b[i..]);
    } else {
      var head := HeadAt(b, i);
      var content := b[head.from..head.to];
      var tail := LevelOfWalk(b, head.to);
      WalkGoesOn(b, i);
      if Constructed(b[i]) {
        NodeGoesIn(b[i], content);
        var inside := LevelOfWalk(content, 0);
        assert content[0..] == content;
        l := NodeAt(b, i, Inner(b[i], b[i + 1..head.from], inside), tail);
      } else {
        l := NodeAt(b, i, Leaf(b[i], b[i + 1..head.from], content), tail);
      }
    }
  }

  lemma WalkGoesOn(b: seq<byte>, i: nat)
    requires i + 1 < |b| && WalkFrom(b, i).Some? && HeadAt(b, i).Item?
    ensures var head := HeadAt(b, i);
            WalkFrom(b, head.to).Some? && DerForests.Node(b[i], b[head.from..head.to]).Some?
  {
  }

  lemma NodeGoesIn(tag: byte, content: seq<byte>)
    requires Constructed(tag)
    ensures DerForests.Node(tag, content) == WalkFrom(content, 0)
  {
    ConstructedBit(tag);
  }

  // A node that has been read and the level after it.
  lemma NodeAt(b: seq<byte>, i: nat, n: Node, tail: Level) returns (l: Level)
    requires i + 1 < |b| < TWO_63 && HeadAt(b, i).Item?
    requires var head := HeadAt(b, i);
             && n.tag == b[i] && n.field == b[i + 1..head.from] && Content(n) == b[head.from..head.to]
             && (n.Inner? <==> Constructed(b[i])) && (n.Inner? ==> IsLevel(n.inside, 0))
             && Bytes(tail) == b[head.to..] && IsLevel(tail, head.to)
    ensures Bytes(l) == b[i..] && IsLevel(l, i)
  {
    l := More(n, tail);
    FieldOfHead(b, i);
    ConstructedBit(b[i]);
    var head := HeadAt(b, i);
    CutInFour(b, i, head.from, head.to);
    assert |n.field| == head.from - (i + 1) && |Content(n)| == head.to - head.from;
  }

  lemma CutInFour(b: seq<byte>, i: nat, from: nat, to: nat)
    requires i < from <= to <= |b|
    ensures b[i..] == [b[i]] + b[i + 1..from] + b[from..to] + b[to..]
  {
  }

  lemma FieldOfHead(b: seq<byte>, i: nat)
    requires i + 1 < |b| < TWO_63 && HeadAt(b, i).Item?
    ensures var head := HeadAt(b, i); IsField(b[i + 1..head.from], head.to - head.from, b[head.to..])
  {
    var rest := b[i + 1..];
    var head := HeadAt(b, i);
    var field := b[i + 1..head.from];
    ReadMeaning(rest);
    WrapFits(Declared(rest), 0);
    WrapSmall(Declared(rest));
    assert field == rest[..FieldSize(rest)];
    assert LengthBytes(field) == LengthBytes(rest);
  }

  // The edge that IsField allows: two announced length bytes of which only one is
  // there, a zero, make an empty value.
  lemma CutFieldReadsEmpty()
    ensures WalkFrom([0x18, 0x82, 0x00], 0) == Some([[]])
  {
    var field: seq<byte> := [0x82, 0x00];
    var l := More(Leaf(0x18, field, []), End([]));
    assert LengthBytes(field) == [0x00] && LastEight([0x00]) == [0x00] && [0x00][..0] == [];
    assert Bytes(l) == [0x18, 0x82, 0x00];
    assert IsLevel(l, 0);
    WalkOfLevel([], l);
    assert [] + Bytes(l) == Bytes(l);
    assert LevelTimes(l) == [[]];
  }

  // On every byte string: the walk finds given values exactly if the bytes can be
  // read as nodes, with nothing but incomplete ends left over, that have them as
  // their GeneralizedTime leaves.
  lemma WalkIff(b: seq<byte>, times: seq<seq<byte>>)
    requires |b| < TWO_63
    ensures WalkFrom(b, 0) == Some(times) <==> exists l :: Reads(l, b, times)
  {
    if WalkFrom(b, 0) == Some(times) {
      var l := LevelOfWalk(b, 0);
      assert b[0..] == b && [] + Bytes(l) == b;
      WalkOfLevel([], l);
      assert Reads(l, b, times);
    }
    if l :| Reads(l, b, times) {
      assert [] + Bytes(l) == b;
      WalkOfLevel([], l);
    }
  }
}
