// The DER walker collectGeneralizedTimes (minter_test.go), run on trees whose
// lengths derLength wrote.

module DerForests {
  import opened GoStrings
  import opened DerLengths

  const GENERALIZED_TIME: byte := 0x18

  predicate Constructed(tag: byte) { tag / 32 % 2 == 1 }

  // What the reader makes of the header at index i: contents past the end of b
  // stop this level of the walk; a length that turned negative, or an end past
  // Go's int, makes the slice expression panic.
  datatype Head = Item(from: nat, to: nat) | PastEnd | BadSlice

  function HeadAt(b: seq<byte>, i: nat): (head: Head)
    requires i + 1 < |b|
    ensures head.Item? ==> i + 2 <= head.from <= head.to <= |b|
  {
    var h := Read(b[i + 1..]);
    var k := i + 1 + h.used;
    if h.length < 0 || k + h.length >= TWO_63 then BadSlice
    else if k + h.length > |b| then PastEnd
    else Item(k, k + h.length)
  }

  // The walk over b from index i: the values found, or None for a panic.
  function WalkFrom(b: seq<byte>, i: nat): Option<seq<seq<byte>>>
    requires i <= |b|
    decreases |b|, |b| - i
  {
    if i + 1 >= |b| then Some([])
    else
      match HeadAt(b, i)
      case BadSlice => None
      case PastEnd => Some([])
      case Item(from, to) => Then(Node(b[i], b[from..to]), WalkFrom(b, to))
  }

  // What one node contributes.
  function Node(tag: byte, content: seq<byte>): Option<seq<seq<byte>>>
    decreases |content|, |content| + 1
  {
    if tag == GENERALIZED_TIME then Some([content])
    else if Constructed(tag) then WalkFrom(content, 0)
    else Some([])
  }

  function Then(first: Option<seq<seq<byte>>>, rest: Option<seq<seq<byte>>>): Option<seq<seq<byte>>> {
    if first.None? || rest.None? then None else Some(first.value + rest.value)
  }

  // The closure and the slice it captures.
  class TimeCollector {
    var times: seq<seq<byte>>

    constructor ()
      ensures times == []
    {
      times := [];
    }

    method Walk(b: seq<byte>) returns (panicked: bool)
      requires |b| < TWO_63
      modifies this
      ensures panicked <==> WalkFrom(b, 0).None?
      ensures !panicked ==> times == old(times) + WalkFrom(b, 0).value
      decreases |b|
    {
      var i := 0;
      ghost var found: seq<seq<byte>> := [];
      ThenNothing(WalkFrom(b, 0));
      while i + 1 < |b|
        invariant 0 <= i <= |b|
        invariant times == old(times) + found
        invariant WalkFrom(b, 0) == Then(Some(found), WalkFrom(b, i))
        decreases |b| - i
      {
        var head := ReadHead(b, i);
        match head
        case BadSlice =>
          return true;
        case PastEnd =>
          ThenNothing(Some(found));
          return false;
        case Item(from, to) =>
          var content := b[from..to];
          ghost var here := Node(b[i], content);
          ThenAssociates(found, here, WalkFrom(b, to));
          if b[i] == GENERALIZED_TIME {
            times := times + [content];
          } else if Constructed(b[i]) {
            var failed := Walk(content);
            if failed {
              return true;
            }
          }
          found := found + here.value;
          i := to;
      }
      ThenNothing(Some(found));
      return false;
    }
  }

  // Tag and length of the node at index i.
  method ReadHead(b: seq<byte>, start: nat) returns (head: Head)
    requires start + 1 < |b| < TWO_63
    ensures head == HeadAt(b, start)
  {
    var i := start + 1;
    var l, used := ReadLength(b[i..]);
    i := i + used;
    // i + l is an int: past the end of its range the sum would turn negative.
    if l < 0 || i + l as int >= TWO_63 {
      return BadSlice;
    }
    if i + l as int > |b| {
      return PastEnd;
    }
    return Item(i, i + l as int);
  }

  lemma ThenNothing(x: Option<seq<seq<byte>>>)
    ensures Then(Some([]), x) == x
    ensures Then(x, Some([])) == x
  {
    if x.Some? {
      assert [] + x.value == x.value && x.value + [] == x.value;
    }
  }

  lemma ThenAssociates(xs: seq<seq<byte>>, y: Option<seq<seq<byte>>>, z: Option<seq<seq<byte>>>)
    ensures y.Some? ==> Then(Some(xs), Then(y, z)) == Then(Some(xs + y.value), z)
  {
    if y.Some? && z.Some? {
      assert xs + (y.value + z.value) == xs + y.value + z.value;
    }
  }

  // collectGeneralizedTimes; None is a panic.
  method CollectGeneralizedTimes(der: seq<byte>) returns (r: Option<seq<seq<byte>>>)
    requires |der| < TWO_63
    ensures r == WalkFrom(der, 0)
  {
    var c := new TimeCollector();
    ThenNothing(WalkFrom(der, 0));
    var panicked := c.Walk(der);
    if panicked {
      return None;
    }
    return Some(c.times);
  }

  // ---- trees ----

  datatype Tree = Primitive(tag: byte, content: seq<byte>) | Branch(tag: byte, children: Forest)
  datatype Forest = Nil | Cons(head: Tree, tail: Forest)

  // The tag's constructed bit says which kind of node it is.
  predicate WellTagged(f: Forest) {
    match f
    case Nil => true
    case Cons(Primitive(tag, _), tail) => !Constructed(tag) && WellTagged(tail)
    case Cons(Branch(tag, children), tail) => Constructed(tag) && WellTagged(children) && WellTagged(tail)
  }

  function Body(t: Tree): seq<byte> {
    match t
    case Primitive(_, content) => content
    case Branch(_, children) => EncodeForest(children)
  }

  // Tag, length, contents of each tree in turn.
  function EncodeForest(f: Forest): seq<byte> {
    match f
    case Nil => []
    case Cons(t, tail) => [t.tag] + Encode(|Body(t)|) + Body(t) + EncodeForest(tail)
  }

  // The contents of the GeneralizedTime leaves, left to right.
  function Times(f: Forest): seq<seq<byte>> {
    match f
    case Nil => []
    case Cons(t, tail) => TimesOf(t) + Times(tail)
  }

  function TimesOf(t: Tree): seq<seq<byte>> {
    match t
    case Primitive(tag, content) => if tag == GENERALIZED_TIME then [content] else []
    case Branch(_, children) => Times(children)
  }

  lemma Layout(before: seq<byte>, tag: byte, field: seq<byte>, body: seq<byte>, after: seq<byte>)
    ensures var b, k := before + [tag] + field + body + after, |before| + 1 + |field|;
            && b[|before|] == tag
            && b[|before| + 1..] == field + (body + after)
            && b[k..k + |body|] == body
            && b == before + ([tag] + field + body + after)
  {
  }

  // One encoded tree, read after what came before it.
  lemma HeadOfOne(b: seq<byte>, i: nat, body: seq<byte>, after: seq<byte>)
    requires i + 1 < |b| < TWO_63
    requires b[i + 1..] == Encode(|body|) + (body + after)
    ensures HeadAt(b, i) == Item(|b| - |after| - |body|, |b| - |after|)
  {
    ReadEncode(|body|, body + after);
    assert |b[i + 1..]| == |Encode(|body|)| + |body| + |after|;
  }

  lemma {:induction false} WalkForestFrom(before: seq<byte>, f: Forest)
    requires WellTagged(f) && |before + EncodeForest(f)| < TWO_63
    ensures WalkFrom(before + EncodeForest(f), |before|) == Some(Times(f))
    decreases f
  {
    match f
    case Nil =>
    case Cons(t, tail) =>
      var field, body, after := Encode(|Body(t)|), Body(t), EncodeForest(tail);
      var next := before + [t.tag] + field + body;
      Layout(before, t.tag, field, body, after);
      HeadOfOne(next + after, |before|, body, after);
      WalkForestFrom(next, tail);
      WalkTree(t);
  }

  lemma {:induction false} WalkTree(t: Tree)
    requires WellTagged(Cons(t, Nil)) && |Body(t)| < TWO_63
    ensures Node(t.tag, Body(t)) == Some(TimesOf(t))
    decreases t
  {
    if t.Branch? {
      var body := EncodeForest(t.children);
      assert [] + body == body;
      WalkForestFrom([], t.children);
      assert WalkFrom(body, 0) == Some(Times(t.children));
    }
  }

  // On an encoded forest the walker returns exactly its GeneralizedTime leaves,
  // in order, and looks into no other primitive.
  lemma WalkForest(f: Forest)
    requires WellTagged(f) && |EncodeForest(f)| < TWO_63
    ensures WalkFrom(EncodeForest(f), 0) == Some(Times(f))
  {
    WalkForestFrom([], f);
    assert [] + EncodeForest(f) == EncodeForest(f);
  }

  // ---- arbitrary bytes ----

  // The declared length, as the last eight of its bytes give it, leaves the end of
  // the contents within Go's int.
  predicate HeaderFits(b: seq<byte>, i: nat)
    requires i + 1 < |b|
  {
    var field := b[i + 1..];
    Declared(field) < TWO_63 - (i + 1 + FieldSize(field))
  }

  lemma HeaderFitsIff(b: seq<byte>, i: nat)
    requires i + 1 < |b| < TWO_63
    ensures HeadAt(b, i) != BadSlice <==> HeaderFits(b, i)
  {
    ReadMeaning(b[i + 1..]);
    WrapFits(Declared(b[i + 1..]), i + 1 + FieldSize(b[i + 1..]));
  }

  // Every header the walk reads fits.
  predicate HeadersFit(b: seq<byte>, i: nat)
    requires i <= |b|
    decreases |b|, |b| - i
  {
    i + 1 >= |b| ||
    (HeaderFits(b, i) &&
     (HeadAt(b, i).Item? ==>
        var head := HeadAt(b, i);
        (b[i] != GENERALIZED_TIME && Constructed(b[i]) ==> HeadersFit(b[head.from..head.to], 0)) &&
        HeadersFit(b, head.to)))
  }

  // The walk ends without a slice out of range exactly when they do.
  lemma {:induction false} PanicsIff(b: seq<byte>, i: nat)
    requires i <= |b| < TWO_63
    ensures WalkFrom(b, i).Some? <==> HeadersFit(b, i)
    decreases |b|, |b| - i
  {
    if i + 1 < |b| {
      HeaderFitsIff(b, i);
      var head := HeadAt(b, i);
      if head.Item? {
        PanicsIff(b[head.from..head.to], 0);
        PanicsIff(b, head.to);
      }
    }
  }

  // Every length field the walk reads announces at most seven bytes.
  predicate ShortHeaders(b: seq<byte>, i: nat)
    requires i <= |b|
    decreases |b|, |b| - i
  {
    i + 1 >= |b| ||
    (b[i + 1] < 0x88 &&
     (HeadAt(b, i).Item? ==>
        var head := HeadAt(b, i);
        (b[i] != GENERALIZED_TIME && Constructed(b[i]) ==> ShortHeaders(b[head.from..head.to], 0)) &&
        ShortHeaders(b, head.to)))
  }

  lemma {:induction false} ShortHeadersFit(b: seq<byte>, i: nat)
    requires i <= |b| <= TWO_63 - 0x100_0000_0000_0000
    requires ShortHeaders(b, i)
    ensures HeadersFit(b, i)
    decreases |b|, |b| - i
  {
    if i + 1 < |b| {
      SevenBytesFit(b[i + 1..]);
      var head := HeadAt(b, i);
      if head.Item? {
        if b[i] != GENERALIZED_TIME && Constructed(b[i]) {
          ShortHeadersFit(b[head.from..head.to], 0);
        }
        ShortHeadersFit(b, head.to);
      }
    }
  }

  lemma SevenBytesFit(field: seq<byte>)
    requires |field| > 0 && field[0] < 0x88
    ensures Declared(field) < 0x100_0000_0000_0000
  {
    var s := LengthBytes(field);
    NumberBound(s);
    Pow256Monotone(|s|, 7);
    assert Pow256(7) == 0x100_0000_0000_0000;
  }

  // So a walk that reads only lengths of at most seven bytes never panics.
  lemma ShortHeadersNeverPanic(b: seq<byte>, i: nat)
    requires i <= |b| <= TWO_63 - 0x100_0000_0000_0000
    requires ShortHeaders(b, i)
    ensures WalkFrom(b, i).Some?
  {
    ShortHeadersFit(b, i);
    PanicsIff(b, i);
  }

  // An eight-byte length can turn negative, and then the walker panics.
  lemma EightByteLengthPanics()
    ensures WalkFrom([0x30, 0x88, 0x80, 0, 0, 0, 0, 0, 0, 0], 0).None?
  {
    var b: seq<byte> := [0x30, 0x88, 0x80, 0, 0, 0, 0, 0, 0, 0];
    var s: seq<byte> := [0x80, 0, 0, 0, 0, 0, 0, 0];
    assert b[1..] == [0x88] + s + [];
    ReadLongForm(0x88, s, []);
    NumberOfTwo63(s);
    assert Wrap(TWO_63) < 0;
    assert HeadAt(b, 0) == BadSlice;
  }

  lemma NumberOfTwo63(s: seq<byte>)
    requires s == [0x80, 0, 0, 0, 0, 0, 0, 0]
    ensures Number(s) == TWO_63
  {
    NumberOfBigEndian(TWO_63);
    assert BigEndian(TWO_63) == s;
  }
}
