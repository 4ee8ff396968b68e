// strings.TrimSpace, and what it trims.

module WhiteSpace {
  import opened GoStrings

  // The length of the white-space character s starts with, 0 when there is none:
  // Unicode's White_Space set in UTF-8, as unicode.IsSpace has it.
  function SpaceLength(s: GoString): (n: nat)
    ensures n <= |s| && n <= 3
  {
    if |s| >= 1 && (0x09 <= s[0] <= 0x0D || s[0] == SPACE) then 1
    else if |s| >= 2 && s[0] == 0xC2 && (s[1] == 0x85 || s[1] == 0xA0) then 2
    else if |s| >= 3 && s[0] == 0xE1 && s[1] == 0x9A && s[2] == 0x80 then 3
    else if |s| >= 3 && s[0] == 0xE2 && s[1] == 0x80 &&
            (0x80 <= s[2] <= 0x8A || s[2] == 0xA8 || s[2] == 0xA9 || s[2] == 0xAF) then 3
    else if |s| >= 3 && s[0] == 0xE2 && s[1] == 0x81 && s[2] == 0x9F then 3
    else if |s| >= 3 && s[0] == 0xE3 && s[1] == 0x80 && s[2] == 0x80 then 3
    else 0
  }

  function TrimLeft(s: GoString): GoString
    decreases |s|
  {
    var n := SpaceLength(s);
    if n == 0 then s else TrimLeft(s[n..])
  }

  // s ends in a white-space character of n bytes.
  predicate EndsInSpace(s: GoString, n: nat) { 0 < n <= |s| && SpaceLength(s[|s| - n..]) == n }

  function TrimRight(s: GoString): GoString
    decreases |s|
  {
    if EndsInSpace(s, 1) then TrimRight(s[..|s| - 1])
    else if EndsInSpace(s, 2) then TrimRight(s[..|s| - 2])
    else if EndsInSpace(s, 3) then TrimRight(s[..|s| - 3])
    else s
  }

  // strings.TrimSpace
  function TrimSpace(s: GoString): GoString { TrimRight(TrimLeft(s)) }

  // ---- what it trims ----

  // Unicode's White_Space property, as unicode.IsSpace has it.
  predicate IsSpaceRune(r: nat) {
    || 0x09 <= r <= 0x0D || r == 0x20 || r == 0x85 || r == 0xA0 || r == 0x1680 || 0x2000 <= r <= 0x200A
    || r == 0x2028 || r == 0x2029 || r == 0x202F || r == 0x205F || r == 0x3000
  }

  // UTF-8 below 2^16 (section 3 of RFC 3629).
  function Utf8(r: nat): (s: GoString)
    requires r < 0x1_0000
    ensures |s| > 0
  {
    if r < 0x80 then [r as byte]
    else if r < 0x800 then [(0xC0 + r / 64) as byte, (0x80 + r % 64) as byte]
    else [(0xE0 + r / 4096) as byte, (0x80 + r / 64 % 64) as byte, (0x80 + r % 64) as byte]
  }

  ghost predicate IsSpace(w: GoString) { exists r: nat | r < 0x1_0000 :: IsSpaceRune(r) && w == Utf8(r) }

  // A string that begins with a white-space character begins with no other.
  lemma SpaceLengthIs(s: GoString, w: GoString)
    requires IsSpace(w)
    ensures SpaceLength(w + s) == |w|
  {
    var r: nat :| r < 0x1_0000 && IsSpaceRune(r) && w == Utf8(r);
    if r < 0x80 {
      assert SpaceLength(w) == 1;
    } else if r < 0x800 {
      TwoByteSpace(r);
    } else {
      ThreeByteSpace(r);
    }
    SpaceLengthOfPrefix(s, w);
  }

  lemma TwoByteSpace(r: nat)
    requires IsSpaceRune(r) && 0x80 <= r < 0x800
    ensures Utf8(r) == [0xC2, r as byte]
  {
  }

  lemma ThreeByteSpace(r: nat)
    requires IsSpaceRune(r) && 0x800 <= r < 0x1_0000
    ensures Utf8(r) == if r == 0x1680 then [0xE1, 0x9A, 0x80]
                       else if r == 0x205F then [0xE2, 0x81, 0x9F]
                       else if r == 0x3000 then [0xE3, 0x80, 0x80]
                       else [0xE2, 0x80, (r - 0x2000 + 0x80) as byte]
  {
  }

  lemma SpaceLengthOfPrefix(s: GoString, w: GoString)
    requires SpaceLength(w) == |w| > 0
    ensures SpaceLength(w + s) == |w|
  {
  }

  lemma SpaceTaken(s: GoString)
    requires SpaceLength(s) > 0
    ensures IsSpace(s[..SpaceLength(s)])
  {
    var w := s[..SpaceLength(s)];
    var r: nat := if |w| == 1 then w[0] as nat
    else if |w| == 2 then (w[0] as nat - 0xC0) * 64 + (w[1] as nat - 0x80)
    else (w[0] as nat - 0xE0) * 4096 + (w[1] as nat - 0x80) * 64 + (w[2] as nat - 0x80);
    assert IsSpaceRune(r) && w == Utf8(r);
  }

  function Concat(ws: seq<GoString>): GoString { if ws == [] then [] else ws[0] + Concat(ws[1..]) }

  // Nothing but white space.
  ghost predicate IsBlank(s: GoString) { exists ws :: Concat(ws) == s && forall w :: w in ws ==> IsSpace(w) }

  // Neither begins nor ends with white space.
  ghost predicate IsTrim(s: GoString) {
    forall w, r :: IsSpace(w) ==> s != w + r && s != r + w
  }

  lemma {:induction false} ConcatLast(ws: seq<GoString>)
    requires ws != []
    ensures Concat(ws) == Concat(ws[..|ws| - 1]) + ws[|ws| - 1]
  {
    if |ws| > 1 {
      ConcatLast(ws[1..]);
      assert ws[1..][..|ws| - 2] == ws[..|ws| - 1][1..];
    }
  }

  lemma {:induction false} TrimLeftDrops(ws: seq<GoString>, s: GoString)
    requires forall w :: w in ws ==> IsSpace(w)
    ensures TrimLeft(Concat(ws) + s) == TrimLeft(s)
  {
    if ws == [] {
      assert Concat(ws) + s == s;
    } else {
      var rest := Concat(ws[1..]) + s;
      SpaceLengthIs(rest, ws[0]);
      assert Concat(ws) + s == ws[0] + rest;
      assert (ws[0] + rest)[|ws[0]|..] == rest;
      TrimLeftDrops(ws[1..], s);
    }
  }

  // No white-space character ends another one.
  lemma EndsInOne(s: GoString, w: GoString, n: nat)
    requires IsSpace(w)
    ensures EndsInSpace(s + w, n) <==> n == |w|
  {
    SpaceLengthIs([], w);
    assert w + [] == w;
    if 0 < n <= |s + w| {
      var t := (s + w)[|s + w| - n..];
      assert n > 0 && |w| > 0 && t[n - 1] == w[|w| - 1];
      assert n > 1 && |w| > 1 ==> t[n - 2] == w[|w| - 2];
      assert n == |w| ==> t == w;
    }
  }

  lemma {:induction false} TrimRightDrops(s: GoString, ws: seq<GoString>)
    requires forall w :: w in ws ==> IsSpace(w)
    ensures TrimRight(s + Concat(ws)) == TrimRight(s)
  {
    if ws == [] {
      assert s + Concat(ws) == s;
    } else {
      var init, w := ws[..|ws| - 1], ws[|ws| - 1];
      ConcatLast(ws);
      var rest := s + Concat(init);
      assert s + Concat(ws) == rest + w;
      TrimOneRight(rest, w);
      TrimRightDrops(s, init);
    }
  }

  lemma TrimOneRight(s: GoString, w: GoString)
    requires IsSpace(w)
    ensures TrimRight(s + w) == TrimRight(s)
  {
    EndsInOne(s, w, 1);
    EndsInOne(s, w, 2);
    EndsInOne(s, w, 3);
    assert (s + w)[..|s|] == s;
  }

  // A first byte that may follow in a character would be between 0x80 and 0xBF.
  lemma SpaceNotAcross(s: GoString, t: GoString)
    requires s != [] && (t == [] || t[0] < 0x80 || t[0] >= 0xC0)
    ensures SpaceLength(s + t) == SpaceLength(s)
  {
  }

  lemma NoSpaceAhead(s: GoString, ws: seq<GoString>)
    requires s != [] && IsTrim(s) && forall w :: w in ws ==> IsSpace(w)
    ensures SpaceLength(s + Concat(ws)) == 0
  {
    if ws != [] {
      SpaceLengthIs(Concat(ws[1..]), ws[0]);
    }
    SpaceNotAcross(s, Concat(ws));
    var n := SpaceLength(s);
    assert s == s[..n] + s[n..];
    if n > 0 {
      SpaceTaken(s);
    }
  }

  // What is left is fixed by what is dropped being white space.
  lemma TrimUnique(before: GoString, s: GoString, after: GoString)
    requires IsBlank(before) && IsBlank(after) && IsTrim(s)
    ensures TrimSpace(before + s + after) == s
  {
    var bs :| Concat(bs) == before && forall w :: w in bs ==> IsSpace(w);
    var ws :| Concat(ws) == after && forall w :: w in ws ==> IsSpace(w);
    assert before + s + after == before + (s + after);
    TrimLeftDrops(bs, s + after);
    TrimBeforeBlanks(s, ws);
  }

  lemma TrimBeforeBlanks(s: GoString, ws: seq<GoString>)
    requires IsTrim(s) && forall w :: w in ws ==> IsSpace(w)
    ensures TrimRight(TrimLeft(s + Concat(ws))) == s
  {
    if s == [] {
      TrimLeftDrops(ws, []);
      assert Concat(ws) + [] == s + Concat(ws);
    } else {
      NoSpaceAhead(s, ws);
      TrimRightDrops(s, ws);
      TrimmedStays(s);
    }
  }

  lemma TrimmedStays(s: GoString)
    requires IsTrim(s)
    ensures TrimRight(s) == s
  {
    TrimmedEnd(s, 1);
    TrimmedEnd(s, 2);
    TrimmedEnd(s, 3);
  }

  lemma TrimmedEnd(s: GoString, n: nat)
    requires IsTrim(s)
    ensures !EndsInSpace(s, n)
  {
    if 0 < n <= |s| {
      var w := s[|s| - n..];
      assert w[..n] == w && s == s[..|s| - n] + w;
      if SpaceLength(w) == n {
        SpaceTaken(w);
      }
    }
  }

  lemma BlankGrows(w: GoString, rest: GoString)
    requires IsSpace(w) && IsBlank(rest)
    ensures IsBlank(w + rest) && IsBlank(rest + w)
  {
    var ws :| Concat(ws) == rest && forall v :: v in ws ==> IsSpace(v);
    var before, after := [w] + ws, ws + [w];
    assert before[1..] == ws && Concat(before) == w + rest;
    ConcatLast(after);
    assert after[..|ws|] == ws && Concat(after) == rest + w;
  }

  lemma NothingIsBlank()
    ensures IsBlank([])
  {
    assert Concat([]) == [];
  }

  // The first white-space character of s, if it begins with one.
  lemma TrimLeftStep(s: GoString) returns (w: GoString, tail: GoString)
    ensures s == w + tail && TrimLeft(s) == TrimLeft(tail)
    ensures if w == [] then TrimLeft(s) == s && SpaceLength(s) == 0 else IsSpace(w)
  {
    var n := SpaceLength(s);
    w, tail := s[..n], s[n..];
    if n > 0 {
      SpaceTaken(s);
    }
  }

  lemma {:induction false} TrimLeftIs(s: GoString) returns (before: GoString, t: GoString)
    ensures t == TrimLeft(s) && IsLeftOf(before, t, s)
    decreases |s|
  {
    var w, tail := TrimLeftStep(s);
    if w == [] {
      NothingIsBlank();
      before, t := [], s;
    } else {
      var rest;
      rest, t := TrimLeftIs(tail);
      LeftGrows(w, rest, t, tail);
      before := w + rest;
    }
  }

  ghost predicate IsLeftOf(before: GoString, t: GoString, s: GoString) {
    s == before + t && IsBlank(before) && SpaceLength(t) == 0
  }

  lemma LeftGrows(w: GoString, before: GoString, t: GoString, s: GoString)
    requires IsSpace(w) && IsLeftOf(before, t, s)
    ensures IsLeftOf(w + before, t, w + s)
  {
    BlankGrows(w, before);
    assert w + (before + t) == w + before + t;
  }

  ghost predicate NoSpaceAtEnd(s: GoString) { forall k :: !EndsInSpace(s, k) }

  // The last white-space character of s, if it ends in one.
  lemma TrimRightStep(s: GoString) returns (init: GoString, w: GoString)
    ensures s == init + w && TrimRight(s) == TrimRight(init)
    ensures if w == [] then TrimRight(s) == s && NoSpaceAtEnd(s) else IsSpace(w)
  {
    if EndsInSpace(s, 1) {
      init, w := LastSpace(s, 1);
    } else if EndsInSpace(s, 2) {
      init, w := LastSpace(s, 2);
    } else if EndsInSpace(s, 3) {
      init, w := LastSpace(s, 3);
    } else {
      init, w := s, [];
    }
  }

  lemma LastSpace(s: GoString, n: nat) returns (init: GoString, w: GoString)
    requires EndsInSpace(s, n)
    ensures s == init + w && IsSpace(w) && TrimRight(s) == TrimRight(init)
  {
    init, w := s[..|s| - n], s[|s| - n..];
    SpaceTaken(w);
    assert w[..n] == w;
    TrimOneRight(init, w);
    assert s == init + w;
  }

  lemma {:induction false} TrimRightIs(s: GoString) returns (after: GoString)
    ensures s == TrimRight(s) + after && IsBlank(after) && NoSpaceAtEnd(TrimRight(s))
    decreases |s|
  {
    var init, w := TrimRightStep(s);
    if w == [] {
      NothingIsBlank();
      after := [];
    } else {
      var rest := TrimRightIs(init);
      BlankGrows(w, rest);
      after := rest + w;
    }
  }

  // What TrimSpace drops is white space, and there is no more to drop.
  lemma TrimIs(s: GoString) returns (before: GoString, after: GoString)
    ensures s == before + TrimSpace(s) + after
    ensures IsBlank(before) && IsBlank(after) && IsTrim(TrimSpace(s))
  {
    var t;
    before, t := TrimLeftIs(s);
    after := TrimRightIs(t);
    forall w, r | IsSpace(w)
      ensures TrimSpace(s) != w + r && TrimSpace(s) != r + w
    {
      NoSpaceAround(TrimSpace(s), after, w, r);
    }
  }

  lemma NoSpaceAround(t: GoString, after: GoString, w: GoString, r: GoString)
    requires SpaceLength(t + after) == 0 && NoSpaceAtEnd(t) && IsSpace(w)
    ensures t != w + r && t != r + w
  {
    SpaceLengthIs(r + after, w);
    assert w + r + after == w + (r + after);
    EndsInOne(r, w, |w|);
  }
}
