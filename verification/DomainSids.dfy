// Domain SIDs, "S-1-5-21-a-b-c" (parseDomainSID in pacbuilder.go; section
// 2.4.2.1 of MS-DTYP for the text form).

module DomainSids {
  import opened GoStrings
  import opened WhiteSpace
  import opened Rids
  import Decimal

  datatype Sid = Sid(revision: byte, subAuthorityCount: byte, authority: seq<byte>, subAuthority: seq<uint32>)

  const LETTER_S: GoString := [0x53]
  const ONE: GoString := [0x31]
  const MAX_AUTHORITY: nat := 0xFF
  const TWO_64: nat := 0x1_0000_0000_0000_0000

  // The parsed values of the sub-authority fields, or None at the first bad one.
  function SubAuthorities(parts: seq<GoString>): Option<seq<uint32>> {
    if parts == [] then Some([])
    else
      var v, rest := Decimal.ParseUint(parts[0], TWO_32), SubAuthorities(parts[1..]);
      if v.None? || rest.None? then None else Some([v.value as uint32] + rest.value)
  }

  // The SID with the given fields. The count is one byte wide, so it wraps.
  function MakeSid(authority: nat, subs: seq<uint32>): Sid
    requires authority <= MAX_AUTHORITY
  {
    Sid(1, (|subs| % 256) as byte, [0, 0, 0, 0, 0, authority as byte], subs)
  }

  function ParseParts(parts: seq<GoString>): Option<Sid> {
    if |parts| < 7 || parts[0] != LETTER_S || parts[1] != ONE then None
    else
      var authority, subs := Decimal.ParseUint(parts[2], TWO_64), SubAuthorities(parts[3..]);
      if authority.None? || authority.value > MAX_AUTHORITY || subs.None? then None
      else Some(MakeSid(authority.value, subs.value))
  }

  // What parseDomainSID returns; None is any of its errors.
  function Parse(s: GoString): Option<Sid> { ParseParts(Split(TrimSpace(s), DASH)) }

  method ParseDomainSID(s: GoString) returns (r: Option<Sid>)
    ensures r == Parse(s)
  {
    var parts := Split(TrimSpace(s), DASH);
    if |parts| < 7 || parts[0] != LETTER_S || parts[1] != ONE {
      return None;
    }
    var authVal := Decimal.ParseUint(parts[2], TWO_64);
    if authVal.None? || authVal.value > MAX_AUTHORITY {
      return None;
    }
    var subs := ParseSubAuthorities(parts[3..]);
    if subs.None? {
      return None;
    }
    return Some(MakeSid(authVal.value, subs.value));
  }

  // Values already read, then those still to be read.
  function After(done: seq<uint32>, rest: Option<seq<uint32>>): Option<seq<uint32>> {
    if rest.None? then None else Some(done + rest.value)
  }

  // The loop that fills the sub-authority slice.
  method ParseSubAuthorities(subParts: seq<GoString>) returns (r: Option<seq<uint32>>)
    ensures r == SubAuthorities(subParts)
  {
    var subs := new uint32[|subParts|];
    assert subParts[0..] == subParts && subs[..0] == [];
    assert SubAuthorities(subParts).Some? ==> [] + SubAuthorities(subParts).value == SubAuthorities(subParts).value;
    for i := 0 to |subParts|
      invariant After(subs[..i], SubAuthorities(subParts[i..])) == SubAuthorities(subParts)
    {
      ghost var done := subs[..i];
      assert subParts[i..][1..] == subParts[i + 1..];
      var v := Decimal.ParseUint(subParts[i], TWO_32);
      if v.None? {
        return None;
      }
      subs[i] := v.value as uint32;
      assert subs[..i + 1] == done + [subs[i]];
      ghost var rest := SubAuthorities(subParts[i + 1..]);
      assert rest.Some? ==> done + ([subs[i]] + rest.value) == done + [subs[i]] + rest.value;
    }
    assert subs[..|subParts|] + [] == subs[..];
    return Some(subs[..]);
  }

  function PrintSubs(subs: seq<uint32>): (r: seq<GoString>)
    ensures |r| == |subs|
    ensures forall i :: 0 <= i < |r| ==> r[i] == Decimal.Print(subs[i] as nat)
  {
    seq(|subs|, i requires 0 <= i < |subs| => Decimal.Print(subs[i] as nat))
  }

  function Authority(sid: Sid): nat
    requires |sid.authority| == 6
  {
    sid.authority[5] as nat
  }

  // The text form of a SID whose authority fits one byte.
  function Print(sid: Sid): GoString
    requires |sid.authority| == 6
  {
    Join(Parts(sid), DASH)
  }

  // The SIDs in reach of the parser: one-byte authority, 4 to 255 sub-authorities.
  predicate IsDomainSid(sid: Sid) {
    sid.revision == 1 && |sid.authority| == 6 && sid.authority[..5] == [0, 0, 0, 0, 0] &&
    4 <= |sid.subAuthority| <= 255 && sid.subAuthorityCount as int == |sid.subAuthority|
  }

  lemma {:induction false} PrintSubsParse(subs: seq<uint32>)
    ensures SubAuthorities(PrintSubs(subs)) == Some(subs)
  {
    if subs != [] {
      Decimal.ValueOfPrint(subs[0] as nat);
      PrintSubsParse(subs[1..]);
      assert PrintSubs(subs)[1..] == PrintSubs(subs[1..]);
      assert subs == [subs[0]] + subs[1..];
    }
  }

  // A joined string starts as its first part does and ends as its last part does.
  lemma {:induction false} JoinEnds(parts: seq<GoString>, sep: byte)
    requires |parts| > 0 && forall i :: 0 <= i < |parts| ==> parts[i] != []
    ensures var s, last := Join(parts, sep), parts[|parts| - 1];
            s != [] && s[0] == parts[0][0] && s[|s| - 1] == last[|last| - 1]
  {
    if |parts| > 1 {
      JoinEnds(parts[1..], sep);
    }
  }

  lemma NothingToTrim(s: GoString)
    requires s != [] && s[0] == LETTER_S[0] && Decimal.IsDigit(s[|s| - 1])
    ensures TrimSpace(s) == s
  {
    assert SpaceLength(s) == 0;
    assert !EndsInSpace(s, 1);
    assert !EndsInSpace(s, 2);
    assert !EndsInSpace(s, 3);
  }

  function Parts(sid: Sid): (parts: seq<GoString>)
    requires |sid.authority| == 6
    ensures |parts| == 3 + |sid.subAuthority|
    ensures forall i :: 0 <= i < |parts| ==> parts[i] != []
    ensures forall i :: 2 <= i < |parts| ==> Decimal.AllDigits(parts[i])
  {
    [LETTER_S, ONE, Decimal.Print(Authority(sid))] + PrintSubs(sid.subAuthority)
  }

  lemma ParsePrintedParts(sid: Sid)
    requires IsDomainSid(sid)
    ensures ParseParts(Parts(sid)) == Some(sid)
  {
    PrintSubsParse(sid.subAuthority);
    Decimal.ValueOfPrint(Authority(sid));
    assert Parts(sid)[3..] == PrintSubs(sid.subAuthority);
    assert Decimal.ParseUint(Parts(sid)[2], TWO_64) == Some(Authority(sid));
    assert sid.authority == sid.authority[..5] + [sid.authority[5]];
    assert MakeSid(Authority(sid), sid.subAuthority).authority == sid.authority;
  }

  // Parsing inverts printing on every domain SID.
  lemma ParsePrint(sid: Sid)
    requires IsDomainSid(sid)
    ensures Parse(Print(sid)) == Some(sid)
  {
    var parts := Parts(sid);
    ParsePrintedParts(sid);
    forall p | p in parts
      ensures DASH !in p
    {
      assert Decimal.AllDigits(p) || p == LETTER_S;
    }
    SplitJoin(parts, DASH);
    JoinEnds(parts, DASH);
    var last := parts[|parts| - 1];
    assert last[|last| - 1] in last;
    NothingToTrim(Print(sid));
  }

  function StripEach(parts: seq<GoString>): (r: seq<GoString>)
    ensures |r| == |parts|
    ensures forall i :: 0 <= i < |r| ==> r[i] == Decimal.StripZeros(parts[i])
  {
    seq(|parts|, i requires 0 <= i < |parts| => Decimal.StripZeros(parts[i]))
  }

  // A SID text without surrounding space or leading zeros.
  function Canonical(s: GoString): GoString {
    Join(StripEach(Split(TrimSpace(s), DASH)), DASH)
  }

  lemma {:induction false} PrintParsedSubs(parts: seq<GoString>)
    requires SubAuthorities(parts).Some?
    ensures PrintSubs(SubAuthorities(parts).value) == StripEach(parts)
  {
    if parts != [] {
      Decimal.PrintOfValue(parts[0]);
      PrintParsedSubs(parts[1..]);
      assert SubAuthorities(parts).value[1..] == SubAuthorities(parts[1..]).value;
      assert StripEach(parts) == [Decimal.StripZeros(parts[0])] + StripEach(parts[1..]);
    }
  }

  // Printing inverts parsing up to surrounding space and leading zeros, and the
  // result is a domain SID exactly when the one-byte count did not wrap.
  lemma PrintParse(s: GoString)
    requires Parse(s).Some?
    ensures |Parse(s).value.authority| == 6 && Print(Parse(s).value) == Canonical(s)
    ensures IsDomainSid(Parse(s).value) <==> |Split(TrimSpace(s), DASH)| - 3 <= 255
  {
    var parts := Split(TrimSpace(s), DASH);
    PrintParsedSubs(parts[3..]);
    Decimal.PrintOfValue(parts[2]);
    assert StripEach(parts) == Parts(Parse(s).value);
  }

  // ---- exactly what is accepted ----

  // Four or more sub-authorities of 32 bits and an authority of one byte, each in
  // decimal with any number of leading zeros; the count is one byte wide.
  ghost predicate Spells(parts: seq<GoString>, sid: Sid) {
    && |parts| >= 7 && parts[0] == [0x53] && parts[1] == [0x31]
    && (forall i :: 2 <= i < |parts| ==> parts[i] != [] && Decimal.AllDigits(parts[i]))
    && Decimal.Value(parts[2]) < 256
    && sid.revision == 1 && sid.authority == [0, 0, 0, 0, 0, Decimal.Value(parts[2]) as byte]
    && sid.subAuthorityCount as int == (|parts| - 3) % 256
    && Denote(parts[3..], sid.subAuthority)
  }

  ghost predicate Denote(parts: seq<GoString>, subs: seq<uint32>) {
    |parts| == |subs| &&
    forall i :: 0 <= i < |parts| ==>
                  parts[i] != [] && Decimal.AllDigits(parts[i]) && Decimal.Value(parts[i]) == subs[i] as nat
  }

  // The parts between dashes, with white space around the whole.
  ghost predicate Written(s: GoString, before: GoString, parts: seq<GoString>, after: GoString) {
    IsBlank(before) && IsBlank(after) && |parts| > 0 && s == before + Join(parts, 0x2D) + after
  }

  lemma {:induction false} SubAuthoritiesIff(parts: seq<GoString>, subs: seq<uint32>)
    ensures SubAuthorities(parts) == Some(subs) <==> Denote(parts, subs)
  {
    if parts != [] {
      if subs != [] {
        SubAuthoritiesIff(parts[1..], subs[1..]);
        assert subs == [subs[0]] + subs[1..];
        assert parts == [parts[0]] + parts[1..];
      }
      if SubAuthorities(parts).Some? {
        assert SubAuthorities(parts).value[1..] == SubAuthorities(parts[1..]).value;
      }
    }
  }

  lemma ParsePartsIff(parts: seq<GoString>, sid: Sid)
    ensures ParseParts(parts) == Some(sid) <==> Spells(parts, sid)
  {
    if |parts| >= 7 {
      SubAuthoritiesIff(parts[3..], sid.subAuthority);
    }
  }

  lemma NoSpaceAround(parts: seq<GoString>, sid: Sid)
    requires Spells(parts, sid)
    ensures Split(Join(parts, DASH), DASH) == parts && IsTrim(Join(parts, DASH))
  {
    var s, last := Join(parts, DASH), parts[|parts| - 1];
    forall p | p in parts
      ensures DASH !in p
    {
      assert Decimal.AllDigits(p) || p == LETTER_S;
    }
    SplitJoin(parts, DASH);
    JoinEnds(parts, DASH);
    assert last[|last| - 1] in last;
    NothingToTrim(s);
    var before, after := TrimIs(s);
  }

  // A text is accepted, and as which SID, exactly if it is so written.
  lemma ParseAcceptsExactly(s: GoString, sid: Sid)
    ensures Parse(s) == Some(sid) <==>
            exists before, parts, after :: Written(s, before, parts, after) && Spells(parts, sid)
  {
    if Parse(s) == Some(sid) {
      var before, after := TrimIs(s);
      var parts := Split(TrimSpace(s), DASH);
      JoinSplit(TrimSpace(s), DASH);
      ParsePartsIff(parts, sid);
      assert Written(s, before, parts, after);
    }
    if before, parts, after :| Written(s, before, parts, after) && Spells(parts, sid) {
      NoSpaceAround(parts, sid);
      TrimUnique(before, Join(parts, DASH), after);
      ParsePartsIff(parts, sid);
    }
  }

  function Ones(n: nat): (r: seq<GoString>)
    ensures |r| == n && forall i :: 0 <= i < n ==> r[i] == ONE
  {
    seq(n, _ => ONE)
  }

  lemma {:induction false} OnesParse(n: nat)
    ensures SubAuthorities(Ones(n)).Some? && |SubAuthorities(Ones(n)).value| == n
  {
    if n > 0 {
      assert Ones(n)[1..] == Ones(n - 1);
      assert Decimal.Print(1) == ONE;
      Decimal.ValueOfPrint(1);
      OnesParse(n - 1);
    }
  }

  const MANY: nat := 256

  // The text "S-1-1-1-...-1" with 256 sub-authorities is accepted, and the count
  // says there are none.
  lemma CountWraps()
    ensures var r := Parse(Join([LETTER_S, ONE, ONE] + Ones(MANY), DASH));
            r.Some? && |r.value.subAuthority| == 256 && r.value.subAuthorityCount == 0
  {
    var n := MANY;
    var parts := [LETTER_S, ONE, ONE] + Ones(n);
    OnesTextParses(n, parts);
  }

  lemma OnesTextParses(n: nat, parts: seq<GoString>)
    requires n >= 4 && parts == [LETTER_S, ONE, ONE] + Ones(n)
    ensures Parse(Join(parts, DASH)) == ParseParts(parts)
    ensures var r := Parse(Join(parts, DASH));
            r.Some? && |r.value.subAuthority| == n && r.value.subAuthorityCount as int == n % 256
  {
    assert forall p :: p in parts ==> p == LETTER_S || p == ONE;
    SplitJoin(parts, DASH);
    JoinEnds(parts, DASH);
    NothingToTrim(Join(parts, DASH));
    OnesPartsParse(n, parts);
  }

  lemma OnesPartsParse(n: nat, parts: seq<GoString>)
    requires n >= 4 && parts == [LETTER_S, ONE, ONE] + Ones(n)
    ensures var r := ParseParts(parts);
            r.Some? && |r.value.subAuthority| == n && r.value.subAuthorityCount as int == n % 256
  {
    assert parts[3..] == Ones(n);
    OnesParse(n);
    assert Decimal.Print(1) == ONE;
    Decimal.ValueOfPrint(1);
  }
}
