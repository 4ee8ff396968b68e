// Group and scope claims of a validated token (claimsmap.go), from parsed JSON on.

module Claims {
  import opened GoStrings
  import opened WhiteSpace

  datatype Json = Null | Text(text: GoString) | Array(items: seq<Json>) | Other

  // The raw claims: no bytes, bytes that are not a JSON object, or an object.
  datatype ClaimSet = NoClaims | Malformed | Fields(fields: map<GoString, Json>)

  // Unmarshal into a []string: null is the empty list, a null element is "".
  predicate IsStringList(j: Json) {
    j.Null? || (j.Array? && forall x :: x in j.items ==> x.Text? || x.Null?)
  }

  function Strings(items: seq<Json>): seq<GoString>
    requires forall x :: x in items ==> x.Text? || x.Null?
  {
    if items == [] then []
    else [if items[0].Text? then items[0].text else []] + Strings(items[1..])
  }

  predicate Blank(s: GoString) { TrimSpace(s) == [] }

  const NOT_BLANK: GoString -> bool := s => !Blank(s)

  // The elements that pass a test, in their order.
  function Filter<T>(test: T -> bool, list: seq<T>): seq<T> {
    if list == [] then []
    else (if test(list[0]) then [list[0]] else []) + Filter(test, list[1..])
  }

  predicate IsSeparator(c: byte) { c == SPACE || c == COMMA }

  predicate SeparatorFree(s: GoString) { forall c :: c in s ==> !IsSeparator(c) }

  function FieldLength(s: GoString): (n: nat)
    ensures n <= |s| && SeparatorFree(s[..n])
    ensures n < |s| ==> IsSeparator(s[n])
  {
    if s == [] || IsSeparator(s[0]) then 0
    else
      var n := FieldLength(s[1..]);
      assert s[..n + 1] == [s[0]] + s[1..][..n];
      n + 1
  }

  // strings.FieldsFunc: the maximal runs of bytes that are not separators.
  function FieldsOf(s: GoString): seq<GoString>
    decreases |s|
  {
    if s == [] then []
    else if IsSeparator(s[0]) then FieldsOf(s[1..])
    else var n := FieldLength(s); [s[..n]] + FieldsOf(s[n..])
  }

  // What stringOrList yields; None is its error. Absent claims are None too, on
  // the argument side.
  function ListOf(raw: Option<Json>): Option<seq<GoString>> {
    if raw.None? then Some([])
    else if IsStringList(raw.value) then
      Some(Filter(NOT_BLANK, if raw.value.Null? then [] else Strings(raw.value.items)))
    else if raw.value.Text? then Some(FieldsOf(raw.value.text))
    else None
  }

  // The filtering loop of stringOrList.
  method FilterLoop<T>(test: T -> bool, list: seq<T>) returns (out: seq<T>)
    ensures out == Filter(test, list)
  {
    out := [];
    for i := 0 to |list|
      invariant out + Filter(test, list[i..]) == Filter(test, list)
    {
      assert list[i..][0] == list[i] && list[i..][1..] == list[i + 1..];
      if test(list[i]) {
        out := out + [list[i]];
      }
    }
  }

  method StringOrList(raw: Option<Json>) returns (r: Option<seq<GoString>>)
    ensures r == ListOf(raw)
  {
    if raw.None? {
      return Some([]);
    }
    if IsStringList(raw.value) {
      var out := FilterLoop(NOT_BLANK, if raw.value.Null? then [] else Strings(raw.value.items));
      return Some(out);
    }
    if raw.value.Text? {
      return Some(FieldsOf(raw.value.text));
    }
    return None;
  }

  datatype Identity = Identity(subject: GoString, claims: ClaimSet, expiry: int)
  datatype Facts = Facts(subject: GoString, groups: seq<GoString>, scopes: seq<GoString>)

  function Lookup(claims: ClaimSet, name: GoString): Option<Json> {
    if claims.Fields? && name in claims.fields then Some(claims.fields[name]) else None
  }

  const GROUPS := Ascii("groups")
  const SCOPE := Ascii("scope")

  // The facts the default mapper finds; None is its error.
  function FactsOf(groupsClaim: GoString, id: Identity): Option<Facts> {
    var groups := ListOf(Lookup(id.claims, if groupsClaim == [] then GROUPS else groupsClaim));
    var scopes := ListOf(Lookup(id.claims, SCOPE));
    if id.claims.Malformed? || groups.None? || scopes.None? then None
    else Some(Facts(id.subject, groups.value, scopes.value))
  }

  // DefaultClaimsMapper.Map
  method Map(claim: GoString, id: Identity) returns (r: Option<Facts>)
    ensures r == FactsOf(claim, id)
  {
    var groupsClaim := claim;
    if groupsClaim == [] {
      groupsClaim := GROUPS;
    }
    var fields: map<GoString, Json> := map[];
    match id.claims {
      case NoClaims =>
      case Malformed => return None;
      case Fields(m) => fields := m;
    }
    var groups := StringOrList(if groupsClaim in fields then Some(fields[groupsClaim]) else None);
    if groups.None? {
      return None;
    }
    var scopes := StringOrList(if SCOPE in fields then Some(fields[SCOPE]) else None);
    if scopes.None? {
      return None;
    }
    return Some(Facts(id.subject, groups.value, scopes.value));
  }

  // ---- the two spellings of a list ----

  predicate AllSeparators(s: GoString) { forall c :: c in s ==> IsSeparator(c) }

  // Tokens with a gap before each and one gap after the last.
  function Weave(tokens: seq<GoString>, gaps: seq<GoString>): GoString
    requires |gaps| == |tokens| + 1
  {
    if tokens == [] then gaps[0] else gaps[0] + tokens[0] + Weave(tokens[1..], gaps[1..])
  }

  // Any mix of spaces and commas, non-empty between two tokens.
  predicate IsGapping(tokens: seq<GoString>, gaps: seq<GoString>) {
    |gaps| == |tokens| + 1 && (forall g :: g in gaps ==> AllSeparators(g)) &&
    forall i :: 0 < i < |tokens| ==> gaps[i] != []
  }

  predicate IsToken(t: GoString) { t != [] && SeparatorFree(t) }

  lemma {:induction false} SkipSeparators(gap: GoString, s: GoString)
    requires AllSeparators(gap)
    ensures FieldsOf(gap + s) == FieldsOf(s)
  {
    if gap == [] {
      assert gap + s == s;
    } else {
      assert IsSeparator(gap[0]);
      assert (gap + s)[1..] == gap[1..] + s;
      SkipSeparators(gap[1..], s);
    }
  }

  lemma {:induction false} FieldLengthIs(t: GoString, rest: GoString)
    requires SeparatorFree(t) && (rest == [] || IsSeparator(rest[0]))
    ensures FieldLength(t + rest) == |t|
  {
    if t != [] {
      assert t[0] in t;
      assert (t + rest)[1..] == t[1..] + rest;
      FieldLengthIs(t[1..], rest);
    }
  }

  lemma TakeToken(t: GoString, rest: GoString)
    requires IsToken(t) && (rest == [] || IsSeparator(rest[0]))
    ensures FieldsOf(t + rest) == [t] + FieldsOf(rest)
  {
    FieldLengthIs(t, rest);
    assert t[0] in t;
    assert (t + rest)[..|t|] == t && (t + rest)[|t|..] == rest;
  }

  lemma {:induction false} FieldsOfWeave(tokens: seq<GoString>, gaps: seq<GoString>)
    requires forall t :: t in tokens ==> IsToken(t)
    requires IsGapping(tokens, gaps)
    ensures FieldsOf(Weave(tokens, gaps)) == tokens
  {
    if tokens == [] {
      SkipSeparators(gaps[0], []);
      assert gaps[0] + [] == gaps[0];
    } else {
      var rest := Weave(tokens[1..], gaps[1..]);
      FieldsOfWeave(tokens[1..], gaps[1..]);
      if rest != [] {
        WeaveStartsWithGap(tokens[1..], gaps[1..]);
      }
      TakeToken(tokens[0], rest);
      SkipSeparators(gaps[0], tokens[0] + rest);
      assert gaps[0] + tokens[0] + rest == gaps[0] + (tokens[0] + rest);
    }
  }

  lemma WeaveStartsWithGap(tokens: seq<GoString>, gaps: seq<GoString>)
    requires |gaps| == |tokens| + 1 && AllSeparators(gaps[0])
    requires tokens != [] ==> gaps[0] != []
    requires Weave(tokens, gaps) != []
    ensures IsSeparator(Weave(tokens, gaps)[0])
  {
    assert gaps[0] != [];
    assert gaps[0][0] in gaps[0];
  }

  function Texts(tokens: seq<GoString>): (items: seq<Json>)
    ensures forall x :: x in items ==> x.Text?
  {
    if tokens == [] then [] else [Text(tokens[0])] + Texts(tokens[1..])
  }

  lemma {:induction false} TextsKept(tokens: seq<GoString>)
    requires forall t :: t in tokens ==> !Blank(t)
    ensures Filter(NOT_BLANK, Strings(Texts(tokens))) == tokens
  {
    if tokens != [] {
      assert Texts(tokens)[1..] == Texts(tokens[1..]);
      assert Strings(Texts(tokens)) == [tokens[0]] + Strings(Texts(tokens[1..]));
      TextsKept(tokens[1..]);
    }
  }

  // An array of tokens and one delimited string mean the same list.
  lemma ArrayAndStringAgree(tokens: seq<GoString>, gaps: seq<GoString>)
    requires forall t :: t in tokens ==> SeparatorFree(t) && !Blank(t)
    requires IsGapping(tokens, gaps)
    ensures ListOf(Some(Array(Texts(tokens)))) == Some(tokens)
    ensures ListOf(Some(Text(Weave(tokens, gaps)))) == Some(tokens)
  {
    assert Blank([]);
    TextsKept(tokens);
    FieldsOfWeave(tokens, gaps);
  }

  // ---- when the two spellings differ ----

  // The fields of each element in turn.
  function FieldsOfEach(list: seq<GoString>): seq<GoString> {
    if list == [] then [] else FieldsOf(list[0]) + FieldsOfEach(list[1..])
  }

  lemma {:induction false} FieldsSplitAt(s: GoString, c: byte, rest: GoString)
    requires IsSeparator(c)
    ensures FieldsOf(s + [c] + rest) == FieldsOf(s) + FieldsOf(rest)
    decreases |s|
  {
    if s == [] {
      assert ([] + [c] + rest)[1..] == rest;
    } else if IsSeparator(s[0]) {
      assert (s + [c] + rest)[1..] == s[1..] + [c] + rest;
      FieldsSplitAt(s[1..], c, rest);
    } else {
      var n := FieldLength(s);
      var t, after := s[..n], s[n..];
      assert s == t + after && t[0] == s[0];
      assert s + [c] + rest == t + (after + [c] + rest);
      TakeToken(t, after + [c] + rest);
      FieldsSplitAt(after, c, rest);
      assert [t] + (FieldsOf(after) + FieldsOf(rest)) == [t] + FieldsOf(after) + FieldsOf(rest);
    }
  }

  lemma {:induction false} FieldsOfAnyWeave(list: seq<GoString>, gaps: seq<GoString>)
    requires IsGapping(list, gaps)
    ensures FieldsOf(Weave(list, gaps)) == FieldsOfEach(list)
  {
    SkipSeparators(gaps[0], []);
    assert gaps[0] + [] == gaps[0];
    if list != [] {
      var rest := Weave(list[1..], gaps[1..]);
      FieldsOfAnyWeave(list[1..], gaps[1..]);
      SkipSeparators(gaps[0], list[0] + rest);
      assert gaps[0] + list[0] + rest == gaps[0] + (list[0] + rest);
      if rest == [] {
        assert list[0] + [] == list[0] && FieldsOf(list[0]) + [] == FieldsOf(list[0]);
      } else {
        WeaveStartsWithGap(list[1..], gaps[1..]);
        FieldsSplitAt(list[0], rest[0], rest[1..]);
        assert list[0] + rest == list[0] + [rest[0]] + rest[1..];
        assert FieldsOf(rest) == FieldsOf(rest[1..]);
      }
    }
  }

  predicate AllSpaces(s: GoString) { forall c :: c in s ==> c == SPACE }

  // An element that both spellings read the same way.
  predicate ReadsAlike(t: GoString) { (SeparatorFree(t) && !Blank(t)) || AllSpaces(t) }

  lemma {:induction false} SpacesAreBlank(s: GoString)
    requires AllSpaces(s)
    ensures TrimLeft(s) == [] && Blank(s)
  {
    if s != [] {
      assert s[0] in s && forall c :: c in s[1..] ==> c in s;
      SpacesAreBlank(s[1..]);
    }
  }

  lemma {:induction false} CommaIsKept(s: GoString)
    requires s != [] && s[0] == COMMA
    ensures TrimRight(s) != []
    decreases |s|
  {
    assert SpaceLength(s) == 0 && s[|s| - |s|..] == s;
    if EndsInSpace(s, 1) {
      CommaIsKept(s[..|s| - 1]);
    } else if EndsInSpace(s, 2) {
      CommaIsKept(s[..|s| - 2]);
    } else if EndsInSpace(s, 3) {
      CommaIsKept(s[..|s| - 3]);
    }
  }

  lemma {:induction false} BlankSeparatorsAreSpaces(s: GoString)
    requires AllSeparators(s) && Blank(s)
    ensures AllSpaces(s)
  {
    if s != [] {
      assert s[0] in s && forall c :: c in s <==> c == s[0] || c in s[1..];
      if s[0] == COMMA {
        CommaIsKept(s);
      } else {
        assert TrimLeft(s) == TrimLeft(s[1..]);
        BlankSeparatorsAreSpaces(s[1..]);
      }
    }
  }

  lemma NoFieldsMeansSeparators(s: GoString)
    ensures FieldsOf(s) == [] <==> AllSeparators(s)
  {
    if FieldsOf(s) == [] {
      var gaps := FieldsWeaveBack(s);
      assert gaps[0] in gaps;
    }
    if AllSeparators(s) {
      SkipSeparators(s, []);
      assert s + [] == s;
    }
  }

  lemma OwnFieldIff(t: GoString)
    requires t != []
    ensures FieldsOf(t) == [t] <==> SeparatorFree(t)
  {
    if SeparatorFree(t) {
      TakeToken(t, []);
      assert t + [] == t;
    }
    if FieldsOf(t) == [t] {
      var gaps := FieldsWeaveBack(t);
      assert t in [t];
    }
  }

  lemma BlankMeaning(t: GoString)
    ensures AllSpaces(t) ==> Blank(t)
    ensures Blank(t) ==> (AllSeparators(t) <==> AllSpaces(t))
    ensures t == [] ==> Blank(t)
  {
    if AllSpaces(t) {
      SpacesAreBlank(t);
    }
    if Blank(t) && AllSeparators(t) {
      BlankSeparatorsAreSpaces(t);
    }
  }

  // One element: kept whole or dropped by the array, split by the string.
  lemma ElementReadsAlike(t: GoString)
    ensures ReadsAlike(t) <==> FieldsOf(t) == if Blank(t) then [] else [t]
  {
    BlankMeaning(t);
    NoFieldsMeansSeparators(t);
    if t != [] {
      OwnFieldIff(t);
    }
  }

  lemma {:induction false} FieldsAreTokens(list: seq<GoString>)
    ensures forall f :: f in FieldsOfEach(list) ==> IsToken(f)
  {
    if list != [] {
      var gaps := FieldsWeaveBack(list[0]);
      FieldsAreTokens(list[1..]);
    }
  }

  lemma {:induction false} FilterMembers(list: seq<GoString>)
    ensures forall t :: t in Filter(NOT_BLANK, list) <==> t in list && !Blank(t)
  {
    if list != [] {
      FilterMembers(list[1..]);
      assert forall t :: t in list <==> t == list[0] || t in list[1..];
    }
  }

  // If what the array keeps reads alike, the string yields at least as much, and
  // as much only if every element reads alike.
  lemma {:induction false} StringYieldsNoLess(list: seq<GoString>)
    requires forall t :: t in list && !Blank(t) ==> ReadsAlike(t)
    ensures |FieldsOfEach(list)| >= |Filter(NOT_BLANK, list)|
    ensures |FieldsOfEach(list)| == |Filter(NOT_BLANK, list)| ==> forall t :: t in list ==> ReadsAlike(t)
    ensures (forall t :: t in list ==> ReadsAlike(t)) ==> FieldsOfEach(list) == Filter(NOT_BLANK, list)
  {
    if list != [] {
      var t, rest := list[0], list[1..];
      assert forall u :: u in list <==> u == t || u in rest;
      ElementReadsAlike(t);
      StringYieldsNoLess(rest);
    }
  }

  lemma {:induction false} StringsOfTexts(list: seq<GoString>)
    ensures Strings(Texts(list)) == list
  {
    if list != [] {
      assert Texts(list)[1..] == Texts(list[1..]);
      StringsOfTexts(list[1..]);
    }
  }

  // For any elements whatever, the two spellings give the same list exactly when
  // each element is free of separators and not blank, or consists of spaces.
  lemma SpellingsAgreeIff(list: seq<GoString>, gaps: seq<GoString>)
    requires IsGapping(list, gaps)
    ensures ListOf(Some(Array(Texts(list)))) == ListOf(Some(Text(Weave(list, gaps))))
       <==> forall t :: t in list ==> ReadsAlike(t)
  {
    StringsOfTexts(list);
    FieldsOfAnyWeave(list, gaps);
    FieldsAreTokens(list);
    FilterMembers(list);
    if FieldsOfEach(list) == Filter(NOT_BLANK, list) || forall t :: t in list ==> ReadsAlike(t) {
      StringYieldsNoLess(list);
    }
  }

  // A tab is dropped from an array and kept as a string.
  lemma TabReadsDifferently()
    ensures ListOf(Some(Array([Text([0x09])]))) == Some([])
    ensures ListOf(Some(Text([0x09]))) == Some([[0x09]])
  {
    var tab: GoString := [0x09];
    assert TrimLeft([]) == [] && tab[1..] == [];
    assert Blank(tab);
    assert [Text(tab)][1..] == [] && [tab][1..] == [];
    assert Strings([Text(tab)]) == [tab];
    assert Filter(NOT_BLANK, [tab]) == [];
    TakeToken(tab, []);
    assert tab + [] == tab;
  }

  // Every string is its fields, woven with gaps: nothing but separators is lost,
  // and no field could have been longer.
  lemma {:induction false} FieldsWeaveBack(s: GoString) returns (gaps: seq<GoString>)
    ensures forall f :: f in FieldsOf(s) ==> IsToken(f)
    ensures IsGapping(FieldsOf(s), gaps) && Weave(FieldsOf(s), gaps) == s
    decreases |s|
  {
    if s == [] {
      gaps := [[]];
    } else if IsSeparator(s[0]) {
      var inner := FieldsWeaveBack(s[1..]);
      gaps := LongerGap(s[0], FieldsOf(s[1..]), inner);
      assert s == [s[0]] + s[1..];
    } else {
      var n := FieldLength(s);
      var inner := FieldsWeaveBack(s[n..]);
      gaps := OneMoreToken(s[..n], FieldsOf(s[n..]), inner);
      assert s == s[..n] + s[n..];
    }
  }

  lemma LongerGap(c: byte, tokens: seq<GoString>, inner: seq<GoString>) returns (gaps: seq<GoString>)
    requires IsSeparator(c) && IsGapping(tokens, inner)
    ensures IsGapping(tokens, gaps) && Weave(tokens, gaps) == [c] + Weave(tokens, inner)
  {
    gaps := [[c] + inner[0]] + inner[1..];
    assert inner[0] in inner;
    assert forall g :: g in gaps ==> g == gaps[0] || g in inner;
    if tokens != [] {
      assert gaps[1..] == inner[1..];
      var rest := Weave(tokens[1..], inner[1..]);
      assert [c] + inner[0] + tokens[0] + rest == [c] + (inner[0] + tokens[0] + rest);
    }
  }

  lemma OneMoreToken(t: GoString, tokens: seq<GoString>, inner: seq<GoString>) returns (gaps: seq<GoString>)
    requires IsGapping(tokens, inner) && forall f :: f in tokens ==> IsToken(f)
    requires Weave(tokens, inner) == [] || IsSeparator(Weave(tokens, inner)[0])
    ensures IsGapping([t] + tokens, gaps) && Weave([t] + tokens, gaps) == t + Weave(tokens, inner)
  {
    gaps := [[]] + inner;
    assert gaps[1..] == inner && ([t] + tokens)[1..] == tokens;
    if tokens != [] {
      WeaveHead(tokens, inner);
    }
    assert forall i :: 0 < i < |[t] + tokens| ==> gaps[i] == inner[i - 1];
    assert [] + t + Weave(tokens, inner) == t + Weave(tokens, inner);
  }

  lemma WeaveHead(tokens: seq<GoString>, gaps: seq<GoString>)
    requires tokens != [] && |gaps| == |tokens| + 1 && IsToken(tokens[0])
    ensures Weave(tokens, gaps) != []
    ensures gaps[0] == [] ==> !IsSeparator(Weave(tokens, gaps)[0])
  {
    assert tokens[0][0] in tokens[0];
  }

  // ---- what the mapper finds ----

  // Neither a string nor, with nulls for empty strings, a list of strings.
  ghost predicate Unreadable(j: Json) {
    j.Other? || (j.Array? && exists i :: 0 <= i < |j.items| && !j.items[i].Text? && !j.items[i].Null?)
  }

  // The positions of all non-blank strings, in order.
  ghost predicate KeptAt(items: seq<Json>, at: seq<nat>, start: nat) {
    && (forall k :: 0 <= k < |at| ==> start <= at[k] < |items| && items[at[k]].Text? && !Blank(items[at[k]].text))
    && (forall k, m :: 0 <= k < m < |at| ==> at[k] < at[m])
    && (forall i :: start <= i < |items| && items[i].Text? && !Blank(items[i].text) ==> i in at)
  }

  ghost predicate StandAt(items: seq<Json>, list: seq<GoString>, at: seq<nat>) {
    |at| == |list| && forall k :: 0 <= k < |at| ==> at[k] < |items| && items[at[k]] == Text(list[k])
  }

  // The list a claim value stands for: the non-blank strings of an array, or what
  // stands between the separators of a string.
  ghost predicate Means(j: Json, list: seq<GoString>) {
    match j
    case Null => list == []
    case Array(items) => exists at :: KeptAt(items, at, 0) && StandAt(items, list, at)
    case Text(s) =>
      (forall t :: t in list ==> IsToken(t)) && exists gaps :: IsGapping(list, gaps) && Weave(list, gaps) == s
    case Other => false
  }

  lemma {:induction false} KeptFrom(items: seq<Json>, start: nat) returns (at: seq<nat>)
    requires start <= |items| && forall x :: x in items ==> x.Text? || x.Null?
    ensures KeptAt(items, at, start) && StandAt(items, Filter(NOT_BLANK, Strings(items[start..])), at)
    decreases |items| - start
  {
    if start == |items| {
      at := [];
    } else {
      var rest := KeptFrom(items, start + 1);
      assert items[start..][0] == items[start] && items[start..][1..] == items[start + 1..];
      assert Blank([]);
      if items[start].Text? && !Blank(items[start].text) {
        OneMoreKept(items, start, rest);
        at := [start] + rest;
        OneMoreStands(items, Filter(NOT_BLANK, Strings(items[start + 1..])), start, rest);
      } else {
        at := rest;
      }
    }
  }

  lemma OneMoreStands(items: seq<Json>, list: seq<GoString>, start: nat, rest: seq<nat>)
    requires start < |items| && items[start].Text? && StandAt(items, list, rest)
    ensures StandAt(items, [items[start].text] + list, [start] + rest)
  {
  }

  lemma OneMoreKept(items: seq<Json>, start: nat, rest: seq<nat>)
    requires start < |items| && items[start].Text? && !Blank(items[start].text) && KeptAt(items, rest, start + 1)
    ensures KeptAt(items, [start] + rest, start)
  {
    var at := [start] + rest;
    assert at[0] == start && forall k :: 0 < k < |at| ==> at[k] == rest[k - 1];
    forall i | start <= i < |items| && items[i].Text? && !Blank(items[i].text)
      ensures i in at
    {
      assert i == start || i in rest;
    }
  }

  // A claim value is an error or has a meaning.
  lemma ListMeaning(j: Json)
    ensures ListOf(Some(j)).None? <==> Unreadable(j)
    ensures ListOf(Some(j)).Some? ==> Means(j, ListOf(Some(j)).value)
  {
    match j
    case Array(items) =>
      if IsStringList(j) {
        var at := KeptFrom(items, 0);
        assert items[0..] == items;
      }
    case Text(s) =>
      var gaps := FieldsWeaveBack(s);
    case _ =>
  }

  ghost predicate ClaimMeans(claims: ClaimSet, name: GoString, list: seq<GoString>) {
    if claims.Fields? && name in claims.fields then Means(claims.fields[name], list) else list == []
  }

  ghost predicate ClaimUnreadable(claims: ClaimSet, name: GoString) {
    claims.Fields? && name in claims.fields && Unreadable(claims.fields[name])
  }

  // The mapper's error and its facts: groups from the configured claim, or from
  // "groups" when none is configured, and scopes from "scope".
  lemma FactsMeaning(groupsClaim: GoString, id: Identity)
    ensures var name := if groupsClaim != [] then groupsClaim else Ascii("groups");
            var r := FactsOf(groupsClaim, id);
            && (r.None? <==>
                id.claims.Malformed? || ClaimUnreadable(id.claims, name) || ClaimUnreadable(id.claims, Ascii("scope")))
            && (r.Some? ==> r.value.subject == id.subject && ClaimMeans(id.claims, name, r.value.groups)
                            && ClaimMeans(id.claims, Ascii("scope"), r.value.scopes))
  {
    var name := if groupsClaim == [] then GROUPS else groupsClaim;
    if id.claims.Fields? {
      if name in id.claims.fields {
        ListMeaning(id.claims.fields[name]);
      }
      if SCOPE in id.claims.fields {
        ListMeaning(id.claims.fields[SCOPE]);
      }
    }
  }

  // The separators are the space and the comma, and nothing else.
  lemma SeparatorsAre(c: byte)
    ensures FieldsOf([0x61, c, 0x62]) == if c == 0x20 || c == 0x2C then [[0x61], [0x62]] else [[0x61, c, 0x62]]
  {
    var a: GoString, b: GoString := [0x61], [0x62];
    if IsSeparator(c) {
      FieldsSplitAt(a, c, b);
      assert a + [c] + b == [0x61, c, 0x62];
      TakeToken(a, []);
      TakeToken(b, []);
      assert a + [] == a && b + [] == b;
    } else {
      TakeToken([0x61, c, 0x62], []);
      assert [0x61, c, 0x62] + [] == [0x61, c, 0x62];
    }
  }
}
