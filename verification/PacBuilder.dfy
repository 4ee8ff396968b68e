// The group list of a synthetic PAC (SyntheticPACBuilder in pacbuilder.go).

module PacBuilder {
  import opened GoStrings
  import opened Rids
  import opened Scopes
  import opened Claims
  import opened DomainSids

  datatype GroupMembership = GroupMembership(relativeID: uint32, attributes: uint32)

  datatype Pac = Pac(effectiveName: GoString, userID: uint32, primaryGroupID: uint32,
                     groupCount: uint32, groupIDs: seq<GroupMembership>,
                     logonDomainID: Sid, logOnTime: int, clientTime: int, clientName: GoString)

  datatype Builder = Builder(domainSID: Sid, primaryRID: uint32, groupsClaim: GoString,
                             overrides: map<GoString, uint32>, filter: Option<ConfigMapFilter>)

  // SE_GROUP_MANDATORY | SE_GROUP_ENABLED_BY_DEFAULT | SE_GROUP_ENABLED
  const ATTRIBUTES: uint32 := 7

  const DOMAIN_USERS: uint32 := 513

  // NewSyntheticPACBuilder
  method NewBuilder(domainSID: GoString) returns (b: Option<Builder>)
    ensures b == match DomainSids.Parse(domainSID)
                 case None => None
                 case Some(sid) => Some(Builder(sid, 513, [], map[], None))
  {
    var sid := ParseDomainSID(domainSID);
    if sid.None? {
      return None;
    }
    return Some(Builder(sid.value, DOMAIN_USERS, [], map[], None));
  }

  // groupRID
  function GroupRid(b: Builder, name: GoString): uint32 {
    if name in b.overrides then b.overrides[name] else Rid(name)
  }

  function RidsOf(b: Builder, names: seq<GoString>): (r: seq<uint32>)
    ensures |r| == |names|
    ensures forall i :: 0 <= i < |r| ==> r[i] == GroupRid(b, names[i])
  {
    seq(|names|, i requires 0 <= i < |names| => GroupRid(b, names[i]))
  }

  // The claim groups that reach the PAC.
  ghost function AdmittedGroups(b: Builder, f: Facts): seq<GoString> {
    if b.filter.None? then f.groups else b.filter.value.Admitted(f.scopes, f.groups)
  }

  ghost predicate InScope(b: Builder, scopes: seq<GoString>, g: GoString) {
    b.filter.None? || b.filter.value.Admits(scopes, g)
  }

  // Each value once, at the place of its first occurrence.
  function KeepFirst<T(==)>(xs: seq<T>): seq<T> {
    if xs == [] then []
    else
      var kept, last := KeepFirst(xs[..|xs| - 1]), xs[|xs| - 1];
      if last in kept then kept else kept + [last]
  }

  ghost function RidList(b: Builder, f: Facts): seq<uint32> {
    KeepFirst([b.primaryRID] + RidsOf(b, AdmittedGroups(b, f)))
  }

  function Memberships(rids: seq<uint32>): (r: seq<GroupMembership>)
    ensures |r| == |rids|
    ensures forall i :: 0 <= i < |r| ==> r[i] == GroupMembership(rids[i], ATTRIBUTES)
  {
    seq(|rids|, i requires 0 <= i < |rids| => GroupMembership(rids[i], ATTRIBUTES))
  }

  // What Build returns; None is the mapper's error. The count is 32 bits wide.
  ghost function BuiltPac(b: Builder, id: Identity, authTime: int): Option<Pac> {
    match FactsOf(b.groupsClaim, id)
    case None => None
    case Some(f) =>
      var rids := RidList(b, f);
      Some(Pac(f.subject, Rid(f.subject), b.primaryRID, (|rids| % TWO_32) as uint32, Memberships(rids),
               b.domainSID, authTime, authTime, f.subject))
  }

  // SyntheticPACBuilder.Build
  method Build(b: Builder, id: Identity, authTime: int) returns (r: Option<Pac>)
    ensures r == BuiltPac(b, id, authTime)
  {
    var facts := Map(b.groupsClaim, id);
    if facts.None? {
      return None;
    }
    var admitted := facts.value.groups;
    if b.filter.Some? {
      admitted := b.filter.value.Admit(facts.value.scopes, facts.value.groups);
    }
    var groupIDs := CollectGroups(b, admitted);
    var uid := RidFromName(facts.value.subject);
    return Some(Pac(facts.value.subject, uid, b.primaryRID, (|groupIDs| % TWO_32) as uint32, groupIDs,
                    b.domainSID, authTime, authTime, facts.value.subject));
  }

  // The group loop of Build.
  method CollectGroups(b: Builder, admitted: seq<GoString>) returns (groupIDs: seq<GroupMembership>)
    ensures groupIDs == Memberships(KeepFirst([b.primaryRID] + RidsOf(b, admitted)))
  {
    groupIDs := [GroupMembership(b.primaryRID, ATTRIBUTES)];
    var seen := {b.primaryRID};
    ghost var rids := [b.primaryRID] + RidsOf(b, admitted);
    ghost var kept := [b.primaryRID];
    assert rids[..1] == [b.primaryRID];
    KeepFirstOne(b.primaryRID);
    for i := 0 to |admitted|
      invariant kept == KeepFirst(rids[..i + 1])
      invariant groupIDs == Memberships(kept)
      invariant forall r :: r in seen <==> r in kept
    {
      var rid := GroupRid(b, admitted[i]);
      assert rids[..i + 2] == rids[..i + 1] + [rid];
      KeepFirstStep(rids[..i + 1], rid);
      MembershipsAppend(kept, rid);
      if rid !in seen {
        seen := seen + {rid};
        groupIDs := groupIDs + [GroupMembership(rid, ATTRIBUTES)];
        kept := kept + [rid];
      }
    }
    assert rids[..|admitted| + 1] == rids;
  }

  lemma MembershipsAppend(rids: seq<uint32>, rid: uint32)
    ensures Memberships(rids + [rid]) == Memberships(rids) + [GroupMembership(rid, ATTRIBUTES)]
  {
  }

  lemma KeepFirstOne<T>(x: T)
    ensures KeepFirst([x]) == [x]
  {
    assert [x][..0] == [];
  }

  lemma KeepFirstStep<T>(xs: seq<T>, x: T)
    ensures KeepFirst(xs + [x]) == if x in KeepFirst(xs) then KeepFirst(xs) else KeepFirst(xs) + [x]
  {
    assert (xs + [x])[..|xs|] == xs;
  }

  // ---- what keep-first means ----

  ghost predicate Distinct<T(!new)>(xs: seq<T>) {
    forall i, j :: 0 <= i < j < |xs| ==> xs[i] != xs[j]
  }

  function FirstAt<T(==)>(xs: seq<T>, x: T): (i: nat)
    ensures i <= |xs|
    ensures i < |xs| ==> xs[i] == x
    ensures forall k :: 0 <= k < i ==> xs[k] != x
  {
    if xs == [] || xs[0] == x then 0
    else
      var i := FirstAt(xs[1..], x);
      assert forall k :: 0 < k < |xs| ==> xs[k] == xs[1..][k - 1];
      i + 1
  }

  // The result has the same members, each once, ordered by first occurrence.
  lemma {:induction false} KeepFirstMeaning<T(!new)>(xs: seq<T>)
    ensures forall x :: x in KeepFirst(xs) <==> x in xs
    ensures Distinct(KeepFirst(xs))
    ensures forall i, j :: 0 <= i < j < |KeepFirst(xs)| ==>
                             FirstAt(xs, KeepFirst(xs)[i]) < FirstAt(xs, KeepFirst(xs)[j])
  {
    if xs != [] {
      var init, last := xs[..|xs| - 1], xs[|xs| - 1];
      KeepFirstMeaning(init);
      assert xs == init + [last];
      forall x | x in init
        ensures FirstAt(xs, x) == FirstAt(init, x) < |init|
      {
        assert xs[FirstAt(init, x)] == x;
      }
    }
  }

  // Keeping the head and then the first of the rest that differ from it.
  lemma {:induction false} KeepFirstHead<T(!new)>(x: T, xs: seq<T>)
    ensures KeepFirst([x] + xs) != [] && KeepFirst([x] + xs)[0] == x
    ensures x !in xs ==> KeepFirst([x] + xs) == [x] + KeepFirst(xs)
  {
    if xs == [] {
      KeepFirstOne(x);
      assert [x] + xs == [x];
    } else {
      var init, last := xs[..|xs| - 1], xs[|xs| - 1];
      KeepFirstHead(x, init);
      KeepFirstStep([x] + init, last);
      assert [x] + xs == [x] + init + [last];
      assert last in xs;
    }
  }

  // ---- the authorization theorem ----

  function RidSeq(p: Pac): (r: seq<uint32>)
    ensures |r| == |p.groupIDs|
    ensures forall i :: 0 <= i < |r| ==> r[i] == p.groupIDs[i].relativeID
  {
    seq(|p.groupIDs|, i requires 0 <= i < |p.groupIDs| => p.groupIDs[i].relativeID)
  }

  // The RID a group name stands for: its override if it has one, else the
  // synthetic RID.
  predicate StandsFor(b: Builder, g: GoString, rid: uint32) {
    (g in b.overrides && rid == b.overrides[g]) || (g !in b.overrides && rid == Rid(g))
  }

  lemma GroupRidStandsFor(b: Builder, g: GoString, rid: uint32)
    ensures rid == GroupRid(b, g) <==> StandsFor(b, g, rid)
  {
  }

  ghost predicate Earned(b: Builder, f: Facts, rid: uint32) {
    rid == b.primaryRID || exists g :: g in f.groups && InScope(b, f.scopes, g) && StandsFor(b, g, rid)
  }

  lemma AdmittedGroup(b: Builder, f: Facts, g: GoString)
    ensures g in AdmittedGroups(b, f) <==> g in f.groups && InScope(b, f.scopes, g)
  {
    if b.filter.Some? {
      b.filter.value.AdmittedMember(f.scopes, f.groups, g);
    }
  }

  lemma RidOfSome(b: Builder, names: seq<GoString>, rid: uint32)
    ensures rid in RidsOf(b, names) <==> exists g :: g in names && rid == GroupRid(b, g)
  {
    var rids := RidsOf(b, names);
    if rid in rids {
      var i :| 0 <= i < |rids| && rids[i] == rid;
      assert names[i] in names;
    }
    if g :| g in names && rid == GroupRid(b, g) {
      var i :| 0 <= i < |names| && names[i] == g;
      assert rids[i] == rid;
    }
  }

  lemma EarnedIff(b: Builder, f: Facts, rid: uint32)
    ensures rid in [b.primaryRID] + RidsOf(b, AdmittedGroups(b, f)) <==> Earned(b, f, rid)
  {
    RidOfSome(b, AdmittedGroups(b, f), rid);
    forall g
      ensures g in AdmittedGroups(b, f) && rid == GroupRid(b, g) <==>
              g in f.groups && InScope(b, f.scopes, g) && StandsFor(b, g, rid)
    {
      AdmittedGroup(b, f, g);
      GroupRidStandsFor(b, g, rid);
    }
  }

  lemma RidListMeaning(b: Builder, f: Facts)
    ensures Distinct(RidList(b, f))
    ensures RidList(b, f) != [] && RidList(b, f)[0] == b.primaryRID
    ensures forall rid :: rid in RidList(b, f) <==> Earned(b, f, rid)
  {
    var rids := RidsOf(b, AdmittedGroups(b, f));
    KeepFirstMeaning([b.primaryRID] + rids);
    KeepFirstHead(b.primaryRID, rids);
    forall rid {
      EarnedIff(b, f, rid);
    }
  }

  // The primary group leads; after it comes each RID of an admitted claim group,
  // once, and no other RID, however names repeat or collide.
  lemma BuildAuthorizes(b: Builder, id: Identity, authTime: int)
    requires FactsOf(b.groupsClaim, id).Some?
    ensures var f, p := FactsOf(b.groupsClaim, id).value, BuiltPac(b, id, authTime).value;
            && Distinct(RidSeq(p))
            && RidSeq(p) != [] && RidSeq(p)[0] == p.primaryGroupID == b.primaryRID
            && (forall rid :: rid in RidSeq(p) <==> Earned(b, f, rid))
            && (forall m :: m in p.groupIDs ==> m.attributes == 7)
            && p.effectiveName == p.clientName == id.subject && p.userID == Rid(id.subject)
            && p.logonDomainID == b.domainSID && p.logOnTime == p.clientTime == authTime
  {
    var f, p := FactsOf(b.groupsClaim, id).value, BuiltPac(b, id, authTime).value;
    RidListMeaning(b, f);
    assert RidSeq(p) == RidList(b, f);
  }

  // ---- the order of the RIDs ----

  // The first claim group in scope that stands for the RID.
  ghost predicate FirstEarner(b: Builder, f: Facts, rid: uint32, i: nat) {
    && i < |f.groups| && InScope(b, f.scopes, f.groups[i]) && StandsFor(b, f.groups[i], rid)
    && forall j :: 0 <= j < i && InScope(b, f.scopes, f.groups[j]) ==> !StandsFor(b, f.groups[j], rid)
  }

  // Where the admitted groups stand in the claim.
  ghost predicate Positions(b: Builder, f: Facts, at: seq<nat>) {
    var admitted := AdmittedGroups(b, f);
    && |at| == |admitted|
    && (forall k :: 0 <= k < |at| ==> at[k] < |f.groups| && admitted[k] == f.groups[at[k]] &&
                                      InScope(b, f.scopes, f.groups[at[k]]))
    && (forall k, m :: 0 <= k < m < |at| ==> at[k] < at[m])
    && (forall i :: 0 <= i < |f.groups| && InScope(b, f.scopes, f.groups[i]) ==> i in at)
  }

  lemma AdmittedPositions(b: Builder, f: Facts) returns (at: seq<nat>)
    ensures Positions(b, f, at)
  {
    if b.filter.None? {
      at := seq(|f.groups|, i => i);
      assert forall i :: 0 <= i < |f.groups| ==> at[i] == i;
    } else {
      at := b.filter.value.AdmittedInOrder(f.scopes, f.groups);
    }
  }

  // The values of all at increasing positions, after a first one.
  predicate Picks(all: seq<uint32>, at: seq<nat>, picked: seq<uint32>) {
    && |picked| == |at| + 1
    && (forall k :: 0 <= k < |at| ==> at[k] < |all| && picked[k + 1] == all[at[k]])
    && (forall k, m :: 0 <= k < m < |at| ==> at[k] < at[m])
  }

  // i is the first position of the value among those at hand.
  predicate FirstIn(all: seq<uint32>, at: seq<nat>, x: uint32, i: nat) {
    i in at && i < |all| && all[i] == x && forall j :: j in at && j < i && j < |all| ==> all[j] != x
  }

  // A value comes out first where it was first picked.
  lemma FirstPick(all: seq<uint32>, at: seq<nat>, picked: seq<uint32>, x: uint32, i: nat)
    requires Picks(all, at, picked) && FirstIn(all, at, x, i) && picked[0] != x
    ensures 1 <= FirstAt(picked, x) <= |at| && at[FirstAt(picked, x) - 1] == i
  {
    var c :| 0 <= c < |at| && at[c] == i;
    assert picked[c + 1] == x;
    var d := FirstAt(picked, x) - 1;
    assert at[d] in at;
  }

  lemma EarnerPicked(b: Builder, f: Facts, at: seq<nat>, rid: uint32, i: nat)
    requires Positions(b, f, at) && FirstEarner(b, f, rid, i)
    ensures FirstIn(RidsOf(b, f.groups), at, rid, i)
  {
    GroupRidStandsFor(b, f.groups[i], rid);
    forall j | j in at && j < i
      ensures GroupRid(b, f.groups[j]) != rid
    {
      GroupRidStandsFor(b, f.groups[j], rid);
    }
  }

  lemma RidsPicked(b: Builder, f: Facts, at: seq<nat>)
    requires Positions(b, f, at)
    ensures Picks(RidsOf(b, f.groups), at, [b.primaryRID] + RidsOf(b, AdmittedGroups(b, f)))
  {
  }

  // So values come out in the order of their first positions.
  lemma EarnersInOrder(all: seq<uint32>, at: seq<nat>, picked: seq<uint32>, x: uint32, i: nat, y: uint32, j: nat)
    requires Picks(all, at, picked) && FirstIn(all, at, x, i) && FirstIn(all, at, y, j)
    requires picked[0] != x && picked[0] != y && FirstAt(picked, x) < FirstAt(picked, y)
    ensures i < j
  {
    FirstPick(all, at, picked, x, i);
    FirstPick(all, at, picked, y, j);
  }

  // After the primary the RIDs follow the order of the claim: of two, the one
  // whose first group comes first.
  lemma BuildKeepsOrder(b: Builder, id: Identity, authTime: int, k: nat, m: nat, i: nat, j: nat)
    requires FactsOf(b.groupsClaim, id).Some?
    requires var f, rids := FactsOf(b.groupsClaim, id).value, RidSeq(BuiltPac(b, id, authTime).value);
             && 1 <= k < m < |rids| && FirstEarner(b, f, rids[k], i) && FirstEarner(b, f, rids[m], j)
    ensures i < j
  {
    var f := FactsOf(b.groupsClaim, id).value;
    var list := RidList(b, f);
    assert RidSeq(BuiltPac(b, id, authTime).value) == list;
    RidListMeaning(b, f);
    var picked := [b.primaryRID] + RidsOf(b, AdmittedGroups(b, f));
    KeepFirstMeaning(picked);
    var at := AdmittedPositions(b, f);
    RidsPicked(b, f, at);
    EarnerPicked(b, f, at, list[k], i);
    EarnerPicked(b, f, at, list[m], j);
    EarnersInOrder(RidsOf(b, f.groups), at, picked, list[k], i, list[m], j);
  }

  // ---- the group count ----

  lemma DistinctFits(xs: seq<uint32>, n: nat)
    requires Distinct(xs) && forall x :: x in xs ==> x as nat < n
    ensures |xs| <= n
  {
    DistinctSize(xs);
    SubsetSize(Values(xs), Below(n));
  }

  function Values(xs: seq<uint32>): set<int> { set x | x in xs :: x as int }

  lemma {:induction false} DistinctSize(xs: seq<uint32>)
    requires Distinct(xs)
    ensures |Values(xs)| == |xs|
  {
    if xs != [] {
      var init, last := xs[..|xs| - 1], xs[|xs| - 1];
      DistinctSize(init);
      assert xs == init + [last];
      assert last in xs && last !in init;
      assert forall x :: x in xs <==> x in init || x == last;
      assert Values(xs) == Values(init) + {last as int};
    }
  }

  // The 32-bit count is right unless every RID there is has been listed, and
  // without overrides it always is.
  lemma GroupCountIff(b: Builder, id: Identity, authTime: int)
    requires FactsOf(b.groupsClaim, id).Some?
    ensures var p := BuiltPac(b, id, authTime).value;
            && |p.groupIDs| <= TWO_32
            && (p.groupCount as int == |p.groupIDs| <==> |p.groupIDs| < TWO_32)
            && (b.overrides == map[] ==> p.groupCount as int == |p.groupIDs|)
  {
    var f := FactsOf(b.groupsClaim, id).value;
    RidListFits(b, f);
    CountIff(|RidList(b, f)|);
  }

  lemma CountIff(n: nat)
    requires n <= TWO_32
    ensures n % TWO_32 == n <==> n < TWO_32
  {
  }

  lemma RidListFits(b: Builder, f: Facts)
    ensures |RidList(b, f)| <= TWO_32
    ensures b.overrides == map[] ==> |RidList(b, f)| < TWO_32
  {
    RidListMeaning(b, f);
    DistinctFits(RidList(b, f), TWO_32);
    if b.overrides == map[] {
      SyntheticRidsFit(b, f);
    }
  }

  lemma SyntheticRidsFit(b: Builder, f: Facts)
    requires b.overrides == map[]
    ensures |RidList(b, f)| < TWO_32
  {
    RidListMeaning(b, f);
    var rest := RidList(b, f)[1..];
    forall r | r in rest
      ensures r as nat < FIRST_RID + SYNTH_SPACE
    {
      assert Earned(b, f, r) && r != b.primaryRID;
    }
    DistinctFits(rest, FIRST_RID + SYNTH_SPACE);
  }

  // Without overrides, a primary group below the synthetic range swallows no
  // group, and the user's RID is not the primary group's.
  lemma NoneLostToPrimary(b: Builder, id: Identity, authTime: int)
    requires b.overrides == map[] && b.primaryRID as nat < FIRST_RID
    requires FactsOf(b.groupsClaim, id).Some?
    ensures var f, p := FactsOf(b.groupsClaim, id).value, BuiltPac(b, id, authTime).value;
            && RidSeq(p) == [b.primaryRID] + KeepFirst(RidsOf(b, AdmittedGroups(b, f)))
            && p.userID != p.primaryGroupID
  {
    var f, p := FactsOf(b.groupsClaim, id).value, BuiltPac(b, id, authTime).value;
    KeepFirstHead(b.primaryRID, RidsOf(b, AdmittedGroups(b, f)));
    assert RidSeq(p) == RidList(b, f);
  }

  // ---- downscoping ----

  // More scopes never take a RID away, and scope lists combine as unions.
  lemma ScopesCombine(b: Builder, f: Facts, s1: seq<GoString>, s2: seq<GoString>)
    ensures forall rid :: rid in RidList(b, f.(scopes := s1 + s2)) <==>
                          rid in RidList(b, f.(scopes := s1)) || rid in RidList(b, f.(scopes := s2))
  {
    var both := f.(scopes := s1 + s2);
    RidListMeaning(b, both);
    RidListMeaning(b, f.(scopes := s1));
    RidListMeaning(b, f.(scopes := s2));
    forall g
      ensures InScope(b, s1 + s2, g) <==> InScope(b, s1, g) || InScope(b, s2, g)
    {
      if b.filter.Some? {
        var c := b.filter.value;
        if c.Admits(s1 + s2, g) {
          var s :| s in s1 + s2 && s in c.scopeGroups && g in c.scopeGroups[s];
          assert s in s1 || s in s2;
        }
        if c.Admits(s1, g) {
          var s :| s in s1 && s in c.scopeGroups && g in c.scopeGroups[s];
          assert s in s1 + s2;
        }
        if c.Admits(s2, g) {
          var s :| s in s2 && s in c.scopeGroups && g in c.scopeGroups[s];
          assert s in s1 + s2;
        }
      }
    }
  }

  // A filter only takes RIDs away.
  lemma FilterNarrows(b: Builder, f: Facts)
    ensures forall rid :: rid in RidList(b, f) ==> rid in RidList(b.(filter := None), f)
  {
    var all := b.(filter := None);
    RidListMeaning(b, f);
    RidListMeaning(all, f);
    forall g
      ensures GroupRid(b, g) == GroupRid(all, g)
    {
    }
  }

  // Permuting or repeating scopes changes nothing, order included.
  lemma ScopeOrderIrrelevant(b: Builder, f: Facts, s1: seq<GoString>, s2: seq<GoString>)
    requires forall s :: s in s1 <==> s in s2
    ensures RidList(b, f.(scopes := s1)) == RidList(b, f.(scopes := s2))
  {
    if b.filter.Some? {
      b.filter.value.AdmittedBySet(s1, s2, f.groups);
    }
  }
}
