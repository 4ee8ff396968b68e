// Downscoping of group names by granted scopes (scopefilter.go).

module Scopes {
  import opened GoStrings

  datatype ConfigMapFilter = ConfigMapFilter(scopeGroups: map<GoString, seq<GoString>>) {

    // f.ScopeGroups[s]: a missing key reads as the empty list.
    function Listed(s: GoString): seq<GoString> {
      if s in scopeGroups then scopeGroups[s] else []
    }

    // Some granted scope lists the group.
    ghost predicate Admits(granted: seq<GoString>, g: GoString) {
      exists s :: s in granted && s in scopeGroups && g in scopeGroups[s]
    }

    // The candidates that are admitted, in their order.
    ghost function Admitted(granted: seq<GoString>, candidates: seq<GoString>): seq<GoString> {
      if candidates == [] then []
      else (if Admits(granted, candidates[0]) then [candidates[0]] else []) + Admitted(granted, candidates[1..])
    }

    // ConfigMapFilter.Admit
    method Admit(granted: seq<GoString>, candidates: seq<GoString>) returns (out: seq<GoString>)
      ensures out == Admitted(granted, candidates)
    {
      var admitted: set<GoString> := {};
      for i := 0 to |granted|
        invariant forall g :: g in admitted <==> Admits(granted[..i], g)
      {
        var listed := Listed(granted[i]);
        for j := 0 to |listed|
          invariant forall g :: g in admitted <==> Admits(granted[..i], g) || g in listed[..j]
        {
          admitted := admitted + {listed[j]};
          assert listed[..j + 1] == listed[..j] + [listed[j]];
        }
        assert listed[..|listed|] == listed;
        forall g
          ensures Admits(granted[..i + 1], g) <==> Admits(granted[..i], g) || g in listed
        {
          assert granted[..i + 1] == granted[..i] + [granted[i]];
        }
      }
      assert granted[..|granted|] == granted;
      out := [];
      for i := 0 to |candidates|
        invariant out + Admitted(granted, candidates[i..]) == Admitted(granted, candidates)
      {
        var g := candidates[i];
        assert candidates[i..][0] == g && candidates[i..][1..] == candidates[i + 1..];
        if g in admitted {
          out := out + [g];
        }
      }
    }

    // The increasing positions, from i on, of all admitted candidates.
    ghost predicate Positions(granted: seq<GoString>, candidates: seq<GoString>, i: nat, at: seq<nat>) {
      && (forall k :: 0 <= k < |at| ==> i <= at[k] < |candidates| && Admits(granted, candidates[at[k]]))
      && (forall k, m :: 0 <= k < m < |at| ==> at[k] < at[m])
      && (forall j :: i <= j < |candidates| && Admits(granted, candidates[j]) ==> j in at)
    }

    // The result keeps the candidates' order: it is what stands at those positions.
    lemma AdmittedInOrder(granted: seq<GoString>, candidates: seq<GoString>) returns (at: seq<nat>)
      ensures Positions(granted, candidates, 0, at)
      ensures var out := Admitted(granted, candidates);
              |out| == |at| && forall k :: 0 <= k < |at| ==> out[k] == candidates[at[k]]
    {
      at := PositionsFrom(granted, candidates, 0);
      assert candidates[0..] == candidates;
    }

    lemma {:induction false} PositionsFrom(granted: seq<GoString>, candidates: seq<GoString>, i: nat)
      returns (at: seq<nat>)
      requires i <= |candidates|
      ensures Positions(granted, candidates, i, at)
      ensures var out := Admitted(granted, candidates[i..]);
              |out| == |at| && forall k :: 0 <= k < |at| ==> out[k] == candidates[at[k]]
      decreases |candidates| - i
    {
      if i == |candidates| {
        at := [];
      } else {
        var rest := PositionsFrom(granted, candidates, i + 1);
        assert candidates[i..][0] == candidates[i] && candidates[i..][1..] == candidates[i + 1..];
        if Admits(granted, candidates[i]) {
          OneMorePosition(granted, candidates, i, rest);
          at := [i] + rest;
        } else {
          at := rest;
        }
      }
    }

    lemma OneMorePosition(granted: seq<GoString>, candidates: seq<GoString>, i: nat, rest: seq<nat>)
      requires i < |candidates| && Admits(granted, candidates[i]) && Positions(granted, candidates, i + 1, rest)
      ensures Positions(granted, candidates, i, [i] + rest)
    {
      var at := [i] + rest;
      assert at[0] == i && forall k :: 0 < k < |at| ==> at[k] == rest[k - 1];
      forall j | i <= j < |candidates| && Admits(granted, candidates[j])
        ensures j in at
      {
        assert j == i || j in rest;
      }
    }

    // How often each name comes out: as often as it went in, or never.
    lemma {:induction false} AdmittedCount(granted: seq<GoString>, candidates: seq<GoString>, g: GoString)
      ensures multiset(Admitted(granted, candidates))[g]
           == if Admits(granted, g) then multiset(candidates)[g] else 0
    {
      if candidates != [] {
        var head := if Admits(granted, candidates[0]) then [candidates[0]] else [];
        assert candidates == [candidates[0]] + candidates[1..];
        assert multiset(Admitted(granted, candidates)) == multiset(head) + multiset(Admitted(granted, candidates[1..]));
        AdmittedCount(granted, candidates[1..], g);
      }
    }

    lemma AdmittedMember(granted: seq<GoString>, candidates: seq<GoString>, g: GoString)
      ensures g in Admitted(granted, candidates) <==> g in candidates && Admits(granted, g)
    {
      AdmittedCount(granted, candidates, g);
      assert g in Admitted(granted, candidates) <==> g in multiset(Admitted(granted, candidates));
      assert g in candidates <==> g in multiset(candidates);
    }

    // The documented "at most once" holds for exactly the candidate lists that
    // repeat no admitted name: the second loop does not look for repetitions.
    lemma AtMostOnceIff(granted: seq<GoString>, candidates: seq<GoString>)
      ensures (forall g :: multiset(Admitted(granted, candidates))[g] <= 1)
         <==> (forall g :: Admits(granted, g) ==> multiset(candidates)[g] <= 1)
    {
      forall g {
        AdmittedCount(granted, candidates, g);
      }
    }

    // Only which scopes are granted counts, not their order or repetition.
    lemma {:induction false} AdmittedBySet(s1: seq<GoString>, s2: seq<GoString>, candidates: seq<GoString>)
      requires forall s :: s in s1 <==> s in s2
      ensures Admitted(s1, candidates) == Admitted(s2, candidates)
    {
      if candidates != [] {
        AdmittedBySet(s1, s2, candidates[1..]);
      }
    }
  }

  // A repeated claim group comes out twice, against the documented promise.
  lemma RepeatedGroupAdmittedTwice(scope: GoString, g: GoString)
    ensures ConfigMapFilter(map[scope := [g]]).Admitted([scope], [g, g]) == [g, g]
  {
    var f := ConfigMapFilter(map[scope := [g]]);
    assert scope in [scope] && scope in f.scopeGroups && g in f.scopeGroups[scope];
    assert f.Admits([scope], g);
    assert [g, g][1..] == [g] && [g][1..] == [];
    assert f.Admitted([scope], [g]) == [g];
  }
}
