// The cache lookup key (CacheKey in cache.go), and when it tells requests apart.

module CacheKeys {
  import opened GoStrings
  import opened Principals
  import opened Outputs

  // CacheKey
  function CacheKey(subject: GoString, spn: ServicePrincipal, output: OutputType): GoString {
    subject + [NUL] + Principals.Print(spn) + [NUL] + Outputs.Print(output)
  }

  // The part of a longer subject that a shorter one leaves to the SPN: s2 is s1,
  // a NUL, and the tail.
  predicate Continues(s1: GoString, s2: GoString) {
    |s1| < |s2| && s1 == s2[..|s1|] && s2[|s1|] == NUL
  }

  function Tail(s1: GoString, s2: GoString): GoString
    requires Continues(s1, s2)
  {
    s2[|s1| + 1..]
  }

  // The NULs inside (s1, p1) can be read the other way, as (s2, p2).
  predicate Shifts(s1: GoString, p1: ServicePrincipal, s2: GoString, p2: ServicePrincipal) {
    Continues(s1, s2) && Principals.Print(p1) == Tail(s1, s2) + [NUL] + Principals.Print(p2)
  }

  lemma NulSplits(a: GoString, x: GoString, b: GoString, y: GoString)
    ensures a + [NUL] + x == b + [NUL] + y <==>
            || (a == b && x == y)
            || (Continues(a, b) && x == Tail(a, b) + [NUL] + y)
            || (Continues(b, a) && y == Tail(b, a) + [NUL] + x)
  {
    if a + [NUL] + x == b + [NUL] + y {
      var s := a + [NUL] + x;
      assert s[..|a|] == a && s[|a|] == NUL && s[|a| + 1..] == x;
      assert s[..|b|] == b && s[|b|] == NUL && s[|b| + 1..] == y;
      if |a| < |b| {
        assert b[..|a|] == s[..|a|] && b[|a|] == s[|a|];
        assert x == b[|a| + 1..] + [NUL] + y;
      } else if |b| < |a| {
        assert a[..|b|] == s[..|b|] && a[|b|] == s[|b|];
        assert y == a[|b| + 1..] + [NUL] + x;
      }
    } else if Continues(a, b) {
      assert b == a + [NUL] + Tail(a, b);
    } else if Continues(b, a) {
      assert a == b + [NUL] + Tail(b, a);
    }
  }

  // The complete list of collisions: equal triples, and NULs read another way.
  lemma Collisions(s1: GoString, p1: ServicePrincipal, o1: OutputType,
                   s2: GoString, p2: ServicePrincipal, o2: OutputType)
    requires IsParsed(p1) && IsParsed(p2)
    ensures CacheKey(s1, p1, o1) == CacheKey(s2, p2, o2) <==>
            o1 == o2 && ((s1 == s2 && p1 == p2) || Shifts(s1, p1, s2, p2) || Shifts(s2, p2, s1, p1))
  {
    var x1, x2 := Principals.Print(p1), Principals.Print(p2);
    NulSplits(s1, x1, s2, x2);
    if x1 == x2 {
      Principals.PrintInjective(p1, p2);
    }
    if CacheKey(s1, p1, o1) == CacheKey(s2, p2, o2) {
      PrintHasNoNul(o1);
      PrintHasNoNul(o2);
      LastCutUnique(s1 + [NUL] + x1, Outputs.Print(o1), s2 + [NUL] + x2, Outputs.Print(o2), NUL);
      Outputs.PrintInjective(o1, o2);
    }
  }

  // Two requests that share a key, against the documented promise: subject "a" for
  // "x\0b/c", and subject "a\0x" for "b/c".
  lemma KeyCollision(output: OutputType)
    ensures var a, x, b, c: GoString := [0x61], [0x78], [0x62], [0x63];
            var p1, p2 := ServicePrincipal(x + [NUL] + b, c, []), ServicePrincipal(b, c, []);
            && IsParsed(p1) && IsParsed(p2)
            && CacheKey(a, p1, output) == CacheKey(a + [NUL] + x, p2, output)
            && a != a + [NUL] + x
  {
    var a, x, b, c: GoString := [0x61], [0x78], [0x62], [0x63];
    var p1, p2 := ServicePrincipal(x + [NUL] + b, c, []), ServicePrincipal(b, c, []);
    assert a + [NUL] + Principals.Print(p1) == a + [NUL] + x + [NUL] + Principals.Print(p2);
  }

  lemma ShiftsHaveNul(s1: GoString, p1: ServicePrincipal, s2: GoString, p2: ServicePrincipal)
    requires Shifts(s1, p1, s2, p2)
    ensures NUL in s2 && NUL in Principals.Print(p1)
  {
    assert Principals.Print(p1)[|Tail(s1, s2)|] == NUL;
  }

  // No collision when the subjects have no NUL, or when the SPNs have none.
  lemma KeySeparates(s1: GoString, p1: ServicePrincipal, o1: OutputType,
                     s2: GoString, p2: ServicePrincipal, o2: OutputType)
    requires IsParsed(p1) && IsParsed(p2)
    requires || (NUL !in s1 && NUL !in s2)
             || (NUL !in Principals.Print(p1) && NUL !in Principals.Print(p2))
    requires CacheKey(s1, p1, o1) == CacheKey(s2, p2, o2)
    ensures s1 == s2 && p1 == p2 && o1 == o2
  {
    Collisions(s1, p1, o1, s2, p2, o2);
    if Shifts(s1, p1, s2, p2) {
      ShiftsHaveNul(s1, p1, s2, p2);
    } else if Shifts(s2, p2, s1, p1) {
      ShiftsHaveNul(s2, p2, s1, p1);
    }
  }

  // The SPN can take over tail, a NUL and another SPN and still parse.
  predicate Absorbable(tail: GoString) {
    if AT in tail then Parse(tail).Some? else SLASH !in tail
  }

  ghost predicate Separates(subjects: set<GoString>) {
    forall s1, p1, o1, s2, p2, o2 ::
      (s1 in subjects && s2 in subjects && IsParsed(p1) && IsParsed(p2) &&
       CacheKey(s1, p1, o1) == CacheKey(s2, p2, o2)) ==> s1 == s2 && p1 == p2 && o1 == o2
  }

  ghost predicate NoAmbiguousPair(subjects: set<GoString>) {
    forall s1, s2 :: (s1 in subjects && s2 in subjects && Continues(s1, s2)) ==> !Absorbable(Tail(s1, s2))
  }

  // Exactly which sets of subjects keep all keys apart, whatever SPNs are asked
  // for: those in which no subject is another, a NUL and an absorbable tail.
  lemma SeparatesIff(subjects: set<GoString>)
    ensures Separates(subjects) <==> NoAmbiguousPair(subjects)
  {
    if NoAmbiguousPair(subjects) {
      forall s1, p1, o1, s2, p2, o2 |
        s1 in subjects && s2 in subjects && IsParsed(p1) && IsParsed(p2) &&
        CacheKey(s1, p1, o1) == CacheKey(s2, p2, o2)
        ensures s1 == s2 && p1 == p2 && o1 == o2
      {
        Collisions(s1, p1, o1, s2, p2, o2);
        if Shifts(s1, p1, s2, p2) {
          ShiftedTailAbsorbable(Tail(s1, s2), p1, p2);
        } else if Shifts(s2, p2, s1, p1) {
          ShiftedTailAbsorbable(Tail(s2, s1), p2, p1);
        }
      }
    }
    if Separates(subjects) {
      forall s1, s2 | s1 in subjects && s2 in subjects && Continues(s1, s2)
        ensures !Absorbable(Tail(s1, s2))
      {
        if Absorbable(Tail(s1, s2)) {
          var p1, p2 := AmbiguousSPNs(Tail(s1, s2));
          Collisions(s1, p1, CCACHE, s2, p2, CCACHE);
        }
      }
    }
  }

  lemma ShiftedTailAbsorbable(tail: GoString, p1: ServicePrincipal, p2: ServicePrincipal)
    requires IsParsed(p1) && IsParsed(p2)
    requires Principals.Print(p1) == tail + [NUL] + Principals.Print(p2)
    ensures Absorbable(tail)
  {
    if AT in tail {
      ShiftIntoRealm(tail, Principals.Print(p1), Principals.Print(p2));
      ParsePrint(p1);
    } else {
      ShiftIntoService(tail, p1, p2);
    }
  }

  lemma ShiftIntoRealm(tail: GoString, x1: GoString, x2: GoString)
    requires x1 == tail + [NUL] + x2 && AT in tail
    ensures Parse(x1).Some? == Parse(tail).Some?
  {
    BodyOfExtension(tail, [NUL] + x2);
    assert x1 == tail + ([NUL] + x2);
    SameBodySameVerdict(x1, tail);
  }

  lemma ShiftIntoService(tail: GoString, p1: ServicePrincipal, p2: ServicePrincipal)
    requires IsParsed(p1) && IsParsed(p2) && AT !in tail
    requires Principals.Print(p1) == tail + [NUL] + Principals.Print(p2)
    ensures SLASH !in tail
  {
    var before := tail + [NUL];
    assert forall c :: c in tail ==> c in before;
    BodyOfPrint(p1);
    BodyOfPrint(p2);
    BodyOfPrefixed(before, Principals.Print(p2));
    OneSlash(before, p2.service, p2.host, p1.service, p1.host);
  }

  lemma OneSlash(before: GoString, service2: GoString, host2: GoString, service1: GoString, host1: GoString)
    requires IsName(service1) && IsName(host1) && IsName(host2)
    requires before + (service2 + [SLASH] + host2) == service1 + [SLASH] + host1
    ensures SLASH !in before
  {
    assert before + (service2 + [SLASH] + host2) == (before + service2) + [SLASH] + host2;
    LastCutUnique(before + service2, host2, service1, host1, SLASH);
    assert before == service1[..|before|];
  }

  lemma AmbiguousSPNs(tail: GoString) returns (p1: ServicePrincipal, p2: ServicePrincipal)
    requires Absorbable(tail)
    ensures IsParsed(p1) && IsParsed(p2)
    ensures Principals.Print(p1) == tail + [NUL] + Principals.Print(p2)
  {
    var b, c: GoString := [0x62], [0x63];
    p2 := ServicePrincipal(b, c, []);
    var x2 := Principals.Print(p2);
    if AT in tail {
      var q := Parse(tail).value;
      ParseImage(tail);
      LongerRealm(tail, [NUL] + x2);
      p1 := q.(realm := q.realm + ([NUL] + x2));
      assert tail + [NUL] + x2 == tail + ([NUL] + x2);
    } else {
      p1 := ServicePrincipal(tail + [NUL] + b, c, []);
      assert Principals.Print(p1) == tail + [NUL] + b + [SLASH] + c;
      assert x2 == b + [SLASH] + c;
    }
  }
}
