// Decimal text: what fmt's %d prints and what strconv.ParseUint reads.

module Decimal {
  import opened GoStrings

  predicate IsDigit(c: byte) { DIGIT_0 <= c <= DIGIT_9 }

  predicate AllDigits(s: GoString) { forall c :: c in s ==> IsDigit(c) }

  // The shortest decimal form of n.
  function Print(n: nat): (s: GoString)
    ensures s != [] && AllDigits(s)
    ensures s[0] == DIGIT_0 ==> s == [DIGIT_0]
  {
    var last := (n % 10) as byte + DIGIT_0;
    if n < 10 then [last] else Print(n / 10) + [last]
  }

  // %d of a signed integer.
  function PrintSigned(n: int): GoString {
    if n < 0 then [DASH] + Print(-n) else Print(n)
  }

  function DigitValue(c: byte): nat
    requires IsDigit(c)
  {
    c as nat - DIGIT_0 as nat
  }

  // The number a digit string denotes; leading zeros are harmless.
  function Value(s: GoString): nat
    requires AllDigits(s)
  {
    if s == [] then 0
    else 10 * Value(s[..|s| - 1]) + DigitValue(s[|s| - 1])
  }

  // strconv.ParseUint(s, 10, bits) with limit == 2^bits: neither signs nor
  // underscores are accepted in base 10, and a value past the width is an error.
  function ParseUint(s: GoString, limit: nat): Option<nat> {
    if s == [] || !AllDigits(s) || Value(s) >= limit then None else Some(Value(s))
  }

  // Leading zeros dropped, one digit kept.
  function StripZeros(s: GoString): GoString {
    if |s| > 1 && s[0] == DIGIT_0 then StripZeros(s[1..]) else s
  }

  // Each further digit counts once and the number before it ten times.
  lemma ValueOfNext(s: GoString, c: byte)
    requires AllDigits(s) && 0x30 <= c <= 0x39
    ensures Value([]) == 0 && Value(s + [c]) == Value(s) * 10 + (c as nat - 0x30)
  {
    assert (s + [c])[..|s|] == s;
  }

  lemma {:induction false} ValueOfPrint(n: nat)
    ensures Value(Print(n)) == n
  {
    if n >= 10 {
      ValueOfPrint(n / 10);
      assert Print(n)[..|Print(n)| - 1] == Print(n / 10);
    } else {
      assert Print(n)[..0] == [];
    }
  }

  lemma PrintInjective(m: nat, n: nat)
    requires Print(m) == Print(n)
    ensures m == n
  {
    ValueOfPrint(m);
    ValueOfPrint(n);
  }

  lemma PrintSignedInjective(m: int, n: int)
    requires PrintSigned(m) == PrintSigned(n)
    ensures m == n
  {
    assert m >= 0 ==> IsDigit(PrintSigned(m)[0]);
    assert n >= 0 ==> IsDigit(PrintSigned(n)[0]);
    if m < 0 && n < 0 {
      assert PrintSigned(m)[1..] == Print(-m) && PrintSigned(n)[1..] == Print(-n);
      PrintInjective(-m, -n);
    } else if m >= 0 && n >= 0 {
      PrintInjective(m, n);
    }
  }

  lemma {:induction false} LeadingZero(s: GoString)
    requires AllDigits(s)
    ensures Value([DIGIT_0] + s) == Value(s)
  {
    var z := [DIGIT_0] + s;
    if s == [] {
      assert z[..|z| - 1] == [];
    } else {
      assert z[..|z| - 1] == [DIGIT_0] + s[..|s| - 1];
      LeadingZero(s[..|s| - 1]);
    }
  }

  // Printing a number that was read gives back its digits, leading zeros aside.
  lemma {:induction false} PrintOfValue(s: GoString)
    requires s != [] && AllDigits(s)
    ensures Print(Value(s)) == StripZeros(s)
    decreases |s|
  {
    if |s| > 1 && s[0] == DIGIT_0 {
      assert s == [DIGIT_0] + s[1..];
      LeadingZero(s[1..]);
      PrintOfValue(s[1..]);
    } else if |s| > 1 {
      var init := s[..|s| - 1];
      PrintOfValue(init);
      assert Print(Value(init)) == init;
      PositiveValue(init);
      var d := DigitValue(s[|s| - 1]);
      assert Value(s) / 10 == Value(init) && Value(s) % 10 == d;
      assert s == init + [s[|s| - 1]];
    } else {
      assert s[..0] == [];
      assert Value(s) == DigitValue(s[0]);
      assert s == [s[0]];
    }
  }

  lemma {:induction false} PositiveValue(s: GoString)
    requires s != [] && AllDigits(s) && s[0] != DIGIT_0
    ensures Value(s) > 0
  {
    if |s| > 1 {
      PositiveValue(s[..|s| - 1]);
    } else {
      assert s[..0] == [];
    }
  }
}
