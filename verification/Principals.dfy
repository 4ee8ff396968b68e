// Service principal names, "service/host" or "service/host@REALM" (principal.go).

module Principals {
  import opened GoStrings

  datatype ServicePrincipal = ServicePrincipal(service: GoString, host: GoString, realm: GoString)

  // ServicePrincipal.String
  function Print(p: ServicePrincipal): GoString {
    if p.realm == [] then p.service + [SLASH] + p.host
    else p.service + [SLASH] + p.host + [AT] + p.realm
  }

  // What precedes the first '@', and what follows it.
  function Body(s: GoString): GoString {
    var at := IndexByte(s, AT);
    if at >= 0 then s[..at] else s
  }

  function Realm(s: GoString): GoString {
    var at := IndexByte(s, AT);
    if at >= 0 then s[at + 1..] else []
  }

  // ParseServicePrincipal; None is ErrMalformedSPN.
  function Parse(s: GoString): Option<ServicePrincipal> {
    var body, realm := Body(s), Realm(s);
    var cut := IndexByte(body, SLASH);
    if cut < 0 then None
    else
      var service, host := body[..cut], body[cut + 1..];
      if service == [] || host == [] || SLASH in host then None
      else Some(ServicePrincipal(service, host, realm))
  }

  // A non-empty name that neither separator of the textual form can occur in.
  predicate IsName(s: GoString) { s != [] && SLASH !in s && AT !in s }

  // The principals that parsing can produce; the realm is unrestricted.
  predicate IsParsed(p: ServicePrincipal) { IsName(p.service) && IsName(p.host) }

  // Accepted are exactly the strings whose part before the first '@' splits at
  // '/' into two non-empty pieces, and those pieces are the result.
  lemma ParseAcceptsExactly(s: GoString)
    ensures var parts := Split(Body(s), SLASH);
            Parse(s) == if |parts| == 2 && parts[0] != [] && parts[1] != []
            then Some(ServicePrincipal(parts[0], parts[1], Realm(s)))
            else None
  {
    SplitInTwo(Body(s), SLASH);
  }

  lemma BodyAndRealm(s: GoString)
    ensures AT !in Body(s)
    ensures IndexByte(s, AT) < 0 ==> s == Body(s) && Realm(s) == []
    ensures IndexByte(s, AT) >= 0 ==> s == Body(s) + [AT] + Realm(s) && |Body(s)| == IndexByte(s, AT)
  {
    IndexByteMeaning(s, AT);
  }

  lemma BodyAlone(body: GoString)
    requires AT !in body
    ensures Body(body) == body && Realm(body) == []
  {
    NoIndex(body, AT);
  }

  lemma BodyWithRealm(body: GoString, realm: GoString)
    requires AT !in body
    ensures Body(body + [AT] + realm) == body && Realm(body + [AT] + realm) == realm
  {
    FirstIndexUnique(body, AT, realm);
  }

  lemma ParseParts(s: GoString, service: GoString, host: GoString)
    requires Body(s) == service + [SLASH] + host && SLASH !in service && SLASH !in host
    requires service != [] && host != []
    ensures Parse(s) == Some(ServicePrincipal(service, host, Realm(s)))
  {
    FirstIndexUnique(service, SLASH, host);
  }

  // Parsing inverts printing on exactly the principals parsing can produce.
  lemma ParsePrint(p: ServicePrincipal)
    ensures Parse(Print(p)) == Some(p) <==> IsParsed(p)
  {
    if IsParsed(p) {
      BodyOfPrint(p);
      ParseParts(Print(p), p.service, p.host);
    } else if Parse(Print(p)) == Some(p) {
      ParseImage(Print(p));
    }
  }

  lemma BodyOfPrint(p: ServicePrincipal)
    requires IsParsed(p)
    ensures Body(Print(p)) == p.service + [SLASH] + p.host && Realm(Print(p)) == p.realm
  {
    var body := p.service + [SLASH] + p.host;
    if p.realm == [] {
      BodyAlone(body);
    } else {
      BodyWithRealm(body, p.realm);
    }
  }

  lemma ParseImage(s: GoString)
    requires Parse(s).Some?
    ensures IsParsed(Parse(s).value)
    ensures Body(s) == Parse(s).value.service + [SLASH] + Parse(s).value.host
    ensures Parse(s).value.realm == Realm(s)
  {
    IndexByteMeaning(Body(s), SLASH);
    BodyAndRealm(s);
    NameParts(Parse(s).value.service, Parse(s).value.host);
  }

  lemma NameParts(left: GoString, right: GoString)
    ensures AT !in left + [SLASH] + right ==> AT !in left && AT !in right
  {
    var s := left + [SLASH] + right;
    assert s[..|left|] == left && s[|left| + 1..] == right;
  }

  // Printing inverts parsing, except that a bare trailing '@' is dropped.
  lemma PrintParse(s: GoString)
    requires Parse(s).Some?
    ensures Print(Parse(s).value) == if IndexByte(s, AT) == |s| - 1 then Body(s) else s
  {
    ParseImage(s);
    BodyAndRealm(s);
  }

  lemma BodyOfExtension(s: GoString, more: GoString)
    requires AT in s
    ensures Body(s + more) == Body(s)
  {
    BodyAndRealm(s);
    NoIndexIff(s);
    assert s + more == Body(s) + [AT] + (Realm(s) + more);
    BodyWithRealm(Body(s), Realm(s) + more);
  }

  lemma NoIndexIff(s: GoString)
    ensures IndexByte(s, AT) < 0 <==> AT !in s
  {
    IndexByteMeaning(s, AT);
  }

  // Appending to a string that already has an '@' appends to the realm.
  lemma LongerRealm(s: GoString, more: GoString)
    requires Parse(s).Some? && AT in s && more != []
    ensures var p := Parse(s).value; Print(p.(realm := p.realm + more)) == s + more
  {
    ParseImage(s);
    BodyAndRealm(s);
    NoIndexIff(s);
    assert Body(s) + [AT] + Realm(s) + more == Body(s) + [AT] + (Realm(s) + more);
  }

  lemma SameBodySameVerdict(s: GoString, t: GoString)
    requires Body(s) == Body(t)
    ensures Parse(s).Some? == Parse(t).Some?
  {
  }

  lemma BodyOfPrefixed(before: GoString, s: GoString)
    requires AT !in before
    ensures Body(before + s) == before + Body(s)
  {
    BodyAndRealm(s);
    if IndexByte(s, AT) < 0 {
      BodyAlone(before + s);
    } else {
      PrefixedWithRealm(before, Body(s), Realm(s));
    }
  }

  lemma PrefixedWithRealm(before: GoString, body: GoString, realm: GoString)
    requires AT !in before && AT !in body
    ensures Body(before + (body + [AT] + realm)) == before + body
  {
    assert before + (body + [AT] + realm) == before + body + [AT] + realm;
    BodyWithRealm(before + body, realm);
  }

  lemma PrintInjective(p: ServicePrincipal, q: ServicePrincipal)
    requires IsParsed(p) && IsParsed(q) && Print(p) == Print(q)
    ensures p == q
  {
    ParsePrint(p);
    ParsePrint(q);
  }
}
