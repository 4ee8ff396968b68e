// From the parsed token-exchange form to the internal request (request.go), and
// the form fields the client sends (httpexchange/client.go).

module Requests {
  import opened GoStrings
  import opened Principals
  import opened Outputs

  // Section 2.1 of RFC 8693.
  const GRANT_TYPE := Ascii("urn:ietf:params:oauth:grant-type:token-exchange")

  datatype WireRequest = WireRequest(
    grantType: GoString, subjectToken: GoString, requestedTokenType: GoString,
    resource: seq<GoString>, audience: seq<GoString>)

  datatype ExchangeRequest = ExchangeRequest(accessToken: GoString, target: ServicePrincipal, output: OutputType)

  datatype WireError = WrongGrantType | MissingSubjectToken | UnknownTokenType | NoTarget | MalformedSPN
  datatype WireResult = Ok(request: ExchangeRequest) | Err(error: WireError)

  function Flatten(groups: seq<seq<GoString>>): seq<GoString> {
    if groups == [] then [] else groups[0] + Flatten(groups[1..])
  }

  // The first non-empty string of a list, or the empty string.
  function First(vs: seq<GoString>): (r: GoString)
    ensures r == [] <==> forall v :: v in vs ==> v == []
    ensures r != [] ==> exists i :: 0 <= i < |vs| && vs[i] == r && forall j :: 0 <= j < i ==> vs[j] == []
  {
    if vs == [] then []
    else if vs[0] != [] then assert vs[0] in vs; vs[0]
    else
      var r := First(vs[1..]);
      assert r != [] ==> exists i :: 0 <= i < |vs[1..]| && vs[1..][i] == r && vs[i + 1] == r &&
                                     forall j :: 0 <= j < i ==> vs[1..][j] == [];
      assert forall v :: v in vs <==> v == vs[0] || v in vs[1..];
      r
  }

  lemma {:induction false} FirstSkips(vs: seq<GoString>, ws: seq<GoString>)
    ensures First(vs + ws) == if First(vs) != [] then First(vs) else First(ws)
  {
    if vs == [] {
      assert vs + ws == ws;
    } else {
      FirstSkips(vs[1..], ws);
      assert (vs + ws)[1..] == vs[1..] + ws;
    }
  }

  // firstNonEmpty
  method FirstNonEmpty(groups: seq<seq<GoString>>) returns (r: GoString)
    ensures r == First(Flatten(groups))
  {
    for i := 0 to |groups|
      invariant First(Flatten(groups)) == First(Flatten(groups[i..]))
    {
      var g := groups[i];
      FirstSkips(g, Flatten(groups[i + 1..]));
      assert groups[i..][0] == g && groups[i..][1..] == groups[i + 1..];
      for j := 0 to |g|
        invariant First(g) == First(g[j..])
      {
        if g[j] != [] {
          return g[j];
        }
        assert g[j..][1..] == g[j + 1..];
      }
    }
    return [];
  }

  // ExchangeRequestFromWire
  function FromWire(w: WireRequest): WireResult {
    if w.grantType != GRANT_TYPE then Err(WrongGrantType)
    else if w.subjectToken == [] then Err(MissingSubjectToken)
    else
      var output := FromTokenType(w.requestedTokenType);
      if output.None? then Err(UnknownTokenType)
      else
        var raw := First(w.resource + w.audience);
        if raw == [] then Err(NoTarget)
        else
          var target := Parse(raw);
          if target.None? then Err(MalformedSPN)
          else Ok(ExchangeRequest(w.subjectToken, target.value, output.value))
  }

  method ExchangeRequestFromWire(w: WireRequest) returns (r: WireResult)
    ensures r == FromWire(w)
  {
    if w.grantType != GRANT_TYPE {
      return Err(WrongGrantType);
    }
    if w.subjectToken == [] {
      return Err(MissingSubjectToken);
    }
    var output := FromTokenType(w.requestedTokenType);
    if output.None? {
      return Err(UnknownTokenType);
    }
    var raw := FirstNonEmpty([w.resource, w.audience]);
    assert [w.resource, w.audience][1..] == [w.audience] && [w.audience][1..] == [];
    assert Flatten([w.audience]) == w.audience;
    if raw == [] {
      return Err(NoTarget);
    }
    var target := Parse(raw);
    if target.None? {
      return Err(MalformedSPN);
    }
    return Ok(ExchangeRequest(w.subjectToken, target.value, output.value));
  }

  // v is the first non-empty string of the list.
  ghost predicate IsFirst(vs: seq<GoString>, v: GoString) {
    v != [] && exists i :: 0 <= i < |vs| && vs[i] == v && forall j :: 0 <= j < i ==> vs[j] == []
  }

  lemma {:induction false} FirstAtIndex(vs: seq<GoString>, i: nat)
    requires i < |vs| && vs[i] != [] && forall j :: 0 <= j < i ==> vs[j] == []
    ensures First(vs) == vs[i]
  {
    if i > 0 {
      FirstAtIndex(vs[1..], i - 1);
    }
  }

  lemma FirstIs(vs: seq<GoString>, v: GoString)
    ensures IsFirst(vs, v) <==> v != [] && First(vs) == v
  {
    if IsFirst(vs, v) {
      var i :| 0 <= i < |vs| && vs[i] == v && forall j :: 0 <= j < i ==> vs[j] == [];
      FirstAtIndex(vs, i);
    }
  }

  // A refusal names the first thing that is wrong, and nothing else is refused.
  lemma RefusedIff(w: WireRequest)
    ensures var r, named := FromWire(w), w.resource + w.audience;
            var granted := w.grantType == Ascii("urn:ietf:params:oauth:grant-type:token-exchange");
            var asked := granted && w.subjectToken != [];
            var known := asked && FromTokenType(w.requestedTokenType).Some?;
            && (r == Err(WrongGrantType) <==> !granted)
            && (r == Err(MissingSubjectToken) <==> granted && w.subjectToken == [])
            && (r == Err(UnknownTokenType) <==> asked && FromTokenType(w.requestedTokenType).None?)
            && (r == Err(NoTarget) <==> known && forall v :: v in named ==> v == [])
            && (r == Err(MalformedSPN) <==> known && exists v :: IsFirst(named, v) && Parse(v).None?)
            && (r.Ok? <==> known && exists v :: IsFirst(named, v) && Parse(v).Some?)
  {
    var v := First(w.resource + w.audience);
    FirstIs(w.resource + w.audience, v);
    forall u
      ensures IsFirst(w.resource + w.audience, u) ==> u == v
    {
      FirstIs(w.resource + w.audience, u);
    }
  }

  // An accepted request carries the token as it is, the output its type names, and
  // the target of the first non-empty resource or else audience.
  lemma AcceptedMeaning(w: WireRequest)
    requires FromWire(w).Ok?
    ensures var r := FromWire(w).request;
            && r.accessToken == w.subjectToken
            && FromTokenType(w.requestedTokenType) == Some(r.output)
            && exists v :: IsFirst(w.resource + w.audience, v) && Parse(v) == Some(r.target)
  {
    var v := First(w.resource + w.audience);
    FirstIs(w.resource + w.audience, v);
  }

  // The fields Client.Exchange puts into its form.
  function ClientForm(r: ExchangeRequest): WireRequest {
    WireRequest(GRANT_TYPE, r.accessToken, TokenType(r.output), [Principals.Print(r.target)], [])
  }

  // What the client asks for is what the server understands, for exactly the
  // requests with a token, a parsable target and a defined output. The client sends
  // no audience, and none that were added would make a difference.
  lemma ClientRoundTrip(r: ExchangeRequest, added: seq<GoString>)
    ensures var form := ClientForm(r);
            FromWire(form.(audience := form.audience + added)) == Ok(r) <==>
            r.accessToken != [] && IsParsed(r.target) && Defined(r.output)
    ensures FromWire(ClientForm(r)) == FromWire(ClientForm(r).(audience := added))
  {
    var raw := Principals.Print(r.target);
    assert [raw] + [] == [raw] && First([raw]) == raw && [] + added == added;
    FirstSkips([raw], added);
    ParsePrint(r.target);
    FromTokenTypeInverts(r.output);
  }

  // The target is the first non-empty resource, and the audience counts only
  // when no resource is non-empty.
  lemma ResourceBeforeAudience(w: WireRequest)
    requires FromWire(w).Ok?
    ensures var vs := if exists v :: v in w.resource && v != [] then w.resource else w.audience;
            exists i :: 0 <= i < |vs| && Parse(vs[i]) == Some(FromWire(w).request.target) &&
                        forall j :: 0 <= j < i ==> vs[j] == []
  {
    var raw := First(w.resource + w.audience);
    TargetParsed(w, raw);
    FirstSkips(w.resource, w.audience);
    var vs := if First(w.resource) != [] then w.resource else w.audience;
    assert First(vs) == raw;
    var i :| 0 <= i < |vs| && vs[i] == raw && forall j :: 0 <= j < i ==> vs[j] == [];
  }

  lemma TargetParsed(w: WireRequest, raw: GoString)
    requires FromWire(w).Ok? && raw == First(w.resource + w.audience)
    ensures raw != [] && Parse(raw) == Some(FromWire(w).request.target)
  {
  }
}
