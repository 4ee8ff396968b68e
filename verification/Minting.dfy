// What one exchange computes between its cache lookup and its cache store:
// resolver.go, the lifetime cap of service.go, minter.go and issue.go.

module Minting {
  import opened GoStrings
  import opened Principals
  import opened Outputs
  import opened Claims
  import opened PacBuilder
  import GssTokens

  // Instants, as a distance from Go's zero time.
  type Time = int
  const ZERO_TIME: Time := 0

  // StaticResolver.Resolve: the client name, and the target with its realm filled in.
  function ClientName(id: Identity): seq<GoString> { [id.subject] }

  function ResolvedTarget(defaultRealm: GoString, requested: ServicePrincipal): ServicePrincipal {
    if requested.realm == [] then requested.(realm := defaultRealm) else requested
  }

  // ---- lifetime ----

  // The end time Exchange asks for.
  function CapEnd(now: Time, expiry: Time, maxLifetime: int): Time {
    if maxLifetime > 0 then
      var capT := now + maxLifetime;
      if expiry == ZERO_TIME || capT < expiry then capT else expiry
    else expiry
  }

  // The limits on a ticket's life that are present.
  function Bounds(now: Time, expiry: Time, maxLifetime: int): set<Time> {
    (if expiry != ZERO_TIME then {expiry} else {}) + (if maxLifetime > 0 then {now + maxLifetime} else {})
  }

  ghost predicate IsLeast(t: Time, s: set<Time>) { t in s && forall u :: u in s ==> t <= u }

  lemma CapEndIsLeastBound(now: Time, expiry: Time, maxLifetime: int)
    ensures var bounds, end := Bounds(now, expiry, maxLifetime), CapEnd(now, expiry, maxLifetime);
            if bounds == {} then end == ZERO_TIME else IsLeast(end, bounds)
  {
    var bounds := Bounds(now, expiry, maxLifetime);
    assert expiry != ZERO_TIME ==> expiry in bounds;
    assert maxLifetime > 0 ==> now + maxLifetime in bounds;
  }

  // There is a limit, and the least one lies ahead.
  ghost predicate LivesOn(now: Time, expiry: Time, maxLifetime: int) {
    exists e :: IsLeast(e, Bounds(now, expiry, maxLifetime)) && now < e && e != ZERO_TIME
  }

  lemma CapEndLivesOn(now: Time, expiry: Time, maxLifetime: int)
    ensures var end := CapEnd(now, expiry, maxLifetime);
            end != ZERO_TIME && now < end <==> LivesOn(now, expiry, maxLifetime)
  {
    CapEndIsLeastBound(now, expiry, maxLifetime);
  }

  // ---- tickets ----

  datatype MintOptions = MintOptions(
    clientName: seq<GoString>, clientRealm: GoString, identity: Identity,
    authTime: Time, startTime: Time, endTime: Time, renewTill: Time)

  // Encryption is not modelled: a ticket shows what it encloses.
  datatype EncTicketPart = EncTicketPart(
    key: int, crealm: GoString, cname: seq<GoString>,
    authTime: Time, startTime: Time, endTime: Time, renewTill: Time, pac: Option<Pac>)

  datatype Ticket = Ticket(realm: GoString, sname: seq<GoString>, encPart: EncTicketPart)

  datatype MintedTicket = MintedTicket(
    ticket: Ticket, sessionKey: int, clientName: seq<GoString>, clientRealm: GoString,
    target: ServicePrincipal, authTime: Time, endTime: Time)

  function OrDefault(realm: GoString, defaultRealm: GoString): GoString {
    if realm == [] then defaultRealm else realm
  }

  // What Mint returns; None is any of its errors. The key is the session key
  // drawn, or None when the key source, the ASN.1 codec, the PAC signature or the
  // encryption fails.
  ghost function TicketOf(defaultRealm: GoString, builder: Option<Builder>, spn: ServicePrincipal,
                          opts: MintOptions, key: Option<int>): Option<MintedTicket> {
    var pac := if builder.None? then None else BuiltPac(builder.value, opts.identity, opts.authTime);
    if opts.endTime == ZERO_TIME || opts.endTime <= opts.authTime || key.None? then None
    else if builder.Some? && pac.None? then None
    else
      var srealm, crealm := OrDefault(spn.realm, defaultRealm), OrDefault(opts.clientRealm, defaultRealm);
      var start := if opts.startTime == ZERO_TIME then opts.authTime else opts.startTime;
      var part := EncTicketPart(key.value, crealm, opts.clientName, opts.authTime, start, opts.endTime,
                                opts.renewTill, pac);
      Some(MintedTicket(Ticket(srealm, [spn.service, spn.host], part), key.value, opts.clientName, crealm,
                        spn.(realm := srealm), opts.authTime, opts.endTime))
  }

  // The mapper reads the claims, if a PAC is wanted.
  predicate Mappable(builder: Option<Builder>, id: Identity) {
    builder.Some? ==> FactsOf(builder.value.groupsClaim, id).Some?
  }

  // Exactly when a ticket is minted, whatever the options.
  lemma MintSucceedsIff(defaultRealm: GoString, builder: Option<Builder>, spn: ServicePrincipal,
                        opts: MintOptions, key: Option<int>)
    ensures TicketOf(defaultRealm, builder, spn, opts, key).Some? <==>
            opts.endTime != ZERO_TIME && opts.authTime < opts.endTime && key.Some? && Mappable(builder, opts.identity)
  {
  }

  // And what it then says: a realm left empty is the minter's, and a start left
  // open is the authentication time.
  lemma MintedFields(defaultRealm: GoString, builder: Option<Builder>, spn: ServicePrincipal,
                     opts: MintOptions, key: Option<int>)
    requires TicketOf(defaultRealm, builder, spn, opts, key).Some?
    ensures var t := TicketOf(defaultRealm, builder, spn, opts, key).value;
            var part := t.ticket.encPart;
            && t.target.service == spn.service && t.target.host == spn.host
            && t.ticket.sname == [spn.service, spn.host]
            && t.ticket.realm == t.target.realm && part.crealm == t.clientRealm
            && (spn.realm != [] ==> t.target.realm == spn.realm)
            && (spn.realm == [] ==> t.target.realm == defaultRealm)
            && (opts.clientRealm != [] ==> t.clientRealm == opts.clientRealm)
            && (opts.clientRealm == [] ==> t.clientRealm == defaultRealm)
            && part.cname == t.clientName == opts.clientName
            && part.key == t.sessionKey && key == Some(t.sessionKey)
            && part.authTime == t.authTime == opts.authTime && part.endTime == t.endTime == opts.endTime
            && part.renewTill == opts.renewTill
            && (opts.startTime != ZERO_TIME ==> part.startTime == opts.startTime)
            && (opts.startTime == ZERO_TIME ==> part.startTime == opts.authTime)
            && (builder.None? ==> part.pac.None?)
            && (builder.Some? ==> part.pac.Some? && part.pac == BuiltPac(builder.value, opts.identity, opts.authTime))
  {
  }

  class DirectMinter {
    const defaultRealm: GoString
    var pacBuilder: Option<Builder>

    constructor (defaultRealm: GoString)
      ensures this.defaultRealm == defaultRealm && pacBuilder == None
    {
      this.defaultRealm := defaultRealm;
      pacBuilder := None;
    }

    method WithPACBuilder(b: Builder) returns (m: DirectMinter)
      modifies this
      ensures pacBuilder == Some(b) && m == this
    {
      pacBuilder := Some(b);
      m := this;
    }

    method Mint(spn: ServicePrincipal, opts: MintOptions, key: Option<int>) returns (r: Option<MintedTicket>)
      ensures r == TicketOf(defaultRealm, pacBuilder, spn, opts, key)
      ensures r.Some? <==> opts.endTime != ZERO_TIME && opts.authTime < opts.endTime && key.Some? &&
                           Mappable(pacBuilder, opts.identity)
    {
      var srealm := spn.realm;
      if srealm == [] {
        srealm := defaultRealm;
      }
      if opts.endTime == ZERO_TIME {
        return None;
      }
      if !(opts.endTime > opts.authTime) {
        return None;
      }
      if key.None? {
        return None;
      }
      var crealm := opts.clientRealm;
      if crealm == [] {
        crealm := defaultRealm;
      }
      var startTime := opts.startTime;
      if opts.startTime == ZERO_TIME {
        startTime := opts.authTime;
      }
      var etp := EncTicketPart(key.value, crealm, opts.clientName, opts.authTime, startTime, opts.endTime,
                               opts.renewTill, None);
      if pacBuilder.Some? {
        var pac := Build(pacBuilder.value, opts.identity, opts.authTime);
        if pac.None? {
          return None;
        }
        etp := etp.(pac := pac);
      }
      return Some(MintedTicket(Ticket(srealm, [spn.service, spn.host], etp), key.value, opts.clientName, crealm,
                               ServicePrincipal(spn.service, spn.host, srealm), opts.authTime, opts.endTime));
    }
  }

  // ---- credentials ----

  // The id stands for the pointer: each NewCredential makes a new object.
  datatype Credential = Credential(id: nat, subject: GoString, target: ServicePrincipal, expiry: Time,
                                   ccache: seq<byte>, apreq: seq<byte>)
  {
    function CCache(): Option<seq<byte>> { if |ccache| == 0 then None else Some(ccache) }

    function APReq(): Option<seq<byte>> { if |apreq| == 0 then None else Some(apreq) }

    predicate CarriesExactly(output: OutputType) {
      || (output == CCACHE && CCache().Some? && APReq().None?)
      || (output == APREQ && CCache().None? && APReq().Some?)
    }

    // The bytes handed out: the cache as it was encoded, or a GSSAPI token that
    // encloses the encoded AP-REQ and yields it when stripped.
    ghost predicate Delivers(output: OutputType, encoding: seq<byte>) {
      && (output == CCACHE ==> CCache() == Some(encoding))
      && (output == APREQ && GssTokens.FitsSlice(encoding) ==>
            APReq().Some? && GssTokens.Encloses(APReq().value, encoding) &&
            GssTokens.Strip(APReq().value) == GssTokens.Payload(encoding))
    }
  }

  // A library encoding: a credential cache, or the DER of an AP-REQ.
  type Blob = b: seq<byte> | b != [] witness [0]

  // MintedTicket.Credential. The encoding is None when the library fails.
  function CredentialOf(mt: MintedTicket, output: OutputType, id: nat, encoding: Option<Blob>): (r: Option<Credential>)
    ensures r.Some? <==> Defined(output) && encoding.Some?
    ensures r.Some? ==> r.value.CarriesExactly(output) && r.value.id == id &&
                        r.value.expiry == mt.endTime && r.value.target == mt.target
    ensures r.Some? && |mt.clientName| > 0 ==> r.value.subject == mt.clientName[0]
    ensures r.Some? && |mt.clientName| == 0 ==> r.value.subject == []
    ensures r.Some? ==> r.value.Delivers(output, encoding.value)
  {
    var subject := if |mt.clientName| > 0 then mt.clientName[0] else [];
    if encoding.None? then None
    else if output == CCACHE then Some(Credential(id, subject, mt.target, mt.endTime, encoding.value, []))
    else if output == APREQ then
      FrameDelivers(id, subject, mt.target, mt.endTime, encoding.value);
      Some(Credential(id, subject, mt.target, mt.endTime, [], GssTokens.Frame(encoding.value)))
    else None
  }

  lemma FrameDelivers(id: nat, subject: GoString, target: ServicePrincipal, expiry: Time, encoding: Blob)
    ensures Credential(id, subject, target, expiry, [], GssTokens.Frame(encoding)).Delivers(APREQ, encoding)
  {
    if GssTokens.FitsSlice(encoding) {
      GssTokens.FrameEncloses(encoding);
      GssTokens.StripFrame(encoding);
    }
  }
}
