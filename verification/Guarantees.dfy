// What Exchange guarantees in every interleaving of any number of exchanges.

module Guarantees {
  import opened GoStrings
  import opened Rids
  import opened Principals
  import opened Outputs
  import opened CacheKeys
  import opened PacBuilder
  import opened Minting
  import opened MemoryCaches
  import opened Exchanges

  // ---- the right credential ----

  predicate HasIdentity(phase: Phase) {
    phase.LookingUp? || phase.Missed? || phase.Rendering? || phase.Storing? || phase.Returned?
  }

  // The subjects of all exchanges whose token has been validated.
  function Subjects(s: State): set<GoString> {
    set p | 0 <= p < |s.procs| && HasIdentity(s.procs[p].phase) :: s.procs[p].phase.id.subject
  }

  // The keys of these exchanges cannot be confused: targets come from the parser,
  // and no subject continues another ambiguously or no SPN contains a NUL.
  ghost predicate KeysApart(s: State) {
    && (forall p :: 0 <= p < |s.procs| ==> IsParsed(s.procs[p].request.target))
    && (|| NoAmbiguousPair(Subjects(s))
        || forall p :: 0 <= p < |s.procs| ==> NUL !in Principals.Print(s.procs[p].request.target))
  }

  lemma IssueSubject(cfg: Config, s: State, i: nat)
    requires Inv(cfg, s) && i < |s.issued|
    ensures var r := s.issued[i];
            r.proc < |s.procs| && s.procs[r.proc].request == r.request && r.id.subject in Subjects(s)
  {
    assert MakerOk(s, i);
    assert PhaseOk(cfg, s, s.issued[i].proc);
  }

  // A shared key is a shared subject, target and output.
  lemma SameKeySameRequest(cfg: Config, s: State, i: nat, p: nat)
    requires Inv(cfg, s) && KeysApart(s) && i < |s.issued| && p < |s.procs| && HasIdentity(s.procs[p].phase)
    requires KeyOf(s.issued[i]) == Key(s.procs[p].phase.id, s.procs[p].request)
    ensures var r := s.issued[i];
            && r.id.subject == s.procs[p].phase.id.subject
            && r.request.target == s.procs[p].request.target
            && r.request.output == s.procs[p].request.output
  {
    var r := s.issued[i];
    var q := s.procs[p];
    IssueSubject(cfg, s, i);
    assert q.phase.id.subject in Subjects(s);
    if NoAmbiguousPair(Subjects(s)) {
      SeparatesIff(Subjects(s));
    } else {
      KeySeparates(r.id.subject, r.request.target, r.request.output,
                   q.phase.id.subject, q.request.target, q.request.output);
    }
  }

  // The realm asked for, or else the resolver's default, or else the minter's.
  function TicketRealm(cfg: Config, requested: GoString): GoString {
    if requested != [] then requested
    else if cfg.resolverRealm != [] then cfg.resolverRealm
    else cfg.minterRealm
  }

  // Every returned credential is for the subject and target asked for, carries
  // exactly the representation asked for with the bytes its ticket was encoded to,
  // and was not expired when it was found or minted. Only a hit depends on the keys.
  lemma ReturnedIsRight(cfg: Config, s: State, p: nat)
    requires Reachable(cfg, s) && p < |s.procs| && s.procs[p].phase.Returned?
    requires s.procs[p].phase.hit ==> KeysApart(s)
    ensures var q := s.procs[p];
            && q.phase.cred.subject == q.phase.id.subject
            && q.phase.cred.target == q.request.target.(realm := TicketRealm(cfg, q.request.target.realm))
            && q.phase.cred.CarriesExactly(q.request.output)
            && IsIssued(s, q.phase.cred)
            && q.phase.cred.Delivers(q.request.output, s.issued[q.phase.cred.id].encoding)
            && q.phase.at <= s.clock && q.phase.at <= q.phase.cred.expiry
            && (!q.phase.hit ==> q.phase.at < q.phase.cred.expiry)
  {
    ReachableInv(cfg, s);
    var q := s.procs[p];
    assert PhaseOk(cfg, s, p);
    var i := q.phase.cred.id;
    assert IssueOk(cfg, s, s.issued[i]);
    if q.phase.hit {
      SameKeySameRequest(cfg, s, i, p);
    }
  }

  // So is every stored credential for whoever looks under its key.
  lemma StoredIsRight(cfg: Config, s: State, p: nat)
    requires Reachable(cfg, s) && KeysApart(s)
    requires p < |s.procs| && HasIdentity(s.procs[p].phase) && Key(s.procs[p].phase.id, s.procs[p].request) in s.store
    ensures var c := s.store[Key(s.procs[p].phase.id, s.procs[p].request)];
            && IsIssued(s, c) && s.issued[c.id].proc < |s.procs|
            && s.issued[c.id].id.subject == c.subject == s.procs[p].phase.id.subject
            && s.issued[c.id].request.target == s.procs[p].request.target
            && c.CarriesExactly(s.procs[p].request.output)
  {
    ReachableInv(cfg, s);
    var c := s.store[Key(s.procs[p].phase.id, s.procs[p].request)];
    assert IssueOk(cfg, s, s.issued[c.id]) && MakerOk(s, c.id);
    SameKeySameRequest(cfg, s, c.id, p);
  }

  // ---- lifetime ----

  // Every credential's expiry is the least of the limits its own minting exchange
  // had, and there was one; it lies after the mint. This is also what a hit returns.
  lemma ExpiryIsLeastBound(cfg: Config, s: State, p: nat)
    requires Reachable(cfg, s) && p < |s.procs| && s.procs[p].phase.Returned?
    ensures var c := s.procs[p].phase.cred;
            && IsIssued(s, c)
            && (var r := s.issued[c.id];
                var bounds := Bounds(r.ticket.authTime, r.id.expiry, cfg.maxLifetime);
                && IsLeast(c.expiry, bounds)
                && r.ticket.authTime < c.expiry && c.expiry != ZERO_TIME
                && r.ticket.authTime <= s.procs[p].phase.at)
  {
    ReachableInv(cfg, s);
    var c := s.procs[p].phase.cred;
    assert PhaseOk(cfg, s, p);
    var r := s.issued[c.id];
    assert IssueOk(cfg, s, r);
    TicketMeaning(cfg, r.id, r.request, r.ticket.authTime, Some(r.ticket.sessionKey));
    CapEndIsLeastBound(r.ticket.authTime, r.id.expiry, cfg.maxLifetime);
  }

  // Without a limit nothing is minted.
  lemma NoBoundNoTicket(cfg: Config, s: State, p: nat, key: Option<int>)
    requires p < |s.procs| && s.procs[p].phase.Missed?
    requires Bounds(s.clock, s.procs[p].phase.id.expiry, cfg.maxLifetime) == {}
    ensures Next(cfg, s, Mint(p, key)) == Some(Enter(s, p, Failed))
  {
    CapEndIsLeastBound(s.clock, s.procs[p].phase.id.expiry, cfg.maxLifetime);
  }

  // The mint step succeeds exactly when a least limit lies ahead, a key is at
  // hand and the claims can be mapped; otherwise the exchange fails.
  lemma MintStepIff(cfg: Config, s: State, p: nat, key: Option<int>)
    requires p < |s.procs| && s.procs[p].phase.Missed?
    ensures var id, next := s.procs[p].phase.id, Next(cfg, s, Mint(p, key));
            && next.Some?
            && var phase := next.value.procs[p].phase;
            && (phase.Rendering? <==>
                LivesOn(s.clock, id.expiry, cfg.maxLifetime) && key.Some? && Mappable(cfg.builder, id))
            && (phase.Rendering? || phase.Failed?)
  {
    TicketIff(cfg, s.procs[p].phase.id, s.procs[p].request, s.clock, key);
  }

  // The encoding step succeeds exactly for a defined output and an encoding.
  lemma RenderStepIff(cfg: Config, s: State, p: nat, encoding: Option<Blob>)
    requires p < |s.procs| && s.procs[p].phase.Rendering?
    ensures var next := Next(cfg, s, Render(p, encoding));
            && next.Some?
            && var phase := next.value.procs[p].phase;
            && (phase.Storing? <==> Defined(s.procs[p].request.output) && encoding.Some?)
            && (phase.Storing? || phase.Failed?)
  {
  }

  // ---- authorization ----

  // The PAC in a returned ticket is the one the minting token's claims build.
  lemma PacIsMintersOwn(cfg: Config, s: State, p: nat)
    requires Reachable(cfg, s) && p < |s.procs| && s.procs[p].phase.Returned? && cfg.builder.Some?
    ensures var c := s.procs[p].phase.cred;
            && IsIssued(s, c)
            && (var r := s.issued[c.id];
                && r.ticket.ticket.encPart.pac.Some?
                && r.ticket.ticket.encPart.pac == BuiltPac(cfg.builder.value, r.id, r.ticket.authTime)
                && (!s.procs[p].phase.hit ==> r.id == s.procs[p].phase.id))
  {
    ReachableInv(cfg, s);
    assert PhaseOk(cfg, s, p);
    assert IssueOk(cfg, s, s.issued[s.procs[p].phase.cred.id]);
  }

  // A returned credential describes the ticket inside it: same client, service,
  // realm and lifetime, valid from its authentication time on, and with a PAC the
  // PAC names the same user at the same time.
  lemma CredentialDescribesTicket(cfg: Config, s: State, p: nat)
    requires Reachable(cfg, s) && p < |s.procs| && s.procs[p].phase.Returned?
    ensures var c := s.procs[p].phase.cred;
            && IsIssued(s, c)
            && (var t := s.issued[c.id].ticket;
                var part := t.ticket.encPart;
                && part.cname == t.clientName == [c.subject]
                && t.ticket.sname == [c.target.service, c.target.host]
                && t.ticket.realm == c.target.realm
                && part.crealm == t.clientRealm == TicketRealm(cfg, [])
                && part.key == t.sessionKey
                && part.startTime == part.authTime == t.authTime
                && part.endTime == c.expiry && part.renewTill == ZERO_TIME
                && (part.pac.Some? ==>
                      (&& part.pac.value.clientName == part.pac.value.effectiveName == c.subject
                       && part.pac.value.userID == Rid(c.subject)
                       && part.pac.value.logOnTime == part.pac.value.clientTime == part.authTime)))
  {
    ReachableInv(cfg, s);
    assert PhaseOk(cfg, s, p);
    assert IssueOk(cfg, s, s.issued[s.procs[p].phase.cred.id]);
  }

  // ---- the store ----

  // The only steps that touch the store: a lookup may drop one expired entry, and
  // the last step of a successful exchange puts its own credential.
  lemma StoreEffect(cfg: Config, s: State, a: Action)
    requires Next(cfg, s, a).Some?
    ensures var s' := Next(cfg, s, a).value;
            || s'.store == s.store
            || (a.Lookup? && exists k :: k in s.store && s.store[k].expiry < s.clock && s'.store == s.store - {k})
            || (a.Store? && s'.procs[a.p].phase.Returned? && !s'.procs[a.p].phase.hit &&
                s'.store == s.store[Key(s.procs[a.p].phase.id, s.procs[a.p].request) := s'.procs[a.p].phase.cred])
  {
  }

  predicate Finished(phase: Phase) { phase.Returned? || phase.Failed? }

  lemma {:induction false} FinishedStays(cfg: Config, s: State, acts: seq<Action>, p: nat)
    requires Run(cfg, s, acts).Some? && p < |s.procs|
    ensures p < |Run(cfg, s, acts).value.procs|
    ensures Finished(s.procs[p].phase) ==> Run(cfg, s, acts).value.procs[p] == s.procs[p]
    decreases |acts|
  {
    if acts != [] {
      FinishedStays(cfg, Next(cfg, s, acts[0]).value, acts[1..], p);
    }
  }

  // An exchange that fails never reaches its Put: by StoreEffect all it may have
  // done to the store is to drop an expired entry.
  lemma {:induction false} FailedNeverStored(cfg: Config, s: State, acts: seq<Action>, p: nat)
    requires Run(cfg, s, acts).Some?
    requires p < |Run(cfg, s, acts).value.procs| && Run(cfg, s, acts).value.procs[p].phase.Failed?
    ensures Store(p) !in acts
    decreases |acts|
  {
    if acts != [] {
      var s' := Next(cfg, s, acts[0]).value;
      if acts[0] == Store(p) {
        FinishedStays(cfg, s', acts[1..], p);
      }
      FailedNeverStored(cfg, s', acts[1..], p);
    }
  }

  // No exchange makes two credentials, and one that hits makes none.
  lemma OneCredentialEach(cfg: Config, s: State, i: nat, j: nat)
    requires Reachable(cfg, s) && i < |s.issued| && j < |s.issued|
    ensures s.issued[i].proc == s.issued[j].proc ==> i == j
    ensures s.issued[i].proc < |s.procs|
    ensures var phase := s.procs[s.issued[i].proc].phase; phase.Storing? || (phase.Returned? && !phase.hit)
  {
    ReachableInv(cfg, s);
    assert MakerOk(s, i) && MakerOk(s, j);
  }
}
