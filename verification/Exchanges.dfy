// Service.Exchange (service.go) as a step system. Only the cache's Get and Put are
// atomic; between them any number of other exchanges may take steps.

module Exchanges {
  import opened GoStrings
  import opened Principals
  import opened CacheKeys
  import opened Requests
  import opened Claims
  import opened PacBuilder
  import opened Minting
  import opened MemoryCaches

  datatype Config = Config(caching: bool, maxLifetime: int, resolverRealm: GoString,
                           minterRealm: GoString, builder: Option<Builder>)

  // Where an exchange stands, with the locals it still needs. at is the clock at
  // the Get that hit, or the authentication time of the mint.
  datatype Phase =
    | Validating
    | LookingUp(id: Identity)
    | Missed(id: Identity)
    | Rendering(id: Identity, ticket: MintedTicket)
    | Storing(id: Identity, cred: Credential)
    | Returned(id: Identity, cred: Credential, at: Time, hit: bool)
    | Failed

  datatype Proc = Proc(request: ExchangeRequest, phase: Phase)

  // The record of a credential: who made it, from what.
  datatype Issue = Issue(proc: nat, id: Identity, request: ExchangeRequest, ticket: MintedTicket, encoding: Blob,
                         cred: Credential)

  datatype State = State(procs: seq<Proc>, store: Store, clock: Time, issued: seq<Issue>)

  // The validator's verdict and the libraries' results are inputs to the steps.
  datatype Action =
    | Begin(request: ExchangeRequest)
    | Tick(now: Time)
    | Validate(p: nat, verdict: Option<Identity>)
    | Lookup(p: nat)
    | Mint(p: nat, key: Option<int>)
    | Render(p: nat, encoding: Option<Blob>)
    | Store(p: nat)

  function Key(id: Identity, request: ExchangeRequest): GoString {
    CacheKey(id.subject, request.target, request.output)
  }

  function KeyOf(r: Issue): GoString { Key(r.id, r.request) }

  // What minting for a request at a given instant yields.
  ghost function TicketFor(cfg: Config, id: Identity, request: ExchangeRequest, now: Time, key: Option<int>)
    : Option<MintedTicket>
  {
    TicketOf(cfg.minterRealm, cfg.builder, ResolvedTarget(cfg.resolverRealm, request.target),
             MintOptions(ClientName(id), cfg.resolverRealm, id, now, ZERO_TIME,
                         CapEnd(now, id.expiry, cfg.maxLifetime), ZERO_TIME),
             key)
  }

  function Enter(s: State, p: nat, phase: Phase): State
    requires p < |s.procs|
  {
    s.(procs := s.procs[p := s.procs[p].(phase := phase)])
  }

  // One step of one exchange, or the clock; None when it is not its turn.
  ghost function Next(cfg: Config, s: State, a: Action): Option<State> {
    match a
    case Begin(request) => Some(s.(procs := s.procs + [Proc(request, Validating)]))
    case Tick(now) => if s.clock <= now then Some(s.(clock := now)) else None
    case Validate(p, verdict) =>
      if p >= |s.procs| || !s.procs[p].phase.Validating? then None
      else Some(Enter(s, p, if verdict.None? then Failed else LookingUp(verdict.value)))
    case Lookup(p) =>
      if p >= |s.procs| || !s.procs[p].phase.LookingUp? then None
      else
        var id := s.procs[p].phase.id;
        var key := Key(id, s.procs[p].request);
        if !cfg.caching then Some(Enter(s, p, Missed(id)))
        else
          var found, evicted := Hit(s.store, key, s.clock), s.(store := Evict(s.store, key, s.clock));
          Some(Enter(evicted, p, if found.Some? then Returned(id, found.value, s.clock, true) else Missed(id)))
    case Mint(p, key) =>
      if p >= |s.procs| || !s.procs[p].phase.Missed? then None
      else
        var id := s.procs[p].phase.id;
        var t := TicketFor(cfg, id, s.procs[p].request, s.clock, key);
        Some(Enter(s, p, if t.None? then Failed else Rendering(id, t.value)))
    case Render(p, encoding) =>
      if p >= |s.procs| || !s.procs[p].phase.Rendering? then None
      else
        var id, t, request := s.procs[p].phase.id, s.procs[p].phase.ticket, s.procs[p].request;
        var c := CredentialOf(t, request.output, |s.issued|, encoding);
        if c.None? then Some(Enter(s, p, Failed))
        else
          var issue := Issue(p, id, request, t, encoding.value, c.value);
          Some(Enter(s.(issued := s.issued + [issue]), p, Storing(id, c.value)))
    case Store(p) =>
      if p >= |s.procs| || !s.procs[p].phase.Storing? then None
      else
        var id, c := s.procs[p].phase.id, s.procs[p].phase.cred;
        var stored := if cfg.caching then s.store[Key(id, s.procs[p].request) := c] else s.store;
        if c.id < |s.issued|
        then Some(Enter(s.(store := stored), p, Returned(id, c, s.issued[c.id].ticket.authTime, false)))
        else None
  }

  ghost function Run(cfg: Config, s: State, acts: seq<Action>): Option<State>
    decreases |acts|
  {
    if acts == [] then Some(s)
    else match Next(cfg, s, acts[0])
         case None => None
         case Some(s') => Run(cfg, s', acts[1..])
  }

  function Start(clock: Time): State { State([], map[], clock, []) }

  // Some interleaving leads to s.
  ghost predicate Reachable(cfg: Config, s: State) {
    exists clock, acts :: Run(cfg, Start(clock), acts) == Some(s)
  }

  // ---- the invariant ----

  ghost predicate IsIssued(s: State, c: Credential) { c.id < |s.issued| && s.issued[c.id].cred == c }

  // A record is the outcome of minting and rendering for its own request.
  ghost predicate IssueOk(cfg: Config, s: State, r: Issue) {
    && TicketFor(cfg, r.id, r.request, r.ticket.authTime, Some(r.ticket.sessionKey)) == Some(r.ticket)
    && r.ticket.authTime <= s.clock
    && r.cred.subject == r.id.subject && r.cred.target == r.ticket.target && r.cred.expiry == r.ticket.endTime
    && r.cred.CarriesExactly(r.request.output) && r.cred.Delivers(r.request.output, r.encoding)
  }

  ghost predicate PhaseOk(cfg: Config, s: State, p: nat)
    requires p < |s.procs|
  {
    var request := s.procs[p].request;
    match s.procs[p].phase
    case Rendering(id, t) =>
      t.authTime <= s.clock && TicketFor(cfg, id, request, t.authTime, Some(t.sessionKey)) == Some(t)
    case Storing(id, c) => IsIssued(s, c) && OwnIssue(s.issued[c.id], p, id, request)
    case Returned(id, c, at, hit) =>
      IsIssued(s, c) && at <= s.clock && at <= c.expiry &&
      var r := s.issued[c.id];
      r.ticket.authTime <= at &&
      if hit then cfg.caching && KeyOf(r) == Key(id, request)
      else OwnIssue(r, p, id, request) && at == r.ticket.authTime
    case _ => true
  }

  predicate OwnIssue(r: Issue, p: nat, id: Identity, request: ExchangeRequest) {
    r.proc == p && r.id == id && r.request == request
  }

  // The maker of a record is past rendering, and made no other.
  ghost predicate MakerOk(s: State, i: nat)
    requires i < |s.issued|
  {
    var p := s.issued[i].proc;
    p < |s.procs| &&
    match s.procs[p].phase
    case Storing(_, c) => c.id == i
    case Returned(_, c, _, hit) => !hit && c.id == i
    case _ => false
  }

  ghost predicate Inv(cfg: Config, s: State) {
    && (forall i :: 0 <= i < |s.issued| ==> s.issued[i].cred.id == i && IssueOk(cfg, s, s.issued[i]) && MakerOk(s, i))
    && (forall k :: k in s.store ==>
                      IsIssued(s, s.store[k]) && KeyOf(s.issued[s.store[k].id]) == k)
    && (forall p :: 0 <= p < |s.procs| ==> PhaseOk(cfg, s, p))
  }

  lemma TicketMeaning(cfg: Config, id: Identity, request: ExchangeRequest, now: Time, key: Option<int>)
    ensures var t := TicketFor(cfg, id, request, now, key);
            t.Some? ==>
              && t.value.authTime == now && key == Some(t.value.sessionKey)
              && t.value.clientName == [id.subject]
              && t.value.endTime == CapEnd(now, id.expiry, cfg.maxLifetime)
              && now < t.value.endTime && t.value.endTime != ZERO_TIME
  {
  }

  lemma TicketIff(cfg: Config, id: Identity, request: ExchangeRequest, now: Time, key: Option<int>)
    ensures TicketFor(cfg, id, request, now, key).Some? <==>
            LivesOn(now, id.expiry, cfg.maxLifetime) && key.Some? && Mappable(cfg.builder, id)
  {
    CapEndLivesOn(now, id.expiry, cfg.maxLifetime);
  }

  // What holds of a record, or of an exchange that does not move, keeps holding
  // while the clock advances and records are added.
  lemma Grows(cfg: Config, s: State, s': State)
    requires s.clock <= s'.clock && s.issued <= s'.issued
    ensures forall r :: IssueOk(cfg, s, r) ==> IssueOk(cfg, s', r)
    ensures forall p :: 0 <= p < |s.procs| && p < |s'.procs| && s'.procs[p] == s.procs[p] && PhaseOk(cfg, s, p) ==>
                          PhaseOk(cfg, s', p)
  {
  }

  lemma StepKeepsInv(cfg: Config, s: State, a: Action)
    requires Inv(cfg, s) && Next(cfg, s, a).Some?
    ensures Inv(cfg, Next(cfg, s, a).value)
  {
    var s' := Next(cfg, s, a).value;
    forall p | 0 <= p < |s'.procs|
      ensures PhaseOk(cfg, s', p)
    {
      if p < |s.procs| && s'.procs[p] == s.procs[p] {
        Grows(cfg, s, s');
        assert PhaseOk(cfg, s, p);
      } else {
        MoverOk(cfg, s, a, p);
      }
    }
    forall i | 0 <= i < |s'.issued|
      ensures s'.issued[i].cred.id == i && IssueOk(cfg, s', s'.issued[i]) && MakerOk(s', i)
    {
      if i < |s.issued| {
        Grows(cfg, s, s');
        MakerStaysOk(cfg, s, a, i);
      } else {
        NewIssueOk(cfg, s, a);
      }
    }
    StoreStaysOk(cfg, s, a);
  }

  lemma MakerStaysOk(cfg: Config, s: State, a: Action, i: nat)
    requires Inv(cfg, s) && Next(cfg, s, a).Some? && i < |s.issued|
    ensures var s' := Next(cfg, s, a).value;
            i < |s'.issued| && s'.issued[i] == s.issued[i] && MakerOk(s', i)
  {
    assert MakerOk(s, i);
  }

  lemma NewIssueOk(cfg: Config, s: State, a: Action)
    requires Inv(cfg, s) && Next(cfg, s, a).Some? && |s.issued| < |Next(cfg, s, a).value.issued|
    ensures var s', i := Next(cfg, s, a).value, |s.issued|;
            |s'.issued| == i + 1 && s'.issued[i].cred.id == i && IssueOk(cfg, s', s'.issued[i]) && MakerOk(s', i)
  {
    var t := s.procs[a.p].phase.ticket;
    assert PhaseOk(cfg, s, a.p);
    TicketMeaning(cfg, s.procs[a.p].phase.id, s.procs[a.p].request, t.authTime, Some(t.sessionKey));
  }

  lemma StoreStaysOk(cfg: Config, s: State, a: Action)
    requires Inv(cfg, s) && Next(cfg, s, a).Some?
    ensures var s' := Next(cfg, s, a).value;
            forall k :: k in s'.store ==>
                          IsIssued(s', s'.store[k]) && KeyOf(s'.issued[s'.store[k].id]) == k
  {
    var s' := Next(cfg, s, a).value;
    StoreChange(cfg, s, a);
    if a.Store? {
      StoredUnderItsKey(cfg, s, a.p);
    }
  }

  // Records stay; the store keeps what it had, or is given the storer's credential.
  lemma StoreChange(cfg: Config, s: State, a: Action)
    requires Next(cfg, s, a).Some?
    ensures var s' := Next(cfg, s, a).value;
            && s.issued <= s'.issued
            && forall k :: k in s'.store ==>
                             || (k in s.store && s'.store[k] == s.store[k])
                             || (a.Store? && k == Key(s.procs[a.p].phase.id, s.procs[a.p].request) &&
                                 s'.store[k] == s.procs[a.p].phase.cred)
  {
  }

  lemma StoredUnderItsKey(cfg: Config, s: State, p: nat)
    requires Inv(cfg, s) && p < |s.procs| && s.procs[p].phase.Storing?
    ensures var c := s.procs[p].phase.cred;
            IsIssued(s, c) && KeyOf(s.issued[c.id]) == Key(s.procs[p].phase.id, s.procs[p].request)
  {
    assert PhaseOk(cfg, s, p);
  }

  // The exchange that moves, or begins.
  lemma MoverOk(cfg: Config, s: State, a: Action, p: nat)
    requires Inv(cfg, s) && Next(cfg, s, a).Some? && p < |Next(cfg, s, a).value.procs|
    requires p >= |s.procs| || Next(cfg, s, a).value.procs[p] != s.procs[p]
    ensures PhaseOk(cfg, Next(cfg, s, a).value, p)
  {
    assert p < |s.procs| ==> PhaseOk(cfg, s, p);
    match a
    case Begin(_) =>
    case Tick(_) =>
    case Validate(_, _) =>
    case Lookup(_) =>
    case Mint(_, key) =>
      TicketMeaning(cfg, s.procs[p].phase.id, s.procs[p].request, s.clock, key);
    case Render(_, _) =>
    case Store(_) =>
      var r := s.issued[s.procs[p].phase.cred.id];
      assert IssueOk(cfg, s, r);
      TicketMeaning(cfg, r.id, r.request, r.ticket.authTime, Some(r.ticket.sessionKey));
  }

  lemma {:induction false} RunKeepsInv(cfg: Config, s: State, acts: seq<Action>)
    requires Inv(cfg, s) && Run(cfg, s, acts).Some?
    ensures Inv(cfg, Run(cfg, s, acts).value)
    decreases |acts|
  {
    if acts != [] {
      StepKeepsInv(cfg, s, acts[0]);
      RunKeepsInv(cfg, Next(cfg, s, acts[0]).value, acts[1..]);
    }
  }

  lemma ReachableInv(cfg: Config, s: State)
    requires Reachable(cfg, s)
    ensures Inv(cfg, s)
  {
    var clock, acts :| Run(cfg, Start(clock), acts) == Some(s);
    RunKeepsInv(cfg, Start(clock), acts);
  }
}
