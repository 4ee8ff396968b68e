// Exchanges run one after the other, and what the cache then guarantees.

module Sequential {
  import opened GoStrings
  import opened Rids
  import opened Outputs
  import opened Requests
  import opened Scopes
  import opened Claims
  import opened PacBuilder
  import opened Minting
  import opened MemoryCaches
  import opened Exchanges

  // One call of Exchange with all it learns from outside: the validator's verdict,
  // the clock at the cache lookup and at the mint, and the libraries' results.
  datatype Call = Call(request: ExchangeRequest, verdict: Option<Identity>, lookupTime: Time, mintTime: Time,
                       key: Option<int>, encoding: Option<Blob>)

  predicate Timely(call: Call, clock: Time) { clock <= call.lookupTime <= call.mintTime }

  // The cache's answer to the call; None without a cache.
  function Cached(cfg: Config, store: Store, id: Identity, call: Call): Option<Credential> {
    if cfg.caching then Hit(store, Key(id, call.request), call.lookupTime) else None
  }

  // The credential a miss makes.
  ghost function Fresh(cfg: Config, id: Identity, call: Call, serial: nat): Option<Issue> {
    match TicketFor(cfg, id, call.request, call.mintTime, call.key)
    case None => None
    case Some(t) =>
      match CredentialOf(t, call.request.output, serial, call.encoding)
      case None => None
      case Some(c) => Some(Issue(0, id, call.request, t, call.encoding.value, c))
  }

  // The state after one whole call.
  ghost function After(cfg: Config, s: State, call: Call): State {
    var p := |s.procs|;
    if call.verdict.None? then s.(procs := s.procs + [Proc(call.request, Failed)])
    else
      var id := call.verdict.value;
      var key := Key(id, call.request);
      var cached := Cached(cfg, s.store, id, call);
      if cached.Some? then
        s.(procs := s.procs + [Proc(call.request, Returned(id, cached.value, call.lookupTime, true))],
        clock := call.lookupTime)
      else
        var left := if cfg.caching then Evict(s.store, key, call.lookupTime) else s.store;
        match Fresh(cfg, id, call, |s.issued|)
        case None => State(s.procs + [Proc(call.request, Failed)], left, call.mintTime, s.issued)
        case Some(r) =>
          State(s.procs + [Proc(call.request, Returned(id, r.cred, call.mintTime, false))],
                if cfg.caching then left[key := r.cred] else left,
                call.mintTime,
                s.issued + [r.(proc := p)])
  }

  ghost function AfterAll(cfg: Config, s: State, calls: seq<Call>): State
    decreases |calls|
  {
    if calls == [] then s else AfterAll(cfg, After(cfg, s, calls[0]), calls[1..])
  }

  // The clock never goes back over the calls.
  ghost predicate InOrder(cfg: Config, s: State, calls: seq<Call>)
    decreases |calls|
  {
    calls == [] || (Timely(calls[0], s.clock) && InOrder(cfg, After(cfg, s, calls[0]), calls[1..]))
  }

  // ---- a sequential run is one of the interleavings ----

  lemma RunTwo(cfg: Config, s: State, a: Action, rest: seq<Action>)
    ensures Run(cfg, s, [a] + rest) == match Next(cfg, s, a) case None => None case Some(s') => Run(cfg, s', rest)
  {
    assert ([a] + rest)[1..] == rest;
  }

  lemma {:induction false} RunAppend(cfg: Config, s: State, a: seq<Action>, b: seq<Action>)
    requires Run(cfg, s, a).Some?
    ensures Run(cfg, s, a + b) == Run(cfg, Run(cfg, s, a).value, b)
    decreases |a|
  {
    if a == [] {
      assert a + b == b;
    } else {
      assert (a + b)[1..] == a[1..] + b;
      RunAppend(cfg, Next(cfg, s, a[0]).value, a[1..], b);
    }
  }

  // From the lookup on.
  lemma RestOfCall(cfg: Config, s: State, call: Call) returns (acts: seq<Action>)
    requires Timely(call, s.clock) && call.verdict.Some?
    ensures Run(cfg, s.(procs := s.procs + [Proc(call.request, LookingUp(call.verdict.value))]), acts)
         == Some(After(cfg, s, call))
  {
    var p, id := |s.procs|, call.verdict.value;
    var s1 := s.(procs := s.procs + [Proc(call.request, LookingUp(id))]);
    var s2 := s1.(clock := call.lookupTime);
    var s3 := Looked(cfg, s, call);
    LookupStep(cfg, s, call);
    AfterLookup(cfg, s, call);
    var rest: seq<Action> := [];
    if Cached(cfg, s.store, id, call).None? {
      rest := MintAndStore(cfg, s3, call, p, id);
    }
    RunTwo(cfg, s2, Lookup(p), rest);
    RunTwo(cfg, s1, Tick(call.lookupTime), [Lookup(p)] + rest);
    acts := [Tick(call.lookupTime)] + ([Lookup(p)] + rest);
  }

  // The state after the lookup.
  ghost function Looked(cfg: Config, s: State, call: Call): State
    requires call.verdict.Some?
  {
    var id := call.verdict.value;
    var cached := Cached(cfg, s.store, id, call);
    State(s.procs + [Proc(call.request, if cached.Some? then Returned(id, cached.value, call.lookupTime, true)
                          else Missed(id))],
          if cfg.caching then Evict(s.store, Key(id, call.request), call.lookupTime) else s.store,
          call.lookupTime, s.issued)
  }

  lemma ReplaceLast(procs: seq<Proc>, a: Proc, b: Proc)
    ensures (procs + [a])[|procs| := b] == procs + [b]
  {
  }

  lemma LookupStep(cfg: Config, s: State, call: Call)
    requires Timely(call, s.clock) && call.verdict.Some?
    ensures var s2 := State(s.procs + [Proc(call.request, LookingUp(call.verdict.value))], s.store,
                            call.lookupTime, s.issued);
            Next(cfg, s2, Lookup(|s.procs|)) == Some(Looked(cfg, s, call))
  {
    var p := |s.procs|;
    ReplaceLast(s.procs, Proc(call.request, LookingUp(call.verdict.value)), Looked(cfg, s, call).procs[p]);
  }

  lemma AfterLookup(cfg: Config, s: State, call: Call)
    requires Timely(call, s.clock) && call.verdict.Some?
    ensures var id, s3 := call.verdict.value, Looked(cfg, s, call);
            After(cfg, s, call) ==
            if Cached(cfg, s.store, id, call).Some? then s3 else Made(cfg, s3, call, |s.procs|, id)
  {
    var p := |s.procs|;
    ReplaceLast(s.procs, Looked(cfg, s, call).procs[p], After(cfg, s, call).procs[p]);
  }

  // The state after a miss has run its course.
  ghost function Made(cfg: Config, s: State, call: Call, p: nat, id: Identity): State
    requires p < |s.procs|
  {
    match Fresh(cfg, id, call, |s.issued|)
    case None => Enter(s.(clock := call.mintTime), p, Failed)
    case Some(r) =>
      Enter(State(s.procs, if cfg.caching then s.store[Key(id, call.request) := r.cred] else s.store,
                  call.mintTime, s.issued + [r.(proc := p)]),
            p, Returned(id, r.cred, call.mintTime, false))
  }

  lemma MintAndStore(cfg: Config, s: State, call: Call, p: nat, id: Identity) returns (acts: seq<Action>)
    requires s.clock <= call.mintTime && p < |s.procs|
    requires s.procs[p] == Proc(call.request, Missed(id))
    ensures Run(cfg, s, acts) == Some(Made(cfg, s, call, p, id))
  {
    var s1 := s.(clock := call.mintTime);
    var s2 := Next(cfg, s1, Mint(p, call.key)).value;
    var t := TicketFor(cfg, id, call.request, call.mintTime, call.key);
    TicketMeaning(cfg, id, call.request, call.mintTime, call.key);
    if t.None? {
      acts := [Tick(call.mintTime), Mint(p, call.key)];
      RunTwo(cfg, s1, Mint(p, call.key), []);
      RunTwo(cfg, s, Tick(call.mintTime), [Mint(p, call.key)]);
    } else {
      var s3 := Next(cfg, s2, Render(p, call.encoding)).value;
      var c := CredentialOf(t.value, call.request.output, |s.issued|, call.encoding);
      var rest := if c.None? then [] else [Store(p)];
      if c.Some? {
        var made := Made(cfg, s, call, p, id);
        assert s3.issued == made.issued && made.issued[c.value.id].ticket == t.value;
        assert Next(cfg, s3, Store(p)).value.procs == made.procs;
        RunTwo(cfg, s3, Store(p), []);
      } else {
        assert s3 == Made(cfg, s, call, p, id);
      }
      RunTwo(cfg, s2, Render(p, call.encoding), rest);
      RunTwo(cfg, s1, Mint(p, call.key), [Render(p, call.encoding)] + rest);
      acts := [Tick(call.mintTime)] + ([Mint(p, call.key)] + ([Render(p, call.encoding)] + rest));
      RunTwo(cfg, s, Tick(call.mintTime), [Mint(p, call.key)] + ([Render(p, call.encoding)] + rest));
    }
  }

  // One call is a run of the step system in which nobody else moves.
  lemma CallIsARun(cfg: Config, s: State, call: Call) returns (acts: seq<Action>)
    requires Timely(call, s.clock)
    ensures Run(cfg, s, acts) == Some(After(cfg, s, call))
  {
    var p := |s.procs|;
    var s1 := s.(procs := s.procs + [Proc(call.request, Validating)]);
    var s2 := Next(cfg, s1, Validate(p, call.verdict)).value;
    var rest: seq<Action> := [];
    if call.verdict.Some? {
      assert s2 == s.(procs := s.procs + [Proc(call.request, LookingUp(call.verdict.value))]);
      rest := RestOfCall(cfg, s, call);
    } else {
      assert s2 == After(cfg, s, call);
    }
    RunTwo(cfg, s1, Validate(p, call.verdict), rest);
    RunTwo(cfg, s, Begin(call.request), [Validate(p, call.verdict)] + rest);
    acts := [Begin(call.request)] + ([Validate(p, call.verdict)] + rest);
  }

  lemma {:induction false} CallsReachable(cfg: Config, s: State, calls: seq<Call>)
    requires Reachable(cfg, s) && InOrder(cfg, s, calls)
    ensures Reachable(cfg, AfterAll(cfg, s, calls))
    decreases |calls|
  {
    if calls != [] {
      var clock, before :| Run(cfg, Start(clock), before) == Some(s);
      var acts := CallIsARun(cfg, s, calls[0]);
      RunAppend(cfg, Start(clock), before, acts);
      assert Run(cfg, Start(clock), before + acts) == Some(After(cfg, s, calls[0]));
      CallsReachable(cfg, After(cfg, s, calls[0]), calls[1..]);
    }
  }

  // ---- disjoint validity windows ----

  // An unexpired credential is still in the store, and of two for one key the
  // earlier expired before the later was minted.
  ghost predicate Exclusive(s: State) {
    && (forall i :: 0 <= i < |s.issued| ==> InStoreOrExpired(s, s.issued[i]))
    && (forall i, j :: 0 <= i < j < |s.issued| && KeyOf(s.issued[i]) == KeyOf(s.issued[j]) ==>
                         s.issued[i].cred.expiry < s.issued[j].ticket.authTime)
  }

  predicate InStoreOrExpired(s: State, r: Issue) {
    r.cred.expiry < s.clock || (KeyOf(r) in s.store && s.store[KeyOf(r)] == r.cred)
  }

  lemma CallKeepsExclusive(cfg: Config, s: State, call: Call)
    requires cfg.caching && Exclusive(s) && Timely(call, s.clock)
    ensures Exclusive(After(cfg, s, call))
  {
    var s' := After(cfg, s, call);
    if call.verdict.Some? {
      var id := call.verdict.value;
      var key := Key(id, call.request);
      TicketMeaning(cfg, id, call.request, call.mintTime, call.key);
      forall i | 0 <= i < |s.issued|
        ensures InStoreOrExpired(s', s.issued[i])
        ensures KeyOf(s.issued[i]) == key && Cached(cfg, s.store, id, call).None? ==>
                  s.issued[i].cred.expiry < call.mintTime
      {
        assert InStoreOrExpired(s, s.issued[i]);
      }
    } else {
      forall i | 0 <= i < |s'.issued|
        ensures InStoreOrExpired(s', s'.issued[i])
      {
        assert InStoreOrExpired(s, s.issued[i]);
      }
    }
  }

  lemma {:induction false} CallsKeepExclusive(cfg: Config, s: State, calls: seq<Call>)
    requires cfg.caching && Exclusive(s) && InOrder(cfg, s, calls)
    ensures Exclusive(AfterAll(cfg, s, calls))
    decreases |calls|
  {
    if calls != [] {
      CallKeepsExclusive(cfg, s, calls[0]);
      CallsKeepExclusive(cfg, After(cfg, s, calls[0]), calls[1..]);
    }
  }

  // In a sequential run with a cache, two credentials made under one key never
  // are valid at the same time.
  lemma DisjointWindows(cfg: Config, clock: Time, calls: seq<Call>, i: nat, j: nat, t: Time)
    requires cfg.caching && InOrder(cfg, Start(clock), calls)
    requires var s := AfterAll(cfg, Start(clock), calls);
             i < j < |s.issued| && KeyOf(s.issued[i]) == KeyOf(s.issued[j])
    ensures var s := AfterAll(cfg, Start(clock), calls);
            !(s.issued[i].ticket.authTime <= t <= s.issued[i].cred.expiry &&
              s.issued[j].ticket.authTime <= t <= s.issued[j].cred.expiry)
  {
    CallsKeepExclusive(cfg, Start(clock), calls);
  }

  // ---- a repeated request ----

  predicate Asks(call: Call, key: GoString) { call.verdict.Some? && Key(call.verdict.value, call.request) == key }

  lemma LiveEntryStays(cfg: Config, s: State, call: Call, key: GoString, c: Credential)
    requires cfg.caching && Timely(call, s.clock)
    requires key in s.store && s.store[key] == c
    requires call.lookupTime <= c.expiry
    ensures var s' := After(cfg, s, call);
            && key in s'.store && s'.store[key] == c
            && (Asks(call, key) ==>
                  (&& s'.issued == s.issued
                   && s'.procs == s.procs + [Proc(call.request,
                                                  Returned(call.verdict.value, c, call.lookupTime, true))]))
  {
  }

  lemma ClockAdvances(cfg: Config, s: State, call: Call)
    requires Timely(call, s.clock)
    ensures s.clock <= After(cfg, s, call).clock
    ensures call.verdict.Some? ==> call.lookupTime <= After(cfg, s, call).clock
  {
  }

  lemma {:induction false} LiveEntryStaysAll(cfg: Config, s: State, calls: seq<Call>, key: GoString, c: Credential)
    requires cfg.caching && InOrder(cfg, s, calls) && key in s.store && s.store[key] == c
    ensures var s' := AfterAll(cfg, s, calls);
            s.clock <= s'.clock && (s'.clock <= c.expiry ==> key in s'.store && s'.store[key] == c)
    decreases |calls|
  {
    if calls != [] {
      var call, s1 := calls[0], After(cfg, s, calls[0]);
      ClockAdvances(cfg, s, call);
      if key in s1.store && s1.store[key] == c {
        LiveEntryStaysAll(cfg, s1, calls[1..], key, c);
      } else {
        ClockNeverBack(cfg, s1, calls[1..]);
        if call.verdict.Some? && call.lookupTime <= c.expiry {
          LiveEntryStays(cfg, s, call, key, c);
        }
      }
    }
  }

  lemma {:induction false} ClockNeverBack(cfg: Config, s: State, calls: seq<Call>)
    requires InOrder(cfg, s, calls)
    ensures s.clock <= AfterAll(cfg, s, calls).clock
    decreases |calls|
  {
    if calls != [] {
      ClockAdvances(cfg, s, calls[0]);
      ClockNeverBack(cfg, After(cfg, s, calls[0]), calls[1..]);
    }
  }

  // The same subject asks for the same target and output; the token may differ.
  predicate AsksAgain(first: Call, again: Call) {
    && first.verdict.Some? && again.verdict.Some?
    && again.verdict.value.subject == first.verdict.value.subject
    && again.request.target == first.request.target && again.request.output == first.request.output
  }

  // Whatever happens in between, a repetition of an earlier successful request
  // returns the same object, without minting, until that object has expired.
  lemma RepeatHits(cfg: Config, s: State, first: Call, between: seq<Call>, again: Call)
    requires cfg.caching && Timely(first, s.clock) && AsksAgain(first, again)
    requires var s1 := After(cfg, s, first);
             s1.procs[|s.procs|].phase.Returned? && InOrder(cfg, s1, between) &&
             Timely(again, AfterAll(cfg, s1, between).clock) &&
             again.lookupTime <= s1.procs[|s.procs|].phase.cred.expiry
    ensures var s1 := After(cfg, s, first);
            var s2 := AfterAll(cfg, s1, between);
            var s3 := After(cfg, s2, again);
            && s3.issued == s2.issued
            && |s3.procs| == |s2.procs| + 1
            && s3.procs[|s2.procs|].phase
               == Returned(again.verdict.value, s1.procs[|s.procs|].phase.cred, again.lookupTime, true)
  {
    var s1 := After(cfg, s, first);
    var c := s1.procs[|s.procs|].phase.cred;
    var key := Key(first.verdict.value, first.request);
    assert key in s1.store && s1.store[key] == c;
    LiveEntryStaysAll(cfg, s1, between, key, c);
    LiveEntryStays(cfg, AfterAll(cfg, s1, between), again, key, c);
  }

  // ---- what a hit owes to the token now presented ----

  function Outcome(s: State): Phase
    requires |s.procs| > 0
  {
    s.procs[|s.procs| - 1].phase
  }

  // The result outlives the presented token exactly when the cache holds a live
  // entry that does: a hit is not capped again.
  lemma OutlivesTokenIff(cfg: Config, s: State, call: Call)
    requires call.verdict.Some?
    ensures var id, result := call.verdict.value, Outcome(After(cfg, s, call));
            var key := Key(id, call.request);
            (id.expiry != ZERO_TIME && result.Returned? && result.cred.expiry > id.expiry)
            <==> (&& cfg.caching && id.expiry != ZERO_TIME && key in s.store
                  && s.store[key].expiry >= call.lookupTime && s.store[key].expiry > id.expiry)
  {
    var id := call.verdict.value;
    TicketMeaning(cfg, id, call.request, call.mintTime, call.key);
    CapEndIsLeastBound(call.mintTime, id.expiry, cfg.maxLifetime);
  }

  // Exactly when a call returns a credential: on a hit, or when there is a lifetime
  // limit, the least of them after the mint, and claims and libraries cooperate.
  lemma ReturnsIff(cfg: Config, s: State, call: Call)
    ensures Outcome(After(cfg, s, call)).Returned? <==>
            && call.verdict.Some?
            && var id := call.verdict.value;
            || Cached(cfg, s.store, id, call).Some?
            || (&& LivesOn(call.mintTime, id.expiry, cfg.maxLifetime) && Mappable(cfg.builder, id)
                && Defined(call.request.output) && call.key.Some? && call.encoding.Some?)
  {
    if call.verdict.Some? {
      TicketIff(cfg, call.verdict.value, call.request, call.mintTime, call.key);
    }
  }

  // A token's claims entitle it to the RID: the primary's, or that of a claim
  // group which a granted scope lists.
  ghost predicate Earns(b: Builder, id: Identity, rid: uint32) {
    FactsOf(b.groupsClaim, id).Some? && Earned(b, FactsOf(b.groupsClaim, id).value, rid)
  }

  ghost function TicketRids(t: MintedTicket): seq<uint32> {
    if t.ticket.encPart.pac.None? then [] else RidSeq(t.ticket.encPart.pac.value)
  }

  // The returned ticket grants only what the presented token earns exactly when
  // the call misses the cache, or the token behind the entry found earns nothing
  // more; and it grants all of that exactly when the two earn the same.
  lemma GroupsFitTokenIff(cfg: Config, s: State, call: Call)
    requires Inv(cfg, s) && Timely(call, s.clock) && call.verdict.Some? && cfg.builder.Some?
    requires Outcome(After(cfg, s, call)).Returned?
    ensures var b, id, s' := cfg.builder.value, call.verdict.value, After(cfg, s, call);
            var found, result := Cached(cfg, s.store, id, call), Outcome(s').cred;
            && (found.Some? ==> found.value.id < |s.issued|)
            && result.id < |s'.issued|
            && (var granted := TicketRids(s'.issued[result.id].ticket);
                && ((forall rid :: rid in granted ==> Earns(b, id, rid))
                    <==> (found.None? ||
                          forall rid :: Earns(b, s.issued[found.value.id].id, rid) ==> Earns(b, id, rid)))
                && ((forall rid :: rid in granted <==> Earns(b, id, rid))
                    <==> (found.None? ||
                          forall rid :: Earns(b, s.issued[found.value.id].id, rid) <==> Earns(b, id, rid))))
  {
    var id, s' := call.verdict.value, After(cfg, s, call);
    AfterKeepsInv(cfg, s, call);
    TicketRidsEarned(cfg, s', Outcome(s').cred.id);
    if Cached(cfg, s.store, id, call).None? {
      FreshIsOwn(cfg, s, call);
    } else {
      HitIsOld(cfg, s, call);
    }
  }

  lemma AfterKeepsInv(cfg: Config, s: State, call: Call)
    requires Inv(cfg, s) && Timely(call, s.clock)
    ensures Inv(cfg, After(cfg, s, call))
    ensures Outcome(After(cfg, s, call)).Returned? ==> IsIssued(After(cfg, s, call), Outcome(After(cfg, s, call)).cred)
  {
    var acts := CallIsARun(cfg, s, call);
    RunKeepsInv(cfg, s, acts);
    assert PhaseOk(cfg, After(cfg, s, call), |s.procs|);
  }

  lemma FreshIsOwn(cfg: Config, s: State, call: Call)
    requires call.verdict.Some? && Cached(cfg, s.store, call.verdict.value, call).None?
    requires Outcome(After(cfg, s, call)).Returned?
    ensures var s' := After(cfg, s, call); s'.issued[Outcome(s').cred.id].id == call.verdict.value
  {
  }

  lemma HitIsOld(cfg: Config, s: State, call: Call)
    requires Inv(cfg, s) && call.verdict.Some? && Cached(cfg, s.store, call.verdict.value, call).Some?
    ensures var s', c := After(cfg, s, call), Cached(cfg, s.store, call.verdict.value, call).value;
            Outcome(s').Returned? && Outcome(s').cred == c && s'.issued == s.issued && c.id < |s.issued|
  {
  }

  lemma TicketRidsEarned(cfg: Config, s: State, i: nat)
    requires Inv(cfg, s) && i < |s.issued| && cfg.builder.Some?
    ensures forall rid :: rid in TicketRids(s.issued[i].ticket) <==> Earns(cfg.builder.value, s.issued[i].id, rid)
  {
    var b, r := cfg.builder.value, s.issued[i];
    assert IssueOk(cfg, s, r);
    assert r.ticket.ticket.encPart.pac == BuiltPac(b, r.id, r.ticket.authTime);
    BuildAuthorizes(b, r.id, r.ticket.authTime);
  }

  // ---- three runs that show where the limits are ----

  lemma RunSnoc(cfg: Config, s: State, acts: seq<Action>, a: Action)
    requires Run(cfg, s, acts).Some? && Next(cfg, Run(cfg, s, acts).value, a).Some?
    ensures Run(cfg, s, acts + [a]) == Next(cfg, Run(cfg, s, acts).value, a)
  {
    RunAppend(cfg, s, acts, [a]);
    assert [a][1..] == [];
  }

  // Two exchanges for one key that both look before either stores: both mint, and
  // the windows coincide. Disjointness needs the calls to be sequential.
  lemma ConcurrentWindowsOverlap(cfg: Config, clock: Time, request: ExchangeRequest, id: Identity,
                                 key: int, encoding: Blob)
    returns (acts: seq<Action>, s: State)
    requires cfg.caching && cfg.maxLifetime == 0 && cfg.builder.None?
    requires clock < id.expiry && id.expiry != ZERO_TIME && Defined(request.output)
    ensures Run(cfg, Start(clock), acts) == Some(s) && |s.issued| == 2 && |s.procs| == 2
    ensures KeyOf(s.issued[0]) == KeyOf(s.issued[1])
    ensures forall i :: 0 <= i < 2 ==> s.issued[i].ticket.authTime == clock && s.issued[i].cred.expiry == id.expiry
    ensures s.procs[0].phase.Returned? && s.procs[1].phase.Returned?
  {
    var a1, s1 := BothMiss(cfg, clock, request, id);
    var a2 := BothRender(cfg, s1, request, id, key, encoding);
    s := BothStored(cfg, clock, request, id, key, encoding);
    RunAppend(cfg, Start(clock), a1, a2);
    acts := a1 + a2;
  }

  lemma BothMiss(cfg: Config, clock: Time, request: ExchangeRequest, id: Identity) returns (acts: seq<Action>, s: State)
    requires cfg.caching
    ensures Run(cfg, Start(clock), acts) == Some(s)
    ensures var p := Proc(request, Missed(id)); s == State([p, p], map[], clock, [])
  {
    acts, s := [], Start(clock);
    acts, s := Go(cfg, Start(clock), acts, s, Begin(request));
    acts, s := Go(cfg, Start(clock), acts, s, Begin(request));
    acts, s := Go(cfg, Start(clock), acts, s, Validate(0, Some(id)));
    acts, s := Go(cfg, Start(clock), acts, s, Validate(1, Some(id)));
    assert s.procs == [Proc(request, LookingUp(id)), Proc(request, LookingUp(id))];
    acts, s := Go(cfg, Start(clock), acts, s, Lookup(0));
    acts, s := Go(cfg, Start(clock), acts, s, Lookup(1));
  }

  ghost function BothStored(cfg: Config, clock: Time, request: ExchangeRequest, id: Identity,
                            key: int, encoding: Blob): (s: State)
    requires cfg.caching && cfg.maxLifetime == 0 && cfg.builder.None?
    requires clock < id.expiry && id.expiry != ZERO_TIME && Defined(request.output)
    ensures |s.issued| == 2 && |s.procs| == 2
    ensures KeyOf(s.issued[0]) == KeyOf(s.issued[1])
    ensures forall i :: 0 <= i < 2 ==> s.issued[i].ticket.authTime == clock && s.issued[i].cred.expiry == id.expiry
    ensures s.procs[0].phase.Returned? && s.procs[1].phase.Returned?
  {
    var t := TicketFor(cfg, id, request, clock, Some(key)).value;
    var c0 := CredentialOf(t, request.output, 0, Some(encoding)).value;
    var c1 := CredentialOf(t, request.output, 1, Some(encoding)).value;
    State([Proc(request, Returned(id, c0, clock, false)), Proc(request, Returned(id, c1, clock, false))],
          map[Key(id, request) := c1], clock,
          [Issue(0, id, request, t, encoding, c0), Issue(1, id, request, t, encoding, c1)])
  }

  lemma BothRender(cfg: Config, start: State, request: ExchangeRequest, id: Identity, key: int, encoding: Blob)
    returns (acts: seq<Action>)
    requires cfg.caching && cfg.maxLifetime == 0 && cfg.builder.None?
    requires start.clock < id.expiry && id.expiry != ZERO_TIME && Defined(request.output)
    requires var p := Proc(request, Missed(id)); start == State([p, p], map[], start.clock, [])
    ensures Run(cfg, start, acts) == Some(BothStored(cfg, start.clock, request, id, key, encoding))
  {
    var t := TicketFor(cfg, id, request, start.clock, Some(key)).value;
    var s := start;
    acts := [];
    acts, s := Go(cfg, start, acts, s, Mint(0, Some(key)));
    acts, s := Go(cfg, start, acts, s, Mint(1, Some(key)));
    assert s == start.(procs := [Proc(request, Rendering(id, t)), Proc(request, Rendering(id, t))]);
    var a, s' := BothEncode(cfg, s, request, id, t, encoding);
    RunAppend(cfg, start, acts, a);
    acts := acts + a;
  }

  // Two tickets on their way, to two credentials handed out.
  lemma BothEncode(cfg: Config, start: State, request: ExchangeRequest, id: Identity, t: MintedTicket, encoding: Blob)
    returns (acts: seq<Action>, s: State)
    requires cfg.caching && Defined(request.output)
    requires var p := Proc(request, Rendering(id, t)); start == State([p, p], map[], start.clock, [])
    ensures Run(cfg, start, acts) == Some(s)
    ensures var c0 := CredentialOf(t, request.output, 0, Some(encoding)).value;
            var c1 := CredentialOf(t, request.output, 1, Some(encoding)).value;
            s == State([Proc(request, Returned(id, c0, t.authTime, false)),
                        Proc(request, Returned(id, c1, t.authTime, false))],
                       map[Key(id, request) := c1], start.clock,
                       [Issue(0, id, request, t, encoding, c0), Issue(1, id, request, t, encoding, c1)])
  {
    var c0 := CredentialOf(t, request.output, 0, Some(encoding)).value;
    var c1 := CredentialOf(t, request.output, 1, Some(encoding)).value;
    var issued := [Issue(0, id, request, t, encoding, c0), Issue(1, id, request, t, encoding, c1)];
    acts, s := [], start;
    acts, s := Go(cfg, start, acts, s, Render(0, Some(encoding)));
    acts, s := Go(cfg, start, acts, s, Render(1, Some(encoding)));
    assert s == State([Proc(request, Storing(id, c0)), Proc(request, Storing(id, c1))], map[], start.clock, issued);
    var a, s' := BothPut(cfg, s, request, id);
    RunAppend(cfg, start, acts, a);
    acts, s := acts + a, s';
  }

  lemma BothPut(cfg: Config, start: State, request: ExchangeRequest, id: Identity) returns (acts: seq<Action>, s: State)
    requires cfg.caching && |start.issued| == 2 && start.issued[0].cred.id == 0 && start.issued[1].cred.id == 1
    requires start == State([Proc(request, Storing(id, start.issued[0].cred)),
                             Proc(request, Storing(id, start.issued[1].cred))], map[], start.clock, start.issued)
    ensures Run(cfg, start, acts) == Some(s)
    ensures var c0, c1 := start.issued[0], start.issued[1];
            s == State([Proc(request, Returned(id, c0.cred, c0.ticket.authTime, false)),
                        Proc(request, Returned(id, c1.cred, c1.ticket.authTime, false))],
                       map[Key(id, request) := c1.cred], start.clock, start.issued)
  {
    acts, s := [], start;
    acts, s := Go(cfg, start, acts, s, Exchanges.Store(0));
    acts, s := Go(cfg, start, acts, s, Exchanges.Store(1));
    assert s.store == map[Key(id, request) := start.issued[1].cred];
  }

  lemma Go(cfg: Config, start: State, acts: seq<Action>, s: State, a: Action) returns (acts': seq<Action>, s': State)
    requires Run(cfg, start, acts) == Some(s) && Next(cfg, s, a).Some?
    ensures Run(cfg, start, acts') == Some(s') && Next(cfg, s, a) == Some(s')
  {
    RunSnoc(cfg, start, acts, a);
    acts', s' := acts + [a], Next(cfg, s, a).value;
  }

  // A token that expires at 10 is given the ticket of one that expires at 100.
  lemma HitOutlivesToken(cfg: Config, request: ExchangeRequest, subject: GoString, key: int, encoding: Blob)
    requires cfg.caching && cfg.maxLifetime == 0 && cfg.builder.None? && Defined(request.output)
    ensures var long, short := Identity(subject, NoClaims, 100), Identity(subject, NoClaims, 10);
            var s := After(cfg, Start(1), Call(request, Some(long), 1, 1, Some(key), Some(encoding)));
            var result := Outcome(After(cfg, s, Call(request, Some(short), 2, 2, Some(key), Some(encoding))));
            result.Returned? && result.id.expiry == 10 && result.cred.expiry == 100
  {
  }

  // A token for subject with group g and the given scope claim.
  function Token(subject: GoString, g: GoString, scope: map<GoString, Json>): Identity {
    Identity(subject, Claims.Fields(map[GROUPS := Array([Text(g)])] + scope), 100)
  }

  // A filter lists g for one scope. The token that was granted the scope is
  // followed by one that was not, the same otherwise: it gets the ticket with g.
  lemma HitIgnoresNarrowerScope(cfg: Config, request: ExchangeRequest, subject: GoString, g: GoString,
                                scope: GoString, key: int, encoding: Blob)
    requires cfg.caching && cfg.maxLifetime == 0 && Defined(request.output) && !Blank(g) && IsToken(scope)
    requires cfg.builder.Some? && cfg.builder.value.filter == Some(ConfigMapFilter(map[scope := [g]]))
    requires cfg.builder.value.primaryRID == DOMAIN_USERS && cfg.builder.value.overrides == map[]
    requires cfg.builder.value.groupsClaim == []
    ensures var b, narrow := cfg.builder.value, Token(subject, g, map[]);
            var wide := Token(subject, g, map[SCOPE := Text(scope)]);
            var s := After(cfg, Start(1), Call(request, Some(wide), 1, 1, Some(key), Some(encoding)));
            var s' := After(cfg, s, Call(request, Some(narrow), 2, 2, Some(key), Some(encoding)));
            && Outcome(s').Returned? && Outcome(s').id == narrow && IsIssued(s', Outcome(s').cred)
            && FactsOf([], narrow).Some?
            && Rid(g) in TicketRids(s'.issued[Outcome(s').cred.id].ticket)
            && !Earns(b, narrow, Rid(g))
  {
    var b := cfg.builder.value;
    var wide, narrow := Token(subject, g, map[SCOPE := Text(scope)]), Token(subject, g, map[]);
    ScopedFacts(subject, g, scope);
    ScopeDecides(b, subject, g, scope);
    SecondTokenHits(cfg, request, wide, narrow, key, encoding);
    BuildAuthorizes(b, wide, 1);
  }

  // Two tokens for one subject: the second is given the first one's ticket.
  lemma SecondTokenHits(cfg: Config, request: ExchangeRequest, id: Identity, later: Identity, key: int, encoding: Blob)
    requires cfg.caching && cfg.maxLifetime == 0 && Defined(request.output)
    requires cfg.builder.Some? && FactsOf(cfg.builder.value.groupsClaim, id).Some?
    requires later.subject == id.subject && id.expiry == 100
    ensures var s := After(cfg, Start(1), Call(request, Some(id), 1, 1, Some(key), Some(encoding)));
            var s' := After(cfg, s, Call(request, Some(later), 2, 2, Some(key), Some(encoding)));
            && Outcome(s').Returned? && Outcome(s').id == later && IsIssued(s', Outcome(s').cred)
            && s'.issued[Outcome(s').cred.id].ticket.ticket.encPart.pac == BuiltPac(cfg.builder.value, id, 1)
  {
    var first := Call(request, Some(id), 1, 1, Some(key), Some(encoding));
    var second := Call(request, Some(later), 2, 2, Some(key), Some(encoding));
    var s := After(cfg, Start(1), first);
    var r := Fresh(cfg, id, first, 0).value;
    assert s.issued == [r] && s.store == map[Key(id, request) := r.cred];
    assert Outcome(After(cfg, s, second)) == Returned(later, r.cred, 2, true);
  }

  lemma ScopedFacts(subject: GoString, g: GoString, scope: GoString)
    requires !Blank(g) && IsToken(scope)
    ensures FactsOf([], Token(subject, g, map[SCOPE := Text(scope)])) == Some(Facts(subject, [g], [scope]))
    ensures FactsOf([], Token(subject, g, map[])) == Some(Facts(subject, [g], []))
  {
    assert |GROUPS| != |SCOPE|;
    TextsKept([g]);
    assert [g][1..] == [] && Texts([g]) == [Text(g)];
    TakeToken(scope, []);
    assert scope + [] == scope && FieldsOf(scope) == [scope];
    var wide := Token(subject, g, map[SCOPE := Text(scope)]);
    assert Claims.Lookup(wide.claims, SCOPE) == Some(Text(scope));
    assert Claims.Lookup(wide.claims, GROUPS) == Some(Array([Text(g)]));
  }

  lemma ScopeDecides(b: Builder, subject: GoString, g: GoString, scope: GoString)
    requires b.primaryRID == DOMAIN_USERS && b.overrides == map[]
    requires b.filter == Some(ConfigMapFilter(map[scope := [g]]))
    ensures Earned(b, Facts(subject, [g], [scope]), Rid(g))
    ensures !Earned(b, Facts(subject, [g], []), Rid(g))
  {
    var f := b.filter.value;
    assert scope in [scope] && scope in f.scopeGroups && g in f.scopeGroups[scope];
    assert g in [g] && InScope(b, [scope], g) && StandsFor(b, g, Rid(g));
  }
}
