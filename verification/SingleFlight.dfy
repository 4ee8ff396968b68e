// Disjoint validity windows beyond sequential runs: exchanges interleave freely
// except that none looks a key up while another is between its miss and its Put,
// or failure, for that key.

module SingleFlight {
  import opened GoStrings
  import opened Minting
  import opened MemoryCaches
  import opened Exchanges
  import opened Sequential

  // Between the miss and the end.
  predicate InFlight(phase: Phase) { phase.Missed? || phase.Rendering? || phase.Storing? }

  predicate Knows(phase: Phase) { phase.LookingUp? || InFlight(phase) }

  function ProcKey(q: Proc): GoString
    requires Knows(q.phase)
  {
    Key(q.phase.id, q.request)
  }

  // A lookup has its key to itself.
  ghost predicate Guarded(s: State, a: Action) {
    a.Lookup? && a.p < |s.procs| && s.procs[a.p].phase.LookingUp? ==>
      forall q :: 0 <= q < |s.procs| && InFlight(s.procs[q].phase) ==> ProcKey(s.procs[q]) != ProcKey(s.procs[a.p])
  }

  ghost predicate OneFlightPerKey(cfg: Config, s: State, acts: seq<Action>)
    decreases |acts|
  {
    acts == [] ||
    (Guarded(s, acts[0]) &&
     match Next(cfg, s, acts[0])
     case None => true
     case Some(s') => OneFlightPerKey(cfg, s', acts[1..]))
  }

  // ---- the invariant ----

  predicate AwaitsPut(s: State, r: Issue) { r.proc < |s.procs| && s.procs[r.proc].phase.Storing? }

  // No record made under the key of an exchange in flight, but its own, is still
  // valid when that exchange's ticket starts to be.
  ghost predicate FlightOk(s: State, p: nat)
    requires p < |s.procs|
  {
    var q := s.procs[p];
    match q.phase
    case Missed(_) => ExpiredBefore(s, ProcKey(q), s.clock, |s.issued|)
    case Rendering(_, t) => ExpiredBefore(s, ProcKey(q), t.authTime, |s.issued|)
    case Storing(_, c) => c.id < |s.issued| && ExpiredBefore(s, ProcKey(q), s.issued[c.id].ticket.authTime, c.id)
    case _ => true
  }

  ghost predicate ExpiredBefore(s: State, key: GoString, t: Time, but: nat) {
    forall i :: 0 <= i < |s.issued| && i != but && KeyOf(s.issued[i]) == key ==> s.issued[i].cred.expiry < t
  }

  ghost predicate KeysInFlightDiffer(s: State) {
    forall p, q :: 0 <= p < q < |s.procs| && InFlight(s.procs[p].phase) && InFlight(s.procs[q].phase) ==>
                     ProcKey(s.procs[p]) != ProcKey(s.procs[q])
  }

  ghost predicate WindowsDisjoint(s: State) {
    forall i, j :: 0 <= i < j < |s.issued| && KeyOf(s.issued[i]) == KeyOf(s.issued[j]) ==>
                     s.issued[i].cred.expiry < s.issued[j].ticket.authTime
  }

  ghost predicate Solo(s: State) {
    && (forall i :: 0 <= i < |s.issued| ==> InStoreOrExpired(s, s.issued[i]) || AwaitsPut(s, s.issued[i]))
    && (forall p :: 0 <= p < |s.procs| ==> FlightOk(s, p))
    && KeysInFlightDiffer(s)
    && WindowsDisjoint(s)
  }

  // ---- each step keeps it ----

  // A record waiting for its Put belongs to an exchange in flight under its key.
  lemma AwaitedIsInFlight(cfg: Config, s: State, i: nat)
    requires Inv(cfg, s) && i < |s.issued| && AwaitsPut(s, s.issued[i])
    ensures var q := s.procs[s.issued[i].proc];
            InFlight(q.phase) && ProcKey(q) == KeyOf(s.issued[i]) && q.phase.cred.id == i
  {
    assert MakerOk(s, i);
    assert PhaseOk(cfg, s, s.issued[i].proc);
  }

  // A miss under a key nobody else has in flight: all its records have expired.
  lemma MissMeansExpired(cfg: Config, s: State, p: nat)
    requires Inv(cfg, s) && Solo(s) && p < |s.procs| && s.procs[p].phase.LookingUp? && Guarded(s, Action.Lookup(p))
    requires Hit(s.store, ProcKey(s.procs[p]), s.clock).None?
    ensures ExpiredBefore(s, ProcKey(s.procs[p]), s.clock, |s.issued|)
  {
    var key := ProcKey(s.procs[p]);
    forall i | 0 <= i < |s.issued| && KeyOf(s.issued[i]) == key
      ensures s.issued[i].cred.expiry < s.clock
    {
      if AwaitsPut(s, s.issued[i]) {
        AwaitedIsInFlight(cfg, s, i);
      }
    }
  }

  // Who is in flight after a step was so before, or has just missed.
  lemma FlightOrigin(cfg: Config, s: State, a: Action, q: nat)
    requires Next(cfg, s, a).Some? && q < |Next(cfg, s, a).value.procs|
    ensures var s' := Next(cfg, s, a).value;
            InFlight(s'.procs[q].phase) ==>
              && q < |s.procs| && Knows(s.procs[q].phase) && ProcKey(s'.procs[q]) == ProcKey(s.procs[q])
              && (InFlight(s.procs[q].phase) || (a == Action.Lookup(q) && s.procs[q].phase.LookingUp?))
  {
  }

  lemma KeysStillDiffer(cfg: Config, s: State, a: Action)
    requires KeysInFlightDiffer(s) && Guarded(s, a) && Next(cfg, s, a).Some?
    ensures KeysInFlightDiffer(Next(cfg, s, a).value)
  {
    var s' := Next(cfg, s, a).value;
    forall p, q | 0 <= p < q < |s'.procs| && InFlight(s'.procs[p].phase) && InFlight(s'.procs[q].phase)
      ensures ProcKey(s'.procs[p]) != ProcKey(s'.procs[q])
    {
      FlightOrigin(cfg, s, a, p);
      FlightOrigin(cfg, s, a, q);
    }
  }

  // A record is added by a Render only, and is its own.
  lemma NewRecord(cfg: Config, s: State, a: Action)
    requires Next(cfg, s, a).Some?
    ensures var s' := Next(cfg, s, a).value;
            && s.issued <= s'.issued && s.clock <= s'.clock
            && (|s'.issued| == |s.issued| ||
                (&& |s'.issued| == |s.issued| + 1 && a.Render? && a.p < |s.procs| && s.procs[a.p].phase.Rendering?
                 && var r, q := s'.issued[|s.issued|], s.procs[a.p];
                 && KeyOf(r) == ProcKey(q) && r.ticket == q.phase.ticket && r.proc == a.p
                 && s'.procs[a.p].phase == Storing(q.phase.id, r.cred) && r.cred.id == |s.issued|))
  {
  }

  lemma WindowsStayDisjoint(cfg: Config, s: State, a: Action)
    requires Solo(s) && Next(cfg, s, a).Some?
    ensures WindowsDisjoint(Next(cfg, s, a).value)
  {
    var s' := Next(cfg, s, a).value;
    NewRecord(cfg, s, a);
    if |s'.issued| > |s.issued| {
      assert FlightOk(s, a.p);
    }
  }

  // An exchange that does not move keeps what holds of it.
  lemma FlightStays(s: State, s': State, q: nat)
    requires q < |s.procs| && q < |s'.procs| && s'.procs[q] == s.procs[q] && FlightOk(s, q)
    requires s.clock <= s'.clock && s.issued <= s'.issued
    requires forall i :: |s.issued| <= i < |s'.issued| && InFlight(s.procs[q].phase) ==>
                           KeyOf(s'.issued[i]) != ProcKey(s.procs[q])
    ensures FlightOk(s', q)
  {
  }

  // The steps that lead into flight or further on it.
  predicate FliesOn(a: Action, q: nat) { (a.Lookup? || a.Mint? || a.Render?) && a.p == q }

  lemma OthersStayOrLand(cfg: Config, s: State, a: Action, q: nat)
    requires Next(cfg, s, a).Some? && q < |Next(cfg, s, a).value.procs| && !FliesOn(a, q)
    ensures var s' := Next(cfg, s, a).value;
            (q < |s.procs| && s'.procs[q] == s.procs[q]) || !InFlight(s'.procs[q].phase)
  {
  }

  lemma FlightsStayOk(cfg: Config, s: State, a: Action, q: nat)
    requires cfg.caching && Inv(cfg, s) && Solo(s) && Guarded(s, a) && Next(cfg, s, a).Some?
    requires q < |Next(cfg, s, a).value.procs|
    ensures FlightOk(Next(cfg, s, a).value, q)
  {
    if FliesOn(a, q) {
      match a
      case Lookup(_) => MissFlightOk(cfg, s, q);
      case Mint(_, key) => MintFlightOk(cfg, s, q, key);
      case Render(_, encoding) => RenderFlightOk(cfg, s, q, encoding);
    } else {
      OthersStayOrLand(cfg, s, a, q);
      NewRecord(cfg, s, a);
      if InFlight(Next(cfg, s, a).value.procs[q].phase) {
        assert FlightOk(s, q);
        FlightStays(s, Next(cfg, s, a).value, q);
      }
    }
  }

  lemma MissFlightOk(cfg: Config, s: State, p: nat)
    requires cfg.caching && Inv(cfg, s) && Solo(s) && Guarded(s, Action.Lookup(p))
    requires Next(cfg, s, Action.Lookup(p)).Some?
    ensures FlightOk(Next(cfg, s, Action.Lookup(p)).value, p)
  {
    if Hit(s.store, ProcKey(s.procs[p]), s.clock).None? {
      MissMeansExpired(cfg, s, p);
    }
  }

  lemma MintFlightOk(cfg: Config, s: State, p: nat, key: Option<int>)
    requires Solo(s) && Next(cfg, s, Action.Mint(p, key)).Some?
    ensures FlightOk(Next(cfg, s, Action.Mint(p, key)).value, p)
  {
    assert FlightOk(s, p);
    TicketMeaning(cfg, s.procs[p].phase.id, s.procs[p].request, s.clock, key);
  }

  lemma RenderFlightOk(cfg: Config, s: State, p: nat, encoding: Option<Blob>)
    requires Solo(s) && Next(cfg, s, Action.Render(p, encoding)).Some?
    ensures FlightOk(Next(cfg, s, Action.Render(p, encoding)).value, p)
  {
    assert FlightOk(s, p);
    NewRecord(cfg, s, Action.Render(p, encoding));
  }

  // Before its Put an exchange takes nothing from the store but expired entries,
  // and nothing from an exchange that is about to put.
  lemma LiveEntriesKept(cfg: Config, s: State, a: Action)
    requires Next(cfg, s, a).Some? && !a.Store?
    ensures var s' := Next(cfg, s, a).value;
            && s.clock <= s'.clock
            && (forall k :: k in s.store ==>
                              (k in s'.store && s'.store[k] == s.store[k]) || s.store[k].expiry < s'.clock)
            && (forall p :: 0 <= p < |s.procs| && s.procs[p].phase.Storing? ==>
                              p < |s'.procs| && s'.procs[p] == s.procs[p])
  {
  }

  lemma PutEffect(cfg: Config, s: State, p: nat)
    requires cfg.caching && Next(cfg, s, Action.Store(p)).Some?
    ensures p < |s.procs| && s.procs[p].phase.Storing?
    ensures var s', q := Next(cfg, s, Action.Store(p)).value, s.procs[p];
            && s'.store == s.store[ProcKey(q) := q.phase.cred] && s'.clock == s.clock
            && |s'.procs| == |s.procs| && (forall r :: 0 <= r < |s.procs| && r != p ==> s'.procs[r] == s.procs[r])
  {
  }

  // A record already there stays good, in the store or about to be put there.
  lemma RecordStays(cfg: Config, s: State, a: Action, i: nat)
    requires cfg.caching && Inv(cfg, s) && Solo(s) && Next(cfg, s, a).Some? && i < |s.issued|
    ensures var s' := Next(cfg, s, a).value; InStoreOrExpired(s', s.issued[i]) || AwaitsPut(s', s.issued[i])
  {
    assert InStoreOrExpired(s, s.issued[i]) || AwaitsPut(s, s.issued[i]);
    if a.Store? {
      PutEffect(cfg, s, a.p);
      RecordStaysAtPut(cfg, s, Next(cfg, s, a).value, a.p, i);
    } else {
      LiveEntriesKept(cfg, s, a);
    }
  }

  lemma RecordStaysAtPut(cfg: Config, s: State, s': State, p: nat, i: nat)
    requires Inv(cfg, s) && Solo(s) && i < |s.issued| && p < |s.procs| && s.procs[p].phase.Storing?
    requires s'.store == s.store[ProcKey(s.procs[p]) := s.procs[p].phase.cred] && s'.clock == s.clock
    requires |s'.procs| == |s.procs| && forall r :: 0 <= r < |s.procs| && r != p ==> s'.procs[r] == s.procs[r]
    ensures InStoreOrExpired(s', s.issued[i]) || AwaitsPut(s', s.issued[i])
  {
    if AwaitsPut(s, s.issued[i]) {
      AwaitedAtPut(cfg, s, s', p, i);
    } else {
      assert InStoreOrExpired(s, s.issued[i]);
      OverwrittenHasExpired(cfg, s, p, i);
    }
  }

  lemma AwaitedAtPut(cfg: Config, s: State, s': State, p: nat, i: nat)
    requires Inv(cfg, s) && KeysInFlightDiffer(s) && i < |s.issued| && AwaitsPut(s, s.issued[i])
    requires p < |s.procs| && s.procs[p].phase.Storing?
    requires s'.store == s.store[ProcKey(s.procs[p]) := s.procs[p].phase.cred]
    requires |s'.procs| == |s.procs| && forall r :: 0 <= r < |s.procs| && r != p ==> s'.procs[r] == s.procs[r]
    ensures InStoreOrExpired(s', s.issued[i]) || AwaitsPut(s', s.issued[i])
  {
    AwaitedIsInFlight(cfg, s, i);
    assert PhaseOk(cfg, s, p);
  }

  // What a Put replaces, other than the credential put, has expired.
  lemma OverwrittenHasExpired(cfg: Config, s: State, p: nat, i: nat)
    requires Inv(cfg, s) && i < |s.issued| && p < |s.procs| && s.procs[p].phase.Storing? && FlightOk(s, p)
    ensures KeyOf(s.issued[i]) == ProcKey(s.procs[p]) ==>
              s.issued[i].cred.expiry < s.clock || s.issued[i].cred == s.procs[p].phase.cred
  {
    var c := s.procs[p].phase.cred;
    assert PhaseOk(cfg, s, p) && IssueOk(cfg, s, s.issued[c.id]);
  }

  lemma RecordsStay(cfg: Config, s: State, a: Action)
    requires cfg.caching && Inv(cfg, s) && Solo(s) && Next(cfg, s, a).Some?
    ensures var s' := Next(cfg, s, a).value;
            forall i :: 0 <= i < |s'.issued| ==> InStoreOrExpired(s', s'.issued[i]) || AwaitsPut(s', s'.issued[i])
  {
    var s' := Next(cfg, s, a).value;
    NewRecord(cfg, s, a);
    forall i | 0 <= i < |s'.issued|
      ensures InStoreOrExpired(s', s'.issued[i]) || AwaitsPut(s', s'.issued[i])
    {
      if i < |s.issued| {
        RecordStays(cfg, s, a, i);
      }
    }
  }

  lemma StepKeepsSolo(cfg: Config, s: State, a: Action)
    requires cfg.caching && Inv(cfg, s) && Solo(s) && Guarded(s, a) && Next(cfg, s, a).Some?
    ensures Solo(Next(cfg, s, a).value)
  {
    RecordsStay(cfg, s, a);
    forall q | 0 <= q < |Next(cfg, s, a).value.procs|
      ensures FlightOk(Next(cfg, s, a).value, q)
    {
      FlightsStayOk(cfg, s, a, q);
    }
    KeysStillDiffer(cfg, s, a);
    WindowsStayDisjoint(cfg, s, a);
  }

  lemma {:induction false} RunKeepsSolo(cfg: Config, s: State, acts: seq<Action>)
    requires cfg.caching && Inv(cfg, s) && Solo(s)
    requires Run(cfg, s, acts).Some? && OneFlightPerKey(cfg, s, acts)
    ensures Solo(Run(cfg, s, acts).value)
    decreases |acts|
  {
    if acts != [] {
      var a := acts[0];
      StepKeepsSolo(cfg, s, a);
      StepKeepsInv(cfg, s, a);
      RunKeepsSolo(cfg, Next(cfg, s, a).value, acts[1..]);
    }
  }

  // In every interleaving with at most one flight per key, no instant lies in the
  // validity windows of two credentials made under one key.
  lemma DisjointWindows(cfg: Config, clock: Time, acts: seq<Action>, i: nat, j: nat, t: Time)
    requires cfg.caching && Run(cfg, Start(clock), acts).Some? && OneFlightPerKey(cfg, Start(clock), acts)
    requires var s := Run(cfg, Start(clock), acts).value;
             i < j < |s.issued| && KeyOf(s.issued[i]) == KeyOf(s.issued[j])
    ensures var s := Run(cfg, Start(clock), acts).value;
            !(s.issued[i].ticket.authTime <= t <= s.issued[i].cred.expiry &&
              s.issued[j].ticket.authTime <= t <= s.issued[j].cred.expiry)
  {
    RunKeepsSolo(cfg, Start(clock), acts);
  }
}
