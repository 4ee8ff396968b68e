// Service.Exchange (service.go) as it is written: guards, locals and effects on the
// shared cache, proved to be one call of the sequential model.

module Services {
  import opened GoStrings
  import opened CacheKeys
  import opened Minting
  import opened MemoryCaches
  import opened Exchanges
  import opened Sequential

  class Service {
    const resolverRealm: GoString
    const minter: DirectMinter
    const cache: MemoryCache?
    const maxLifetime: int
    var objects: nat         // how many credential objects there are
    ghost var state: State     // the model's state

    ghost function Cfg(): Config
      reads minter
    {
      Config(cache != null, maxLifetime, resolverRealm, minter.defaultRealm, minter.pacBuilder)
    }

    ghost function Shared(): set<object> { if cache == null then {} else {cache} }

    ghost predicate Valid()
      reads this, Shared()
    {
      && objects == |state.issued|
      && (cache != null ==> cache.Valid() && cache.store == state.store && cache.clock <= state.clock)
    }

    constructor (resolverRealm: GoString, minter: DirectMinter, cache: MemoryCache?, maxLifetime: int)
      requires cache != null ==> cache.Valid() && cache.store == map[]
      ensures Valid() && this.resolverRealm == resolverRealm && this.minter == minter
      ensures this.cache == cache && this.maxLifetime == maxLifetime
      ensures state == Start(if cache == null then ZERO_TIME else cache.clock)
    {
      this.resolverRealm, this.minter, this.cache, this.maxLifetime := resolverRealm, minter, cache, maxLifetime;
      objects := 0;
      state := Start(if cache == null then ZERO_TIME else cache.clock);
    }

    method Exchange(call: Call) returns (r: Option<Credential>)
      requires Valid() && Timely(call, state.clock)
      modifies this, Shared()
      ensures Valid()
      ensures state == After(Cfg(), old(state), call)
      ensures r == match Outcome(state)
                   case Returned(_, cred, _, _) => Some(cred)
                   case _ => None
    {
      state := After(Cfg(), state, call);
      if call.verdict.None? {
        return None;
      }
      var id := call.verdict.value;
      var key := CacheKey(id.subject, call.request.target, call.request.output);
      if cache != null {
        var c := cache.Get(key, call.lookupTime);
        if c.Some? {
          return c;
        }
      }
      var cname, target := ClientName(id), ResolvedTarget(resolverRealm, call.request.target);
      var now := call.mintTime;
      var end := id.expiry;
      if maxLifetime > 0 {
        var capT := now + maxLifetime;
        if end == ZERO_TIME || capT < end {
          end := capT;
        }
      }
      assert end == CapEnd(now, id.expiry, maxLifetime);
      var mt := minter.Mint(target, MintOptions(cname, resolverRealm, id, now, ZERO_TIME, end, ZERO_TIME), call.key);
      assert mt == TicketFor(Cfg(), id, call.request, now, call.key);
      if mt.None? {
        return None;
      }
      var cred := CredentialOf(mt.value, call.request.output, objects, call.encoding);
      if cred.None? {
        return None;
      }
      objects := objects + 1;
      if cache != null {
        cache.Put(key, cred.value);
      }
      return cred;
    }
  }
}
