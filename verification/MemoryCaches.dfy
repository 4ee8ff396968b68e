// The in-memory credential cache with lazy eviction (cache.go), and the
// append-only log it cannot be told apart from.

module MemoryCaches {
  import opened GoStrings
  import opened Minting

  type Store = map<GoString, Credential>

  // Get's answer, and what is left after it.
  function Hit(store: Store, key: GoString, now: Time): Option<Credential> {
    if key in store && !(store[key].expiry < now) then Some(store[key]) else None
  }

  function Evict(store: Store, key: GoString, now: Time): Store {
    if key in store && store[key].expiry < now then store - {key} else store
  }

  // ---- the log ----

  datatype Entry = Entry(key: GoString, cred: Credential)
  type Log = seq<Entry>

  // The last Put of key.
  function LastPut(log: Log, key: GoString): Option<Credential> {
    if log == [] then None
    else
      var e := log[|log| - 1];
      if e.key == key then Some(e.cred) else LastPut(log[..|log| - 1], key)
  }

  // The last Put of key, unless it has expired.
  function LogGet(log: Log, key: GoString, now: Time): Option<Credential> {
    var last := LastPut(log, key);
    if last.Some? && last.value.expiry >= now then last else None
  }

  // The store holds last Puts only, and lacks only those expired before now.
  ghost predicate Agrees(store: Store, log: Log, now: Time) {
    && (forall k :: k in store ==> LastPut(log, k) == Some(store[k]))
    && (forall k :: k !in store && LastPut(log, k).Some? ==> LastPut(log, k).value.expiry < now)
  }

  lemma PutAgrees(store: Store, log: Log, now: Time, key: GoString, cred: Credential)
    requires Agrees(store, log, now)
    ensures Agrees(store[key := cred], log + [Entry(key, cred)], now)
  {
    assert (log + [Entry(key, cred)])[..|log|] == log;
  }

  class MemoryCache {
    var store: Store
    ghost var log: Log
    ghost var clock: Time

    ghost predicate Valid()
      reads this
    {
      Agrees(store, log, clock)
    }

    constructor (ghost now: Time)
      ensures Valid() && store == map[] && log == [] && clock == now
    {
      store := map[];
      log := [];
      clock := now;
    }

    // The clock read inside Get never goes back. The answer is the log's.
    method Get(key: GoString, now: Time) returns (r: Option<Credential>)
      requires Valid() && clock <= now
      modifies this
      ensures Valid() && clock == now && log == old(log)
      ensures r == LogGet(log, key, now) == Hit(old(store), key, now)
      ensures store == Evict(old(store), key, now)
    {
      clock := now;
      if key !in store {
        return None;
      }
      var cred := store[key];
      if cred.expiry < now {
        store := store - {key};
        return None;
      }
      return Some(cred);
    }

    method Put(key: GoString, cred: Credential)
      requires Valid()
      modifies this
      ensures Valid() && clock == old(clock) && log == old(log) + [Entry(key, cred)]
      ensures store == old(store)[key := cred]
    {
      PutAgrees(store, log, clock, key, cred);
      store := store[key := cred];
      log := log + [Entry(key, cred)];
    }
  }

  // ---- whole histories ----

  datatype Op = Get(key: GoString, now: Time) | Put(key: GoString, cred: Credential)

  // Clock readings never decrease.
  predicate Monotone(ops: seq<Op>, from: Time) {
    ops == [] ||
    match ops[0]
    case Get(_, now) => from <= now && Monotone(ops[1..], now)
    case Put(_, _) => Monotone(ops[1..], from)
  }

  // The answers of the cache, and of the log, to each Get in turn.
  function CacheAnswers(store: Store, ops: seq<Op>): seq<Option<Credential>>
    decreases |ops|
  {
    if ops == [] then []
    else match ops[0]
         case Get(k, now) => [Hit(store, k, now)] + CacheAnswers(Evict(store, k, now), ops[1..])
         case Put(k, c) => CacheAnswers(store[k := c], ops[1..])
  }

  function LogAnswers(log: Log, ops: seq<Op>): seq<Option<Credential>>
    decreases |ops|
  {
    if ops == [] then []
    else match ops[0]
         case Get(k, now) => [LogGet(log, k, now)] + LogAnswers(log, ops[1..])
         case Put(k, c) => LogAnswers(log + [Entry(k, c)], ops[1..])
  }

  // No Get asks for a key at or before the expiry of an entry that an earlier Get
  // evicted and no Put has replaced; gone holds those entries.
  predicate NeverAskedBack(store: Store, gone: Store, ops: seq<Op>)
    decreases |ops|
  {
    ops == [] ||
    match ops[0]
    case Get(k, now) =>
      (k in gone ==> gone[k].expiry < now) &&
      NeverAskedBack(Evict(store, k, now), gone + Evicted(store, k, now), ops[1..])
    case Put(k, c) => NeverAskedBack(store[k := c], gone - {k}, ops[1..])
  }

  // What Evict drops.
  function Evicted(store: Store, key: GoString, now: Time): Store {
    if key in store && store[key].expiry < now then map[key := store[key]] else map[]
  }

  // The last Puts are those in the store and those evicted.
  ghost predicate Accounts(store: Store, gone: Store, log: Log) {
    && (forall k :: k in store ==> k !in gone)
    && (forall k :: LastPut(log, k) ==
                    if k in store then Some(store[k]) else if k in gone then Some(gone[k]) else None)
  }

  lemma PutAccounts(store: Store, gone: Store, log: Log, key: GoString, cred: Credential)
    requires Accounts(store, gone, log)
    ensures Accounts(store[key := cred], gone - {key}, log + [Entry(key, cred)])
  {
    assert (log + [Entry(key, cred)])[..|log|] == log;
  }

  lemma HeadsAndTails<T>(x: T, y: T, xs: seq<T>, ys: seq<T>)
    ensures [x] + xs == [y] + ys <==> x == y && xs == ys
  {
    assert ([x] + xs)[1..] == xs && ([y] + ys)[1..] == ys;
    assert ([x] + xs)[0] == x && ([y] + ys)[0] == y;
  }

  lemma {:induction false} SameAnswersIff(store: Store, gone: Store, log: Log, ops: seq<Op>)
    requires Accounts(store, gone, log)
    ensures CacheAnswers(store, ops) == LogAnswers(log, ops) <==> NeverAskedBack(store, gone, ops)
    decreases |ops|
  {
    if ops != [] {
      match ops[0]
      case Get(k, now) =>
        var store', gone' := Evict(store, k, now), gone + Evicted(store, k, now);
        assert Accounts(store', gone', log);
        SameAnswersIff(store', gone', log, ops[1..]);
        HeadsAndTails(Hit(store, k, now), LogGet(log, k, now),
                      CacheAnswers(store', ops[1..]), LogAnswers(log, ops[1..]));
      case Put(k, c) =>
        PutAccounts(store, gone, log, k, c);
        SameAnswersIff(store[k := c], gone - {k}, log + [Entry(k, c)], ops[1..]);
    }
  }

  // Over any history, whatever the clock does: lazy eviction is invisible exactly
  // when no evicted entry is asked for again at a time it was still good.
  lemma EvictionInvisibleIff(ops: seq<Op>)
    ensures CacheAnswers(map[], ops) == LogAnswers([], ops) <==> NeverAskedBack(map[], map[], ops)
  {
    SameAnswersIff(map[], map[], [], ops);
  }

  lemma {:induction false} MonotoneNeverAsksBack(store: Store, gone: Store, from: Time, ops: seq<Op>)
    requires Monotone(ops, from) && forall k :: k in gone ==> gone[k].expiry < from
    ensures NeverAskedBack(store, gone, ops)
    decreases |ops|
  {
    if ops != [] {
      match ops[0]
      case Get(k, now) =>
        MonotoneNeverAsksBack(Evict(store, k, now), gone + Evicted(store, k, now), now, ops[1..]);
      case Put(k, c) =>
        MonotoneNeverAsksBack(store[k := c], gone - {k}, from, ops[1..]);
    }
  }

  // In particular under a clock that never goes back.
  lemma EvictionInvisible(from: Time, ops: seq<Op>)
    requires Monotone(ops, from)
    ensures CacheAnswers(map[], ops) == LogAnswers([], ops)
  {
    MonotoneNeverAsksBack(map[], map[], from, ops);
    EvictionInvisibleIff(ops);
  }

  // A clock that goes back reveals it: the entry evicted at expiry + 1 is gone at
  // its expiry, where the log still has it.
  lemma BackwardClockReveals(key: GoString, cred: Credential)
    ensures var ops := [Put(key, cred), Get(key, cred.expiry + 1), Get(key, cred.expiry)];
            CacheAnswers(map[], ops) == [None, None] && LogAnswers([], ops) == [None, Some(cred)]
  {
    var late, early := Get(key, cred.expiry + 1), Get(key, cred.expiry);
    var log := [Entry(key, cred)];
    var store: Store := map[key := cred];
    assert [Put(key, cred), late, early][1..] == [late, early];
    assert [late, early][1..] == [early] && [early][1..] == [];
    assert [] + log == log;
    assert Evict(store, key, cred.expiry + 1) == map[];
    assert map[][key := cred] == store;
    assert CacheAnswers(map[], [early]) == [None];
    assert CacheAnswers(store, [late, early]) == [None] + CacheAnswers(map[], [early]);
    assert LogAnswers(log, [early]) == [Some(cred)];
    assert LogAnswers(log, [late, early]) == [None] + LogAnswers(log, [early]);
  }
}
