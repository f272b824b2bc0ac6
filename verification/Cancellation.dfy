/** The cancellation checker: Redis keys behind a cache of batch lookups that expires
    quickly for "not cancelled" and slowly for "cancelled". */
module Cancellation {
  import opened Options

  /** Times are milliseconds. */
  const BATCH_CANCEL_NEGATIVE_CACHE_TTL: nat := 50
  const BATCH_CANCEL_POSITIVE_CACHE_TTL: nat := 60_000
  const BATCH_CANCEL_CACHE_SWEEP_THRESHOLD: nat := 1024

  function BatchKey(batchId: string): string { "broccoli:cancel:batch:" + batchId }

  function OpKey(taskId: string): string { "broccoli:cancel:op:" + taskId }

  /** No key of a batch is that of another batch, or of an operation. */
  lemma KeysAreDistinct(a: string, b: string)
    ensures BatchKey(a) == BatchKey(b) <==> a == b
    ensures OpKey(a) == OpKey(b) <==> a == b
    ensures BatchKey(a) != OpKey(b)
  {
    var batch, op := "broccoli:cancel:batch:", "broccoli:cancel:op:";
    assert (batch + a)[|batch|..] == a && (batch + b)[|batch|..] == b;
    assert (op + a)[|op|..] == a && (op + b)[|op|..] == b;
    assert (batch + a)[16] == 'b' && (op + b)[16] == 'o';
  }

  /** Redis over time: whether a key exists at an instant. Setting and expiry of keys
      are whatever this function says. */
  type Redis = (nat, string) -> bool

  /** The uncached check, at one instant. */
  predicate CheckCancellation(redis: Redis, now: nat, batchId: Option<string>, taskId: string) {
    (batchId.Some? && redis(now, BatchKey(batchId.value))) || redis(now, OpKey(taskId))
  }

  function Ttl(cancelled: bool): nat {
    if cancelled then BATCH_CANCEL_POSITIVE_CACHE_TTL else BATCH_CANCEL_NEGATIVE_CACHE_TTL
  }

  datatype Entry = Entry(cancelled: bool, expiresAt: nat)

  type Cache = map<string, Entry>

  function Lookup(cache: Cache, batchId: string, now: nat): Option<bool> {
    if batchId in cache && cache[batchId].expiresAt > now then Some(cache[batchId].cancelled) else None
  }

  function Sweep(cache: Cache, now: nat): Cache {
    map b | b in cache && cache[b].expiresAt > now :: cache[b]
  }

  // ------------------------------------------------- the cache and its sweeps

  /** One locked access of the cache, by any task. `stamp` is the task's clock when it
      asked for the lock; an insertion carries what Redis said at `readAt`. */
  datatype Access = LookUp(batchId: string, stamp: nat) | Insert(batchId: string, readAt: nat, stamp: nat)

  function After(redis: Redis, cache: Cache, access: Access): Cache {
    match access
    case LookUp(b, stamp) => if Lookup(cache, b, stamp).None? then cache - {b} else cache
    case Insert(b, readAt, stamp) =>
      var kept := if |cache| >= BATCH_CANCEL_CACHE_SWEEP_THRESHOLD then Sweep(cache, stamp) else cache;
      var cancelled := redis(readAt, BatchKey(b));
      kept[b := Entry(cancelled, stamp + Ttl(cancelled))]
  }

  function AfterAll(redis: Redis, cache: Cache, accesses: seq<Access>): Cache
    decreases |accesses|
  {
    if accesses == [] then cache else AfterAll(redis, After(redis, cache, accesses[0]), accesses[1..])
  }

  /** Sweeping at one time changes no lookup at another exactly when the lookup's clock
      was not read before the sweep's. */
  lemma SweepIsInvisible(sweptAt: nat, lookedUpAt: nat)
    ensures (forall cache: Cache, b: string :: Lookup(Sweep(cache, sweptAt), b, lookedUpAt) == Lookup(cache, b, lookedUpAt))
       <==> sweptAt <= lookedUpAt
  {
    if sweptAt > lookedUpAt {
      var cache: Cache := map["b" := Entry(true, sweptAt)];
      assert Lookup(Sweep(cache, sweptAt), "b", lookedUpAt) != Lookup(cache, "b", lookedUpAt);
    }
  }

  /** The same accesses if nothing were ever swept. */
  function AfterUnswept(redis: Redis, cache: Cache, access: Access): Cache {
    match access
    case LookUp(_, _) => After(redis, cache, access)
    case Insert(b, readAt, stamp) =>
      var cancelled := redis(readAt, BatchKey(b));
      cache[b := Entry(cancelled, stamp + Ttl(cancelled))]
  }

  function AfterAllUnswept(redis: Redis, cache: Cache, accesses: seq<Access>): Cache
    decreases |accesses|
  {
    if accesses == [] then cache else AfterAllUnswept(redis, AfterUnswept(redis, cache, accesses[0]), accesses[1..])
  }

  /** No lookup at `now` or later tells the two caches apart. */
  ghost predicate SameFrom(now: nat, c: Cache, d: Cache) {
    forall b: string, t: nat :: t >= now ==> Lookup(c, b, t) == Lookup(d, b, t)
  }

  lemma AccessKeepsSame(redis: Redis, now: nat, c: Cache, d: Cache, access: Access)
    requires SameFrom(now, c, d) && access.stamp <= now
    ensures SameFrom(now, After(redis, c, access), AfterUnswept(redis, d, access))
  {
    forall b: string, t: nat | t >= now
      ensures Lookup(After(redis, c, access), b, t) == Lookup(AfterUnswept(redis, d, access), b, t)
    {
      assert Lookup(c, b, t) == Lookup(d, b, t);
    }
  }

  lemma {:induction false} AccessesKeepSame(redis: Redis, now: nat, c: Cache, d: Cache, accesses: seq<Access>)
    requires SameFrom(now, c, d)
    requires forall a :: a in accesses ==> a.stamp <= now
    ensures SameFrom(now, AfterAll(redis, c, accesses), AfterAllUnswept(redis, d, accesses))
    decreases |accesses|
  {
    hide SameFrom, After, AfterUnswept;
    if accesses != [] {
      assert accesses[0] in accesses;
      AccessKeepsSame(redis, now, c, d, accesses[0]);
      AccessesKeepSame(redis, now, After(redis, c, accesses[0]), AfterUnswept(redis, d, accesses[0]), accesses[1..]);
    }
  }

  /** If no access was made by a task whose clock showed more than `last`, lookups from `now`
      on find what they would have found without sweeping. */
  ghost predicate SweepsUnnoticed(last: nat, now: nat, redis: Redis, cache: Cache, accesses: seq<Access>) {
    (forall a :: a in accesses ==> a.stamp <= last) ==>
      SameFrom(now, AfterAll(redis, cache, accesses), AfterAllUnswept(redis, cache, accesses))
  }

  /** Sweeping is invisible in every run, with accesses in any order and any number of sweeps,
      exactly if `last` is not after `now`. */
  lemma SweepsAreInvisible(last: nat, now: nat)
    ensures (forall redis: Redis, cache: Cache, accesses: seq<Access> :: SweepsUnnoticed(last, now, redis, cache, accesses))
       <==> last <= now
  {
    if last <= now {
      forall redis: Redis, cache: Cache, accesses: seq<Access>
        ensures SweepsUnnoticed(last, now, redis, cache, accesses)
      {
        if forall a :: a in accesses ==> a.stamp <= last {
          AccessesKeepSame(redis, now, cache, cache, accesses);
        }
      }
    } else {
      var redis, cache, accesses := EarlySweep(last, now);
    }
  }

  lemma EarlySweep(last: nat, now: nat) returns (redis: Redis, cache: Cache, accesses: seq<Access>)
    requires last > now
    ensures !SweepsUnnoticed(last, now, redis, cache, accesses)
  {
    redis := (_, _) => true;
    cache := Filled(BATCH_CANCEL_CACHE_SWEEP_THRESHOLD, last);
    var access := Insert("b", 0, last);
    accesses := [access];
    assert AfterAll(redis, cache, accesses) == After(redis, cache, access) by { InsertionAlone(redis, cache, access); }
    assert AfterAllUnswept(redis, cache, accesses) == AfterUnswept(redis, cache, access) by { assert accesses[1..] == []; }
    hide AfterAll, AfterAllUnswept, Filled;
    var swept, unswept := After(redis, cache, access), AfterUnswept(redis, cache, access);
    assert "" in cache && cache[""] == Entry(true, last);
    assert Lookup(unswept, "", now) == Some(true) && Lookup(swept, "", now) == None;
    assert !SameFrom(now, swept, unswept);
    assert forall a :: a in accesses ==> a.stamp <= last;
  }

  /** A cache of `n` answers that all expire at the same time. */
  function Filled(n: nat, expiresAt: nat): (cache: Cache)
    ensures |cache| == n && (n > 0 ==> "" in cache)
    ensures forall b :: b in cache ==> |b| < n && cache[b] == Entry(true, expiresAt)
  {
    if n == 0 then map[] else Filled(n - 1, expiresAt)[seq(n - 1, _ => 'a') := Entry(true, expiresAt)]
  }

  lemma AccessLeavesOthers(redis: Redis, cache: Cache, access: Access, b: string, now: nat)
    requires access.stamp <= now && (access.Insert? ==> access.batchId != b)
    ensures Lookup(After(redis, cache, access), b, now) == Lookup(cache, b, now)
  {
  }

  lemma {:induction false} AccessesLeaveOthers(redis: Redis, cache: Cache, accesses: seq<Access>, b: string, now: nat)
    requires forall a :: a in accesses ==> a.stamp <= now && (a.Insert? ==> a.batchId != b)
    ensures Lookup(AfterAll(redis, cache, accesses), b, now) == Lookup(cache, b, now)
    decreases |accesses|
  {
    hide Lookup, After;
    if accesses != [] {
      assert accesses[0] in accesses;
      AccessLeavesOthers(redis, cache, accesses[0], b, now);
      AccessesLeaveOthers(redis, After(redis, cache, accesses[0]), accesses[1..], b, now);
    }
  }

  lemma {:induction false} AfterAllAppend(redis: Redis, cache: Cache, a: seq<Access>, b: seq<Access>)
    ensures AfterAll(redis, cache, a + b) == AfterAll(redis, AfterAll(redis, cache, a), b)
    decreases |a|
  {
    hide After;
    if a == [] {
      assert a + b == b;
    } else {
      assert (a + b)[1..] == a[1..] + b;
      AfterAllAppend(redis, After(redis, cache, a[0]), a[1..], b);
    }
  }

  /** What Redis said is answered from the cache for 60 s if the key was there and for
      50 ms if not, and no longer, whatever other batches are asked about meanwhile. */
  lemma AnswerIsKept(redis: Redis, cache: Cache, before: seq<Access>, b: string, readAt: nat, stamp: nat,
                     later: seq<Access>, now: nat)
    requires stamp <= now
    requires forall a :: a in later ==> a.stamp <= now && (a.Insert? ==> a.batchId != b)
    ensures var said := redis(readAt, BatchKey(b));
            var lifetime := if said then BATCH_CANCEL_POSITIVE_CACHE_TTL else BATCH_CANCEL_NEGATIVE_CACHE_TTL;
            Lookup(AfterAll(redis, cache, before + [Insert(b, readAt, stamp)] + later), b, now)
            == if now < stamp + lifetime then Some(said) else None
  {
    hide AfterAll;
    var insertion := [Insert(b, readAt, stamp)];
    var c := AfterAll(redis, cache, before);
    assert before + insertion + later == before + (insertion + later);
    AfterAllAppend(redis, cache, before, insertion + later);
    AfterAllAppend(redis, c, insertion, later);
    assert AfterAll(redis, c, insertion) == After(redis, c, insertion[0]) by { InsertionAlone(redis, c, insertion[0]); }
    AccessesLeaveOthers(redis, After(redis, c, insertion[0]), later, b, now);
  }

  lemma InsertionAlone(redis: Redis, cache: Cache, access: Access)
    ensures AfterAll(redis, cache, [access]) == After(redis, cache, access)
  {
    assert [access][1..] == [];
  }

  /** Redis showed this state of the batch key at a read by `asOf`, and the entry lives no
      longer than its lifetime and `delay` after it: the time an answer may take to
      reach the cache. */
  ghost predicate Backed(redis: Redis, delay: nat, asOf: nat, batchId: string, entry: Entry) {
    exists readAt: nat :: BackedBy(redis, delay, asOf, batchId, entry, readAt)
  }

  predicate BackedBy(redis: Redis, delay: nat, asOf: nat, batchId: string, entry: Entry, readAt: nat) {
    && redis(readAt, BatchKey(batchId)) == entry.cancelled
    && readAt <= asOf
    && entry.expiresAt <= readAt + delay + Ttl(entry.cancelled)
  }

  ghost predicate AllBacked(redis: Redis, delay: nat, asOf: nat, cache: Cache) {
    forall b :: b in cache ==> Backed(redis, delay, asOf, b, cache[b])
  }

  /** An insertion comes at most `delay` after the read it reports, and reads by `asOf`. */
  predicate Timely(access: Access, delay: nat, asOf: nat) {
    access.Insert? ==> access.readAt <= access.stamp <= access.readAt + delay && access.readAt <= asOf
  }

  lemma AfterKeepsBacked(redis: Redis, delay: nat, asOf: nat, cache: Cache, access: Access)
    requires AllBacked(redis, delay, asOf, cache) && Timely(access, delay, asOf)
    ensures AllBacked(redis, delay, asOf, After(redis, cache, access))
  {
    if access.Insert? {
      var cancelled := redis(access.readAt, BatchKey(access.batchId));
      assert BackedBy(redis, delay, asOf, access.batchId, Entry(cancelled, access.stamp + Ttl(cancelled)), access.readAt);
    }
  }

  /** Whatever accesses any number of tasks make, in any order, every cached answer is
      one that Redis gave. */
  lemma {:induction false} CacheStaysBacked(redis: Redis, delay: nat, asOf: nat, cache: Cache, accesses: seq<Access>)
    requires AllBacked(redis, delay, asOf, cache)
    requires forall a :: a in accesses ==> Timely(a, delay, asOf)
    ensures AllBacked(redis, delay, asOf, AfterAll(redis, cache, accesses))
    decreases |accesses|
  {
    hide AllBacked, Timely, After;
    if accesses != [] {
      assert accesses[0] in accesses;
      AfterKeepsBacked(redis, delay, asOf, cache, accesses[0]);
      CacheStaysBacked(redis, delay, asOf, After(redis, cache, accesses[0]), accesses[1..]);
    }
  }

  // ------------------------------------------------------------------ checks

  /** What a check answers, given what it found in the cache and when it read Redis. */
  function Answer(redis: Redis, batchId: Option<string>, taskId: string, cached: Option<bool>, readAt: nat, opAt: nat): bool {
    if batchId.None? then redis(opAt, OpKey(taskId))
    else
      var batchCancelled := if cached.Some? then cached.value else redis(readAt, BatchKey(batchId.value));
      batchCancelled || redis(opAt, OpKey(taskId))
  }

  /** What a lookup finds, if there is a batch to look up. */
  function Cached(cache: Cache, batchId: Option<string>, lookupAt: nat): Option<bool> {
    if batchId.Some? then Lookup(cache, batchId.value, lookupAt) else None
  }

  /** Staleness: after any accesses by any tasks, a check's answer is Redis's own, except
      that the batch key may be seen as it was when last read: less than 50 ms before the
      lookup if absent, 60 s if present, and `delay` more if that is how long the
      answer took to be cached. Without a batch it is Redis's own. */
  lemma CheckAgreesWithRedis(redis: Redis, delay: nat, asOf: nat, accesses: seq<Access>,
                             batchId: Option<string>, taskId: string, lookupAt: nat, readAt: nat, opAt: nat)
    requires forall a :: a in accesses ==> Timely(a, delay, asOf)
    requires asOf <= readAt && lookupAt <= readAt <= opAt
    ensures var answer := Answer(redis, batchId, taskId, Cached(AfterAll(redis, map[], accesses), batchId, lookupAt), readAt, opAt);
            if batchId.None? then answer == redis(opAt, OpKey(taskId))
            else if answer then redis(opAt, OpKey(taskId)) || SeenWithin(redis, batchId.value, true, lookupAt, delay, readAt)
            else !redis(opAt, OpKey(taskId)) && SeenWithin(redis, batchId.value, false, lookupAt, delay, readAt)
  {
    var cache := AfterAll(redis, map[], accesses);
    CacheStaysBacked(redis, delay, asOf, map[], accesses);
    hide AfterAll, Timely;
    if batchId.Some? {
      var b := batchId.value;
      if Lookup(cache, b, lookupAt).Some? {
        var t: nat :| BackedBy(redis, delay, asOf, b, cache[b], t);
        assert SeenAt(redis, b, cache[b].cancelled, lookupAt, delay, readAt, t);
      } else {
        assert SeenAt(redis, b, redis(readAt, BatchKey(b)), lookupAt, delay, readAt, readAt);
      }
    }
  }

  /** Redis had the batch key present (or absent) at an instant that recent. */
  ghost predicate SeenWithin(redis: Redis, batchId: string, present: bool, lookupAt: nat, delay: nat, readAt: nat) {
    exists t: nat :: SeenAt(redis, batchId, present, lookupAt, delay, readAt, t)
  }

  predicate SeenAt(redis: Redis, batchId: string, present: bool, lookupAt: nat, delay: nat, readAt: nat, t: nat) {
    && redis(t, BatchKey(batchId)) == present && t <= readAt
    && lookupAt < t + delay + if present then BATCH_CANCEL_POSITIVE_CACHE_TTL else BATCH_CANCEL_NEGATIVE_CACHE_TTL
  }

  /** So a batch key that has been set for 50 ms, and `delay`, before a check and stays
      set is always reported. */
  lemma SetKeyIsReported(redis: Redis, delay: nat, asOf: nat, accesses: seq<Access>,
                         batchId: string, taskId: string, setAt: nat, lookupAt: nat, readAt: nat, opAt: nat)
    requires forall a :: a in accesses ==> Timely(a, delay, asOf)
    requires asOf <= readAt && lookupAt <= readAt <= opAt
    requires setAt + BATCH_CANCEL_NEGATIVE_CACHE_TTL + delay <= lookupAt
    requires forall t: nat :: setAt <= t <= readAt ==> redis(t, BatchKey(batchId))
    ensures Answer(redis, Some(batchId), taskId, Lookup(AfterAll(redis, map[], accesses), batchId, lookupAt), readAt, opAt)
  {
    CheckAgreesWithRedis(redis, delay, asOf, accesses, Some(batchId), taskId, lookupAt, readAt, opAt);
  }

  /** If the batch key has not changed for 60 s, and `delay`, or there is no batch, the
      cached check answers what the uncached one would. */
  lemma SteadyKeyIsExact(redis: Redis, delay: nat, asOf: nat, accesses: seq<Access>,
                         batchId: Option<string>, taskId: string, lookupAt: nat, readAt: nat, opAt: nat)
    requires forall a :: a in accesses ==> Timely(a, delay, asOf)
    requires asOf <= readAt && lookupAt <= readAt <= opAt
    requires batchId.Some? ==> forall t: nat :: lookupAt < t + BATCH_CANCEL_POSITIVE_CACHE_TTL + delay && t <= opAt ==>
               redis(t, BatchKey(batchId.value)) == redis(opAt, BatchKey(batchId.value))
    ensures Answer(redis, batchId, taskId, Cached(AfterAll(redis, map[], accesses), batchId, lookupAt), readAt, opAt)
         == CheckCancellation(redis, opAt, batchId, taskId)
  {
    hide AfterAll, Timely;
    CheckAgreesWithRedis(redis, delay, asOf, accesses, batchId, taskId, lookupAt, readAt, opAt);
  }

  class RedisCancelChecker {
    var cache: Cache

    constructor ()
      ensures cache == map[]
    {
      cache := map[];
    }

    /** An expired entry is removed on lookup. */
    method CachedBatchCancel(ghost redis: Redis, batchId: string, now: nat) returns (r: Option<bool>)
      modifies this
      ensures r == Lookup(old(cache), batchId, now)
      ensures cache == After(redis, old(cache), LookUp(batchId, now))
    {
      if batchId in cache {
        if cache[batchId].expiresAt > now {
          return Some(cache[batchId].cancelled);
        }
        cache := cache - {batchId};
      }
      assert cache - {batchId} == cache;
      return None;
    }

    /** Expired entries are swept only once the cache has grown large. */
    method CacheBatchCancel(ghost redis: Redis, batchId: string, cancelled: bool, ghost readAt: nat, now: nat)
      requires cancelled == redis(readAt, BatchKey(batchId))
      modifies this
      ensures cache == After(redis, old(cache), Insert(batchId, readAt, now))
    {
      var ttl := if cancelled then BATCH_CANCEL_POSITIVE_CACHE_TTL else BATCH_CANCEL_NEGATIVE_CACHE_TTL;
      if |cache| >= BATCH_CANCEL_CACHE_SWEEP_THRESHOLD {
        cache := map b | b in cache && cache[b].expiresAt > now :: cache[b];
      }
      cache := cache[batchId := Entry(cancelled, now + ttl)];
    }

    /** One check without interference: at the instants `lookupAt` to `opAt` it looks in
        the cache, reads the batch key, caches it and reads the operation key. A read may
        fail; the check then fails if it needed that read, and caches nothing. */
    method CheckWithCache(redis: Redis, batchId: Option<string>, taskId: string,
                          lookupAt: nat, readAt: nat, insertAt: nat, opAt: nat, readFails: bool, opFails: bool)
      returns (r: Option<bool>)
      modifies this
      ensures r.Some? && batchId.None? ==> r.value == redis(opAt, OpKey(taskId)) == CheckCancellation(redis, opAt, None, taskId)
      ensures r.Some? && batchId.Some? ==>
                var cached := Lookup(old(cache), batchId.value, lookupAt);
                r.value <==> redis(opAt, OpKey(taskId)) ||
                             if cached.Some? then cached.value else redis(readAt, BatchKey(batchId.value))
      ensures var cached := Cached(old(cache), batchId, lookupAt);
              var asks := batchId.Some? && cached.None?;
              var settled := if asks then redis(readAt, BatchKey(batchId.value)) else cached == Some(true);
              && (r == None <==> if asks && readFails then true else !settled && opFails)
              && (r.Some? ==> r.value == Answer(redis, batchId, taskId, cached, readAt, opAt))
              && cache == if batchId.None? then old(cache)
                          else AfterAll(redis, old(cache), [LookUp(batchId.value, lookupAt)] +
                                 if asks && !readFails then [Insert(batchId.value, readAt, insertAt)] else [])
    {
      if batchId.None? {
        return if opFails then None else Some(redis(opAt, OpKey(taskId)));
      }
      var b := batchId.value;
      ghost var insertion := [Insert(b, readAt, insertAt)];
      assert ([LookUp(b, lookupAt)] + insertion)[1..] == insertion && insertion[1..] == [];
      var cached := CachedBatchCancel(redis, b, lookupAt);
      if cached.Some? {
        if cached.value {
          return Some(true);
        }
        return if opFails then None else Some(redis(opAt, OpKey(taskId)));
      }
      if readFails {
        return None;
      }
      var batchCancelled := redis(readAt, BatchKey(b));
      CacheBatchCancel(redis, b, batchCancelled, readAt, insertAt);
      assert AfterAll(redis, cache, []) == cache;
      if batchCancelled {
        return Some(true);
      }
      return if opFails then None else Some(redis(opAt, OpKey(taskId)));
    }
  }
}
