/** The plugin-instance pool: what each stretch of code does to the shared state while
    it holds the lock, as functions and as methods that update the pool in place. */
module Pool {
  import opened Options

  const USIZE_MAX: nat := 0xFFFF_FFFF_FFFF_FFFF
  const U64_MAX: nat := 0xFFFF_FFFF_FFFF_FFFF

  function Max(a: nat, b: nat): nat { if a >= b then a else b }

  function SaturatingAdd(a: nat, b: nat, limit: nat): (sum: nat)
    ensures sum <= limit && sum <= a + b && (sum == a + b || sum == limit)
  {
    if a + b <= limit then a + b else limit
  }

  // ------------------------------------------------------------------- values

  datatype Usage = Usage(calls: nat, bytes: nat)

  /** An instance (named by the build that made it), what it has served since it was
      built, and when it was last returned. */
  datatype Slot = Slot(instance: nat, usage: Usage, idleSince: nat)

  function FreshSlot(instance: nat, now: nat): Slot { Slot(instance, Usage(0, 0), now) }

  datatype Config = Config(maxInstances: nat, reclaimBytes: Option<nat>, minCalls: nat) {
    predicate Valid() { maxInstances >= 1 && minCalls >= 1 }
  }

  /** `RecyclingPool::new` raises both minimums to one and keeps what is given otherwise. */
  function NewConfig(maxInstances: nat, reclaimBytes: Option<nat>, minCalls: nat): (c: Config)
    ensures c.Valid() && c.reclaimBytes == reclaimBytes
    ensures maxInstances >= 1 ==> c.maxInstances == maxInstances
    ensures maxInstances == 0 ==> c.maxInstances == 1
    ensures minCalls >= 1 ==> c.minCalls == minCalls
    ensures minCalls == 0 ==> c.minCalls == 1
  {
    Config(Max(maxInstances, 1), reclaimBytes, Max(minCalls, 1))
  }

  // ------------------------------------------------------------ lock regions

  /** How one pass of the loop in `get` ends. */
  datatype Pass = Lease(slot: Slot) | Reserve | TimedOut | Wait

  function PassOf(free: seq<Slot>, live: int, max: nat, now: nat, deadline: nat): Pass {
    if free != [] then Lease(free[|free| - 1])
    else if live < max then Reserve
    else if now >= deadline then TimedOut
    else Wait
  }

  function Elapsed(now: nat, since: nat): nat { if now >= since then now - since else 0 }

  predicate Stale(slot: Slot, now: nat, idleFor: nat) { Elapsed(now, slot.idleSince) >= idleFor }

  /** When the clock is read for each slot in turn. */
  type Clock = nat -> nat

  ghost predicate RunsFrom(clock: Clock, now: nat) {
    forall i, j :: 0 <= i <= j ==> now <= clock(i) <= clock(j)
  }

  /** Where the run of slots from the `i`th on ends that are stale when looked at. */
  function StaleUntil(free: seq<Slot>, i: nat, clock: Clock, idleFor: nat): (n: nat)
    requires i <= |free|
    ensures i <= n <= |free|
    ensures forall k :: i <= k < n ==> Stale(free[k], clock(k), idleFor)
    ensures n < |free| ==> !Stale(free[n], clock(n), idleFor)
    decreases |free| - i
  {
    if i == |free| || !Stale(free[i], clock(i), idleFor) then i else StaleUntil(free, i + 1, clock, idleFor)
  }

  /** The length of the leading run of stale slots. */
  function StalePrefix(free: seq<Slot>, clock: Clock, idleFor: nat): nat { StaleUntil(free, 0, clock, idleFor) }

  /** What `note_call` does to a leased slot: count the call, and recycle if both
      thresholds are met and `replacement` could be built. */
  function Counted(u: Usage, bytes: nat): Usage {
    Usage(SaturatingAdd(u.calls, 1, USIZE_MAX), SaturatingAdd(u.bytes, bytes, U64_MAX))
  }

  predicate Eligible(c: Config, u: Usage) {
    c.reclaimBytes.Some? && u.calls >= c.minCalls && u.bytes > c.reclaimBytes.value
  }

  function Noted(c: Config, slot: Slot, bytes: nat, replacement: Option<nat>): Slot {
    var u := Counted(slot.usage, bytes);
    if Eligible(c, u) && replacement.Some? then slot.(instance := replacement.value, usage := Usage(0, 0))
    else slot.(usage := u)
  }

  // ---------------------------------------------------------------- the pool

  class RecyclingPool {
    const config: Config
    var free: seq<Slot>
    var live: nat

    constructor (maxInstances: nat, reclaimBytes: Option<nat>, minCalls: nat)
      ensures free == [] && live == 0
      ensures config == NewConfig(maxInstances, reclaimBytes, minCalls)
    {
      config := NewConfig(maxInstances, reclaimBytes, minCalls);
      free, live := [], 0;
    }

    /** One pass of `get`'s loop under the lock: the most recently returned instance,
        else a reservation, else a timeout, else go to sleep. */
    method TryGet(now: nat, deadline: nat) returns (pass: Pass)
      modifies this
      ensures pass == PassOf(old(free), old(live), config.maxInstances, now, deadline)
      ensures pass.Lease? <==> old(free) != []
      ensures pass.Reserve? <==> old(free) == [] && old(live) < config.maxInstances
      ensures pass.Wait? <==> old(free) == [] && old(live) >= config.maxInstances && now < deadline
      ensures pass.Lease? ==> free + [pass.slot] == old(free) && live == old(live)
      ensures pass.Reserve? ==> free == old(free) && live == old(live) + 1
      ensures pass.TimedOut? || pass.Wait? ==> free == old(free) && live == old(live)
    {
      if free != [] {
        pass := Lease(free[|free| - 1]);
        free := free[..|free| - 1];
        return;
      }
      if live < config.maxInstances {
        live := live + 1;
        return Reserve;
      }
      if now >= deadline {
        return TimedOut;
      }
      return Wait;
    }

    /** A failed build gives its reservation back. */
    method AbandonBuild()
      requires live > 0
      modifies this`live
      ensures live == old(live) - 1
    {
      live := live - 1;
    }

    method Return(slot: Slot)
      modifies this`free
      ensures free == old(free) + [slot]
    {
      free := free + [slot];
    }

    method Count() returns (n: nat)
      ensures n == live
    {
      n := live;
    }

    /** Drop the leading stale slots, reading the clock for each. */
    method EvictIdle(clock: Clock, idleFor: nat) returns (evicted: nat)
      requires |free| <= live
      modifies this
      ensures evicted == StalePrefix(old(free), clock, idleFor) <= |old(free)|
      ensures forall k :: 0 <= k < evicted ==> old(free)[k].idleSince + idleFor <= clock(k) || idleFor == 0
      ensures evicted < |old(free)| ==> clock(evicted) < old(free)[evicted].idleSince + idleFor
      ensures free == old(free)[evicted..] && live == old(live) - evicted
    {
      var stale := 0;
      while stale < |free| && Stale(free[stale], clock(stale), idleFor)
        invariant stale <= |free|
        invariant StaleUntil(free, stale, clock, idleFor) == StalePrefix(free, clock, idleFor)
      {
        stale := stale + 1;
      }
      live := live - stale;
      free := free[stale..];
      evicted := stale;
    }
  }

  class PoolLease {
    const config: Config
    var slot: Slot

    constructor (config: Config, slot: Slot)
      ensures this.config == config && this.slot == slot
    {
      this.config := config;
      this.slot := slot;
    }

    /** `replacement` is what the instance factory would return: a new instance or an
        error, in which case the old instance is kept for another try. */
    method NoteCall(bytes: nat, replacement: Option<nat>) returns (recycled: bool)
      modifies this
      ensures slot == Noted(config, old(slot), bytes, replacement)
      ensures var calls := SaturatingAdd(old(slot).usage.calls, 1, USIZE_MAX);
              var total := SaturatingAdd(old(slot).usage.bytes, bytes, U64_MAX);
              && (recycled <==> config.reclaimBytes.Some? && calls >= config.minCalls
                                && total > config.reclaimBytes.value && replacement.Some?)
              && slot == if recycled then Slot(replacement.value, Usage(0, 0), old(slot).idleSince)
                         else Slot(old(slot).instance, Usage(calls, total), old(slot).idleSince)
    {
      var usage := Counted(slot.usage, bytes);
      slot := slot.(usage := usage);
      if config.reclaimBytes.None? {
        return false;
      }
      if usage.calls < config.minCalls || usage.bytes <= config.reclaimBytes.value {
        return false;
      }
      if replacement.None? {
        return false;
      }
      slot := slot.(instance := replacement.value);
      slot := slot.(usage := Usage(0, 0));
      return true;
    }
  }

  // ---------------------------------------------------------------- eviction

  ghost predicate OldestFirst(free: seq<Slot>) {
    forall i, j :: 0 <= i < j < |free| ==> free[i].idleSince <= free[j].idleSince
  }

  /** No slot that eviction leaves behind had been idle for the timeout by the time it
      stopped looking. */
  ghost predicate EvictsAllStale(free: seq<Slot>, clock: Clock, idleFor: nat) {
    var n := StalePrefix(free, clock, idleFor);
    forall i :: n <= i < |free| ==> clock(n) < free[i].idleSince + idleFor
  }

  lemma OrderedEvictsAll(free: seq<Slot>, clock: Clock, idleFor: nat)
    requires OldestFirst(free)
    ensures EvictsAllStale(free, clock, idleFor)
  {
    var n := StalePrefix(free, clock, idleFor);
    forall i | n <= i < |free| ensures clock(n) < free[i].idleSince + idleFor {
      assert free[n].idleSince <= free[i].idleSince;
    }
  }

  /** `evict_idle` drops every slot that has been idle long enough, whatever the clock
      and the timeout, exactly when the free list is in order of return. */
  lemma EvictionCompleteIffOrdered(free: seq<Slot>)
    ensures OldestFirst(free)
       <==> forall clock: Clock, idleFor: nat :: RunsFrom(clock, 0) ==> EvictsAllStale(free, clock, idleFor)
  {
    if OldestFirst(free) {
      forall clock: Clock, idleFor: nat | RunsFrom(clock, 0) ensures EvictsAllStale(free, clock, idleFor) {
        OrderedEvictsAll(free, clock, idleFor);
      }
    } else {
      var i, j :| 0 <= i < j < |free| && free[i].idleSince > free[j].idleSince;
      var now, idleFor := free[i].idleSince, free[i].idleSince - free[j].idleSince;
      var clock: Clock := _ => now;
      assert !Stale(free[i], now, idleFor) && Stale(free[j], now, idleFor);
      var n := StalePrefix(free, clock, idleFor);
      assert n <= i && clock(n) == now;
      assert !EvictsAllStale(free, clock, idleFor);
      assert RunsFrom(clock, 0);
    }
  }
}
