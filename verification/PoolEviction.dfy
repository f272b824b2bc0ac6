/** Idle eviction in the running pool: what it drops, and when it drops everything it
    should. */
module PoolEviction {
  import opened Options
  import opened Pool
  import opened PoolMachine

  /** Eviction only ever takes free instances that have been idle for the whole
      timeout; leased ones and builds are not touched. */
  lemma EvictDropsOnlyIdle(s: State, clock: Clock, idleFor: nat)
    requires RunsFrom(clock, s.now)
    ensures var t := Apply(s, Evict(clock, idleFor));
            && t.agents == s.agents
            && exists n: nat ::
                 && n <= |s.free| && t.free == s.free[n..] && t.live == s.live - n
                 && t.evicted == s.evicted + Instances(s.free[..n])
                 && forall k :: 0 <= k < n ==> s.free[k].idleSince + idleFor <= clock(k) || idleFor == 0
  {
    var n := StalePrefix(s.free, clock, idleFor);
    assert n <= |s.free|;
  }

  /** No two threads are between stamping the return time and pushing the slot. */
  ghost predicate OneReturner(s: State) {
    forall i, j :: 0 <= i < j < |s.agents| ==> !(s.agents[i].Returning? && s.agents[j].Returning?)
  }

  /** A run in which stamping and pushing never overlap. */
  ghost predicate SerialRun(s: State, steps: seq<Step>, t: State)
    decreases |steps|
  {
    && OneReturner(s)
    && if steps == [] then s == t
       else Enabled(s, steps[0]) && SerialRun(Apply(s, steps[0]), steps[1..], t)
  }

  /** The free list is in order of return, before any slot still being returned. */
  ghost predicate InOrder(s: State) {
    && OldestFirst(s.free)
    && (forall k :: 0 <= k < |s.free| ==> s.free[k].idleSince <= s.now)
    && (forall i, k :: 0 <= i < |s.agents| && s.agents[i].Returning? && 0 <= k < |s.free| ==>
          s.free[k].idleSince <= s.agents[i].slot.idleSince)
    && (forall i :: 0 <= i < |s.agents| && s.agents[i].Returning? ==> s.agents[i].slot.idleSince <= s.now)
  }

  /** A thread that is returning a slot after a step has just stamped it, or was
      returning it before. */
  lemma StepReturning(s: State, step: Step, i: nat)
    requires Enabled(s, step)
    requires i < |Apply(s, step).agents| && Apply(s, step).agents[i].Returning?
    ensures var slot := Apply(s, step).agents[i].slot;
            || (step == Stamp(i) && slot.idleSince == s.now)
            || (i < |s.agents| && s.agents[i] == Returning(slot) && step != Push(i))
  {
    hide SomeoneWaits, Counted, Eligible, Noted, Instances;
  }

  lemma StepFree(s: State, step: Step) returns (lo: nat, hi: nat)
    requires Enabled(s, step)
    ensures s.now <= Apply(s, step).now
    ensures step.Push? ==> step.i < |s.agents| && s.agents[step.i].Returning?
                           && Apply(s, step).free == s.free + [s.agents[step.i].slot]
    ensures !step.Push? ==> lo <= hi <= |s.free| && Apply(s, step).free == s.free[lo..hi]
  {
    hide SomeoneWaits, Counted, Eligible, Noted, Instances;
    lo := if step.Evict? then StalePrefix(s.free, step.clock, step.idleFor) else 0;
    hi := if step.Enter? && s.free != [] then |s.free| - 1 else |s.free|;
  }

  lemma StepInOrder(s: State, step: Step)
    requires Enabled(s, step) && OneReturner(s) && InOrder(s)
    ensures InOrder(Apply(s, step))
  {
    hide Apply, Enabled;
    var t := Apply(s, step);
    var lo, hi := StepFree(s, step);
    forall i | 0 <= i < |t.agents| && t.agents[i].Returning?
      ensures t.agents[i].slot.idleSince <= t.now
      ensures forall k :: 0 <= k < |t.free| ==> t.free[k].idleSince <= t.agents[i].slot.idleSince
    {
      StepReturning(s, step, i);
    }
    assert OldestFirst(t.free) && forall k :: 0 <= k < |t.free| ==> t.free[k].idleSince <= t.now;
  }

  lemma {:induction false} SerialRunInOrder(s: State, steps: seq<Step>, t: State)
    requires InOrder(s) && SerialRun(s, steps, t)
    ensures InOrder(t)
    decreases |steps|
  {
    hide InOrder, OneReturner, Enabled;
    if steps != [] {
      StepInOrder(s, steps[0]);
      SerialRunInOrder(Apply(s, steps[0]), steps[1..], t);
    }
  }

  /** If returns never overlap, eviction leaves no idle instance behind in any state
      of any run. */
  lemma SerialReturnsEvictAll(config: Config, steps: seq<Step>, s: State, clock: Clock, idleFor: nat)
    requires SerialRun(Init(config), steps, s) && RunsFrom(clock, s.now)
    ensures var left := Apply(s, Evict(clock, idleFor)).free;
            forall k :: 0 <= k < |left| ==> clock(|s.free| - |left|) < left[k].idleSince + idleFor
  {
    SerialRunInOrder(Init(config), steps, s);
    OrderedEvictsAll(s.free, clock, idleFor);
  }

  // ------------------------------------------- overlapping returns lose order

  lemma {:induction false} RunThen(s: State, steps: seq<Step>, t: State, step: Step)
    requires Run(s, steps, t) && Enabled(t, step)
    ensures Run(s, steps + [step], Apply(t, step))
    decreases |steps|
  {
    hide Enabled, Apply;
    if steps == [] {
      assert (steps + [step])[1..] == [];
    } else {
      assert (steps + [step])[1..] == steps[1..] + [step];
      RunThen(Apply(s, steps[0]), steps[1..], t, step);
    }
  }

  lemma Play(config: Config, steps: seq<Step>, s: State, step: Step) returns (steps': seq<Step>, s': State)
    requires Run(Init(config), steps, s) && Enabled(s, step)
    ensures Run(Init(config), steps', s') && s' == Apply(s, step)
  {
    RunThen(Init(config), steps, s, step);
    steps', s' := steps + [step], Apply(s, step);
  }

  /** A thread that finds nothing free, but room, builds an instance. */
  lemma PlayLease(config: Config, steps: seq<Step>, s: State) returns (steps': seq<Step>, s': State)
    requires Run(Init(config), steps, s) && s.config == config
    requires s.free == [] && s.live < config.maxInstances
    ensures Run(Init(config), steps', s')
    ensures s' == s.(agents := s.agents + [Leased(FreshSlot(s.built, s.now))], live := s.live + 1,
                     built := s.built + 1, created := s.created + 1)
  {
    hide Run;
    var i := |s.agents|;
    steps', s' := Play(config, steps, s, CallGet(0));
    steps', s' := Play(config, steps', s', Enter(i));
    assert s'.agents == s.agents + [Building];
    steps', s' := Play(config, steps', s', BuildDone(i));
    assert s'.agents == s.agents + [Leased(FreshSlot(s.built, s.now))];
  }

  /** Two threads drop their leases: one stamps its return first but takes the lock last. */
  lemma PlayOverlap(config: Config, steps: seq<Step>, s: State, a: Slot, b: Slot)
    returns (steps': seq<Step>, s': State)
    requires Run(Init(config), steps, s)
    requires s.agents == [Leased(a), Leased(b)] && s.free == []
    ensures Run(Init(config), steps', s')
    ensures s'.free == [b.(idleSince := s.now + 1), a.(idleSince := s.now)] && s'.now == s.now + 1
  {
    hide Run;
    steps', s' := Play(config, steps, s, Stamp(0));
    steps', s' := Play(config, steps', s', Tick(1));
    steps', s' := Play(config, steps', s', Stamp(1));
    assert s'.agents == [Returning(a.(idleSince := s.now)), Returning(b.(idleSince := s.now + 1))];
    steps', s' := Play(config, steps', s', Push(1));
    steps', s' := Play(config, steps', s', Push(0));
  }

  /** So the free list can be out of order, and eviction then leaves an instance behind
      that has been idle for the whole timeout. */
  lemma OverlappingReturnsEvictLess() returns (config: Config, steps: seq<Step>, s: State)
    ensures config.Valid() && Run(Init(config), steps, s)
    ensures |s.free| == 2 && s.free[1].idleSince + 1 <= s.now
    ensures Apply(s, Evict(_ => s.now, 1)).free == s.free
  {
    config := NewConfig(2, None, 1);
    steps, s := [], Init(config);
    hide Run;
    steps, s := PlayLease(config, steps, s);
    steps, s := PlayLease(config, steps, s);
    var a, b := FreshSlot(0, 0), FreshSlot(1, 0);
    assert s.agents == [Leased(a), Leased(b)];
    steps, s := PlayOverlap(config, steps, s, a, b);
  }
}
