/** The pool shared by any number of threads: a step machine whose steps are the
    stretches of code between lock operations, and what holds in every run. */
module PoolMachine {
  import opened Options
  import opened Pool

  /** Where one call of `get`, or the lease it led to, stands. */
  datatype Phase =
    | Entering(deadline: nat)                // about to take the lock in `get`
    | Waiting(deadline: nat)                 // asleep on the condition variable
    | Awake(deadline: nat, notified: bool)   // woken, about to take the lock again
    | Building                               // slot reserved, building without the lock
    | Leased(slot: Slot)
    | Returning(slot: Slot)                  // return time stamped, lock not yet taken
    | NotifyDue                              // lock released, `notify_one` not yet called
    | Finished

  /** `built`, `recycled` and `evicted` record instances; `created` counts the factory calls
      that have ended, as the metric does, and `failures` those that failed; `notes` and
      `bytes` are what `note_call` was told: history, not program state. `live` is an `int`
      here: that it never underflows is a theorem. */
  datatype State = State(
    config: Config, free: seq<Slot>, live: int, now: nat, agents: seq<Phase>,
    built: nat, recycled: seq<nat>, evicted: seq<nat>, notes: nat, bytes: nat,
    created: nat, failures: nat)

  datatype Step =
    | Tick(d: nat)
    | CallGet(timeout: nat)
    | Enter(i: nat)                                // one pass of the loop under the lock
    | Wake(i: nat)                                 // timed out, or spuriously
    | BuildDone(i: nat)
    | BuildFailed(i: nat)
    | NoteCall(i: nat, size: nat, factoryWorks: bool)
    | Stamp(i: nat)                                // the lease is dropped
    | Push(i: nat)
    | Notify(i: nat, woken: Option<nat>)
    | Evict(clock: Clock, idleFor: nat)

  function Init(config: Config): State {
    State(config, [], 0, 0, [], 0, [], [], 0, 0, 0, 0)
  }

  ghost predicate SomeoneWaits(s: State) {
    exists j :: 0 <= j < |s.agents| && s.agents[j].Waiting?
  }

  ghost predicate Enabled(s: State, step: Step) {
    match step
    case Tick(_) => true
    case CallGet(_) => true
    case Enter(i) => i < |s.agents| && (s.agents[i].Entering? || s.agents[i].Awake?)
    case Wake(i) => i < |s.agents| && s.agents[i].Waiting?
    case BuildDone(i) => i < |s.agents| && s.agents[i].Building?
    case BuildFailed(i) => i < |s.agents| && s.agents[i].Building?
    case NoteCall(i, _, _) => i < |s.agents| && s.agents[i].Leased?
    case Stamp(i) => i < |s.agents| && s.agents[i].Leased?
    case Push(i) => i < |s.agents| && s.agents[i].Returning?
    case Notify(i, woken) =>
      && i < |s.agents| && s.agents[i].NotifyDue?
      && (woken.None? ==> !SomeoneWaits(s))
      && (woken.Some? ==> woken.value < |s.agents| && s.agents[woken.value].Waiting?)
    case Evict(clock, _) => RunsFrom(clock, s.now)
  }

  function EnterPhase(pass: Pass, deadline: nat): Phase {
    match pass
    case Lease(slot) => Leased(slot)
    case Reserve => Building
    case TimedOut => Finished
    case Wait => Waiting(deadline)
  }

  function Instances(slots: seq<Slot>): (r: seq<nat>)
    ensures |r| == |slots|
  {
    seq(|slots|, i requires 0 <= i < |slots| => slots[i].instance)
  }

  function Apply(s: State, step: Step): State
    requires Enabled(s, step)
  {
    match step
    case Tick(d) => s.(now := s.now + d)
    case CallGet(timeout) => s.(agents := s.agents + [Entering(s.now + timeout)])
    case Enter(i) =>
      var pass := PassOf(s.free, s.live, s.config.maxInstances, s.now, s.agents[i].deadline);
      s.(agents := s.agents[i := EnterPhase(pass, s.agents[i].deadline)],
         free := if pass.Lease? then s.free[..|s.free| - 1] else s.free,
         live := if pass.Reserve? then s.live + 1 else s.live)
    case Wake(i) => s.(agents := s.agents[i := Awake(s.agents[i].deadline, false)])
    case BuildDone(i) =>
      s.(agents := s.agents[i := Leased(FreshSlot(s.built, s.now))], built := s.built + 1, created := s.created + 1)
    case BuildFailed(i) =>
      s.(agents := s.agents[i := NotifyDue], live := s.live - 1, created := s.created + 1, failures := s.failures + 1)
    case NoteCall(i, size, factoryWorks) =>
      var slot := s.agents[i].slot;
      var eligible := Eligible(s.config, Counted(slot.usage, size));
      var recycles := eligible && factoryWorks;
      var noted := Noted(s.config, slot, size, if factoryWorks then Some(s.built) else None);
      s.(agents := s.agents[i := Leased(noted)], notes := s.notes + 1, bytes := s.bytes + size,
         built := if recycles then s.built + 1 else s.built,
         recycled := if recycles then s.recycled + [slot.instance] else s.recycled,
         created := if eligible then s.created + 1 else s.created,
         failures := if eligible && !factoryWorks then s.failures + 1 else s.failures)
    case Stamp(i) => s.(agents := s.agents[i := Returning(s.agents[i].slot.(idleSince := s.now))])
    case Push(i) => s.(agents := s.agents[i := NotifyDue], free := s.free + [s.agents[i].slot])
    case Notify(i, woken) =>
      var agents := s.agents[i := Finished];
      s.(agents := if woken.None? then agents else agents[woken.value := Awake(s.agents[woken.value].deadline, true)])
    case Evict(clock, idleFor) =>
      var n := StalePrefix(s.free, clock, idleFor);
      s.(free := s.free[n..], live := s.live - n, now := clock(|s.free|), evicted := s.evicted + Instances(s.free[..n]))
  }

  /** `steps` lead from `s` to `t`. */
  ghost predicate Run(s: State, steps: seq<Step>, t: State)
    decreases |steps|
  {
    if steps == [] then s == t
    else Enabled(s, steps[0]) && Run(Apply(s, steps[0]), steps[1..], t)
  }

  // ------------------------------------------------- sums and who holds what

  function Sum(agents: seq<Phase>, f: Phase -> int): int {
    if agents == [] then 0 else f(agents[0]) + Sum(agents[1..], f)
  }

  lemma {:induction false} SumUpdate(agents: seq<Phase>, i: nat, p: Phase, f: Phase -> int)
    requires i < |agents|
    ensures Sum(agents[i := p], f) == Sum(agents, f) - f(agents[i]) + f(p)
  {
    if i == 0 {
      assert agents[i := p][1..] == agents[1..];
    } else {
      assert agents[i := p][1..] == agents[1..][i - 1 := p];
      SumUpdate(agents[1..], i - 1, p, f);
    }
  }

  lemma {:induction false} SumAppend(agents: seq<Phase>, p: Phase, f: Phase -> int)
    ensures Sum(agents + [p], f) == Sum(agents, f) + f(p)
  {
    if agents == [] {
      assert agents + [p] == [p];
      assert Sum([p], f) == f(p) + Sum([], f);
    } else {
      assert (agents + [p])[1..] == agents[1..] + [p];
      SumAppend(agents[1..], p, f);
    }
  }

  lemma {:induction false} SumAtLeast(agents: seq<Phase>, i: nat, f: Phase -> int)
    requires i < |agents| && forall p :: f(p) >= 0
    ensures Sum(agents, f) >= f(agents[i])
  {
    SumNonNegative(agents[1..], f);
    if i > 0 {
      SumAtLeast(agents[1..], i - 1, f);
    }
  }

  lemma {:induction false} SumNonNegative(agents: seq<Phase>, f: Phase -> int)
    requires forall p :: f(p) >= 0
    ensures Sum(agents, f) >= 0
  {
    if agents != [] {
      SumNonNegative(agents[1..], f);
    }
  }

  lemma {:induction false} SumPositive(agents: seq<Phase>, f: Phase -> int) returns (i: nat)
    requires Sum(agents, f) > 0
    ensures i < |agents| && f(agents[i]) > 0
  {
    if f(agents[0]) > 0 {
      i := 0;
    } else {
      var j := SumPositive(agents[1..], f);
      i := j + 1;
    }
  }

  /** One for each agent that owns a unit of `live`. */
  function Occupies(p: Phase): int { if p.Building? || p.Leased? || p.Returning? then 1 else 0 }

  function InBuild(p: Phase): int { if p.Building? then 1 else 0 }

  /** One for each notification on its way: sent but not yet acted upon, or due. */
  function Signals(p: Phase): int { if p.NotifyDue? || (p.Awake? && p.notified) then 1 else 0 }

  /** The slot a thread holds, if any. */
  function SlotsOf(p: Phase): seq<Slot> { if p.Leased? || p.Returning? then [p.slot] else [] }

  function Calls(u: Usage): nat { u.calls }

  function Bytes(u: Usage): nat { u.bytes }

  function SumSlots(slots: seq<Slot>, g: Usage -> nat): nat {
    if slots == [] then 0 else g(slots[0].usage) + SumSlots(slots[1..], g)
  }

  lemma {:induction false} SumSlotsAppend(a: seq<Slot>, b: seq<Slot>, g: Usage -> nat)
    ensures SumSlots(a + b, g) == SumSlots(a, g) + SumSlots(b, g)
  {
    if a == [] {
      assert a + b == b;
    } else {
      assert (a + b)[1..] == a[1..] + b;
      SumSlotsAppend(a[1..], b, g);
    }
  }

  lemma SumSlotsNone(g: Usage -> nat)
    ensures SumSlots([], g) == 0
  {
  }

  lemma SumSlotsOne(slot: Slot, g: Usage -> nat)
    ensures SumSlots([slot], g) == g(slot.usage)
  {
  }

  function CallsOf(p: Phase): int { SumSlots(SlotsOf(p), Calls) }

  function BytesOf(p: Phase): int { SumSlots(SlotsOf(p), Bytes) }

  function Holding(p: Phase): int { |SlotsOf(p)| }

  function Holds(x: nat): Phase -> int {
    (p: Phase) => if (p.Leased? || p.Returning?) && p.slot.instance == x then 1 else 0
  }

  function Copies(s: seq<nat>, x: nat): nat {
    if s == [] then 0 else (if s[0] == x then 1 else 0) + Copies(s[1..], x)
  }

  lemma {:induction false} CopiesAppend(a: seq<nat>, b: seq<nat>, x: nat)
    ensures Copies(a + b, x) == Copies(a, x) + Copies(b, x)
  {
    if a == [] {
      assert a + b == b;
    } else {
      assert (a + b)[1..] == a[1..] + b;
      CopiesAppend(a[1..], b, x);
    }
  }

  lemma CopiesOfOne(y: nat, x: nat)
    ensures Copies([y], x) == if y == x then 1 else 0
  {
  }

  lemma InstancesAppend(a: seq<Slot>, b: seq<Slot>, x: nat)
    ensures Copies(Instances(a + b), x) == Copies(Instances(a), x) + Copies(Instances(b), x)
  {
    assert Instances(a + b) == Instances(a) + Instances(b);
    CopiesAppend(Instances(a), Instances(b), x);
  }

  lemma InstancesOfOne(slot: Slot, x: nat)
    ensures Copies(Instances([slot]), x) == if slot.instance == x then 1 else 0
  {
    assert Instances([slot]) == [slot.instance];
    CopiesOfOne(slot.instance, x);
  }

  // ------------------------------------------------------------- accounting

  /** `live` counts the free, leased and returning instances and the builds under way,
      and never exceeds the maximum. */
  ghost predicate Accounted(s: State) {
    && s.config.Valid()
    && s.live == |s.free| + Sum(s.agents, Occupies)
    && s.live <= s.config.maxInstances
  }

  /** How an enabled step changes a sum over the agents. */
  lemma SumAfter(s: State, step: Step, f: Phase -> int)
    requires Enabled(s, step)
    ensures Sum(Apply(s, step).agents, f) ==
      Sum(s.agents, f) +
      match step
      case Tick(_) => 0
      case Evict(_, _) => 0
      case CallGet(timeout) => f(Entering(s.now + timeout))
      case Notify(i, Some(j)) =>
        f(Finished) - f(s.agents[i]) + f(Awake(s.agents[j].deadline, true)) - f(s.agents[j])
      case Notify(i, None) => f(Finished) - f(s.agents[i])
      case _ => f(Apply(s, step).agents[step.i]) - f(s.agents[step.i])
  {
    match step
    case Tick(_) =>
    case Evict(_, _) =>
    case CallGet(timeout) => SumAppend(s.agents, Entering(s.now + timeout), f);
    case Notify(i, Some(j)) =>
      SumUpdate(s.agents, i, Finished, f);
      SumUpdate(s.agents[i := Finished], j, Awake(s.agents[j].deadline, true), f);
    case Notify(i, None) => SumUpdate(s.agents, i, Finished, f);
    case _ =>
      var p := Apply(s, step).agents[step.i];
      assert Apply(s, step).agents == s.agents[step.i := p];
      SumUpdate(s.agents, step.i, p, f);
  }

  lemma StepAccounted(s: State, step: Step)
    requires Enabled(s, step) && Accounted(s)
    ensures Accounted(Apply(s, step))
  {
    hide Sum;
    SumAfter(s, step, Occupies);
  }

  // ---------------------------------------------------------------- wakeups

  function Spare(s: State): int { |s.free| + s.config.maxInstances - s.live }

  /** While somebody sleeps unnotified, every spare instance or reservation is matched
      by a notification that is due or under way. */
  ghost predicate Signalled(s: State) {
    SomeoneWaits(s) ==> Spare(s) <= Sum(s.agents, Signals)
  }

  lemma StepSignalled(s: State, step: Step)
    requires Enabled(s, step) && Accounted(s) && Signalled(s)
    ensures Signalled(Apply(s, step))
  {
    var t := Apply(s, step);
    SumAfter(s, step, Signals);
    SumNonNegative(t.agents, Signals);
    hide Sum;
    if SomeoneWaits(t) && !SomeoneWaits(s) {
      // Only a thread that has just found nothing to take goes to sleep.
      var j :| 0 <= j < |t.agents| && t.agents[j].Waiting?;
      assert step.Enter? && step.i == j;
    }
  }

  /** Signals are real: a thread is about to notify only after it returned an instance or
      gave up a reservation, and is notified only by a thread that was about to. */
  lemma SignalsAreReal(s: State, step: Step, j: nat)
    requires Enabled(s, step) && j < |Apply(s, step).agents|
    requires j < |s.agents| ==> Apply(s, step).agents[j] != s.agents[j]
    ensures var t := Apply(s, step);
            && (t.agents[j].NotifyDue? ==>
                  && j < |s.agents| && (s.agents[j].Returning? || s.agents[j].Building?)
                  && |t.free| + s.config.maxInstances - t.live == |s.free| + s.config.maxInstances - s.live + 1)
            && (t.agents[j].Awake? && t.agents[j].notified ==>
                  && step.Notify? && step.woken == Some(j) && s.agents[j].Waiting?
                  && s.agents[step.i].NotifyDue? && t.agents[step.i].Finished?)
  {
    hide SomeoneWaits, Counted, Eligible, Noted, Instances, StalePrefix;
  }

  predicate HasDeadline(p: Phase) { p.Entering? || p.Waiting? || p.Awake? }

  /** What a pass through the lock comes to for a thread that wants an instance: the last
      one returned, else a reservation, else the end of its time or sleep; it gives up
      only when its time is over and there is nothing to have. */
  lemma EnterIsRight(s: State, i: nat)
    requires Enabled(s, Enter(i))
    ensures var p, room := Apply(s, Enter(i)).agents[i], s.live < s.config.maxInstances;
            && (p.Leased? <==> s.free != []) && (p.Leased? ==> p.slot == s.free[|s.free| - 1])
            && (p.Building? <==> s.free == [] && room)
            && (p == Finished <==> s.free == [] && !room && s.now >= s.agents[i].deadline)
            && (p == Waiting(s.agents[i].deadline) <==> s.free == [] && !room && s.now < s.agents[i].deadline)
  {
  }

  /** A thread's time is what it asked for, however often it sleeps and wakes. */
  lemma DeadlineStays(s: State, step: Step, j: nat)
    requires Enabled(s, step) && j < |Apply(s, step).agents| && HasDeadline(Apply(s, step).agents[j])
    ensures if j < |s.agents| then HasDeadline(s.agents[j]) && s.agents[j].deadline == Apply(s, step).agents[j].deadline
            else step.CallGet? && Apply(s, step).agents[j].deadline == s.now + step.timeout
  {
    hide SomeoneWaits, Counted, Eligible, Noted, Instances, StalePrefix;
  }

  // ------------------------------------------------------------ whereabouts

  /** How often an instance is found: in the free list, in a thread's hands, or gone. */
  function Found(s: State, x: nat): int {
    Copies(Instances(s.free), x) + Sum(s.agents, Holds(x)) + Copies(s.recycled, x) + Copies(s.evicted, x)
  }

  /** Every instance ever built is in exactly one place, exactly once. */
  ghost predicate OnePlaceEach(s: State) {
    && (forall x: nat :: Found(s, x) == if x < s.built then 1 else 0)
    && s.built == |s.free| + Sum(s.agents, Holding) + |s.recycled| + |s.evicted|
  }

  lemma StepFound(s: State, step: Step, x: nat)
    requires Enabled(s, step)
    ensures Found(Apply(s, step), x) - Found(s, x) == if Apply(s, step).built > s.built && x == s.built then 1 else 0
  {
    hide Sum, Copies, Instances, Counted, Eligible, SomeoneWaits;
    var t := Apply(s, step);
    SumAfter(s, step, Holds(x));
    match step
    case Enter(i) =>
      if s.free != [] {
        var last := s.free[|s.free| - 1];
        assert s.free == t.free + [last];
        InstancesAppend(t.free, [last], x);
        InstancesOfOne(last, x);
      }
    case NoteCall(i, size, factoryWorks) =>
      CopiesAppend(s.recycled, [s.agents[i].slot.instance], x);
      CopiesOfOne(s.agents[i].slot.instance, x);
    case Push(i) =>
      InstancesAppend(s.free, [s.agents[i].slot], x);
      InstancesOfOne(s.agents[i].slot, x);
    case Evict(clock, idleFor) =>
      var n := StalePrefix(s.free, clock, idleFor);
      assert s.free == s.free[..n] + s.free[n..];
      InstancesAppend(s.free[..n], s.free[n..], x);
      CopiesAppend(s.evicted, Instances(s.free[..n]), x);
    case _ =>
  }

  lemma StepBuilt(s: State, step: Step)
    requires Enabled(s, step)
    ensures var t := Apply(s, step);
            && t.built - |t.free| - Sum(t.agents, Holding) - |t.recycled| - |t.evicted|
               == s.built - |s.free| - Sum(s.agents, Holding) - |s.recycled| - |s.evicted|
            && s.built <= t.built <= s.built + 1
  {
    hide Sum, Counted, Eligible, SomeoneWaits;
    SumAfter(s, step, Holding);
  }

  lemma StepOnePlaceEach(s: State, step: Step)
    requires Enabled(s, step) && OnePlaceEach(s)
    ensures OnePlaceEach(Apply(s, step))
  {
    hide Sum, Found, Apply, Enabled;
    StepBuilt(s, step);
    forall x: nat ensures Found(Apply(s, step), x) == if x < Apply(s, step).built then 1 else 0 {
      StepFound(s, step, x);
    }
  }

  // ------------------------------------------------------------ anti-thrash

  function Product(n: nat, k: nat): nat { n * k }

  /** The calls and bytes that led to recycling, and those counted in instances that
      still exist, are among those noted. */
  ghost predicate Thrifty(s: State) {
    && Product(|s.recycled|, s.config.minCalls) + SumSlots(s.free, Calls) + Sum(s.agents, CallsOf) <= s.notes
    && (s.config.reclaimBytes.None? ==> s.recycled == [])
    && (s.config.reclaimBytes.Some? ==>
          Product(|s.recycled|, s.config.reclaimBytes.value + 1) + SumSlots(s.free, Bytes) + Sum(s.agents, BytesOf) <= s.bytes)
  }

  /** What a step moves from the free list into a thread's hands. */
  function Moved(s: State, step: Step, g: Usage -> nat): int
    requires Enabled(s, step)
  {
    match step
    case Enter(i) => if s.free == [] then 0 else g(s.free[|s.free| - 1].usage)
    case Push(i) => 0 - g(s.agents[i].slot.usage)
    case _ => 0
  }

  lemma StepFreeCounted(s: State, step: Step, g: Usage -> nat)
    requires Enabled(s, step)
    ensures SumSlots(Apply(s, step).free, g) <= SumSlots(s.free, g) - Moved(s, step, g)
  {
    hide SumSlots, Counted, Eligible, Noted, SomeoneWaits, Instances;
    var t := Apply(s, step);
    match step
    case Enter(i) =>
      if s.free != [] {
        var last := s.free[|s.free| - 1];
        assert s.free == t.free + [last];
        SumSlotsAppend(t.free, [last], g);
        SumSlotsOne(last, g);
      }
    case Push(i) =>
      SumSlotsAppend(s.free, [s.agents[i].slot], g);
      SumSlotsOne(s.agents[i].slot, g);
    case Evict(clock, idleFor) =>
      var n := StalePrefix(s.free, clock, idleFor);
      assert s.free == s.free[..n] + s.free[n..];
      SumSlotsAppend(s.free[..n], s.free[n..], g);
    case _ =>
  }

  lemma StepHeldCounted(s: State, step: Step, g: Usage -> nat, f: Phase -> int)
    requires Enabled(s, step) && forall p :: f(p) == SumSlots(SlotsOf(p), g)
    requires g(Usage(0, 0)) == 0
    ensures var t := Apply(s, step);
            Sum(t.agents, f) == Sum(s.agents, f) + Moved(s, step, g) +
            if step.NoteCall? then g(t.agents[step.i].slot.usage) - g(s.agents[step.i].slot.usage) else 0
  {
    hide Sum, SumSlots, Counted, Eligible, Noted, SomeoneWaits, Instances;
    SumAfter(s, step, f);
    SumSlotsNone(g);
    forall slot: Slot ensures f(Leased(slot)) == f(Returning(slot)) == g(slot.usage) {
      SumSlotsOne(slot, g);
    }
  }

  /** How an enabled step changes what the existing instances have counted. */
  lemma StepCounted(s: State, step: Step, g: Usage -> nat, f: Phase -> int)
    requires Enabled(s, step) && forall p :: f(p) == SumSlots(SlotsOf(p), g)
    requires g(Usage(0, 0)) == 0
    ensures var t := Apply(s, step);
            SumSlots(t.free, g) + Sum(t.agents, f) <=
            SumSlots(s.free, g) + Sum(s.agents, f) +
            if step.NoteCall? then g(t.agents[step.i].slot.usage) - g(s.agents[step.i].slot.usage) else 0
  {
    StepFreeCounted(s, step, g);
    StepHeldCounted(s, step, g, f);
  }

  lemma OneMore(n: nat, k: nat)
    ensures Product(n + 1, k) == Product(n, k) + k
  {
  }

  /** A call noted adds at most what it was, and recycling starts from zero, after the
      floor and the budget were met. */
  lemma StepNoted(s: State, step: Step)
    requires Enabled(s, step)
    ensures var t := Apply(s, step);
            && t.config == s.config
            && if step.NoteCall? then
                 var u, v := s.agents[step.i].slot.usage, t.agents[step.i].slot.usage;
                 && t.notes == s.notes + 1 && t.bytes == s.bytes + step.size
                 && if t.recycled == s.recycled then v.calls <= u.calls + 1 && v.bytes <= u.bytes + step.size
                    else
                      && |t.recycled| == |s.recycled| + 1 && v == Usage(0, 0)
                      && u.calls + 1 >= s.config.minCalls
                      && s.config.reclaimBytes.Some? && u.bytes + step.size > s.config.reclaimBytes.value
               else t.recycled == s.recycled && t.notes == s.notes && t.bytes == s.bytes
  {
    hide SomeoneWaits, Instances;
  }

  lemma StepThrifty(s: State, step: Step)
    requires Enabled(s, step) && Thrifty(s)
    ensures Thrifty(Apply(s, step))
  {
    StepNoted(s, step);
    StepCounted(s, step, Calls, CallsOf);
    StepCounted(s, step, Bytes, BytesOf);
    hide Sum, SumSlots, Product, Apply, Enabled;
    OneMore(|s.recycled|, s.config.minCalls);
    if s.config.reclaimBytes.Some? {
      OneMore(|s.recycled|, s.config.reclaimBytes.value + 1);
    }
  }

  // ----------------------------------------------------------- memory bound

  /** Both thresholds are met: the instance should have been recycled. */
  function Bloated(config: Config): Usage -> nat {
    (u: Usage) =>
      if config.reclaimBytes.Some? && u.calls >= config.minCalls && u.bytes > config.reclaimBytes.value then 1 else 0
  }

  function HoldsBloated(config: Config): Phase -> int { (p: Phase) => SumSlots(SlotsOf(p), Bloated(config)) }

  /** Every bloated instance is owed to a replacement that could not be built. */
  ghost predicate Trimmed(s: State) {
    && s.config.minCalls >= 1
    && SumSlots(s.free, Bloated(s.config)) + Sum(s.agents, HoldsBloated(s.config)) <= s.failures
  }

  lemma StepTrimmed(s: State, step: Step)
    requires Enabled(s, step) && Trimmed(s)
    ensures Trimmed(Apply(s, step))
  {
    StepCounted(s, step, Bloated(s.config), HoldsBloated(s.config));
    BloatedOrFailed(s, step);
    hide Sum, SumSlots, Apply, Enabled;
  }

  /** A call noted leaves the instance bloated only if it could not be replaced. */
  lemma BloatedOrFailed(s: State, step: Step)
    requires Enabled(s, step) && s.config.minCalls >= 1
    ensures var t := Apply(s, step);
            && t.config == s.config && t.failures >= s.failures
            && (step.NoteCall? ==> Bloated(s.config)(t.agents[step.i].slot.usage) <= t.failures - s.failures)
  {
    hide SomeoneWaits, Instances;
  }

  lemma {:induction false} SumSlotsAtLeast(slots: seq<Slot>, i: nat, g: Usage -> nat)
    requires i < |slots|
    ensures g(slots[i].usage) <= SumSlots(slots, g)
  {
    if i > 0 {
      SumSlotsAtLeast(slots[1..], i - 1, g);
    }
  }

  // ---------------------------------------------------------------- metrics

  /** Every factory call that has ended built an instance or failed. */
  ghost predicate Tallied(s: State) { s.created == s.built + s.failures }

  lemma StepTallied(s: State, step: Step)
    requires Enabled(s, step) && Tallied(s)
    ensures Tallied(Apply(s, step))
  {
    hide Counted, Eligible, Noted, SomeoneWaits, Instances;
  }

  // ---------------------------------------------------------- the whole run

  ghost predicate Inv(s: State) {
    Accounted(s) && Signalled(s) && OnePlaceEach(s) && Thrifty(s) && Tallied(s) && Trimmed(s)
  }

  lemma {:induction false} RunKeepsInv(s: State, steps: seq<Step>, t: State)
    requires Inv(s) && Run(s, steps, t)
    ensures Inv(t) && t.config == s.config
    decreases |steps|
  {
    hide Accounted, Signalled, OnePlaceEach, Thrifty, Tallied, Trimmed, Enabled;
    if steps != [] {
      StepAccounted(s, steps[0]);
      StepSignalled(s, steps[0]);
      StepOnePlaceEach(s, steps[0]);
      StepThrifty(s, steps[0]);
      StepTallied(s, steps[0]);
      StepTrimmed(s, steps[0]);
      RunKeepsInv(Apply(s, steps[0]), steps[1..], t);
    }
  }

  lemma InitInv(config: Config)
    requires config.Valid()
    ensures Inv(Init(config))
  {
  }

  /** Accounting over every run: `live` is what is free, leased, returning or being
      built; it stays within bounds, so no decrement underflows; every instance is in
      one place; and built = free + held + recycled + evicted. */
  lemma PoolAccounting(config: Config, steps: seq<Step>, s: State)
    requires config.Valid() && Run(Init(config), steps, s)
    ensures s.live == |s.free| + Sum(s.agents, Occupies)
    ensures |s.free| <= s.live <= config.maxInstances
    ensures (exists i :: 0 <= i < |s.agents| && s.agents[i].Building?) ==> s.live > 0
    ensures forall x: nat :: Found(s, x) == if x < s.built then 1 else 0
    ensures s.built == |s.free| + Sum(s.agents, Holding) + |s.recycled| + |s.evicted|
  {
    InitInv(config);
    RunKeepsInv(Init(config), steps, s);
    SumNonNegative(s.agents, Occupies);
    forall i | 0 <= i < |s.agents| && s.agents[i].Building? ensures s.live > 0 {
      SumAtLeast(s.agents, i, Occupies);
    }
  }

  lemma {:induction false} OccupiesSplits(agents: seq<Phase>)
    ensures Sum(agents, Occupies) == Sum(agents, Holding) + Sum(agents, InBuild)
  {
    if agents != [] {
      OccupiesSplits(agents[1..]);
    }
  }

  /** What the pool adds to the metrics' formula for the pool size: created - recycled -
      evicted. */
  function Formula(s: State): int { s.created - |s.recycled| - |s.evicted| }

  function UnderWay(s: State): int { Sum(s.agents, InBuild) }

  /** The instances that are there: free, leased or being returned. */
  function Owned(s: State): int { |s.free| + Sum(s.agents, Holding) }

  lemma FormulaMeans(s: State)
    requires Inv(s)
    ensures Formula(s) == Owned(s) + s.failures && Owned(s) == s.live - UnderWay(s) >= 0
    ensures UnderWay(s) >= 0 && (UnderWay(s) == 0 <==> forall i :: 0 <= i < |s.agents| ==> !s.agents[i].Building?)
  {
    OccupiesSplits(s.agents);
    SumNonNegative(s.agents, InBuild);
    SumNonNegative(s.agents, Holding);
    if UnderWay(s) > 0 {
      var i := SumPositive(s.agents, InBuild);
      assert s.agents[i].Building?;
    } else {
      forall i | 0 <= i < |s.agents| ensures !s.agents[i].Building? {
        SumAtLeast(s.agents, i, InBuild);
      }
    }
  }

  /** In the life of one pool the formula leaves out the builds under way and counts every
      factory call that ever failed. So it is `live` exactly when as many calls have
      failed as builds are under way: if none has failed, when no build is under way. */
  lemma MetricsFormula(config: Config, steps: seq<Step>, s: State)
    requires config.Valid() && Run(Init(config), steps, s)
    ensures Formula(s) == s.live - UnderWay(s) + s.failures
    ensures Formula(s) == s.live <==> s.failures == UnderWay(s)
    ensures UnderWay(s) == 0 <==> forall i :: 0 <= i < |s.agents| ==> !s.agents[i].Building?
  {
    InitInv(config);
    RunKeepsInv(Init(config), steps, s);
    FormulaMeans(s);
  }

  /** One failed build, and the formula shows an instance in an empty pool in which nobody
      is building. */
  lemma FailedBuildIsCounted(config: Config) returns (s: State)
    requires config.Valid()
    ensures Run(Init(config), [CallGet(0), Enter(0), BuildFailed(0)], s)
    ensures s.live == 0 && s.free == [] && s.agents == [NotifyDue]
    ensures Formula(s) == 1
  {
    var called := Apply(Init(config), CallGet(0));
    var reserved := Apply(called, Enter(0));
    s := Apply(reserved, BuildFailed(0));
    assert Run(s, [], s) && Run(reserved, [BuildFailed(0)], s) && Run(called, [Enter(0), BuildFailed(0)], s);
  }

  /** No lost wakeup: whoever sleeps unnotified has nothing to take beyond what the
      notifications under way will lead their receivers to. */
  lemma NoLostWakeup(config: Config, steps: seq<Step>, s: State)
    requires config.Valid() && Run(Init(config), steps, s)
    ensures SomeoneWaits(s) ==> |s.free| + config.maxInstances - s.live <= Sum(s.agents, Signals)
  {
    InitInv(config);
    RunKeepsInv(Init(config), steps, s);
  }

  /** So when nobody is notified or about to notify, a sleeper waits for a thread that
      is leasing, returning or building: one of these has yet to notify it. */
  lemma SleeperHasProvider(config: Config, steps: seq<Step>, s: State) returns (i: nat)
    requires config.Valid() && Run(Init(config), steps, s)
    requires SomeoneWaits(s)
    ensures i < |s.agents|
    ensures var p := s.agents[i];
            p.NotifyDue? || (p.Awake? && p.notified) || p.Building? || p.Leased? || p.Returning?
  {
    NoLostWakeup(config, steps, s);
    PoolAccounting(config, steps, s);
    if Sum(s.agents, Signals) > 0 {
      i := SumPositive(s.agents, Signals);
    } else {
      i := SumPositive(s.agents, Occupies);
    }
  }

  /** Anti-thrash over every run, summed over all instances: at most one recycling per
      `minCalls` calls noted and, with a byte budget, per budget exceeded. */
  lemma AntiThrash(config: Config, steps: seq<Step>, s: State)
    requires config.Valid() && Run(Init(config), steps, s)
    ensures |s.recycled| * config.minCalls <= s.notes
    ensures config.reclaimBytes.Some? ==> |s.recycled| * (config.reclaimBytes.value + 1) <= s.bytes
    ensures config.reclaimBytes.None? ==> s.recycled == []
  {
    InitInv(config);
    RunKeepsInv(Init(config), steps, s);
    SumNonNegative(s.agents, CallsOf);
    SumNonNegative(s.agents, BytesOf);
  }

  /** The memory bound, for which instances are recycled: over every run at most as many
      instances have met both thresholds as factory calls have failed. So while none has
      failed, none that is free, leased or returning has. */
  lemma MemoryBound(config: Config, steps: seq<Step>, s: State)
    requires config.Valid() && Run(Init(config), steps, s)
    ensures SumSlots(s.free, Bloated(config)) + Sum(s.agents, HoldsBloated(config)) <= s.failures
    ensures config.reclaimBytes.Some? && s.failures == 0 ==>
              && (forall i :: 0 <= i < |s.free| ==>
                    s.free[i].usage.calls < config.minCalls || s.free[i].usage.bytes <= config.reclaimBytes.value)
              && (forall i :: 0 <= i < |s.agents| && (s.agents[i].Leased? || s.agents[i].Returning?) ==>
                    var u := s.agents[i].slot.usage; u.calls < config.minCalls || u.bytes <= config.reclaimBytes.value)
  {
    InitInv(config);
    RunKeepsInv(Init(config), steps, s);
    SumNonNegative(s.agents, HoldsBloated(config));
    forall i | 0 <= i < |s.free| ensures Bloated(config)(s.free[i].usage) <= SumSlots(s.free, Bloated(config)) {
      SumSlotsAtLeast(s.free, i, Bloated(config));
    }
    forall i | 0 <= i < |s.agents| && (s.agents[i].Leased? || s.agents[i].Returning?)
      ensures Bloated(config)(s.agents[i].slot.usage) <= Sum(s.agents, HoldsBloated(config))
    {
      SumAtLeast(s.agents, i, HoldsBloated(config));
      SumSlotsOne(s.agents[i].slot, Bloated(config));
    }
  }
}
