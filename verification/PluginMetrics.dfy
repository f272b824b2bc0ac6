/** The pool-size metrics of one plugin, whose counters run on while it is unloaded and
    loaded again: the pool it leaves behind keeps its instances, and no counter says so. */
module PluginMetrics {
  import opened Options
  import opened Pool
  import opened PoolMachine

  /** The pools left behind by earlier loads, in which calls that had begun may go on, and
      the pool of the present one. */
  datatype Plugin = Plugin(dropped: seq<State>, current: Option<State>)

  datatype Event =
    | Load(config: Config)
    | Unload
    | OnCurrent(step: Step)
    | OnDropped(k: nat, step: Step)

  const NOT_LOADED := Plugin([], None)

  /** Loading a loaded plugin does nothing; reloading one is unloading and loading it. */
  ghost predicate Allowed(p: Plugin, event: Event) {
    match event
    case Load(config) => config.Valid()
    case Unload => true
    case OnCurrent(step) => p.current.Some? && Enabled(p.current.value, step)
    case OnDropped(k, step) => k < |p.dropped| && Enabled(p.dropped[k], step)
  }

  function Next(p: Plugin, event: Event): Plugin
    requires Allowed(p, event)
  {
    match event
    case Load(config) => if p.current.Some? then p else p.(current := Some(Init(config)))
    case Unload => if p.current.Some? then Plugin(p.dropped + [p.current.value], None) else p
    case OnCurrent(step) => p.(current := Some(Apply(p.current.value, step)))
    case OnDropped(k, step) => p.(dropped := p.dropped[k := Apply(p.dropped[k], step)])
  }

  ghost predicate History(p: Plugin, events: seq<Event>, q: Plugin)
    decreases |events|
  {
    if events == [] then p == q else Allowed(p, events[0]) && History(Next(p, events[0]), events[1..], q)
  }

  function Total(pools: seq<State>, f: State -> int): int {
    if pools == [] then 0 else f(pools[0]) + Total(pools[1..], f)
  }

  function Pools(p: Plugin): seq<State> { if p.current.Some? then [p.current.value] + p.dropped else p.dropped }

  function Failures(s: State): int { s.failures }

  /** The counters know the plugin, not the pool. */
  function PluginFormula(p: Plugin): int { Total(Pools(p), Formula) }

  function PoolSize(p: Plugin): int { if p.current.Some? then p.current.value.live else 0 }

  function BuildsUnderWay(p: Plugin): int { if p.current.Some? then UnderWay(p.current.value) else 0 }

  ghost predicate AllInv(p: Plugin) {
    forall s :: s in Pools(p) ==> Inv(s)
  }

  lemma NextKeepsInv(p: Plugin, event: Event)
    requires AllInv(p) && Allowed(p, event)
    ensures AllInv(Next(p, event))
  {
    hide Inv, Enabled, Apply;
    var q := Next(p, event);
    match event
    case Load(config) => InitInv(config);
    case Unload =>
    case OnCurrent(step) =>
      assert p.current.value in Pools(p);
      StepKeepsInv(p.current.value, step);
      assert forall s :: s in p.dropped ==> s in Pools(p);
    case OnDropped(k, step) =>
      assert p.dropped[k] in Pools(p);
      StepKeepsInv(p.dropped[k], step);
      assert forall s :: s in Pools(q) ==> s in Pools(p) || s == Apply(p.dropped[k], step);
  }

  lemma StepKeepsInv(s: State, step: Step)
    requires Inv(s) && Enabled(s, step)
    ensures Inv(Apply(s, step))
  {
    hide Inv, Enabled, Apply;
    assert Run(Apply(s, step), [], Apply(s, step));
    RunKeepsInv(s, [step], Apply(s, step));
  }

  lemma {:induction false} HistoryKeepsInv(p: Plugin, events: seq<Event>, q: Plugin)
    requires AllInv(p) && History(p, events, q)
    ensures AllInv(q)
    decreases |events|
  {
    hide AllInv, Allowed, Next;
    if events != [] {
      NextKeepsInv(p, events[0]);
      HistoryKeepsInv(Next(p, events[0]), events[1..], q);
    }
  }

  lemma {:induction false} TotalFormula(pools: seq<State>)
    requires forall s :: s in pools ==> Inv(s)
    ensures Total(pools, Formula) == Total(pools, Owned) + Total(pools, Failures)
    ensures Total(pools, Owned) >= 0 && Total(pools, Failures) >= 0
  {
    hide Inv, Formula, Owned;
    if pools != [] {
      assert pools[0] in pools;
      FormulaMeans(pools[0]);
      TotalFormula(pools[1..]);
    }
  }

  /** Through any loads, unloads and calls the metrics' formula counts what is there in every
      pool the plugin ever had, and every factory call that ever failed. So it is the size
      of the pool exactly when the failed calls and the instances of the pools left behind
      are together as many as the builds under way. */
  lemma MetricsThroughReloads(events: seq<Event>, p: Plugin)
    requires History(NOT_LOADED, events, p)
    ensures var excess := Total(p.dropped, Owned) + Total(Pools(p), Failures);
            && PluginFormula(p) == PoolSize(p) - BuildsUnderWay(p) + excess
            && (PluginFormula(p) == PoolSize(p) <==> excess == BuildsUnderWay(p))
            && excess >= 0
  {
    HistoryKeepsInv(NOT_LOADED, events, p);
    TotalFormula(Pools(p));
    TotalFormula(p.dropped);
    if p.current.Some? {
      FormulaMeans(p.current.value);
      assert p.current.value in Pools(p) && Pools(p)[1..] == p.dropped;
    }
  }

  /** One instance built and the plugin reloaded: nothing has failed and nobody builds, yet
      the formula shows an instance and the pool is empty. */
  lemma ReloadIsNotSubtracted(config: Config) returns (p: Plugin)
    requires config.Valid()
    ensures History(NOT_LOADED, [Load(config), OnCurrent(CallGet(0)), OnCurrent(Enter(0)), OnCurrent(BuildDone(0)),
                                 Unload, Load(config)], p)
    ensures p.current == Some(Init(config)) && PoolSize(p) == 0 && Total(Pools(p), Failures) == 0
    ensures PluginFormula(p) == 1
  {
    var called := Apply(Init(config), CallGet(0));
    var reserved := Apply(called, Enter(0));
    var built := Apply(reserved, BuildDone(0));
    p := Plugin([built], Some(Init(config)));
    assert built.failures == 0 && Formula(built) == 1;
    assert Total([built], Formula) == 1 && Total([built], Failures) == 0 && Pools(p)[1..] == [built];
    hide Formula, Total;
    var reload := [Unload, Load(config)];
    assert History(Plugin([built], None), [Load(config)], p) by { assert History(p, [], p); }
    assert History(Plugin([], Some(built)), reload, p) by {
      assert reload[1..] == [Load(config)] && [] + [built] == [built];
    }
    var build := [OnCurrent(BuildDone(0))] + reload;
    assert History(Plugin([], Some(reserved)), build, p) by { assert build[1..] == reload; }
    var enter := [OnCurrent(Enter(0))] + build;
    assert History(Plugin([], Some(called)), enter, p) by { assert enter[1..] == build; }
    var call := [OnCurrent(CallGet(0))] + enter;
    assert History(Plugin([], Some(Init(config))), call, p) by { assert call[1..] == enter; }
    assert ([Load(config)] + call)[1..] == call;
    assert [Load(config)] + call == [Load(config), OnCurrent(CallGet(0)), OnCurrent(Enter(0)), OnCurrent(BuildDone(0)),
                                     Unload, Load(config)];
  }
}
