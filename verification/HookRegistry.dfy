/** Registering and unregistering plugins' hooks, and which hooks a dispatch can call. */
module HookRegistry {
  import opened Options
  import opened Submissions
  import opened Hooks

  function Retain(entries: seq<HookEntry>, pluginId: string): seq<HookEntry> {
    if entries == [] then []
    else if entries[0].pluginId != pluginId then [entries[0]] + Retain(entries[1..], pluginId)
    else Retain(entries[1..], pluginId)
  }

  /** How often the topic is listed. */
  function Times(topics: seq<string>, topic: string): nat {
    if topics == [] then 0 else (if topics[0] == topic then 1 else 0) + Times(topics[1..], topic)
  }

  lemma {:induction false} TimesAppend(topics: seq<string>, last: string, topic: string)
    ensures Times(topics + [last], topic) == Times(topics, topic) + if last == topic then 1 else 0
  {
    if topics == [] {
      assert topics + [last] == [last];
      assert Times([last], topic) == (if last == topic then 1 else 0) + Times([], topic);
    } else {
      assert (topics + [last])[1..] == topics[1..] + [last];
      TimesAppend(topics[1..], last, topic);
    }
  }

  function Repeated(entry: HookEntry, n: nat): seq<HookEntry> { seq(n, _ => entry) }

  /** The topic's list has grown by the hook, once for each time it was listed. */
  ghost predicate Registered(start: Registry, now: Registry, entry: HookEntry, topics: seq<string>, t: string) {
    HooksOn(now, t) == HooksOn(start, t) + Repeated(entry, Times(topics, t))
  }

  lemma RegisteredOnceMore(start: Registry, now: Registry, entry: HookEntry, topics: seq<string>, topic: string, t: string)
    requires Registered(start, now, entry, topics, t)
    ensures Registered(start, now[topic := HooksOn(now, topic) + [entry]], entry, topics + [topic], t)
  {
    TimesAppend(topics, topic, t);
    var n := Times(topics, t);
    assert Repeated(entry, n + 1) == Repeated(entry, n) + [entry];
  }

  class ServerHookRegistry {
    var hooks: Registry

    constructor ()
      ensures hooks == map[]
    {
      hooks := map[];
    }

    /** Every listed topic gets the hook at the end of its list, each time it is listed. */
    method Register(entry: HookEntry, topics: seq<string>)
      modifies this
      ensures forall t :: Registered(old(hooks), hooks, entry, topics, t)
    {
      ghost var start := hooks;
      assert forall t :: Registered(start, hooks, entry, [], t);
      hide Registered;
      for i := 0 to |topics|
        invariant forall t :: Registered(start, hooks, entry, topics[..i], t)
      {
        ghost var before := hooks;
        hooks := hooks[topics[i] := HooksOn(hooks, topics[i]) + [entry]];
        ghost var listed := topics[..i + 1];
        assert listed == topics[..i] + [topics[i]];
        forall t ensures Registered(start, hooks, entry, listed, t) {
          RegisteredOnceMore(start, before, entry, topics[..i], topics[i], t);
        }
      }
      assert topics[..|topics|] == topics;
    }

    method UnregisterPlugin(pluginId: string)
      modifies this
      ensures forall t :: HooksOn(hooks, t) == Retain(HooksOn(old(hooks), t), pluginId)
    {
      hooks := map topic | topic in hooks :: Retain(hooks[topic], pluginId);
    }
  }

  lemma {:induction false} RetainAppend(a: seq<HookEntry>, b: seq<HookEntry>, pluginId: string)
    ensures Retain(a + b, pluginId) == Retain(a, pluginId) + Retain(b, pluginId)
  {
    if a == [] {
      assert a + b == b;
    } else {
      assert (a + b)[1..] == a[1..] + b;
      RetainAppend(a[1..], b, pluginId);
    }
  }

  lemma {:induction false} RetainNone(entry: HookEntry, n: nat)
    ensures Retain(Repeated(entry, n), entry.pluginId) == []
  {
    if n > 0 {
      assert Repeated(entry, n)[1..] == Repeated(entry, n - 1);
      RetainNone(entry, n - 1);
    }
  }

  /** Unregistering a plugin undoes any of its registrations. */
  lemma UnregisterUndoesRegister(entries: seq<HookEntry>, entry: HookEntry, n: nat)
    ensures Retain(entries + Repeated(entry, n), entry.pluginId) == Retain(entries, entry.pluginId)
  {
    RetainAppend(entries, Repeated(entry, n), entry.pluginId);
    RetainNone(entry, n);
  }

  lemma {:induction false} RetainedAreOthers(entries: seq<HookEntry>, pluginId: string)
    ensures forall h :: h in Retain(entries, pluginId) <==> h in entries && h.pluginId != pluginId
  {
    if entries != [] {
      RetainedAreOthers(entries[1..], pluginId);
    }
  }

  // --------------------------------------------------------- who can be called

  /** The call is of a registered hook on its topic, global or of an enabled plugin. */
  ghost predicate Sourced(env: Env, c: Call) {
    exists h :: h in HooksOn(env.registry, c.topic) &&
      h.pluginId == c.pluginId && h.mode == c.mode && (exists past :: c.reply == h.hook(past, c.topic, c.payload))
      && (h.scope.Global? || (env.enabled.Some? && h.pluginId in env.enabled.value))
  }

  ghost predicate EntrySourced(env: Env, topic: string, e: Entry) {
    exists h :: h in HooksOn(env.registry, topic) &&
      h.pluginId == e.pluginId && h.mode == e.mode && h.hook == e.hook
      && (h.scope.Global? || (env.enabled.Some? && h.pluginId in env.enabled.value))
  }

  lemma {:induction false} EligibleSourced(env: Env, topic: string, entries: seq<HookEntry>)
    requires forall h :: h in entries ==> h in HooksOn(env.registry, topic)
    ensures forall e :: e in Eligible(entries, env.enabled) ==> EntrySourced(env, topic, e)
  {
    if entries != [] {
      assert entries[0] in entries;
      EligibleSourced(env, topic, entries[1..]);
    }
  }

  lemma {:induction false} InsertMembers(e: Entry, list: seq<Entry>)
    ensures forall x :: x in Insert(e, list) ==> x == e || x in list
  {
    if list != [] {
      InsertMembers(e, list[1..]);
    }
  }

  lemma {:induction false} SortMembers(list: seq<Entry>)
    ensures forall x :: x in StableSort(list) ==> x in list
  {
    if list != [] {
      SortMembers(list[1..]);
      InsertMembers(list[0], StableSort(list[1..]));
    }
  }

  /** Every call of a dispatch, chained events included, is of a registered hook that
      is global or whose plugin is enabled. */
  lemma {:induction false} CallsSourced(env: Env, past: seq<Call>, topic: string, payload: Json, depth: nat)
    ensures forall c :: c in Dispatch(env, past, topic, payload, depth).calls ==> Sourced(env, c)
    decreases MAX_CHAIN_DEPTH - depth, 1, 0
  {
    if depth < MAX_CHAIN_DEPTH {
      var hooks := HooksOn(env.registry, topic);
      EligibleSourced(env, topic, hooks);
      SortMembers(Eligible(hooks, env.enabled));
      EntryCallsSourced(env, past, topic, payload, DispatchList(env, topic), depth);
    }
  }

  lemma {:induction false} EntryCallsSourced(env: Env, past: seq<Call>, topic: string, payload: Json, entries: seq<Entry>, depth: nat)
    requires depth < MAX_CHAIN_DEPTH && forall e :: e in entries ==> EntrySourced(env, topic, e)
    ensures forall c :: c in RunEntries(env, past, topic, payload, entries, depth).calls ==> Sourced(env, c)
    decreases MAX_CHAIN_DEPTH - depth, 0, |entries|
  {
    if entries != [] {
      var e := entries[0];
      var reply := e.hook(past, topic, payload);
      assert EntrySourced(env, topic, e) by { assert e in entries; }
      var call := Call(depth, topic, e.pluginId, e.mode, payload, reply);
      var seen := Seen(past, [call]);
      assert Sourced(env, call);
      hide Respond, Sourced, EntrySourced;
      match Respond(env, topic, e, payload, reply)
      case Proceed(next) => EntryCallsSourced(env, seen, topic, next, entries[1..], depth);
      case Finish(_) =>
      case ChainTo(events) => ChainCallsSourced(env, seen, payload, events, depth + 1);
    }
  }

  lemma {:induction false} ChainCallsSourced(env: Env, past: seq<Call>, payload: Json, events: seq<Event>, depth: nat)
    requires depth <= MAX_CHAIN_DEPTH
    ensures forall c :: c in RunChain(env, past, payload, events, depth).calls ==> Sourced(env, c)
    decreases MAX_CHAIN_DEPTH - depth, 2, |events|
  {
    hide Sourced;
    if events != [] {
      CallsSourced(env, past, events[0].topic, events[0].payload, depth);
      var seen := Seen(past, Dispatch(env, past, events[0].topic, events[0].payload, depth).calls);
      ChainCallsSourced(env, seen, payload, events[1..], depth);
    }
  }

  /** After a plugin is unregistered no dispatch calls it, chained or not. */
  lemma UnregisteredNeverCalled(env: Env, past: seq<Call>, before: Registry, pluginId: string, topic: string, payload: Json)
    requires forall t :: HooksOn(env.registry, t) == Retain(HooksOn(before, t), pluginId)
    ensures forall c :: c in Dispatch(env, past, topic, payload, 0).calls ==> c.pluginId != pluginId
  {
    CallsSourced(env, past, topic, payload, 0);
    hide Dispatch, Retain;
    forall c | c in Dispatch(env, past, topic, payload, 0).calls
      ensures c.pluginId != pluginId
    {
      assert Sourced(env, c);
      RetainedAreOthers(HooksOn(before, c.topic), pluginId);
    }
  }
}
