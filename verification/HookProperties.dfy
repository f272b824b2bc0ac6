/** What holds of every dispatch, whatever the hooks do. */
module HookProperties {
  import opened Options
  import opened Submissions
  import opened Hooks
  import Enablement

  // ------------------------------------------------------ submission integrity

  /** The calls made at one depth. */
  function CallsAt(calls: seq<Call>, depth: nat): seq<Call> {
    if calls == [] then []
    else if calls[0].depth == depth then [calls[0]] + CallsAt(calls[1..], depth)
    else CallsAt(calls[1..], depth)
  }

  lemma {:induction false} CallsAtAppend(a: seq<Call>, b: seq<Call>, depth: nat)
    ensures CallsAt(a + b, depth) == CallsAt(a, depth) + CallsAt(b, depth)
  {
    if a == [] {
      assert a + b == b;
    } else {
      assert (a + b)[1..] == a[1..] + b;
      CallsAtAppend(a[1..], b, depth);
    }
  }

  lemma {:induction false} NoCallsAt(calls: seq<Call>, depth: nat)
    requires forall c :: c in calls ==> c.depth > depth
    ensures CallsAt(calls, depth) == []
  {
    if calls != [] {
      assert calls[0] in calls;
      NoCallsAt(calls[1..], depth);
    }
  }

  /** A blocking hook of the contest owner replied with a changed event. */
  predicate OwnerModifies(c: Call, owner: Option<string>) {
    owner == Some(c.pluginId) && c.mode.Blocking? && c.reply.Replied? && c.reply.action.Modified?
  }

  /** The admission last produced by the owner, or what there was before. */
  function LastOwnerAdmission(calls: seq<Call>, owner: Option<string>, before: Option<Json>): Option<Json> {
    if calls == [] then before
    else
      var c := calls[0];
      LastOwnerAdmission(calls[1..], owner,
        if OwnerModifies(c, owner) then Admission(c.reply.action.event.payload) else before)
  }

  lemma CallsAreDeep(env: Env, past: seq<Call>, topic: string, payload: Json, depth: nat)
    ensures forall c :: c in Dispatch(env, past, topic, payload, depth).calls ==> c.depth >= depth
    decreases MAX_CHAIN_DEPTH - depth, 1, 0
  {
    if depth < MAX_CHAIN_DEPTH {
      EntryCallsAreDeep(env, past, topic, payload, DispatchList(env, topic), depth);
    }
  }

  lemma {:induction false} EntryCallsAreDeep(env: Env, past: seq<Call>, topic: string, payload: Json, entries: seq<Entry>, depth: nat)
    requires depth < MAX_CHAIN_DEPTH
    ensures forall c :: c in RunEntries(env, past, topic, payload, entries, depth).calls ==> c.depth >= depth
    decreases MAX_CHAIN_DEPTH - depth, 0, |entries|
  {
    hide Respond;
    if entries != [] {
      var e := entries[0];
      var reply := e.hook(past, topic, payload);
      var seen := Seen(past, [Call(depth, topic, e.pluginId, e.mode, payload, reply)]);
      match Respond(env, topic, e, payload, reply)
      case Proceed(next) => EntryCallsAreDeep(env, seen, topic, next, entries[1..], depth);
      case Finish(_) =>
      case ChainTo(events) => ChainCallsAreDeep(env, seen, payload, events, depth + 1);
    }
  }

  lemma {:induction false} ChainCallsAreDeep(env: Env, past: seq<Call>, payload: Json, events: seq<Event>, depth: nat)
    requires depth <= MAX_CHAIN_DEPTH
    ensures forall c :: c in RunChain(env, past, payload, events, depth).calls ==> c.depth >= depth
    decreases MAX_CHAIN_DEPTH - depth, 2, |events|
  {
    if events != [] {
      CallsAreDeep(env, past, events[0].topic, events[0].payload, depth);
      var seen := Seen(past, Dispatch(env, past, events[0].topic, events[0].payload, depth).calls);
      ChainCallsAreDeep(env, seen, payload, events[1..], depth);
    }
  }

  /** One accepted modification keeps the attributes, and the admission unless the
      owner made it. */
  lemma AcceptKeeps(env: Env, pluginId: string, current: Json, proposed: Json)
    requires Accept(env, BEFORE_SUBMISSION, pluginId, current, proposed).Ok?
    ensures var next := Accept(env, BEFORE_SUBMISSION, pluginId, current, proposed).value;
            && Decode(next) == Decode(current)
            && Admission(next) == if env.owner == Some(pluginId) then Admission(proposed) else Admission(current)
  {
    if env.owner != Some(pluginId) && Admission(current).Some? {
      AdmissionIsNoAttribute(proposed.fields, Admission(current).value);
    }
  }

  lemma {:induction false} ChainKeepsPayload(env: Env, past: seq<Call>, payload: Json, events: seq<Event>, depth: nat)
    requires depth <= MAX_CHAIN_DEPTH
    ensures Continues(RunChain(env, past, payload, events, depth).result) ==>
              RunChain(env, past, payload, events, depth).result == Ok(Allowed(payload))
    decreases |events|
  {
    if events != [] {
      var seen := Seen(past, Dispatch(env, past, events[0].topic, events[0].payload, depth).calls);
      ChainKeepsPayload(env, seen, payload, events[1..], depth);
    }
  }

  lemma {:induction false} EntriesKeepSubmission(env: Env, past: seq<Call>, payload: Json, entries: seq<Entry>, depth: nat)
    requires depth < MAX_CHAIN_DEPTH
    ensures var run := RunEntries(env, past, BEFORE_SUBMISSION, payload, entries, depth);
            Continues(run.result) ==>
              && Decode(run.result.value.payload) == Decode(payload)
              && Admission(run.result.value.payload)
                 == LastOwnerAdmission(CallsAt(run.calls, depth), env.owner, Admission(payload))
    decreases |entries|
  {
    hide Accept, Decode, Admission, Rejection;
    if entries != [] {
      var e := entries[0];
      var reply := e.hook(past, BEFORE_SUBMISSION, payload);
      var call := Call(depth, BEFORE_SUBMISSION, e.pluginId, e.mode, payload, reply);
      var seen := Seen(past, [call]);
      match Respond(env, BEFORE_SUBMISSION, e, payload, reply)
      case Proceed(next) =>
        EntriesKeepSubmission(env, seen, next, entries[1..], depth);
        CallsAtAppend([call], RunEntries(env, seen, BEFORE_SUBMISSION, next, entries[1..], depth).calls, depth);
        ProceedKeeps(env, e, payload, reply, next);
      case Finish(result) =>
        FinishKeeps(env, e, payload, reply, result);
      case ChainTo(events) =>
        ChainKeepsPayload(env, seen, payload, events, depth + 1);
        ChainCallsAreDeep(env, seen, payload, events, depth + 1);
        var calls := RunChain(env, seen, payload, events, depth + 1).calls;
        NoCallsAt(calls, depth);
        CallsAtAppend([call], calls, depth);
    }
  }

  lemma ProceedKeeps(env: Env, e: Entry, payload: Json, reply: Reply, next: Json)
    requires Respond(env, BEFORE_SUBMISSION, e, payload, reply) == Proceed(next)
    ensures Decode(next) == Decode(payload)
    ensures var call := Call(0, BEFORE_SUBMISSION, e.pluginId, e.mode, payload, reply);
            Admission(next) == if OwnerModifies(call, env.owner) then Admission(reply.action.event.payload) else Admission(payload)
  {
    if e.mode.Blocking? && reply.action.Modified? {
      AcceptKeeps(env, e.pluginId, payload, reply.action.event.payload);
    }
  }

  lemma FinishKeeps(env: Env, e: Entry, payload: Json, reply: Reply, result: Result<Outcome, AppError>)
    requires Respond(env, BEFORE_SUBMISSION, e, payload, reply) == Finish(result)
    ensures Continues(result) ==> result == Ok(Allowed(payload)) && reply == Replied(Stop)
  {
  }

  /** Submission integrity: whatever the hooks pass, modify, stop or chain, an allowed
      submission asks for what the request asked for, and carries the admission the
      contest owner gave it last, or none. */
  lemma SubmissionIntegrity(env: Env, request: Submission)
    requires request.Valid()
    ensures var run := Dispatch(env, [], BEFORE_SUBMISSION, ToValue(request), 0);
            Continues(run.result) ==>
              && Decode(run.result.value.payload) == Some(request)
              && Admission(run.result.value.payload) == LastOwnerAdmission(CallsAt(run.calls, 0), env.owner, None)
  {
    DecodeToValue(request);
    EntriesKeepSubmission(env, [], ToValue(request), DispatchList(env, BEFORE_SUBMISSION), 0);
  }

  // ------------------------------------------------------------------- sorting

  predicate SameRank(a: Entry, b: Entry) {
    a.mode == b.mode && a.isGlobal == b.isGlobal && a.position == b.position
  }

  /** A blocking hook before a notify hook; of two such hooks a global one before one of a
      resource; of two such hooks the one with the lesser position. */
  predicate RankedBefore(a: Entry, b: Entry) {
    || (a.mode.Blocking? && b.mode.Notify?)
    || (a.mode == b.mode && a.isGlobal && !b.isGlobal)
    || (a.mode == b.mode && a.isGlobal == b.isGlobal && a.position < b.position)
  }

  /** The entries of the same rank as `e`, in order. */
  function Peers(list: seq<Entry>, e: Entry): seq<Entry> {
    if list == [] then []
    else if SameRank(list[0], e) then [list[0]] + Peers(list[1..], e)
    else Peers(list[1..], e)
  }

  ghost predicate Ordered(list: seq<Entry>) {
    forall i, j :: 0 <= i < j < |list| ==> RankedBefore(list[i], list[j]) || SameRank(list[i], list[j])
  }

  lemma {:induction false} InsertOrdered(e: Entry, list: seq<Entry>)
    requires Ordered(list)
    ensures Ordered(Insert(e, list))
    ensures forall x :: x in Insert(e, list) ==> x == e || x in list
  {
    if list != [] && !NotAfter(e, list[0]) {
      InsertOrdered(e, list[1..]);
      var rest := Insert(e, list[1..]);
      forall j | 0 <= j < |rest| ensures RankedBefore(list[0], rest[j]) || SameRank(list[0], rest[j]) {
        assert rest[j] in rest;
      }
    }
  }

  lemma {:induction false} InsertPeers(e: Entry, list: seq<Entry>, f: Entry)
    ensures Peers(Insert(e, list), f) == (if SameRank(e, f) then [e] else []) + Peers(list, f)
  {
    if list != [] && !NotAfter(e, list[0]) {
      InsertPeers(e, list[1..], f);
    }
  }

  /** The sort is what `sort_by` promises: ordered, the same entries, and entries of
      equal rank in their order of registration. */
  lemma {:induction false} StableSortSorts(list: seq<Entry>, f: Entry)
    ensures Ordered(StableSort(list))
    ensures Peers(StableSort(list), f) == Peers(list, f)
  {
    if list != [] {
      StableSortSorts(list[1..], f);
      InsertOrdered(list[0], StableSort(list[1..]));
      InsertPeers(list[0], StableSort(list[1..]), f);
    }
  }

  // ------------------------------------------------------ notify hooks are inert

  function BlockingOnly(list: seq<Entry>): seq<Entry> {
    if list == [] then []
    else if list[0].mode.Blocking? then [list[0]] + BlockingOnly(list[1..])
    else BlockingOnly(list[1..])
  }

  function BlockingHooks(entries: seq<HookEntry>): seq<HookEntry> {
    if entries == [] then []
    else if entries[0].mode.Blocking? then [entries[0]] + BlockingHooks(entries[1..])
    else BlockingHooks(entries[1..])
  }

  /** The same environment with every notify hook unregistered. */
  function WithoutNotify(env: Env): Env {
    env.(registry := map topic | topic in env.registry :: BlockingHooks(env.registry[topic]))
  }

  lemma {:induction false} BlockingCallsAppend(a: seq<Call>, b: seq<Call>)
    ensures BlockingCalls(a + b) == BlockingCalls(a) + BlockingCalls(b)
  {
    if a == [] {
      assert a + b == b;
    } else {
      assert (a + b)[1..] == a[1..] + b;
      BlockingCallsAppend(a[1..], b);
    }
  }

  lemma {:induction false} BlockingCallsOnly(calls: seq<Call>)
    ensures BlockingCalls(BlockingCalls(calls)) == BlockingCalls(calls)
  {
    if calls != [] {
      BlockingCallsOnly(calls[1..]);
    }
  }

  lemma {:induction false} EligibleBlocking(entries: seq<HookEntry>, enabled: Option<map<string, int>>)
    ensures Eligible(BlockingHooks(entries), enabled) == BlockingOnly(Eligible(entries, enabled))
  {
    if entries != [] {
      EligibleBlocking(entries[1..], enabled);
    }
  }

  lemma {:induction false} InsertBlocking(e: Entry, list: seq<Entry>)
    requires Ordered(list)
    ensures BlockingOnly(Insert(e, list)) == if e.mode.Blocking? then Insert(e, BlockingOnly(list)) else BlockingOnly(list)
  {
    if list != [] {
      if NotAfter(e, list[0]) {
        InsertFirst(e, BlockingOnly(list), list[0], list);
      } else {
        InsertBlocking(e, list[1..]);
      }
    }
  }

  /** An entry that does not come after the head of an ordered list goes before what is
      left of the list. */
  lemma {:induction false} InsertFirst(e: Entry, blocking: seq<Entry>, head: Entry, list: seq<Entry>)
    requires Ordered(list) && list != [] && head == list[0] && NotAfter(e, head)
    requires blocking == BlockingOnly(list)
    ensures Insert(e, blocking) == [e] + blocking
  {
    BlockingOnlyWithin(list);
    if blocking != [] {
      assert blocking[0] in list;
      var i :| 0 <= i < |list| && list[i] == blocking[0];
      assert NotAfter(head, list[i]) || i == 0;
    }
  }

  lemma {:induction false} BlockingOnlyWithin(list: seq<Entry>)
    ensures forall x :: x in BlockingOnly(list) ==> x in list
  {
    if list != [] {
      BlockingOnlyWithin(list[1..]);
    }
  }

  lemma {:induction false} SortBlocking(list: seq<Entry>)
    ensures StableSort(BlockingOnly(list)) == BlockingOnly(StableSort(list))
  {
    if list != [] {
      SortBlocking(list[1..]);
      StableSortSorts(list[1..], list[0]);
      InsertBlocking(list[0], StableSort(list[1..]));
    }
  }

  /** Dropping notify hooks drops them from every dispatch list and nothing else. */
  lemma ListWithoutNotify(env: Env, topic: string)
    ensures DispatchList(WithoutNotify(env), topic) == BlockingOnly(DispatchList(env, topic))
  {
    var entries := HooksOn(env.registry, topic);
    EligibleBlocking(entries, env.enabled);
    SortBlocking(Eligible(entries, env.enabled));
    assert HooksOn(WithoutNotify(env).registry, topic) == BlockingHooks(entries);
  }

  /** Two runs with the same result and the same blocking calls. */
  ghost predicate Alike(with: Run, without: Run) {
    without == Run(with.result, BlockingCalls(with.calls))
  }

  lemma AlikeAfter(with: Run, without: Run, calls: seq<Call>)
    requires Alike(with, without)
    ensures Alike(with.After(calls), without.After(BlockingCalls(calls)))
  {
    BlockingCallsAppend(calls, with.calls);
  }

  /** Notify hooks never influence a dispatch, at any depth of chaining: unregistering
      all of them leaves the result, and every call of a blocking hook with its
      payload and reply, as they were. */
  lemma {:induction false} NotifyHooksAreInert(env: Env, past: seq<Call>, topic: string, payload: Json, depth: nat)
    ensures Alike(Dispatch(env, past, topic, payload, depth), Dispatch(WithoutNotify(env), past, topic, payload, depth))
    decreases MAX_CHAIN_DEPTH - depth, 1, 0
  {
    hide DispatchList;
    if depth < MAX_CHAIN_DEPTH {
      ListWithoutNotify(env, topic);
      EntriesWithoutNotify(env, past, topic, payload, DispatchList(env, topic), depth);
    }
  }

  lemma {:induction false} EntriesWithoutNotify(env: Env, past: seq<Call>, topic: string, payload: Json, entries: seq<Entry>, depth: nat)
    requires depth < MAX_CHAIN_DEPTH
    ensures Alike(RunEntries(env, past, topic, payload, entries, depth),
                  RunEntries(WithoutNotify(env), past, topic, payload, BlockingOnly(entries), depth))
    decreases MAX_CHAIN_DEPTH - depth, 0, |entries|
  {
    if entries != [] {
      var e := entries[0];
      var reply := e.hook(past, topic, payload);
      var call := Call(depth, topic, e.pluginId, e.mode, payload, reply);
      var bare := WithoutNotify(env);
      var seen := Seen(past, [call]);
      assert BlockingCalls([call]) == if e.mode.Blocking? then [call] else [];
      assert Respond(bare, topic, e, payload, reply) == Respond(env, topic, e, payload, reply);
      if e.mode.Notify? {
        assert seen == past;
        EntriesWithoutNotify(env, seen, topic, payload, entries[1..], depth);
        AlikeAfter(RunEntries(env, seen, topic, payload, entries[1..], depth),
                   RunEntries(bare, seen, topic, payload, BlockingOnly(entries[1..]), depth), [call]);
      } else {
        assert BlockingOnly(entries)[1..] == BlockingOnly(entries[1..]);
        hide Respond, Alike, WithoutNotify;
        match Respond(env, topic, e, payload, reply)
        case Proceed(next) =>
          EntriesWithoutNotify(env, seen, topic, next, entries[1..], depth);
          AlikeAfter(RunEntries(env, seen, topic, next, entries[1..], depth),
                     RunEntries(bare, seen, topic, next, BlockingOnly(entries[1..]), depth), [call]);
        case Finish(result) => AlikeFinish(result, call);
        case ChainTo(events) =>
          ChainWithoutNotify(env, seen, payload, events, depth + 1);
          AlikeAfter(RunChain(env, seen, payload, events, depth + 1), RunChain(bare, seen, payload, events, depth + 1), [call]);
      }
    }
  }

  lemma AlikeFinish(result: Result<Outcome, AppError>, call: Call)
    requires call.mode.Blocking?
    ensures Alike(Run(result, [call]), Run(result, [call]))
  {
  }

  lemma {:induction false} ChainWithoutNotify(env: Env, past: seq<Call>, payload: Json, events: seq<Event>, depth: nat)
    requires depth <= MAX_CHAIN_DEPTH
    ensures Alike(RunChain(env, past, payload, events, depth), RunChain(WithoutNotify(env), past, payload, events, depth))
    decreases MAX_CHAIN_DEPTH - depth, 2, |events|
  {
    if events != [] {
      NotifyHooksAreInert(env, past, events[0].topic, events[0].payload, depth);
      var first := Dispatch(env, past, events[0].topic, events[0].payload, depth);
      var seen := Seen(past, first.calls);
      BlockingCallsOnly(first.calls);
      ChainWithoutNotify(env, seen, payload, events[1..], depth);
      AlikeAfter(RunChain(env, seen, payload, events[1..], depth),
                 RunChain(WithoutNotify(env), seen, payload, events[1..], depth), first.calls);
    }
  }

  // ------------------------------------------------------------ bounded chains

  /** At most `k` hooks on any topic, and no hook chains more than `c` events. */
  ghost predicate Limited(env: Env, k: nat, c: nat) {
    forall topic :: topic in env.registry ==>
      && |env.registry[topic]| <= k
      && forall h, past, t, p :: h in env.registry[topic] ==>
           var reply := h.hook(past, t, p);
           reply.Replied? && reply.action.Chain? ==> |reply.action.events| <= c
  }

  ghost predicate EntryLimited(e: Entry, c: nat) {
    forall past, t, p :: var reply := e.hook(past, t, p); reply.Replied? && reply.action.Chain? ==> |reply.action.events| <= c
  }

  /** `k + c * (k + c * (...))`, one level for each depth left. */
  function Budget(k: nat, c: nat, depth: nat): nat
    decreases MAX_CHAIN_DEPTH - depth
  {
    if depth >= MAX_CHAIN_DEPTH then 0 else k + c * Budget(k, c, depth + 1)
  }

  lemma {:induction false} InsertLimited(e: Entry, list: seq<Entry>, c: nat)
    requires EntryLimited(e, c) && forall x :: x in list ==> EntryLimited(x, c)
    ensures |Insert(e, list)| == |list| + 1 && forall x :: x in Insert(e, list) ==> EntryLimited(x, c)
  {
    hide EntryLimited;
    if list != [] {
      InsertLimited(e, list[1..], c);
    }
  }

  lemma {:induction false} SortLimited(list: seq<Entry>, c: nat)
    requires forall x :: x in list ==> EntryLimited(x, c)
    ensures |StableSort(list)| == |list| && forall x :: x in StableSort(list) ==> EntryLimited(x, c)
  {
    hide EntryLimited;
    if list != [] {
      SortLimited(list[1..], c);
      InsertLimited(list[0], StableSort(list[1..]), c);
    }
  }

  lemma {:induction false} EligibleLimited(entries: seq<HookEntry>, enabled: Option<map<string, int>>, c: nat)
    requires forall h, past, t, p :: h in entries ==>
               var reply := h.hook(past, t, p); reply.Replied? && reply.action.Chain? ==> |reply.action.events| <= c
    ensures |Eligible(entries, enabled)| <= |entries|
    ensures forall x :: x in Eligible(entries, enabled) ==> EntryLimited(x, c)
  {
    if entries != [] {
      assert entries[0] in entries;
      EligibleLimited(entries[1..], enabled, c);
    }
  }

  lemma {:induction false} CallsBounded(env: Env, past: seq<Call>, topic: string, payload: Json, depth: nat, k: nat, c: nat)
    requires Limited(env, k, c)
    ensures |Dispatch(env, past, topic, payload, depth).calls| <= Budget(k, c, depth)
    decreases MAX_CHAIN_DEPTH - depth, 1, 0
  {
    if depth < MAX_CHAIN_DEPTH {
      var hooks := HooksOn(env.registry, topic);
      EligibleLimited(hooks, env.enabled, c);
      SortLimited(Eligible(hooks, env.enabled), c);
      EntryCallsBounded(env, past, topic, payload, DispatchList(env, topic), depth, k, c);
    }
  }

  lemma ChainToReply(env: Env, past: seq<Call>, topic: string, e: Entry, payload: Json, events: seq<Event>, c: nat)
    requires EntryLimited(e, c)
    requires Respond(env, topic, e, payload, e.hook(past, topic, payload)) == ChainTo(events)
    ensures |events| <= c
  {
  }

  lemma ScaleBy(a: nat, b: nat, x: nat)
    ensures a <= b ==> a * x <= b * x
    ensures (a + 1) * x == x + a * x
  {
  }

  lemma {:induction false} EntryCallsBounded(env: Env, past: seq<Call>, topic: string, payload: Json, entries: seq<Entry>, depth: nat, k: nat, c: nat)
    requires depth < MAX_CHAIN_DEPTH && Limited(env, k, c)
    requires forall x :: x in entries ==> EntryLimited(x, c)
    ensures |RunEntries(env, past, topic, payload, entries, depth).calls| <= |entries| + c * Budget(k, c, depth + 1)
    decreases MAX_CHAIN_DEPTH - depth, 0, |entries|
  {
    hide Respond, Limited, EntryLimited, Budget;
    if entries != [] {
      var e := entries[0];
      assert EntryLimited(e, c) by { assert e in entries; }
      assert forall x :: x in entries[1..] ==> x in entries;
      var reply := e.hook(past, topic, payload);
      var seen := Seen(past, [Call(depth, topic, e.pluginId, e.mode, payload, reply)]);
      match Respond(env, topic, e, payload, reply)
      case Proceed(next) => EntryCallsBounded(env, seen, topic, next, entries[1..], depth, k, c);
      case Finish(_) => ScaleBy(0, c, Budget(k, c, depth + 1));
      case ChainTo(events) =>
        ChainToReply(env, past, topic, e, payload, events, c);
        ChainCallsBounded(env, seen, payload, events, depth + 1, k, c);
        ScaleBy(|events|, c, Budget(k, c, depth + 1));
    } else {
      ScaleBy(0, c, Budget(k, c, depth + 1));
    }
  }

  lemma {:induction false} ChainCallsBounded(env: Env, past: seq<Call>, payload: Json, events: seq<Event>, depth: nat, k: nat, c: nat)
    requires depth <= MAX_CHAIN_DEPTH && Limited(env, k, c)
    ensures |RunChain(env, past, payload, events, depth).calls| <= |events| * Budget(k, c, depth)
    decreases MAX_CHAIN_DEPTH - depth, 2, |events|
  {
    hide Limited, Budget, Dispatch;
    if events != [] {
      CallsBounded(env, past, events[0].topic, events[0].payload, depth, k, c);
      var seen := Seen(past, Dispatch(env, past, events[0].topic, events[0].payload, depth).calls);
      ChainCallsBounded(env, seen, payload, events[1..], depth, k, c);
      ScaleBy(|events| - 1, |events|, Budget(k, c, depth));
    }
  }

  lemma BudgetStep(k: nat, c: nat, depth: nat)
    requires depth < MAX_CHAIN_DEPTH
    ensures Budget(k, c, depth) == k + c * Budget(k, c, depth + 1)
  {
  }

  lemma BudgetInFull(k: nat, c: nat)
    ensures Budget(k, c, 0) == k + c * k + c * c * k
  {
    BudgetStep(k, c, 2);
    BudgetStep(k, c, 1);
    BudgetStep(k, c, 0);
    assert Budget(k, c, 3) == 0;
    hide Budget;
    assert c * 0 == 0;
    assert c * (k + c * k) == c * k + c * (c * k);
  }

  /** Whatever the hooks reply, one dispatch makes at most `k + c*k + c*c*k` calls. */
  lemma TotalCallsBounded(env: Env, past: seq<Call>, topic: string, payload: Json, k: nat, c: nat)
    requires Limited(env, k, c)
    ensures |Dispatch(env, past, topic, payload, 0).calls| <= k + c * k + c * c * k
  {
    hide *;
    CallsBounded(env, past, topic, payload, 0, k, c);
    BudgetInFull(k, c);
  }

  // ------------------------------------------------------- the bound is tight

  function Line<T>(n: nat, x: T, last: T): (line: seq<T>)
    ensures |line| == n + 1 && forall y :: y in line ==> y == x || y == last
  {
    if n == 0 then [last] else [x] + Line(n - 1, x, last)
  }

  function Listed(e: HookEntry): Entry { Entry(e.pluginId, Enablement.I32_MIN, true, e.mode, e.hook) }

  lemma {:induction false} LineIsSorted(n: nat, pass: HookEntry, chain: HookEntry)
    requires pass.scope.Global? && chain.scope.Global? && pass.mode == chain.mode
    ensures StableSort(Eligible(Line(n, pass, chain), None)) == Line(n, Listed(pass), Listed(chain))
  {
    if n == 0 {
      assert Eligible([chain], None) == [Listed(chain)] + Eligible([], None);
      assert StableSort([Listed(chain)]) == Insert(Listed(chain), StableSort([]));
    } else {
      LineIsSorted(n - 1, pass, chain);
      var rest := Eligible(Line(n - 1, pass, chain), None);
      assert Line(n, pass, chain)[1..] == Line(n - 1, pass, chain);
      assert Eligible(Line(n, pass, chain), None) == [Listed(pass)] + rest;
      assert ([Listed(pass)] + rest)[1..] == rest;
    }
  }

  /** On the topic `k - 1` hooks pass, and the last one chains `events`, all of them the
      same event over again. */
  ghost predicate Echoes(env: Env, topic: string, payload: Json, events: seq<Event>, k: nat, pass: Entry, chain: Entry) {
    && k >= 1
    && DispatchList(env, topic) == Line(k - 1, pass, chain)
    && pass.mode.Blocking? && chain.mode.Blocking?
    && (forall past :: pass.hook(past, topic, payload) == Replied(Pass))
    && (forall past :: chain.hook(past, topic, payload) == Replied(Chain(events)))
    && forall e :: e in events ==> e == Event(topic, payload)
  }

  lemma {:induction false} EchoDispatch(env: Env, past: seq<Call>, topic: string, payload: Json, events: seq<Event>,
                                        k: nat, pass: Entry, chain: Entry, depth: nat)
    requires Echoes(env, topic, payload, events, k, pass, chain)
    ensures var run := Dispatch(env, past, topic, payload, depth);
            Continues(run.result) && |run.calls| == Budget(k, |events|, depth)
    decreases MAX_CHAIN_DEPTH - depth, 1, 0
  {
    if depth < MAX_CHAIN_DEPTH {
      EchoEntries(env, past, topic, payload, events, k, pass, chain, k - 1, depth);
    }
  }

  /** The hooks from the last `n` passing ones on. */
  lemma {:induction false} EchoEntries(env: Env, past: seq<Call>, topic: string, payload: Json, events: seq<Event>,
                                       k: nat, pass: Entry, chain: Entry, n: nat, depth: nat)
    requires depth < MAX_CHAIN_DEPTH && Echoes(env, topic, payload, events, k, pass, chain)
    ensures var run := RunEntries(env, past, topic, payload, Line(n, pass, chain), depth);
            Continues(run.result) && |run.calls| == n + 1 + |events| * Budget(k, |events|, depth + 1)
    decreases MAX_CHAIN_DEPTH - depth, 0, n
  {
    hide Budget, DispatchList;
    if n > 0 {
      var call := Call(depth, topic, pass.pluginId, pass.mode, payload, Replied(Pass));
      assert Line(n, pass, chain)[1..] == Line(n - 1, pass, chain);
      EchoEntries(env, Seen(past, [call]), topic, payload, events, k, pass, chain, n - 1, depth);
    } else {
      var call := Call(depth, topic, chain.pluginId, chain.mode, payload, Replied(Chain(events)));
      EchoChain(env, Seen(past, [call]), topic, payload, events, k, pass, chain, events, depth + 1);
    }
  }

  lemma {:induction false} EchoChain(env: Env, past: seq<Call>, topic: string, payload: Json, events: seq<Event>,
                                     k: nat, pass: Entry, chain: Entry, left: seq<Event>, depth: nat)
    requires depth <= MAX_CHAIN_DEPTH && Echoes(env, topic, payload, events, k, pass, chain)
    requires forall e :: e in left ==> e == Event(topic, payload)
    ensures var run := RunChain(env, past, payload, left, depth);
            Continues(run.result) && |run.calls| == |left| * Budget(k, |events|, depth)
    decreases MAX_CHAIN_DEPTH - depth, 2, |left|
  {
    hide Dispatch, Budget, Echoes;
    if left != [] {
      assert left[0] == Event(topic, payload) by { assert left[0] in left; }
      EchoDispatch(env, past, topic, payload, events, k, pass, chain, depth);
      assert forall e :: e in left[1..] ==> e in left;
      var seen := Seen(past, Dispatch(env, past, topic, payload, depth).calls);
      EchoChain(env, seen, topic, payload, events, k, pass, chain, left[1..], depth);
      ScaleBy(|left| - 1, |left|, Budget(k, |events|, depth));
    }
  }

  /** The bound is met for all `k` and `c`: by `k - 1` hooks that pass and one that chains
      `c` events to its own topic. */
  lemma BoundIsTight(k: nat, c: nat, payload: Json) returns (env: Env, topic: string)
    ensures Limited(env, k, c)
    ensures |Dispatch(env, [], topic, payload, 0).calls| == k + c * k + c * c * k
  {
    topic := "t";
    var events := seq(c, _ => Event(topic, payload));
    var pass := HookEntry("p", Global, Blocking, (past: seq<Call>, t: string, p: Json) => Replied(Pass));
    var chain := HookEntry("q", Global, Blocking, (past: seq<Call>, t: string, p: Json) => Replied(Chain(events)));
    env := Env(if k == 0 then map[] else map[topic := Line(k - 1, pass, chain)], None, None, _ => None);
    BudgetInFull(k, c);
    if k == 0 {
      assert HooksOn(env.registry, topic) == [] && DispatchList(env, topic) == [];
      ScaleBy(0, c, 0);
    } else {
      LineIsSorted(k - 1, pass, chain);
      assert HooksOn(env.registry, topic) == Line(k - 1, pass, chain);
      EchoDispatch(env, [], topic, payload, events, k, Listed(pass), Listed(chain), 0);
    }
  }
}
