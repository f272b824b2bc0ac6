/** What a dispatch comes to, read off its calls: which reply ends it and with what result,
    which hooks are called with which payloads, and what becomes of chained events. */
module HookOutcomes {
  import opened Options
  import opened Submissions
  import opened Hooks
  import opened HookProperties
  import Enablement

  // ------------------------------------------------------------------ replies

  predicate KeepsAttributes(c: Call, e: Event) {
    Decode(c.payload).Some? && Decode(e.payload) == Decode(c.payload)
  }

  predicate KeepsAdmission(c: Call, e: Event) {
    e.payload.Obj? && (Admission(e.payload).None? || Admission(e.payload) == Admission(c.payload))
  }

  /** A modified submission must keep the attributes, and the admission too unless it comes
      from the contest owner. Other events can be modified at will. */
  predicate Acceptable(env: Env, c: Call, e: Event) {
    c.topic == BEFORE_SUBMISSION ==> KeepsAttributes(c, e) && (env.owner == Some(c.pluginId) || KeepsAdmission(c, e))
  }

  /** The reply of a blocking hook ends everything, the dispatches around it included. */
  predicate Ends(env: Env, c: Call) {
    c.mode.Blocking? &&
    match c.reply
    case Failed => true
    case TimedOut => true
    case Replied(Reject(_)) => true
    case Replied(Stop) => c.topic != BEFORE_SUBMISSION
    case Replied(Modified(e)) => !Acceptable(env, c, e)
    case Replied(_) => false
  }

  /** A rejection for a reason that is not JSON carries it as it is; JSON may give a code, a
      message, a status and details. A code of the plugin runtime makes it an error. */
  predicate RejectedFor(parse: string -> Option<Json>, reason: string, r: Result<Outcome, AppError>) {
    match parse(reason)
    case None => r == Ok(Rejected("PLUGIN_REJECTED", reason, 400, None))
    case Some(v) =>
      var code := match v.Get("code") case Some(Str(s)) => s case _ => "PLUGIN_REJECTED";
      var message := match v.Get("message") case Some(Str(s)) => s case _ => "Request rejected by plugin";
      var status := match v.Get("status_code") case Some(Int(n)) => (if 0 <= n < 0x1_0000 then n else 400) case _ => 400;
      if code == PLUGIN_RUNTIME_ERROR_CODE then r == Err(PluginRuntime(message))
      else r == Ok(Rejected(code, message, status, v.Get("details")))
  }

  /** What it ends with. */
  predicate EndsWith(env: Env, c: Call, r: Result<Outcome, AppError>) {
    match c.reply
    case Failed => r == Err(HookFailed)
    case TimedOut => r == Err(HookTimedOut)
    case Replied(Reject(reason)) => RejectedFor(env.parse, reason, r)
    case Replied(Stop) => r == Ok(Stopped)
    case Replied(Modified(e)) =>
      if Decode(c.payload).None? || Decode(e.payload).None? then r == Err(InvalidEvent)
      else if !KeepsAttributes(c, e) then r == Err(AttributesRewritten)
      else if !e.payload.Obj? then r == Err(InvalidEvent)
      else r == Err(AdmissionReserved)
    case Replied(_) => false
  }

  /** Only the last call can end a dispatch. If it does, the result is what it ends with;
      if not, the event is allowed. */
  ghost predicate DecidedByLast(env: Env, run: Run) {
    && (forall i :: 0 <= i < |run.calls| && Ends(env, run.calls[i]) ==> i == |run.calls| - 1)
    && if run.calls != [] && Ends(env, run.calls[|run.calls| - 1])
       then !Continues(run.result) && EndsWith(env, run.calls[|run.calls| - 1], run.result)
       else Continues(run.result)
  }

  lemma DecidedAfter(env: Env, run: Run, earlier: seq<Call>)
    requires DecidedByLast(env, run) && forall i :: 0 <= i < |earlier| ==> !Ends(env, earlier[i])
    ensures DecidedByLast(env, run.After(earlier))
  {
    hide Ends, EndsWith;
    var calls := earlier + run.calls;
    assert run.calls == [] ==> calls == earlier;
    forall i | 0 <= i < |calls| && Ends(env, calls[i]) ensures i == |calls| - 1 {
      assert i >= |earlier|;
      assert calls[i] == run.calls[i - |earlier|];
    }
  }

  /** The next hook of the same event is called. */
  predicate GoesOn(env: Env, c: Call) {
    c.mode.Notify? ||
    match c.reply
    case Replied(Pass) => true
    case Replied(Modified(e)) => Acceptable(env, c, e)
    case _ => false
  }

  function ChainedEvents(c: Call): Option<seq<Event>> {
    if c.mode.Blocking? && c.reply.Replied? && c.reply.action.Chain? then Some(c.reply.action.events) else None
  }

  /** An object's fields but for the admission. */
  function Fields(j: Json): map<string, Json> { if j.Obj? then j.fields - {ADMISSION} else map[] }

  /** The payload after a call that the dispatch survives: as modified, except that only the
      owner changes a submission's admission; and untouched by any other reply. */
  predicate StepTo(env: Env, c: Call, next: Json) {
    if c.mode.Blocking? && c.reply.Replied? && c.reply.action.Modified? then
      var proposed := c.reply.action.event.payload;
      if c.topic != BEFORE_SUBMISSION || env.owner == Some(c.pluginId) then next == proposed
      else next.Obj? && Fields(next) == Fields(proposed) && Admission(next) == Admission(c.payload)
    else next == c.payload
  }

  /** How one call of a blocking or notify hook is answered. */
  lemma ResponseIsRight(env: Env, topic: string, e: Entry, payload: Json, reply: Reply, depth: nat)
    ensures var c := Call(depth, topic, e.pluginId, e.mode, payload, reply);
            match Respond(env, topic, e, payload, reply)
            case Proceed(next) => GoesOn(env, c) && StepTo(env, c, next)
            case Finish(result) =>
              && !GoesOn(env, c) && !ChainedEvents(c).Some?
              && if Ends(env, c) then !Continues(result) && EndsWith(env, c, result)
                 else reply == Replied(Stop) && topic == BEFORE_SUBMISSION && result == Ok(Allowed(payload))
            case ChainTo(events) => !GoesOn(env, c) && !Ends(env, c) && ChainedEvents(c) == Some(events)
  {
    hide Decode;
  }

  // ------------------------------------------------------ which reply decides

  /** A dispatch, chained events included, is refused exactly when its last call ends it,
      and that call says how; no call comes after one that ends it. */
  lemma {:induction false} DispatchDecided(env: Env, past: seq<Call>, topic: string, payload: Json, depth: nat)
    ensures DecidedByLast(env, Dispatch(env, past, topic, payload, depth))
    decreases MAX_CHAIN_DEPTH - depth, 1, 0
  {
    hide DispatchList;
    if depth < MAX_CHAIN_DEPTH {
      EntriesDecided(env, past, topic, payload, DispatchList(env, topic), depth);
    }
  }

  lemma {:induction false} EntriesDecided(env: Env, past: seq<Call>, topic: string, payload: Json, entries: seq<Entry>, depth: nat)
    requires depth < MAX_CHAIN_DEPTH
    ensures DecidedByLast(env, RunEntries(env, past, topic, payload, entries, depth))
    decreases MAX_CHAIN_DEPTH - depth, 0, |entries|
  {
    if entries != [] {
      var e := entries[0];
      var reply := e.hook(past, topic, payload);
      var c := Call(depth, topic, e.pluginId, e.mode, payload, reply);
      var seen := Seen(past, [c]);
      ResponseIsRight(env, topic, e, payload, reply, depth);
      GoingOnDoesNotEnd(env, c);
      hide Respond, Ends, EndsWith, GoesOn, StepTo, ChainedEvents;
      match Respond(env, topic, e, payload, reply)
      case Proceed(next) =>
        EntriesDecided(env, seen, topic, next, entries[1..], depth);
        DecidedAfter(env, RunEntries(env, seen, topic, next, entries[1..], depth), [c]);
      case Finish(_) =>
      case ChainTo(events) =>
        ChainDecided(env, seen, payload, events, depth + 1);
        DecidedAfter(env, RunChain(env, seen, payload, events, depth + 1), [c]);
    }
  }

  lemma GoingOnDoesNotEnd(env: Env, c: Call)
    ensures GoesOn(env, c) ==> !Ends(env, c)
  {
  }

  lemma {:induction false} ChainDecided(env: Env, past: seq<Call>, payload: Json, events: seq<Event>, depth: nat)
    requires depth <= MAX_CHAIN_DEPTH
    ensures DecidedByLast(env, RunChain(env, past, payload, events, depth))
    decreases MAX_CHAIN_DEPTH - depth, 2, |events|
  {
    hide Dispatch, Ends, EndsWith;
    if events != [] {
      var first := Dispatch(env, past, events[0].topic, events[0].payload, depth);
      DispatchDecided(env, past, events[0].topic, events[0].payload, depth);
      if Continues(first.result) {
        var seen := Seen(past, first.calls);
        ChainDecided(env, seen, payload, events[1..], depth);
        DecidedAfter(env, RunChain(env, seen, payload, events[1..], depth), first.calls);
      }
    }
  }

  /** A refusal is never overlooked: if any blocking hook called for the event, or for an
      event chained to it, rejects, fails or times out, it is the last one called, and
      the event is not allowed. */
  lemma RefusalsAreFinal(env: Env, past: seq<Call>, topic: string, payload: Json, i: nat)
    requires i < |Dispatch(env, past, topic, payload, 0).calls|
    ensures var run := Dispatch(env, past, topic, payload, 0);
            var c := run.calls[i];
            c.mode.Blocking? && (c.reply.Failed? || c.reply.TimedOut? || c.reply.action.Reject?) ==>
              && i == |run.calls| - 1 && !Continues(run.result)
              && match c.reply
                 case Failed => run.result == Err(HookFailed)
                 case TimedOut => run.result == Err(HookTimedOut)
                 case Replied(Reject(reason)) => RejectedFor(env.parse, reason, run.result)
                 case Replied(_) => true
  {
    hide Dispatch;
    DispatchDecided(env, past, topic, payload, 0);
  }

  // ---------------------------------------------- which hooks, which payloads

  /** The calls made for the event itself, `own`: of the hooks of the list in order, each with
      the payload that the one before left, up to the first that does not go on; and
      the payload that is allowed in the end is the one the last left. */
  ghost predicate Follows(env: Env, topic: string, payload: Json, list: seq<Entry>, own: seq<Call>,
                          result: Result<Outcome, AppError>)
  {
    && |own| <= |list|
    && (forall i :: 0 <= i < |own| ==>
          own[i].topic == topic && own[i].pluginId == list[i].pluginId && own[i].mode == list[i].mode)
    && (own != [] ==> own[0].payload == payload)
    && (forall i :: 0 <= i < |own| - 1 ==> GoesOn(env, own[i]) && StepTo(env, own[i], own[i + 1].payload))
    && (|own| < |list| ==> own != [] && !GoesOn(env, own[|own| - 1]))
    && (Continues(result) ==>
          if own == [] then result.value.payload == payload
          else StepTo(env, own[|own| - 1], result.value.payload))
  }

  /** After `own` come the calls for chained events, whose result is the result. */
  ghost predicate ChainedFrom(env: Env, past: seq<Call>, c: Call, events: seq<Event>, own: seq<Call>, run: Run, depth: nat)
    requires depth < MAX_CHAIN_DEPTH
  {
    run == RunChain(env, past, c.payload, events, depth + 1).After(own)
  }

  /** What follows the calls for the event itself: nothing, unless the last of them chained
      events. */
  ghost predicate ThenChained(env: Env, run: Run, own: seq<Call>, depth: nat)
    requires depth < MAX_CHAIN_DEPTH
  {
    if own != [] && ChainedEvents(own[|own| - 1]).Some? then
      var c := own[|own| - 1];
      exists past :: ChainedFrom(env, past, c, ChainedEvents(c).value, own, run, depth)
    else run.calls == own
  }

  lemma FollowsOne(env: Env, topic: string, list: seq<Entry>, c: Call, result: Result<Outcome, AppError>)
    requires list != [] && c.topic == topic && c.pluginId == list[0].pluginId && c.mode == list[0].mode
    requires !GoesOn(env, c) && (Continues(result) ==> StepTo(env, c, result.value.payload))
    ensures Follows(env, topic, c.payload, list, [c], result)
  {
  }

  lemma FollowsMore(env: Env, topic: string, list: seq<Entry>, c: Call, next: Json, own: seq<Call>, result: Result<Outcome, AppError>)
    requires list != [] && c.topic == topic && c.pluginId == list[0].pluginId && c.mode == list[0].mode
    requires GoesOn(env, c) && StepTo(env, c, next) && Follows(env, topic, next, list[1..], own, result)
    ensures Follows(env, topic, c.payload, list, [c] + own, result)
  {
    hide GoesOn, StepTo;
    var all := [c] + own;
    forall i | 0 <= i < |all| - 1 ensures GoesOn(env, all[i]) && StepTo(env, all[i], all[i + 1].payload) {
      assert i > 0 ==> all[i] == own[i - 1] && all[i + 1] == own[i];
    }
    assert own != [] ==> all[|all| - 1] == own[|own| - 1];
  }

  lemma {:induction false} EntriesFollow(env: Env, past: seq<Call>, topic: string, payload: Json, entries: seq<Entry>, depth: nat)
    requires depth < MAX_CHAIN_DEPTH
    ensures var run := RunEntries(env, past, topic, payload, entries, depth);
            Follows(env, topic, payload, entries, CallsAt(run.calls, depth), run.result)
    decreases |entries|
  {
    if entries == [] {
      FollowsNothing(env, topic, payload);
    } else {
      var e := entries[0];
      var reply := e.hook(past, topic, payload);
      var c := Call(depth, topic, e.pluginId, e.mode, payload, reply);
      var seen := Seen(past, [c]);
      ResponseIsRight(env, topic, e, payload, reply, depth);
      assert CallsAt([c], depth) == [c] + CallsAt([], depth);
      hide Respond, Ends, EndsWith, GoesOn, StepTo, ChainedEvents, Follows, Seen;
      match Respond(env, topic, e, payload, reply)
      case Proceed(next) =>
        var run := RunEntries(env, seen, topic, next, entries[1..], depth);
        EntriesFollow(env, seen, topic, next, entries[1..], depth);
        CallsAtAppend([c], run.calls, depth);
        FollowsMore(env, topic, entries, c, next, CallsAt(run.calls, depth), run.result);
      case Finish(result) =>
        StopLeaves(env, c, result);
        FollowsOne(env, topic, entries, c, result);
      case ChainTo(events) =>
        OwnBeforeChained(env, seen, c, events, depth);
        ChainKeepsPayload(env, seen, payload, events, depth + 1);
        ChainLeaves(env, c);
        FollowsOne(env, topic, entries, c, RunChain(env, seen, payload, events, depth + 1).result);
    }
  }

  lemma OwnBeforeChained(env: Env, past: seq<Call>, c: Call, events: seq<Event>, depth: nat)
    requires depth < MAX_CHAIN_DEPTH && c.depth == depth
    ensures CallsAt([c] + RunChain(env, past, c.payload, events, depth + 1).calls, depth) == [c]
  {
    var run := RunChain(env, past, c.payload, events, depth + 1);
    ChainCallsAreDeep(env, past, c.payload, events, depth + 1);
    hide RunChain;
    NoCallsAt(run.calls, depth);
    CallsAtAppend([c], run.calls, depth);
    assert CallsAt([c], depth) == [c] + CallsAt([], depth);
  }

  lemma {:induction false} EntriesThenChained(env: Env, past: seq<Call>, topic: string, payload: Json, entries: seq<Entry>, depth: nat)
    requires depth < MAX_CHAIN_DEPTH
    ensures var run := RunEntries(env, past, topic, payload, entries, depth);
            ThenChained(env, run, CallsAt(run.calls, depth), depth)
    decreases |entries|
  {
    if entries != [] {
      var e := entries[0];
      var reply := e.hook(past, topic, payload);
      var c := Call(depth, topic, e.pluginId, e.mode, payload, reply);
      var seen := Seen(past, [c]);
      ResponseIsRight(env, topic, e, payload, reply, depth);
      NoChainFrom(env, c);
      assert CallsAt([c], depth) == [c] + CallsAt([], depth);
      hide Respond, Ends, EndsWith, GoesOn, StepTo, ChainedEvents, Seen;
      match Respond(env, topic, e, payload, reply)
      case Proceed(next) =>
        var run := RunEntries(env, seen, topic, next, entries[1..], depth);
        EntriesThenChained(env, seen, topic, next, entries[1..], depth);
        CallsAtAppend([c], run.calls, depth);
        ChainedAfter(env, run, CallsAt(run.calls, depth), c, depth);
      case Finish(result) =>
      case ChainTo(events) =>
        OwnBeforeChained(env, seen, c, events, depth);
        var run := RunChain(env, seen, payload, events, depth + 1).After([c]);
        assert ChainedFrom(env, seen, c, events, [c], run, depth);
    }
  }

  lemma FollowsNothing(env: Env, topic: string, payload: Json)
    ensures Follows(env, topic, payload, [], [], Ok(Allowed(payload)))
  {
  }

  lemma NoChainFrom(env: Env, c: Call)
    ensures GoesOn(env, c) ==> ChainedEvents(c).None?
  {
  }

  lemma StopLeaves(env: Env, c: Call, result: Result<Outcome, AppError>)
    ensures c.reply == Replied(Stop) && result == Ok(Allowed(c.payload)) ==> StepTo(env, c, result.value.payload)
  {
  }

  lemma ChainLeaves(env: Env, c: Call)
    ensures ChainedEvents(c).Some? ==> StepTo(env, c, c.payload)
  {
  }

  lemma ChainedAfter(env: Env, run: Run, own: seq<Call>, c: Call, depth: nat)
    requires depth < MAX_CHAIN_DEPTH && ThenChained(env, run, own, depth) && ChainedEvents(c).None?
    ensures ThenChained(env, run.After([c]), [c] + own, depth)
  {
    hide ChainedEvents, RunChain;
    var all := [c] + own;
    if own != [] {
      var last := own[|own| - 1];
      assert all[|all| - 1] == last;
      if ChainedEvents(last).Some? {
        var past :| ChainedFrom(env, past, last, ChainedEvents(last).value, own, run, depth);
        AfterAfter(RunChain(env, past, last.payload, ChainedEvents(last).value, depth + 1), [c], own);
        assert ChainedFrom(env, past, last, ChainedEvents(last).value, all, run.After([c]), depth);
      }
    }
  }

  /** For every event the hooks of its dispatch list are called in order, each with the payload
      the one before left, until one does not go on. */
  lemma DispatchFollows(env: Env, past: seq<Call>, topic: string, payload: Json, depth: nat)
    requires depth < MAX_CHAIN_DEPTH
    ensures var run := Dispatch(env, past, topic, payload, depth);
            var own := CallsAt(run.calls, depth);
            Follows(env, topic, payload, DispatchList(env, topic), own, run.result) && ThenChained(env, run, own, depth)
  {
    hide DispatchList, Follows, ThenChained;
    EntriesFollow(env, past, topic, payload, DispatchList(env, topic), depth);
    EntriesThenChained(env, past, topic, payload, DispatchList(env, topic), depth);
  }

  lemma StopReply(env: Env, c: Call)
    requires c.mode.Blocking? && c.reply == Replied(Stop)
    ensures !GoesOn(env, c) && ChainedEvents(c).None? && (Ends(env, c) <==> c.topic != BEFORE_SUBMISSION)
    ensures forall r :: EndsWith(env, c, r) ==> r == Ok(Stopped)
    ensures forall next :: StepTo(env, c, next) ==> next == c.payload
  {
  }

  /** A blocking hook that stops the dispatch is the last one called for its event. A
      submission is then allowed as it is; any other event is stopped. */
  lemma StopIsLast(env: Env, past: seq<Call>, topic: string, payload: Json, i: nat)
    requires i < |CallsAt(Dispatch(env, past, topic, payload, 0).calls, 0)|
    ensures var run := Dispatch(env, past, topic, payload, 0);
            var own := CallsAt(run.calls, 0);
            own[i].mode.Blocking? && own[i].reply == Replied(Stop) ==>
              && i == |own| - 1 && run.calls == own
              && run.result == Ok(if topic == BEFORE_SUBMISSION then Allowed(own[i].payload) else Stopped)
  {
    DispatchFollows(env, past, topic, payload, 0);
    DispatchDecided(env, past, topic, payload, 0);
    var own := CallsAt(Dispatch(env, past, topic, payload, 0).calls, 0);
    if own[i].mode.Blocking? && own[i].reply == Replied(Stop) {
      StopReply(env, own[i]);
      hide Dispatch, DispatchList, CallsAt, GoesOn, StepTo, Ends, EndsWith, ChainedEvents;
      assert i == |own| - 1;
    }
  }

  // ---------------------------------------------------------- chained events

  function AllCalls(runs: seq<Run>): seq<Call> {
    if runs == [] then [] else runs[0].calls + AllCalls(runs[1..])
  }

  /** Each run is the dispatch of its event, after those before it. */
  ghost predicate InTurn(env: Env, past: seq<Call>, events: seq<Event>, runs: seq<Run>, depth: nat) {
    && |runs| <= |events|
    && (forall k :: 0 <= k < |runs| ==>
          runs[k] == Dispatch(env, past + BlockingCalls(AllCalls(runs[..k])), events[k].topic, events[k].payload, depth))
    && forall k :: 0 <= k < |runs| - 1 ==> Continues(runs[k].result)
  }

  lemma InTurnMore(env: Env, past: seq<Call>, events: seq<Event>, runs: seq<Run>, first: Run, depth: nat)
    requires events != [] && Continues(first.result)
    requires first == Dispatch(env, past, events[0].topic, events[0].payload, depth)
    requires InTurn(env, past + BlockingCalls(first.calls), events[1..], runs, depth)
    ensures InTurn(env, past, events, [first] + runs, depth)
  {
    hide Dispatch, BlockingCalls;
    var all := [first] + runs;
    forall k | 0 <= k < |all|
      ensures all[k] == Dispatch(env, past + BlockingCalls(AllCalls(all[..k])), events[k].topic, events[k].payload, depth)
    {
      if k == 0 {
        NoBlockingCalls();
        assert past + [] == past;
      } else {
        assert all[..k][1..] == runs[..k - 1];
        BlockingCallsAppend(first.calls, AllCalls(runs[..k - 1]));
        assert past + BlockingCalls(first.calls) + BlockingCalls(AllCalls(runs[..k - 1]))
            == past + (BlockingCalls(first.calls) + BlockingCalls(AllCalls(runs[..k - 1])));
        assert events[1..][k - 1] == events[k];
      }
    }
    assert forall k :: 0 < k < |all| ==> all[k] == runs[k - 1];
  }

  lemma NoBlockingCalls()
    ensures BlockingCalls([]) == []
  {
  }

  /** Chained events are dispatched in turn. The first that is not allowed decides and no
      further one is dispatched; if all are allowed, so is the event that chained them,
      as it was. */
  lemma {:induction false} ChainInTurn(env: Env, past: seq<Call>, payload: Json, events: seq<Event>, depth: nat)
    returns (runs: seq<Run>)
    requires depth <= MAX_CHAIN_DEPTH
    ensures var run := RunChain(env, past, payload, events, depth);
            && InTurn(env, past, events, runs, depth) && run.calls == AllCalls(runs)
            && if Continues(run.result)
               then |runs| == |events| && run.result == Ok(Allowed(payload))
                    && forall k :: 0 <= k < |runs| ==> Continues(runs[k].result)
               else runs != [] && run.result == runs[|runs| - 1].result
    decreases |events|
  {
    hide Dispatch, InTurn;
    NoBlockingCalls();
    if events == [] {
      runs := [];
      NothingInTurn(env, past, events, depth);
    } else {
      var first := Dispatch(env, past, events[0].topic, events[0].payload, depth);
      assert [first][..0] == [] && [first][1..] == [];
      if Continues(first.result) {
        var more := ChainInTurn(env, Seen(past, first.calls), payload, events[1..], depth);
        runs := [first] + more;
        InTurnMore(env, past, events, more, first, depth);
        assert runs[1..] == more;
        assert more != [] ==> runs[|runs| - 1] == more[|more| - 1];
      } else {
        runs := [first];
        OneInTurn(env, past, events, first, depth);
        assert AllCalls(runs) == first.calls + AllCalls([]);
      }
    }
  }

  lemma NothingInTurn(env: Env, past: seq<Call>, events: seq<Event>, depth: nat)
    ensures InTurn(env, past, events, [], depth)
  {
  }

  lemma OneInTurn(env: Env, past: seq<Call>, events: seq<Event>, first: Run, depth: nat)
    requires events != [] && first == Dispatch(env, past, events[0].topic, events[0].payload, depth)
    ensures InTurn(env, past, events, [first], depth)
  {
    hide Dispatch;
    NoBlockingCalls();
    assert [first][..0] == [] && past + [] == past;
  }

  // ------------------------------------------------------------ who is called

  /** The registered hook as an entry of the dispatch list: global ones first in order, those
      of a resource at their plugin's position, and only if it is enabled. */
  ghost predicate ListedAs(h: HookEntry, enabled: Option<map<string, int>>, e: Entry) {
    && e.pluginId == h.pluginId && e.mode == h.mode && e.hook == h.hook
    && (e.isGlobal <==> h.scope.Global?)
    && if h.scope.Global? then e.position == Enablement.I32_MIN
       else enabled.Some? && h.pluginId in enabled.value && e.position == enabled.value[h.pluginId]
  }

  ghost function TimesListed(entries: seq<HookEntry>, enabled: Option<map<string, int>>, e: Entry): nat {
    if entries == [] then 0
    else (if ListedAs(entries[0], enabled, e) then 1 else 0) + TimesListed(entries[1..], enabled, e)
  }

  lemma {:induction false} EligibleCounts(entries: seq<HookEntry>, enabled: Option<map<string, int>>, e: Entry)
    ensures multiset(Eligible(entries, enabled))[e] == TimesListed(entries, enabled, e)
  {
    if entries != [] {
      EligibleCounts(entries[1..], enabled, e);
      var rest := Eligible(entries[1..], enabled);
      if Eligible(entries, enabled) != rest {
        var head := Eligible(entries, enabled)[0];
        assert Eligible(entries, enabled) == [head] + rest;
      }
    }
  }

  lemma {:induction false} InsertCounts(e: Entry, list: seq<Entry>)
    ensures multiset(Insert(e, list)) == multiset([e] + list)
  {
    if list != [] && !NotAfter(e, list[0]) {
      InsertCounts(e, list[1..]);
      assert list == [list[0]] + list[1..];
    }
  }

  lemma {:induction false} SortCounts(list: seq<Entry>)
    ensures multiset(StableSort(list)) == multiset(list)
  {
    if list != [] {
      SortCounts(list[1..]);
      InsertCounts(list[0], StableSort(list[1..]));
      assert list == [list[0]] + list[1..];
    }
  }

  /** The dispatch list holds every registered hook that is global or whose plugin is enabled,
      as often as it is registered, and no other; blocking before notify hooks, global
      before those of a resource, then by position, then in order of registration. */
  lemma DispatchListIsRight(env: Env, topic: string, e: Entry)
    ensures multiset(DispatchList(env, topic))[e] == TimesListed(HooksOn(env.registry, topic), env.enabled, e)
    ensures Ordered(DispatchList(env, topic))
    ensures Peers(DispatchList(env, topic), e) == Peers(Eligible(HooksOn(env.registry, topic), env.enabled), e)
  {
    var eligible := Eligible(HooksOn(env.registry, topic), env.enabled);
    EligibleCounts(HooksOn(env.registry, topic), env.enabled, e);
    SortCounts(eligible);
    StableSortSorts(eligible, e);
  }
}
