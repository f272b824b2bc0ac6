/** Hook dispatch: which hooks run on an event, in which order, and what each may do. */
module Hooks {
  import opened Options
  import opened Submissions
  import Enablement

  const MAX_CHAIN_DEPTH: nat := 3
  const BEFORE_SUBMISSION := "before_submission"
  const PLUGIN_RUNTIME_ERROR_CODE := "__BROCCOLI_PLUGIN_RUNTIME_ERROR"

  datatype Result<+T, +E> = Ok(value: T) | Err(error: E)

  datatype Event = Event(topic: string, payload: Json)
  datatype Action = Pass | Stop | Modified(event: Event) | Reject(reason: string) | Chain(events: seq<Event>)

  /** What calling a hook comes to: its action, its error, or thirty seconds of silence. */
  datatype Reply = Replied(action: Action) | Failed | TimedOut

  datatype Scope = Resource | Global
  datatype Mode = Blocking | Notify

  /** A record of one hook call. */
  datatype Call = Call(depth: nat, topic: string, pluginId: string, mode: Mode, payload: Json, reply: Reply)

  /** A hook is any function of the event and of the calls of blocking hooks that came
      before it: it may keep state and answer the same event differently next time. */
  type Hook = (seq<Call>, string, Json) -> Reply

  /** `mode` says whether the hook's reply counts. */
  datatype HookEntry = HookEntry(pluginId: string, scope: Scope, mode: Mode, hook: Hook)

  type Registry = map<string, seq<HookEntry>>

  datatype Outcome =
    | Allowed(payload: Json)
    | Rejected(code: string, message: string, statusCode: nat, details: Option<Json>)
    | Stopped

  datatype AppError =
    | HookFailed | HookTimedOut
    | InvalidEvent | AttributesRewritten | AdmissionReserved
    | PluginRuntime(message: string)

  /** What a dispatch does not change: the registry, the enabled plugins with their
      positions, the contest owner, and the JSON parser for rejection reasons. */
  datatype Env = Env(registry: Registry, enabled: Option<map<string, int>>, owner: Option<string>,
                     parse: string -> Option<Json>)

  // --------------------------------------------------------------- rejections

  function StrOr(j: Option<Json>, default: string): string {
    if j.Some? && j.value.Str? then j.value.s else default
  }

  /** A rejection reason is JSON with optional parts, or plain text. */
  function ParseReject(parse: string -> Option<Json>, reason: string): Outcome {
    match parse(reason)
    case Some(v) =>
      var status := v.Get("status_code");
      Rejected(StrOr(v.Get("code"), "PLUGIN_REJECTED"),
               StrOr(v.Get("message"), "Request rejected by plugin"),
               if status.Some? && status.value.Int? && 0 <= status.value.n <= 0xFFFF then status.value.n else 400,
               v.Get("details"))
    case None => Rejected("PLUGIN_REJECTED", reason, 400, None)
  }

  // ------------------------------------------------- which hooks, in what order

  datatype Entry = Entry(pluginId: string, position: int, isGlobal: bool, mode: Mode, hook: Hook)

  /** Global hooks always run, resource hooks if their plugin is enabled. */
  function Eligible(entries: seq<HookEntry>, enabled: Option<map<string, int>>): seq<Entry> {
    if entries == [] then []
    else
      var e, rest := entries[0], Eligible(entries[1..], enabled);
      if e.scope.Global? then [Entry(e.pluginId, Enablement.I32_MIN, true, e.mode, e.hook)] + rest
      else if enabled.Some? && e.pluginId in enabled.value then
        [Entry(e.pluginId, enabled.value[e.pluginId], false, e.mode, e.hook)] + rest
      else rest
  }

  /** Blocking before notifying, then global before resource hooks, then by position. */
  predicate NotAfter(a: Entry, b: Entry) {
    if a.mode != b.mode then a.mode.Blocking?
    else if a.isGlobal != b.isGlobal then a.isGlobal
    else a.position <= b.position
  }

  /** `sort_by`, which is stable. */
  function Insert(e: Entry, sorted: seq<Entry>): seq<Entry> {
    if sorted == [] || NotAfter(e, sorted[0]) then [e] + sorted
    else [sorted[0]] + Insert(e, sorted[1..])
  }

  function StableSort(list: seq<Entry>): seq<Entry> {
    if list == [] then [] else Insert(list[0], StableSort(list[1..]))
  }

  function HooksOn(registry: Registry, topic: string): seq<HookEntry> {
    if topic in registry then registry[topic] else []
  }

  function DispatchList(env: Env, topic: string): seq<Entry> {
    StableSort(Eligible(HooksOn(env.registry, topic), env.enabled))
  }

  // ------------------------------------------------------------------ dispatch

  function BlockingCalls(calls: seq<Call>): seq<Call> {
    if calls == [] then []
    else if calls[0].mode.Blocking? then [calls[0]] + BlockingCalls(calls[1..])
    else BlockingCalls(calls[1..])
  }

  /** What hooks may know after these calls: notify hooks leave no trace. */
  function Seen(past: seq<Call>, calls: seq<Call>): seq<Call> { past + BlockingCalls(calls) }

  datatype Run = Run(result: Result<Outcome, AppError>, calls: seq<Call>) {
    function After(earlier: seq<Call>): Run { Run(result, earlier + calls) }
  }

  /** The payload after a `Modified` reply. A submission's attributes cannot change, and
      only the contest owner may change what it is admitted with. */
  function Accept(env: Env, topic: string, pluginId: string, current: Json, proposed: Json): Result<Json, AppError> {
    if topic != BEFORE_SUBMISSION then Ok(proposed)
    else if Decode(current).None? || Decode(proposed).None? then Err(InvalidEvent)
    else if Decode(current) != Decode(proposed) then Err(AttributesRewritten)
    else if env.owner == Some(pluginId) then Ok(proposed)
    else if !proposed.Obj? then Err(InvalidEvent)
    else
      var effects := Admission(current);
      if Admission(proposed).Some? && Admission(proposed) != effects then Err(AdmissionReserved)
      else if effects.Some? then Ok(Obj(proposed.fields[ADMISSION := effects.value]))
      else Ok(proposed)
  }

  function Rejection(env: Env, reason: string): Result<Outcome, AppError> {
    var rejected := ParseReject(env.parse, reason);
    if rejected.code == PLUGIN_RUNTIME_ERROR_CODE then Err(PluginRuntime(rejected.message)) else Ok(rejected)
  }

  predicate Continues(r: Result<Outcome, AppError>) { r.Ok? && r.value.Allowed? }

  /** What a hook's reply leads to: on to the next hook with some payload, the end of the
      dispatch, or chained events. */
  datatype Response = Proceed(payload: Json) | Finish(result: Result<Outcome, AppError>) | ChainTo(events: seq<Event>)

  function Respond(env: Env, topic: string, e: Entry, payload: Json, reply: Reply): Response {
    if e.mode.Notify? then Proceed(payload)
    else match reply
      case Failed => Finish(Err(HookFailed))
      case TimedOut => Finish(Err(HookTimedOut))
      case Replied(Pass) => Proceed(payload)
      case Replied(Modified(event)) =>
        (match Accept(env, topic, e.pluginId, payload, event.payload)
         case Ok(next) => Proceed(next)
         case Err(error) => Finish(Err(error)))
      case Replied(Stop) => Finish(Ok(if topic == BEFORE_SUBMISSION then Allowed(payload) else Stopped))
      case Replied(Reject(reason)) => Finish(Rejection(env, reason))
      case Replied(Chain(events)) => ChainTo(events)
  }

  /** `past` is what blocking hooks were asked and answered so far. */
  function Dispatch(env: Env, past: seq<Call>, topic: string, payload: Json, depth: nat): Run
    decreases MAX_CHAIN_DEPTH - depth, 1, 0
  {
    if depth >= MAX_CHAIN_DEPTH then Run(Ok(Allowed(payload)), [])
    else RunEntries(env, past, topic, payload, DispatchList(env, topic), depth)
  }

  function RunEntries(env: Env, past: seq<Call>, topic: string, payload: Json, entries: seq<Entry>, depth: nat): Run
    requires depth < MAX_CHAIN_DEPTH
    decreases MAX_CHAIN_DEPTH - depth, 0, |entries|
  {
    if entries == [] then Run(Ok(Allowed(payload)), [])
    else
      var e := entries[0];
      var reply := e.hook(past, topic, payload);
      var call := [Call(depth, topic, e.pluginId, e.mode, payload, reply)];
      var next := Seen(past, call);
      match Respond(env, topic, e, payload, reply)
      case Proceed(p) => RunEntries(env, next, topic, p, entries[1..], depth).After(call)
      case Finish(result) => Run(result, call)
      case ChainTo(events) => RunChain(env, next, payload, events, depth + 1).After(call)
  }

  /** Dispatch chained events one level deeper; the first that is not allowed decides,
      and otherwise the event that chained them is allowed as it is. */
  function RunChain(env: Env, past: seq<Call>, payload: Json, events: seq<Event>, depth: nat): Run
    requires depth <= MAX_CHAIN_DEPTH
    decreases MAX_CHAIN_DEPTH - depth, 2, |events|
  {
    if events == [] then Run(Ok(Allowed(payload)), [])
    else
      var first := Dispatch(env, past, events[0].topic, events[0].payload, depth);
      if Continues(first.result) then
        RunChain(env, Seen(past, first.calls), payload, events[1..], depth).After(first.calls)
      else first
  }

  /** The dispatcher: a loop over the sorted hooks that overwrites the payload, calling
      itself for chained events. */
  method DispatchHooksInner(env: Env, past: seq<Call>, topic: string, payload: Json, depth: nat)
    returns (result: Result<Outcome, AppError>, calls: seq<Call>)
    ensures Run(result, calls) == Dispatch(env, past, topic, payload, depth)
    decreases MAX_CHAIN_DEPTH - depth, 0
  {
    calls := [];
    if depth >= MAX_CHAIN_DEPTH {
      return Ok(Allowed(payload)), [];
    }
    var eventPayload, seen := payload, past;
    var list := DispatchList(env, topic);
    hide Accept, Rejection, Respond, DispatchList, Seen;
    for i := 0 to |list|
      invariant Dispatch(env, past, topic, payload, depth)
             == RunEntries(env, seen, topic, eventPayload, list[i..], depth).After(calls)
    {
      var entry := list[i];
      assert list[i..][0] == entry && list[i..][1..] == list[i + 1..];
      var reply := entry.hook(seen, topic, eventPayload);
      var call := Call(depth, topic, entry.pluginId, entry.mode, eventPayload, reply);
      seen := Seen(seen, [call]);
      var response := Respond(env, topic, entry, eventPayload, reply);
      match response {
        case Proceed(next) =>
          AfterAfter(RunEntries(env, seen, topic, next, list[i + 1..], depth), calls, [call]);
          eventPayload, calls := next, calls + [call];
        case Finish(end) =>
          return end, calls + [call];
        case ChainTo(events) =>
          AfterAfter(RunChain(env, seen, eventPayload, events, depth + 1), calls, [call]);
          var chained, more := DispatchChained(env, seen, eventPayload, events, depth + 1);
          return chained, calls + [call] + more;
      }
    }
    return Ok(Allowed(eventPayload)), calls;
  }

  /** The inner loop over chained events. */
  method DispatchChained(env: Env, past: seq<Call>, payload: Json, events: seq<Event>, depth: nat)
    returns (result: Result<Outcome, AppError>, calls: seq<Call>)
    requires depth <= MAX_CHAIN_DEPTH
    ensures Run(result, calls) == RunChain(env, past, payload, events, depth)
    decreases MAX_CHAIN_DEPTH - depth, 1
  {
    hide Seen;
    calls := [];
    var seen := past;
    for k := 0 to |events|
      invariant RunChain(env, past, payload, events, depth) == RunChain(env, seen, payload, events[k..], depth).After(calls)
    {
      assert events[k..][0] == events[k] && events[k..][1..] == events[k + 1..];
      var chained, more := DispatchHooksInner(env, seen, events[k].topic, events[k].payload, depth);
      seen := Seen(seen, more);
      AfterAfter(RunChain(env, seen, payload, events[k + 1..], depth), calls, more);
      calls := calls + more;
      if !Continues(chained) {
        return chained, calls;
      }
    }
    return Ok(Allowed(payload)), calls;
  }

  lemma AfterAfter(run: Run, earlier: seq<Call>, later: seq<Call>)
    ensures run.After(later).After(earlier) == run.After(earlier + later)
  {
    assert earlier + (later + run.calls) == (earlier + later) + run.calls;
  }
}
