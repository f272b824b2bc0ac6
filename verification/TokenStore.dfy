/** The shared token store: its operations one at a time, and many callers racing to
    refresh the same token. */
module TokenStore {
  import opened Options

  datatype Tokens = Tokens(token: string, refreshToken: Option<string>)

  /** How `refresh_if_current` ends: two ways of success, two of failure. */
  datatype Ending = Rotated | AlreadyFresh | NoRefreshToken | ExchangeFailed

  /** What a caller that holds the refresh lock does, given the tokens it reads. */
  datatype Next = Exchange(refreshToken: string) | End(ending: Ending)

  function Decide(current: Tokens, used: string): Next {
    if current.token != used then End(AlreadyFresh)
    else match current.refreshToken
      case None => End(NoRefreshToken)
      case Some(r) => Exchange(r)
  }

  // ------------------------------------------------------- one caller at a time

  class Store {
    var tokens: Tokens
    /** The tokens the persistence hook was run on, in order. */
    var persisted: seq<Tokens>

    constructor (tokens: Tokens)
      ensures this.tokens == tokens && persisted == []
    {
      this.tokens := tokens;
      persisted := [];
    }

    method AccessToken() returns (token: string)
      ensures token == tokens.token
    {
      token := tokens.token;
    }

    method RefreshToken() returns (token: Option<string>)
      ensures token == tokens.refreshToken
    {
      token := tokens.refreshToken;
    }

    method Update(token: string, refreshToken: Option<string>)
      modifies this
      ensures tokens == Tokens(token, refreshToken) && persisted == old(persisted) + [tokens]
    {
      tokens := tokens.(token := token);
      tokens := tokens.(refreshToken := refreshToken);
      persisted := persisted + [tokens];
    }

    /** `exchange` is the network call: new tokens for a refresh token, or a failure. */
    method RefreshIfCurrent(used: string, exchange: string -> Option<Tokens>) returns (ending: Ending)
      modifies this
      ensures ending == Rotated <==>
                && old(tokens.token) == used && old(tokens.refreshToken).Some?
                && exchange(old(tokens.refreshToken).value).Some?
      ensures ending == AlreadyFresh <==> old(tokens.token) != used
      ensures ending == NoRefreshToken <==> old(tokens.token) == used && old(tokens.refreshToken).None?
      ensures ending != Rotated ==> tokens == old(tokens) && persisted == old(persisted)
      ensures match Decide(old(tokens), used)
              case End(decided) => ending == decided
              case Exchange(refresh) =>
                match exchange(refresh)
                case None => ending == ExchangeFailed
                case Some(obtained) => ending == Rotated && tokens == obtained && persisted == old(persisted) + [obtained]
    {
      var current, refreshToken := tokens.token, tokens.refreshToken;
      if current != used {
        return AlreadyFresh;
      }
      if refreshToken.None? {
        return NoRefreshToken;
      }
      var obtained := exchange(refreshToken.value);
      if obtained.None? {
        return ExchangeFailed;
      }
      Update(obtained.value.token, obtained.value.refreshToken);
      return Rotated;
    }
  }
}

/** Callers of `refresh_if_current` interleaved at every lock operation. */
module TokenRace {
  import opened Options
  import opened TokenStore

  datatype Phase =
    | Blocked(used: string)                    // waiting for the refresh lock
    | Reading(used: string)                    // holds it, about to read the tokens
    | Deciding(used: string, current: Tokens)  // has read them
    | Storing(obtained: Tokens)                   // has exchanged, about to take the write lock
    | Leaving(ending: Ending)                  // about to release the refresh lock
    | Done(ending: Ending)
  {
    predicate HoldsLock() { Reading? || Deciding? || Storing? || Leaving? }
  }

  /** One successful exchange: the access token the caller held, the refresh token it
      presented, and what it got. */
  datatype Rotation = Rotation(used: string, presented: string, obtained: Tokens)

  /** `history`, `rotations` and `persisted` record the tokens issued, the exchanges
      that succeeded and the runs of the persistence hook. */
  datatype State = State(
    tokens: Tokens, lock: Option<nat>, callers: seq<Phase>,
    history: seq<Tokens>, rotations: seq<Rotation>, persisted: seq<Tokens>)

  function Init(tokens: Tokens): State { State(tokens, None, [], [tokens], [], []) }

  datatype Step =
    | Call(used: string)
    | Acquire(i: nat)
    | Read(i: nat)
    | Decision(i: nat, reply: Option<Tokens>)   // the exchange's reply, if there is one
    | Store(i: nat)
    | Release(i: nat)

  /** An access token that has never been issued. */
  ghost predicate Unseen(s: State, token: string) {
    forall k :: 0 <= k < |s.history| ==> s.history[k].token != token
  }

  ghost predicate Enabled(s: State, step: Step) {
    match step
    case Call(_) => true
    case Acquire(i) => i < |s.callers| && s.callers[i].Blocked? && s.lock == None
    case Read(i) => i < |s.callers| && s.callers[i].Reading?
    case Decision(i, reply) =>
      && i < |s.callers| && s.callers[i].Deciding?
      && (reply.Some? ==> Decide(s.callers[i].current, s.callers[i].used).Exchange? && Unseen(s, reply.value.token))
    case Store(i) => i < |s.callers| && s.callers[i].Storing?
    case Release(i) => i < |s.callers| && s.callers[i].Leaving?
  }

  function Apply(s: State, step: Step): State
    requires Enabled(s, step)
  {
    match step
    case Call(used) => s.(callers := s.callers + [Blocked(used)])
    case Acquire(i) => s.(callers := s.callers[i := Reading(s.callers[i].used)], lock := Some(i))
    case Read(i) => s.(callers := s.callers[i := Deciding(s.callers[i].used, s.tokens)])
    case Decision(i, reply) =>
      (match Decide(s.callers[i].current, s.callers[i].used)
       case End(ending) => s.(callers := s.callers[i := Leaving(ending)])
       case Exchange(refresh) =>
         if reply.None? then s.(callers := s.callers[i := Leaving(ExchangeFailed)])
         else s.(callers := s.callers[i := Storing(reply.value)],
                 history := s.history + [reply.value],
                 rotations := s.rotations + [Rotation(s.callers[i].used, refresh, reply.value)]))
    case Store(i) =>
      s.(callers := s.callers[i := Leaving(Rotated)], tokens := s.callers[i].obtained,
         persisted := s.persisted + [s.callers[i].obtained])
    case Release(i) => s.(callers := s.callers[i := Done(s.callers[i].ending)], lock := None)
  }

  ghost predicate Run(s: State, steps: seq<Step>, t: State)
    decreases |steps|
  {
    if steps == [] then s == t else Enabled(s, steps[0]) && Run(Apply(s, steps[0]), steps[1..], t)
  }

  // --------------------------------------------------------------- invariants

  /** The refresh lock is held by the caller it names and by no other. */
  ghost predicate Exclusive(s: State) {
    forall i :: 0 <= i < |s.callers| ==> (s.callers[i].HoldsLock() <==> s.lock == Some(i))
  }

  /** Tokens that have been exchanged for but are not yet stored. */
  function Unstored(s: State): nat {
    if s.lock.Some? && s.lock.value < |s.callers| && s.callers[s.lock.value].Storing? then 1 else 0
  }

  /** Each rotation starts from the tokens the one before ended with. */
  ghost predicate Chained(s: State) {
    && |s.history| == |s.rotations| + 1
    && forall k :: 0 <= k < |s.rotations| ==>
         && s.rotations[k].used == s.history[k].token
         && s.history[k].refreshToken == Some(s.rotations[k].presented)
         && s.rotations[k].obtained == s.history[k + 1]
  }

  ghost predicate DistinctTokens(s: State) {
    forall j, k :: 0 <= j < k < |s.history| ==> s.history[j].token != s.history[k].token
  }

  /** The store holds the tokens last stored, the persistence hook has seen exactly the
      stored ones, and what the lock holder has read is still current. */
  ghost predicate InStep(s: State) {
    && (s.lock.Some? ==> s.lock.value < |s.callers|)
    && |s.history| > Unstored(s)
    && s.tokens == s.history[|s.history| - 1 - Unstored(s)]
    && s.persisted == s.history[1..|s.history| - Unstored(s)]
    && forall i :: 0 <= i < |s.callers| ==>
         && (s.callers[i].Deciding? ==> s.callers[i].current == s.tokens)
         && (s.callers[i].Storing? ==> s.callers[i].obtained == s.history[|s.history| - 1])
  }

  ghost predicate Inv(s: State) {
    Exclusive(s) && Chained(s) && DistinctTokens(s) && InStep(s)
  }

  lemma StepExclusive(s: State, step: Step)
    requires Inv(s) && Enabled(s, step)
    ensures Exclusive(Apply(s, step))
  {
  }

  lemma StepChained(s: State, step: Step)
    requires Inv(s) && Enabled(s, step)
    ensures Chained(Apply(s, step)) && DistinctTokens(Apply(s, step))
  {
  }

  lemma StepInStep(s: State, step: Step)
    requires Inv(s) && Enabled(s, step)
    ensures InStep(Apply(s, step))
  {
    hide Chained, DistinctTokens, Unseen;
    var t := Apply(s, step);
    StepExclusive(s, step);
    match step
    case Decision(i, reply) =>
      assert s.lock == Some(i);
      assert t.history[1..|t.history| - Unstored(t)] == s.history[1..];
    case Store(i) =>
      assert s.lock == Some(i);
      assert t.history[1..] == s.history[1..|s.history| - 1] + [s.history[|s.history| - 1]];
    case _ =>
  }

  lemma {:induction false} RunKeepsInv(s: State, steps: seq<Step>, t: State)
    requires Inv(s) && Run(s, steps, t)
    ensures Inv(t) && s.history[0] == t.history[0]
    decreases |steps|
  {
    if steps != [] {
      StepExclusive(s, steps[0]);
      StepChained(s, steps[0]);
      StepInStep(s, steps[0]);
      RunKeepsInv(Apply(s, steps[0]), steps[1..], t);
    }
  }

  /** Single flight under any interleaving: successful exchanges start from different
      access tokens, each presents the refresh token the one before obtained, and the
      persistence hook runs once for each, on its tokens, as they are stored. */
  lemma SingleFlight(initial: Tokens, steps: seq<Step>, s: State)
    requires Run(Init(initial), steps, s)
    ensures forall j, k :: 0 <= j < k < |s.rotations| ==> s.rotations[j].used != s.rotations[k].used
    ensures forall k :: 0 <= k < |s.rotations| ==>
              var before := if k == 0 then initial else s.rotations[k - 1].obtained;
              before == Tokens(s.rotations[k].used, Some(s.rotations[k].presented))
    ensures |s.persisted| == |s.rotations| - Unstored(s)
    ensures forall k :: 0 <= k < |s.persisted| ==> s.persisted[k] == s.rotations[k].obtained
    ensures s.tokens == if s.persisted == [] then initial else s.persisted[|s.persisted| - 1]
  {
    RunKeepsInv(Init(initial), steps, s);
  }

  /** A caller whose token has been rotated away decides, whenever it gets the lock, that
      there is nothing to do. */
  lemma StaleCallerReuses(initial: Tokens, steps: seq<Step>, s: State, k: nat, i: nat)
    requires Run(Init(initial), steps, s)
    requires k < |s.rotations| && i < |s.callers|
    requires s.callers[i].Deciding? && s.callers[i].used == s.rotations[k].used
    ensures Decide(s.callers[i].current, s.callers[i].used) == End(AlreadyFresh)
  {
    RunKeepsInv(Init(initial), steps, s);
    assert s.lock == Some(i) && Unstored(s) == 0;
    assert s.tokens == s.history[|s.history| - 1];
  }

  /** If the issuer never repeats a refresh token either, no caller presents one that has
      been consumed. */
  lemma ConsumedNeverPresented(initial: Tokens, steps: seq<Step>, s: State, k: nat, i: nat)
    requires Run(Init(initial), steps, s)
    requires forall a, b :: 0 <= a < b < |s.history| && s.history[a].refreshToken.Some? ==>
               s.history[a].refreshToken != s.history[b].refreshToken
    requires k < |s.rotations| && i < |s.callers| && s.callers[i].Deciding?
    ensures Decide(s.callers[i].current, s.callers[i].used) != Exchange(s.rotations[k].presented)
  {
    RunKeepsInv(Init(initial), steps, s);
    assert s.lock == Some(i) && Unstored(s) == 0;
    assert s.tokens == s.history[|s.history| - 1];
  }

  // ------------------------------------------------------------------ endings

  /** One for each caller that has stored tokens. */
  function HasRotated(p: Phase): nat { if (p.Leaving? || p.Done?) && p.ending.Rotated? then 1 else 0 }

  function Rotations(callers: seq<Phase>): nat {
    if callers == [] then 0 else HasRotated(callers[0]) + Rotations(callers[1..])
  }

  lemma {:induction false} RotatedUpdate(callers: seq<Phase>, i: nat, p: Phase)
    requires i < |callers|
    ensures Rotations(callers[i := p]) == Rotations(callers) - HasRotated(callers[i]) + HasRotated(p)
  {
    if i == 0 {
      assert callers[i := p][1..] == callers[1..];
    } else {
      assert callers[i := p][1..] == callers[1..][i - 1 := p];
      RotatedUpdate(callers[1..], i - 1, p);
    }
  }

  lemma {:induction false} RotatedAppend(callers: seq<Phase>, p: Phase)
    ensures Rotations(callers + [p]) == Rotations(callers) + HasRotated(p)
  {
    if callers == [] {
      assert callers + [p] == [p];
      assert Rotations([p]) == HasRotated(p) + Rotations([]);
    } else {
      assert (callers + [p])[1..] == callers[1..] + [p];
      RotatedAppend(callers[1..], p);
    }
  }

  lemma StepRotated(s: State, step: Step)
    requires Enabled(s, step)
    ensures Rotations(Apply(s, step).callers) - |Apply(s, step).persisted| == Rotations(s.callers) - |s.persisted|
  {
    hide Unseen;
    var t := Apply(s, step);
    if step.Call? {
      RotatedAppend(s.callers, Blocked(step.used));
    } else {
      assert t.callers == s.callers[step.i := t.callers[step.i]];
      RotatedUpdate(s.callers, step.i, t.callers[step.i]);
    }
  }

  /** In every run exactly as many callers end with a rotation as tokens were persisted. */
  lemma {:induction false} RotatedOncePersisted(s: State, steps: seq<Step>, t: State)
    requires Run(s, steps, t) && Rotations(s.callers) == |s.persisted|
    ensures Rotations(t.callers) == |t.persisted|
    decreases |steps|
  {
    hide Enabled, Apply, Rotations;
    if steps != [] {
      StepRotated(s, steps[0]);
      RotatedOncePersisted(Apply(s, steps[0]), steps[1..], t);
    }
  }

  /** A caller that nobody interrupts ends, and leaves the tokens, as `refresh_if_current`
      does when called alone. */
  lemma AloneIsRefreshIfCurrent(s: State, used: string, reply: Option<Tokens>) returns (steps: seq<Step>, t: State)
    requires s.lock == None
    requires reply.Some? ==> Unseen(s, reply.value.token) && s.tokens.token == used && s.tokens.refreshToken.Some?
    ensures Run(s, steps, t) && t.lock == None && |t.callers| == |s.callers| + 1
    ensures var i, current := |s.callers|, s.tokens.token == used;
            && t.callers[i].Done?
            && var ending := t.callers[i].ending;
               && (ending == AlreadyFresh <==> !current)
               && (ending == NoRefreshToken <==> current && s.tokens.refreshToken.None?)
               && (ending == ExchangeFailed <==> current && s.tokens.refreshToken.Some? && reply.None?)
               && if ending == Rotated then reply == Some(t.tokens) && t.persisted == s.persisted + [t.tokens]
                  else t.tokens == s.tokens && t.persisted == s.persisted
  {
    hide Run;
    var i := |s.callers|;
    steps, t := Then(s, [], s, Call(used));
    steps, t := Then(s, steps, t, Acquire(i));
    steps, t := Then(s, steps, t, Read(i));
    assert t.callers[i] == Deciding(used, s.tokens) && t.history == s.history;
    steps, t := Then(s, steps, t, Decision(i, reply));
    if t.callers[i].Storing? {
      steps, t := Then(s, steps, t, Store(i));
    }
    steps, t := Then(s, steps, t, Release(i));
  }

  lemma {:induction false} RunThen(s: State, steps: seq<Step>, t: State, step: Step)
    requires Run(s, steps, t) && Enabled(t, step)
    ensures Run(s, steps + [step], Apply(t, step))
    decreases |steps|
  {
    hide Enabled, Apply;
    if steps == [] {
      assert (steps + [step])[1..] == [];
    } else {
      assert (steps + [step])[1..] == steps[1..] + [step];
      RunThen(Apply(s, steps[0]), steps[1..], t, step);
    }
  }

  lemma Then(s: State, steps: seq<Step>, t: State, step: Step) returns (steps': seq<Step>, t': State)
    requires ((steps == [] && s == t) || Run(s, steps, t)) && Enabled(t, step)
    ensures Run(s, steps', t') && t' == Apply(t, step)
  {
    RunThen(s, steps, t, step);
    steps', t' := steps + [step], Apply(t, step);
  }
}
