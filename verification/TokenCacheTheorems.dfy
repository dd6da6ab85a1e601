/** What every run of the token cache guarantees. */
module TokenCacheTheorems {
  import opened Text
  import opened StringSet
  import opened Options
  import opened ClientRequest
  import opened Freshness
  import opened Counting
  import opened Runs
  import opened TokenCache
  import opened TokenCacheRuns
  import C = Claims

  /** In every reachable state a call somebody still awaits is exactly the call in flight for its key, its
      waiter count is the number of callers waiting on or leaving it and is at least one, and nobody is on an
      abandoned call. */
  lemma WaitersExact(cfg: Config, s: State, id: CallId)
    requires Reachable(cfg, s) && id < |s.shared.calls|
    ensures var call := s.shared.calls[id];
            && (call.Live() <==> call.key in s.shared.inflight && s.shared.inflight[call.key] == id)
            && (call.Live() ==> call.waiters == CallersOn(s.callers, id) >= 1)
            && (call.abandoned ==> forall c | 0 <= c < |s.callers| :: !OnCall(s.callers[c], id))
  {
    ReachableInv(cfg, s);
    assert InFlightIffLive(s.shared, id);
    TotalZero(s.callers, OnCallWeight(id));
    if s.shared.calls[id].abandoned {
      forall c | 0 <= c < |s.callers| ensures !OnCall(s.callers[c], id) {
        assert OnCallWeight(id)(s.callers[c]) == 0;
      }
    }
  }

  /** At most one awaited request per key, and never one for a cached key. */
  lemma OneRequestPerKey(cfg: Config, s: State, i: CallId, j: CallId)
    requires Reachable(cfg, s) && i < |s.shared.calls| && j < |s.shared.calls|
    ensures var a, b := s.shared.calls[i], s.shared.calls[j];
            a.Live() && b.Live() && a.key == b.key ==> i == j && a.key !in s.shared.cache
  {
    ReachableInv(cfg, s);
    assert InFlightIffLive(s.shared, i) && InFlightIffLive(s.shared, j);
  }

  /** The late answer of an abandoned request touches neither the cache nor whatever replaced it in flight,
      nor any other call, nor any caller. */
  lemma LateCompletionInert(cfg: Config, s: State, id: CallId)
    requires Reachable(cfg, s) && Enabled(cfg, s, CompleteCall(id)) && s.shared.calls[id].abandoned
    ensures var s' := Apply(cfg, s, CompleteCall(id));
            && s'.shared.cache == s.shared.cache && s'.shared.inflight == s.shared.inflight
            && s'.callers == s.callers
            && forall i: CallId :: i < |s.shared.calls| && i != id ==> s'.shared.calls[i] == s.shared.calls[i]
  {
    ReachableInv(cfg, s);
    assert InFlightIffLive(s.shared, id);
  }

  /** A caller that leaves does not disturb anybody else: whoever else waits on a call keeps it, uncanceled
      if it was, and in flight. */
  lemma CancellationIsolated(cfg: Config, s: State, step: Step, leaver: nat, other: nat)
    requires Reachable(cfg, s) && Enabled(cfg, s, step) && (step == Cancel(leaver) || step == ReleaseWaiter(leaver))
    requires other < |s.callers| && other != leaver && s.callers[other].Waiting?
    ensures s.callers[other].call < |s.shared.calls|
    ensures var s' := Apply(cfg, s, step);
            var id := s.callers[other].call;
            && s'.callers[other] == s.callers[other]
            && s'.shared.calls[id].canceled == s.shared.calls[id].canceled
            && s'.shared.calls[id].Live() == s.shared.calls[id].Live()
            && s'.runners == s.runners
  {
    ReachableInv(cfg, s);
    if step == ReleaseWaiter(leaver) {
      ReleaseIsolated(s.shared, s.callers, leaver, Returned(s.callers[leaver].target, ContextError), other);
    }
  }

  lemma ReleaseIsolated(s: Shared, callers: seq<Caller>, leaver: nat, x: Caller, other: nat)
    requires Coordinated(s) && WaitersCounted(s.calls, callers)
    requires leaver < |callers| && callers[leaver].Leaving? && x.Returned?
    requires other < |callers| && other != leaver && callers[other].Waiting?
    ensures var before := s.calls[callers[other].call];
            var after := Release(s, callers[leaver].call).calls[callers[other].call];
            after.canceled == before.canceled && after.Live() == before.Live()
  {
    WaitersRelease(s, callers, leaver, x);
    SomebodyOn(callers[leaver := x], other, callers[other].call);
    ReleaseOthers(s, callers[leaver].call, callers[other].call);
  }

  /** Releasing a call leaves every call that is not abandoned by it as it was, but for the waiter count. */
  lemma ReleaseOthers(s: Shared, released: CallId, id: CallId)
    requires released < |s.calls| && id < |s.calls|
    ensures var call := Release(s, released).calls[id];
            call.abandoned == s.calls[id].abandoned ==>
              call.canceled == s.calls[id].canceled && call.Live() == s.calls[id].Live()
  {}

  /** No caller is ever answered with an error caused by the cancellation of a shared request. */
  lemma NoInheritedCancellation(cfg: Config, s: State, c: nat)
    requires Reachable(cfg, s) && c < |s.callers| && s.callers[c].Returned?
    ensures s.callers[c].answer != CallFailure(RequestCanceled)
  {
    ReachableInv(cfg, s);
    assert CallerTraced(s.shared.calls, s.callers[c]);
  }

  /** A returned token, cached or shared, was obtained by a request that was never abandoned and whose form carries
      the audience the caller asked for, or the provider's if it gave none but whitespace, and exactly the scope
      tokens it asked for, or the provider's if it listed none. */
  lemma TokenForOwnTarget(cfg: Config, s: State, c: nat)
    requires Reachable(cfg, s) && c < |s.callers| && s.callers[c].Returned? && s.callers[c].answer.TokenAnswer?
    ensures c < |s.asked|
    ensures var asked := s.asked[c];
            var audience := if Blank(asked.audience) then cfg.defaults.audience else asked.audience;
            var scopes := if asked.scopes != [] then asked.scopes else cfg.defaults.scopes;
            exists id: CallId ::
              && id < |s.shared.calls| && !s.shared.calls[id].abandoned
              && s.shared.calls[id].outcome == Some(Obtained(s.callers[c].answer.token))
              && Carries(s.shared.calls[id].form, Trim(audience), scopes)
  {
    ReachableInv(cfg, s);
    var t := s.callers[c].target;
    assert CallerTraced(s.shared.calls, s.callers[c]);
    var id: CallId :|
      && id < |s.shared.calls| && s.shared.calls[id].key == KeyFor(t)
      && s.shared.calls[id].outcome == Some(Obtained(s.callers[c].answer.token)) && !s.shared.calls[id].abandoned;
    OwnFormCarries(cfg.defaults, s.asked[c], t);
  }

  lemma OwnFormCarries(defaults: Target, asked: Target, t: Target)
    requires TargetFor(defaults, asked.audience, asked.scopes) == Some(t)
    ensures Carries(KeyForm(KeyFor(t)), Trim(if Blank(asked.audience) then defaults.audience else asked.audience),
                    if asked.scopes != [] then asked.scopes else defaults.scopes)
  {
    TargetExactly(defaults, asked.audience, asked.scopes);
    ResolvedTargetTrimmed(defaults, asked.audience, asked.scopes);
    TrimTrimmed(t.audience);
    ScopeStringRoundTrip(t.scopes);
  }

  /** The form asks for a token for the audience, and its scope field splits into exactly the scope tokens. */
  ghost predicate Carries(form: Form, audience: string, scopes: seq<string>) {
    && "grant_type" in form && form["grant_type"] == "client_credentials"
    && "audience" in form && form["audience"] == audience
    && SameElements(Fields(if "scope" in form then form["scope"] else ""), AllFields(scopes))
    && form.Keys <= {"grant_type", "audience", "scope"}
  }

  /** An error a caller is answered with is one that a request for its own key, awaited to its end, failed with. */
  lemma FailureForOwnTarget(cfg: Config, s: State, c: nat)
    requires Reachable(cfg, s) && c < |s.callers| && s.callers[c].Returned? && s.callers[c].answer.CallFailure?
    ensures FromFailure(s.shared.calls, KeyFor(s.callers[c].target), s.callers[c].answer.error)
  {
    ReachableInv(cfg, s);
    assert CallerTraced(s.shared.calls, s.callers[c]);
  }

  /** A caller whose context ends can always leave, and is answered with its own context's error. */
  lemma LeaversGetTheirContextError(cfg: Config, s: State, c: nat)
    requires Reachable(cfg, s) && c < |s.callers|
    ensures s.callers[c].Checked? ==>
              && Enabled(cfg, s, GiveUp(c))
              && Apply(cfg, s, GiveUp(c)).callers[c] == Returned(s.callers[c].target, ContextError)
    ensures s.callers[c].Waiting? ==>
              Enabled(cfg, s, Cancel(c)) && Apply(cfg, s, Cancel(c)).callers[c].Leaving?
    ensures s.callers[c].Leaving? ==>
              && Enabled(cfg, s, ReleaseWaiter(c))
              && Apply(cfg, s, ReleaseWaiter(c)).callers[c] == Returned(s.callers[c].target, ContextError)
  {
    ReachableInv(cfg, s);
  }

  /** A step moves its own caller, if it has one, and nobody else. */
  lemma StepIsLocal(cfg: Config, s: State, step: Step, d: nat)
    requires Enabled(cfg, s, step) && d < |s.callers|
    requires step.Check? || step.Respond? || step.CompleteCall? || d != step.caller
    ensures d < |Apply(cfg, s, step).callers| && Apply(cfg, s, step).callers[d] == s.callers[d]
  {}

  /** A token handed out straight from the cache is fresh at the time of the lookup. */
  lemma HitsAreFresh(cfg: Config, s: State, step: Step, c: nat)
    requires Enabled(cfg, s, step) && (step.Check? || step.JoinCall?)
    requires c == if step.Check? then |s.callers| else step.caller
    requires Apply(cfg, s, step).callers[c].Returned?
    ensures var answer := Apply(cfg, s, step).callers[c].answer;
            answer.TokenAnswer? && FreshAt(answer.token, cfg.skew, step.now)
  {}

  /** The answer to an awaited request takes it out of flight, and is cached exactly when it is a token. */
  lemma CompletionCached(cfg: Config, s: State, id: CallId)
    requires Reachable(cfg, s) && Enabled(cfg, s, CompleteCall(id))
    ensures var s' := Apply(cfg, s, CompleteCall(id));
            var key := s.shared.calls[id].key;
            s.shared.calls[id].Live() ==>
            && key !in s'.shared.inflight
            && s'.shared.cache == match s.runners[id].outcome
                                  case Obtained(token) => s.shared.cache[key := token]
                                  case Failed(_) => s.shared.cache
  {
    ReachableInv(cfg, s);
    assert InFlightIffLive(s.shared, id);
  }

  /** Whoever waits on a call when it is answered gets exactly that answer, once it looks. */
  lemma WaitersShareTheAnswer(cfg: Config, s: State, id: CallId, c: nat)
    requires Reachable(cfg, s) && Enabled(cfg, s, CompleteCall(id))
    requires c < |s.callers| && s.callers[c].Waiting? && s.callers[c].call == id
    ensures var s' := Apply(cfg, s, CompleteCall(id));
            && Enabled(cfg, s', Observe(c))
            && Apply(cfg, s', Observe(c)).callers[c].answer ==
                 match s.runners[id].outcome
                 case Obtained(token) => TokenAnswer(token)
                 case Failed(error) => CallFailure(error)
  {}

  /** While a cached token is fresh, a caller for its key gets it and no request is started. */
  lemma CachedTokenServed(cfg: Config, s: State, audience: string, scopes: seq<string>, now: C.Time)
    requires TargetFor(cfg.defaults, audience, scopes).Some?
    requires var key := KeyFor(TargetFor(cfg.defaults, audience, scopes).value);
             key in s.shared.cache && FreshAt(s.shared.cache[key], cfg.skew, now)
    ensures var t := TargetFor(cfg.defaults, audience, scopes).value;
            var s' := Apply(cfg, s, Check(audience, scopes, now));
            && s'.callers == s.callers + [Returned(t, TokenAnswer(s.shared.cache[KeyFor(t)]))]
            && s'.shared.calls == s.shared.calls
  {}

  /** A caller that releases an awaited call cancels its request exactly when nobody else is on it. */
  lemma LastWaiterCancels(cfg: Config, s: State, c: nat)
    requires Reachable(cfg, s) && Enabled(cfg, s, ReleaseWaiter(c)) && s.shared.calls[s.callers[c].call].Live()
    ensures var s' := Apply(cfg, s, ReleaseWaiter(c));
            var id := s.callers[c].call;
            && (s'.shared.calls[id].canceled <==> CallersOn(s.callers, id) == 1)
            && (s'.shared.calls[id].canceled <==> s'.shared.calls[id].abandoned)
            && (s'.shared.calls[id].canceled <==> s.shared.calls[id].key !in s'.shared.inflight)
  {
    ReachableInv(cfg, s);
    var id := s.callers[c].call;
    assert InFlightIffLive(s.shared, id) && CallFlags(s.shared.calls[id], s.runners[id]);
  }

  /* ---------- No waiter hangs ---------- */

  function CallerWork(): Caller -> nat {
    (c: Caller) => match c case Checked(_) => 5 case Waiting(_, _) => 2 case Leaving(_, _) => 1 case Returned(_, _) => 0
  }

  function RunnerWork(): Runner -> nat {
    (r: Runner) => match r case Requesting => 2 case Answered(_) => 1 case Finished => 0
  }

  /** Work left before everybody has returned and every goroutine has ended. */
  function Work(s: State): nat {
    Total(s.callers, CallerWork()) + Total(s.runners, RunnerWork())
  }

  lemma CallerStepDecreases(cfg: Config, s: State, step: Step)
    requires Enabled(cfg, s, step) && !step.Check? && !step.Respond? && !step.CompleteCall?
    ensures Work(Apply(cfg, s, step)) < Work(s)
  {
    var s' := Apply(cfg, s, step);
    TotalDecreases(s.callers, step.caller, s'.callers[step.caller], CallerWork(), if step.JoinCall? then 2 else 0);
    TotalAppend(s.runners, Requesting, RunnerWork());
  }

  lemma RunnerStepDecreases(cfg: Config, s: State, step: Step)
    requires Enabled(cfg, s, step) && (step.Respond? || step.CompleteCall?)
    ensures Work(Apply(cfg, s, step)) < Work(s)
  {
    TotalDecreases(s.runners, step.call, Apply(cfg, s, step).runners[step.call], RunnerWork(), 0);
  }

  /** Every step but the arrival of a new caller uses up work. */
  lemma WorkDecreases(cfg: Config, s: State, step: Step)
    requires Enabled(cfg, s, step) && !step.Check?
    ensures Work(Apply(cfg, s, step)) < Work(s)
  {
    if step.Respond? || step.CompleteCall? {
      RunnerStepDecreases(cfg, s, step);
    } else {
      CallerStepDecreases(cfg, s, step);
    }
  }

  /** Along a run without new callers every step uses up some of the work there was at the start, so no
      interleaving keeps anybody waiting forever once the token endpoint answers. */
  lemma RunsAreBounded(cfg: Config, states: seq<State>, steps: seq<Step>, n: nat)
    requires Run(Moves(cfg), states, steps) && n <= |steps|
    requires forall i | 0 <= i < |steps| :: !steps[i].Check?
    ensures n + Work(states[n]) <= Work(states[0])
  {
    forall i | 0 <= i < n ensures Work(states[i + 1]) < Work(states[i]) {
      MoveUsesWork(cfg, states[i], steps[i], states[i + 1]);
    }
    WorkAlongRun(Work, states, n);
  }

  lemma MoveUsesWork(cfg: Config, s: State, step: Step, s': State)
    requires Moves(cfg)(s, step, s') && !step.Check?
    ensures Work(s') < Work(s)
  {
    WorkDecreases(cfg, s, step);
  }

  /** A step that needs neither a new caller nor a cancellation. */
  predicate Progress(step: Step) {
    !step.Check? && !step.GiveUp? && !step.Cancel?
  }

  /** While somebody has not returned, some step of the protocol itself can be taken. */
  lemma NoDeadlock(cfg: Config, s: State, c: nat) returns (step: Step)
    requires Inv(cfg, s) && c < |s.callers| && !s.callers[c].Returned?
    ensures Progress(step) && Enabled(cfg, s, step)
  {
    match s.callers[c]
    case Checked(_) => step := JoinCall(c, 0);
    case Leaving(_, _) => step := ReleaseWaiter(c);
    case Waiting(_, id) =>
      assert CallFlags(s.shared.calls[id], s.runners[id]);
      match s.runners[id]
      case Requesting => step := Respond(id, Failed(RequestFailed(0)));
      case Answered(_) => step := CompleteCall(id);
      case Finished => step := Observe(c);
  }

  predicate AllReturned(s: State) {
    forall c | 0 <= c < |s.callers| :: s.callers[c].Returned?
  }

  /** Until every caller has returned, a step of the protocol itself brings one of them nearer. */
  lemma Advance(cfg: Config, s: State) returns (step: Step, s': State)
    requires Inv(cfg, s) && !AllReturned(s)
    ensures Advances(Moves(cfg), Progress, s => Inv(cfg, s), Work, s, step, s')
  {
    var c :| 0 <= c < |s.callers| && !s.callers[c].Returned?;
    step := NoDeadlock(cfg, s, c);
    s' := Apply(cfg, s, step);
    InvStep(cfg, s, step);
    WorkDecreases(cfg, s, step);
  }

  /** From every reachable state the protocol can bring every caller home without anybody being canceled. */
  lemma EverybodyReturns(cfg: Config, s: State) returns (states: seq<State>, steps: seq<Step>)
    requires Reachable(cfg, s)
    ensures Run(Moves(cfg), states, steps) && states[0] == s && AllReturned(states[|steps|])
    ensures forall i | 0 <= i < |steps| :: Progress(steps[i])
  {
    ReachableInv(cfg, s);
    var inv := s => Inv(cfg, s);
    forall t | inv(t) && !AllReturned(t)
      ensures exists step, t' :: Advances(Moves(cfg), Progress, inv, Work, t, step, t')
    {
      var step, t' := Advance(cfg, t);
    }
    states, steps := Completes(Moves(cfg), Progress, inv, Work, AllReturned, s);
  }
}
