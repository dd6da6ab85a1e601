/** Every interleaving of callers, cancellations and request goroutines over the token cache. A step is one
    region under the mutex, one channel receive, or one answer from the token endpoint. */
module TokenCacheRuns {
  import opened Options
  import opened Text
  import opened StringSet
  import opened ClientRequest
  import opened Freshness
  import opened Counting
  import opened Runs
  import opened TokenCache
  import C = Claims

  datatype Answer = TokenAnswer(token: CachedToken) | ContextError | CallFailure(error: CallError)

  /** Where a TokenResponse call stands. */
  datatype Caller =
    | Checked(target: Target)                  // missed the cache, before joinOrStartCall
    | Waiting(target: Target, call: CallId)    // in the select of waitForCall
    | Leaving(target: Target, call: CallId)    // its context ended, before releaseWaiter
    | Returned(target: Target, answer: Answer)

  /** Where the goroutine of a call stands. */
  datatype Runner = Requesting | Answered(outcome: Outcome) | Finished

  /** `asked` is history: the audience and scopes each caller gave, as it gave them. */
  datatype State = State(shared: Shared, callers: seq<Caller>, runners: seq<Runner>, asked: seq<Target>)

  datatype Config = Config(defaults: Target, skew: nat)

  datatype Step =
    | Check(audience: string, scopes: seq<string>, now: C.Time)
    | GiveUp(caller: nat)
    | JoinCall(caller: nat, now: C.Time)
    | Respond(call: CallId, outcome: Outcome)
    | CompleteCall(call: CallId)
    | Observe(caller: nat)
    | Cancel(caller: nat)
    | ReleaseWaiter(caller: nat)

  const INITIAL := State(Shared(map[], map[], []), [], [], [])

  function KeyFor(t: Target): CacheKey {
    KeyOf(t.audience, t.scopes)
  }

  function FormFor(t: Target): Form {
    KeyForm(CacheKey(t.audience, ScopeString(t.scopes)))
  }

  predicate Enabled(cfg: Config, s: State, step: Step) {
    match step
    case Check(audience, scopes, now) => TargetFor(cfg.defaults, audience, scopes).Some?
    case GiveUp(c) => c < |s.callers| && s.callers[c].Checked?
    case JoinCall(c, now) => c < |s.callers| && s.callers[c].Checked? && s.shared.WellFormed()
    case Respond(id, outcome) =>
      && id < |s.shared.calls| && id < |s.runners| && s.runners[id].Requesting?
      && (outcome == Failed(RequestCanceled) ==> s.shared.calls[id].canceled)
    case CompleteCall(id) => id < |s.shared.calls| && id < |s.runners| && s.runners[id].Answered?
    case Observe(c) =>
      && c < |s.callers| && s.callers[c].Waiting? && s.callers[c].call < |s.shared.calls|
      && s.shared.calls[s.callers[c].call].outcome.Some?
    case Cancel(c) => c < |s.callers| && s.callers[c].Waiting?
    case ReleaseWaiter(c) => c < |s.callers| && s.callers[c].Leaving? && s.callers[c].call < |s.shared.calls|
  }

  function Apply(cfg: Config, s: State, step: Step): State
    requires Enabled(cfg, s, step)
  {
    match step
    case Check(audience, scopes, now) =>
      var t := TargetFor(cfg.defaults, audience, scopes).value;
      var shared := Lookup(s.shared, cfg.skew, now);
      var caller := if KeyFor(t) in shared.cache then Returned(t, TokenAnswer(shared.cache[KeyFor(t)])) else Checked(t);
      s.(shared := shared, callers := s.callers + [caller], asked := s.asked + [Target(audience, scopes)])
    case GiveUp(c) =>
      s.(callers := s.callers[c := Returned(s.callers[c].target, ContextError)])
    case JoinCall(c, now) =>
      var t := s.callers[c].target;
      var (shared, joined) := Join(s.shared, KeyFor(t), FormFor(t), cfg.skew, now);
      var caller := if joined.Hit? then Returned(t, TokenAnswer(joined.token)) else Waiting(t, joined.call);
      var runners := if |shared.calls| > |s.shared.calls| then s.runners + [Requesting] else s.runners;
      s.(shared := shared, callers := s.callers[c := caller], runners := runners)
    case Respond(id, outcome) =>
      s.(runners := s.runners[id := Answered(outcome)])
    case CompleteCall(id) =>
      s.(shared := Complete(s.shared, id, s.runners[id].outcome), runners := s.runners[id := Finished])
    case Observe(c) =>
      var answer :=
        match s.shared.calls[s.callers[c].call].outcome.value
        case Obtained(token) => TokenAnswer(token)
        case Failed(error) => CallFailure(error);
      s.(callers := s.callers[c := Returned(s.callers[c].target, answer)])
    case Cancel(c) =>
      s.(callers := s.callers[c := Leaving(s.callers[c].target, s.callers[c].call)])
    case ReleaseWaiter(c) =>
      s.(shared := Release(s.shared, s.callers[c].call),
         callers := s.callers[c := Returned(s.callers[c].target, ContextError)])
  }

  /* ---------- The invariant ---------- */

  predicate OnCall(c: Caller, id: CallId) {
    (c.Waiting? || c.Leaving?) && c.call == id
  }

  function OnCallWeight(id: CallId): Caller -> nat {
    (c: Caller) => if OnCall(c, id) then 1 else 0
  }

  /** How many callers wait for a call or are about to release it. */
  function CallersOn(callers: seq<Caller>, id: CallId): nat {
    Total(callers, OnCallWeight(id))
  }

  /** Live calls are exactly the calls in flight, and a key is never both cached and in flight. */
  ghost predicate Coordinated(s: Shared) {
    && s.WellFormed()
    && (forall id: CallId :: id < |s.calls| ==> InFlightIffLive(s, id))
    && s.cache.Keys !! s.inflight.Keys
  }

  predicate InFlightIffLive(s: Shared, id: CallId)
    requires id < |s.calls|
  {
    s.calls[id].Live() <==> s.calls[id].key in s.inflight && s.inflight[s.calls[id].key] == id
  }

  /** Flags of a call and of its goroutine agree; a canceled request belongs to an abandoned call. */
  ghost predicate FlagsAgree(calls: seq<Call>, runners: seq<Runner>) {
    && |runners| == |calls|
    && forall id: CallId :: id < |calls| ==> CallFlags(calls[id], runners[id])
  }

  predicate CallFlags(call: Call, runner: Runner) {
    && (call.canceled <==> call.completed || call.abandoned)
    && (call.completed <==> call.outcome.Some?)
    && (call.completed <==> runner.Finished?)
    && (runner == Answered(Failed(RequestCanceled)) ==> call.abandoned)
    && (call.outcome == Some(Failed(RequestCanceled)) ==> call.abandoned)
  }

  /** The waiter count of a live call is the number of callers on it, at least one; nobody is on an
      abandoned call. */
  ghost predicate WaitersCounted(calls: seq<Call>, callers: seq<Caller>) {
    && (forall c: nat :: c < |callers| && (callers[c].Waiting? || callers[c].Leaving?) ==> callers[c].call < |calls|)
    && forall id: CallId :: id < |calls| ==>
         && (calls[id].Live() ==> calls[id].waiters == CallersOn(callers, id) >= 1)
         && (calls[id].abandoned ==> CallersOn(callers, id) == 0)
  }

  /** `token` was obtained by a call for `key` that was not abandoned. */
  ghost predicate FromCall(calls: seq<Call>, key: CacheKey, token: CachedToken) {
    exists id: CallId ::
      id < |calls| && calls[id].key == key && calls[id].outcome == Some(Obtained(token)) && !calls[id].abandoned
  }

  /** `error` is how a call for `key` that was not abandoned failed. */
  ghost predicate FromFailure(calls: seq<Call>, key: CacheKey, error: CallError) {
    exists id: CallId ::
      id < |calls| && calls[id].key == key && calls[id].outcome == Some(Failed(error)) && !calls[id].abandoned
  }

  /** Every call sent the form of its own key; callers wait on calls for their own key; every cached or
      returned token was obtained for its key. */
  ghost predicate Traced(s: Shared, callers: seq<Caller>) {
    && (forall id: CallId :: id < |s.calls| ==> s.calls[id].form == KeyForm(s.calls[id].key))
    && (forall k <- s.cache :: FromCall(s.calls, k, s.cache[k]))
    && (forall c: nat :: c < |callers| ==> CallerTraced(s.calls, callers[c]))
  }

  ghost predicate CallerTraced(calls: seq<Call>, c: Caller) {
    && KeyFor(c.target) == CacheKey(c.target.audience, ScopeString(c.target.scopes))
    && (c.Waiting? || c.Leaving? ==> c.call < |calls| && calls[c.call].key == KeyFor(c.target))
    && (c.Returned? && c.answer.TokenAnswer? ==> FromCall(calls, KeyFor(c.target), c.answer.token))
    && (c.Returned? && c.answer.CallFailure? ==>
          c.answer.error != RequestCanceled && FromFailure(calls, KeyFor(c.target), c.answer.error))
  }

  /** Every caller's target is what it asked for, with the provider's defaults filled in. */
  ghost predicate TargetsAsked(cfg: Config, asked: seq<Target>, callers: seq<Caller>) {
    && |asked| == |callers|
    && forall c: nat :: c < |callers| ==>
         TargetFor(cfg.defaults, asked[c].audience, asked[c].scopes) == Some(callers[c].target)
  }

  ghost predicate Consistent(s: State) {
    && Coordinated(s.shared) && FlagsAgree(s.shared.calls, s.runners)
    && WaitersCounted(s.shared.calls, s.callers) && Traced(s.shared, s.callers)
  }

  ghost predicate Inv(cfg: Config, s: State) {
    Consistent(s) && TargetsAsked(cfg, s.asked, s.callers)
  }

  /* ---------- Coordination ---------- */

  lemma JoinCoordinated(s: Shared, key: CacheKey, form: Form, skew: nat, now: C.Time)
    requires Coordinated(s)
    ensures Coordinated(Join(s, key, form, skew, now).0)
  {
    var s' := Join(s, key, form, skew, now).0;
    forall id: CallId | id < |s'.calls| ensures InFlightIffLive(s', id) {
      if id < |s.calls| {
        assert InFlightIffLive(s, id);
      }
    }
  }

  lemma CompleteCoordinated(s: Shared, id: CallId, outcome: Outcome)
    requires Coordinated(s) && id < |s.calls| && !s.calls[id].completed
    ensures Coordinated(Complete(s, id, outcome))
  {
    var s' := Complete(s, id, outcome);
    assert InFlightIffLive(s, id);
    forall i: CallId | i < |s'.calls| ensures InFlightIffLive(s', i) {
      assert InFlightIffLive(s, i);
    }
  }

  lemma ReleaseCoordinated(s: Shared, id: CallId)
    requires Coordinated(s) && id < |s.calls|
    ensures Coordinated(Release(s, id))
  {
    var s' := Release(s, id);
    assert InFlightIffLive(s, id);
    forall i: CallId | i < |s'.calls| ensures InFlightIffLive(s', i) {
      assert InFlightIffLive(s, i);
    }
  }

  lemma CoordinatedStep(cfg: Config, s: State, step: Step)
    requires Consistent(s) && Enabled(cfg, s, step)
    ensures Coordinated(Apply(cfg, s, step).shared)
  {
    match step
    case Check(audience, scopes, now) =>
      forall id: CallId | id < |s.shared.calls| ensures InFlightIffLive(Lookup(s.shared, cfg.skew, now), id) {
        assert InFlightIffLive(s.shared, id);
      }
    case JoinCall(c, now) =>
      var t := s.callers[c].target;
      JoinCoordinated(s.shared, KeyFor(t), FormFor(t), cfg.skew, now);
    case CompleteCall(id) => CompleteCoordinated(s.shared, id, s.runners[id].outcome);
    case ReleaseWaiter(c) => ReleaseCoordinated(s.shared, s.callers[c].call);
    case _ =>
  }

  lemma JoinFlags(s: Shared, runners: seq<Runner>, key: CacheKey, form: Form, skew: nat, now: C.Time)
    requires s.WellFormed() && FlagsAgree(s.calls, runners)
    ensures var calls := Join(s, key, form, skew, now).0.calls;
            FlagsAgree(calls, if |calls| > |s.calls| then runners + [Requesting] else runners)
  {}

  lemma CompleteFlags(s: Shared, runners: seq<Runner>, id: CallId)
    requires FlagsAgree(s.calls, runners) && id < |s.calls| && runners[id].Answered?
    ensures FlagsAgree(Complete(s, id, runners[id].outcome).calls, runners[id := Finished])
  {}

  lemma ReleaseFlags(s: Shared, runners: seq<Runner>, id: CallId)
    requires FlagsAgree(s.calls, runners) && id < |s.calls|
    ensures FlagsAgree(Release(s, id).calls, runners)
  {}

  lemma FlagsStep(cfg: Config, s: State, step: Step)
    requires Consistent(s) && Enabled(cfg, s, step)
    ensures var s' := Apply(cfg, s, step); FlagsAgree(s'.shared.calls, s'.runners)
  {
    match step
    case JoinCall(c, now) =>
      var t := s.callers[c].target;
      JoinFlags(s.shared, s.runners, KeyFor(t), FormFor(t), cfg.skew, now);
    case CompleteCall(id) => CompleteFlags(s.shared, s.runners, id);
    case ReleaseWaiter(c) => ReleaseFlags(s.shared, s.runners, s.callers[c].call);
    case _ =>
  }

  /* ---------- Counting waiters ---------- */

  lemma CallersUpdate(callers: seq<Caller>, c: nat, x: Caller)
    requires c < |callers|
    ensures forall id: CallId ::
              CallersOn(callers[c := x], id) + (if OnCall(callers[c], id) then 1 else 0)
              == CallersOn(callers, id) + (if OnCall(x, id) then 1 else 0)
  {
    forall id: CallId ensures CallersOn(callers[c := x], id) + (if OnCall(callers[c], id) then 1 else 0)
                              == CallersOn(callers, id) + (if OnCall(x, id) then 1 else 0) {
      TotalUpdate(callers, c, x, OnCallWeight(id));
    }
  }

  lemma CallersAppend(callers: seq<Caller>, x: Caller)
    requires x.Checked? || x.Returned?
    ensures forall id: CallId :: CallersOn(callers + [x], id) == CallersOn(callers, id)
  {
    forall id: CallId ensures CallersOn(callers + [x], id) == CallersOn(callers, id) {
      TotalAppend(callers, x, OnCallWeight(id));
    }
  }

  /** Nobody is on a call that does not exist yet. */
  lemma NobodyOn(calls: seq<Call>, callers: seq<Caller>, id: CallId)
    requires WaitersCounted(calls, callers) && id >= |calls|
    ensures CallersOn(callers, id) == 0
  {
    forall c | 0 <= c < |callers| ensures OnCallWeight(id)(callers[c]) == 0 {}
    TotalZero(callers, OnCallWeight(id));
  }

  /** A caller that joins or starts a call adds itself to the count. */
  lemma WaitersJoin(
    s: Shared, callers: seq<Caller>, c: nat, t: Target, key: CacheKey, form: Form, skew: nat, now: C.Time)
    requires Coordinated(s) && WaitersCounted(s.calls, callers) && c < |callers| && callers[c].Checked?
    ensures var (s', joined) := Join(s, key, form, skew, now);
            joined.Wait? ==> WaitersCounted(s'.calls, callers[c := Waiting(t, joined.call)])
  {
    var (s', joined) := Join(s, key, form, skew, now);
    if joined.Wait? {
      CallersUpdate(callers, c, Waiting(t, joined.call));
      NobodyOn(s.calls, callers, |s.calls|);
      if key in s.inflight {
        assert InFlightIffLive(s, s.inflight[key]);
      }
    }
  }

  /** A caller that releases its call takes itself off the count; the last one abandons the call. */
  lemma WaitersRelease(s: Shared, callers: seq<Caller>, c: nat, x: Caller)
    requires Coordinated(s) && WaitersCounted(s.calls, callers) && c < |callers| && callers[c].Leaving? && x.Returned?
    ensures WaitersCounted(Release(s, callers[c].call).calls, callers[c := x])
  {
    CallersUpdate(callers, c, x);
    assert InFlightIffLive(s, callers[c].call);
  }

  /** Moving a caller without taking it off its call, or off a completed call, keeps the counts. */
  lemma WaitersMove(calls: seq<Call>, callers: seq<Caller>, c: nat, x: Caller)
    requires WaitersCounted(calls, callers) && c < |callers|
    requires forall id: CallId :: OnCall(x, id) ==> OnCall(callers[c], id)
    requires forall id: CallId :: id < |calls| && OnCall(callers[c], id) && !OnCall(x, id) ==> calls[id].completed
    ensures WaitersCounted(calls, callers[c := x])
  {
    CallersUpdate(callers, c, x);
    if x.Waiting? || x.Leaving? {
      assert OnCall(x, x.call);
    }
  }

  lemma WaitersComplete(s: Shared, callers: seq<Caller>, id: CallId, outcome: Outcome)
    requires WaitersCounted(s.calls, callers) && id < |s.calls|
    ensures WaitersCounted(Complete(s, id, outcome).calls, callers)
  {}

  lemma WaitersJoinStep(cfg: Config, s: State, c: nat, now: C.Time)
    requires Consistent(s) && Enabled(cfg, s, JoinCall(c, now))
    ensures var s' := Apply(cfg, s, JoinCall(c, now)); WaitersCounted(s'.shared.calls, s'.callers)
  {
    var t := s.callers[c].target;
    WaitersJoin(s.shared, s.callers, c, t, KeyFor(t), FormFor(t), cfg.skew, now);
    var caller := Apply(cfg, s, JoinCall(c, now)).callers[c];
    if caller.Returned? {
      WaitersMove(s.shared.calls, s.callers, c, caller);
    }
  }

  lemma WaitersStep(cfg: Config, s: State, step: Step)
    requires Consistent(s) && Enabled(cfg, s, step)
    ensures var s' := Apply(cfg, s, step); WaitersCounted(s'.shared.calls, s'.callers)
  {
    var s' := Apply(cfg, s, step);
    match step
    case Check(audience, scopes, now) => CallersAppend(s.callers, s'.callers[|s.callers|]);
    case GiveUp(c) => WaitersMove(s.shared.calls, s.callers, c, s'.callers[c]);
    case JoinCall(c, now) => WaitersJoinStep(cfg, s, c, now);
    case Respond(id, outcome) =>
    case CompleteCall(id) => WaitersComplete(s.shared, s.callers, id, s.runners[id].outcome);
    case Observe(c) => WaitersMove(s.shared.calls, s.callers, c, s'.callers[c]);
    case Cancel(c) => WaitersMove(s.shared.calls, s.callers, c, s'.callers[c]);
    case ReleaseWaiter(c) => WaitersRelease(s.shared, s.callers, c, s'.callers[c]);
  }

  /* ---------- Where tokens come from ---------- */

  /** Calls keep their key, and once completed their outcome and whether they were abandoned. */
  ghost predicate Extends(calls: seq<Call>, calls': seq<Call>) {
    && |calls| <= |calls'|
    && forall id: CallId :: id < |calls| ==>
         && calls'[id].key == calls[id].key
         && (calls[id].outcome.Some? ==>
               calls'[id].outcome == calls[id].outcome && calls'[id].abandoned == calls[id].abandoned)
  }

  lemma CallerTracedKept(calls: seq<Call>, calls': seq<Call>, c: Caller)
    requires Extends(calls, calls') && CallerTraced(calls, c)
    ensures CallerTraced(calls', c)
  {
    if c.Returned? && c.answer.TokenAnswer? {
      FromCallKept(calls, calls', KeyFor(c.target), c.answer.token);
    }
    if c.Returned? && c.answer.CallFailure? {
      FromFailureKept(calls, calls', KeyFor(c.target), c.answer.error);
    }
  }

  lemma FromCallKept(calls: seq<Call>, calls': seq<Call>, key: CacheKey, token: CachedToken)
    requires Extends(calls, calls') && FromCall(calls, key, token)
    ensures FromCall(calls', key, token)
  {
    var id: CallId :|
      id < |calls| && calls[id].key == key && calls[id].outcome == Some(Obtained(token)) && !calls[id].abandoned;
    assert calls'[id].outcome == Some(Obtained(token));
  }

  lemma FromFailureKept(calls: seq<Call>, calls': seq<Call>, key: CacheKey, error: CallError)
    requires Extends(calls, calls') && FromFailure(calls, key, error)
    ensures FromFailure(calls', key, error)
  {
    var id: CallId :|
      id < |calls| && calls[id].key == key && calls[id].outcome == Some(Failed(error)) && !calls[id].abandoned;
    assert calls'[id].outcome == Some(Failed(error));
  }

  /** The shared half of Traced is kept when the calls grow and every new cache entry is accounted for. */
  lemma TracedKept(s: Shared, s': Shared, callers: seq<Caller>, callers': seq<Caller>, c: nat)
    requires Traced(s, callers) && Extends(s.calls, s'.calls)
    requires forall id: CallId :: id < |s'.calls| ==> s'.calls[id].form == KeyForm(s'.calls[id].key)
    requires forall k <- s'.cache :: (k in s.cache && s'.cache[k] == s.cache[k]) || FromCall(s'.calls, k, s'.cache[k])
    requires |callers| <= |callers'|
    requires forall i | 0 <= i < |callers'| && i != c :: i < |callers| && callers'[i] == callers[i]
    requires c < |callers'| ==> CallerTraced(s'.calls, callers'[c])
    ensures Traced(s', callers')
  {
    forall k <- s'.cache ensures FromCall(s'.calls, k, s'.cache[k]) {
      if k in s.cache && s'.cache[k] == s.cache[k] {
        FromCallKept(s.calls, s'.calls, k, s.cache[k]);
      }
    }
    forall i: nat | i < |callers'| ensures CallerTraced(s'.calls, callers'[i]) {
      if i != c {
        CallerTracedKept(s.calls, s'.calls, callers'[i]);
      }
    }
  }

  lemma TracedCheck(cfg: Config, s: State, step: Step)
    requires Consistent(s) && step.Check? && Enabled(cfg, s, step)
    ensures var s' := Apply(cfg, s, step); Traced(s'.shared, s'.callers)
  {
    var s' := Apply(cfg, s, step);
    var t := TargetFor(cfg.defaults, step.audience, step.scopes).value;
    ResolvedTargetTrimmed(cfg.defaults, step.audience, step.scopes);
    TrimTrimmed(t.audience);
    TracedKept(s.shared, s'.shared, s.callers, s'.callers, |s.callers|);
  }

  /** Joining keeps every call's key and form, adds nothing to the cache, and leaves the caller with a cached
      token or a call for its own key. */
  lemma JoinExtends(s: Shared, key: CacheKey, skew: nat, now: C.Time)
    requires s.WellFormed() && forall id: CallId :: id < |s.calls| ==> s.calls[id].form == KeyForm(s.calls[id].key)
    ensures var (s', joined) := Join(s, key, KeyForm(key), skew, now);
            && Extends(s.calls, s'.calls)
            && (forall id: CallId :: id < |s'.calls| ==> s'.calls[id].form == KeyForm(s'.calls[id].key))
            && (forall k <- s'.cache :: k in s.cache && s'.cache[k] == s.cache[k])
            && match joined
               case Hit(token) => key in s.cache && token == s.cache[key]
               case Wait(id) => id < |s'.calls| && s'.calls[id].key == key
  {}

  lemma TracedJoin(cfg: Config, s: State, step: Step)
    requires Consistent(s) && step.JoinCall? && Enabled(cfg, s, step)
    ensures var s' := Apply(cfg, s, step); Traced(s'.shared, s'.callers)
  {
    var s' := Apply(cfg, s, step);
    var t := s.callers[step.caller].target;
    assert CallerTraced(s.shared.calls, s.callers[step.caller]);
    JoinExtends(s.shared, KeyFor(t), cfg.skew, step.now);
    assert CallerTraced(s'.shared.calls, s'.callers[step.caller]) by {
      if KeyFor(t) in s.shared.cache {
        FromCallKept(s.shared.calls, s'.shared.calls, KeyFor(t), s.shared.cache[KeyFor(t)]);
      }
    }
    TracedKept(s.shared, s'.shared, s.callers, s'.callers, step.caller);
  }

  /** Completing a call for the first time adds at most its own token to the cache. */
  lemma CompleteExtends(s: Shared, id: CallId, outcome: Outcome)
    requires id < |s.calls| && s.calls[id].outcome.None?
    ensures var s' := Complete(s, id, outcome);
            && Extends(s.calls, s'.calls)
            && (forall i: CallId :: i < |s.calls| ==> s'.calls[i].form == s.calls[i].form)
            && forall k <- s'.cache :: (k in s.cache && s'.cache[k] == s.cache[k]) || FromCall(s'.calls, k, s'.cache[k])
  {
    var s' := Complete(s, id, outcome);
    assert s'.calls[id].outcome == Some(outcome);
  }

  lemma TracedComplete(cfg: Config, s: State, step: Step)
    requires Consistent(s) && step.CompleteCall? && Enabled(cfg, s, step)
    ensures var s' := Apply(cfg, s, step); Traced(s'.shared, s'.callers)
  {
    var s' := Apply(cfg, s, step);
    assert CallFlags(s.shared.calls[step.call], s.runners[step.call]);
    CompleteExtends(s.shared, step.call, s.runners[step.call].outcome);
    TracedKept(s.shared, s'.shared, s.callers, s'.callers, |s.callers|);
  }

  lemma TracedObserve(cfg: Config, s: State, step: Step)
    requires Consistent(s) && step.Observe? && Enabled(cfg, s, step)
    ensures var s' := Apply(cfg, s, step); Traced(s'.shared, s'.callers)
  {
    var s' := Apply(cfg, s, step);
    var id := s.callers[step.caller].call;
    SomebodyOn(s.callers, step.caller, id);
    assert CallFlags(s.shared.calls[id], s.runners[id]);
    assert CallerTraced(s.shared.calls, s.callers[step.caller]);
    assert CallerTraced(s'.shared.calls, s'.callers[step.caller]) by {
      match s.shared.calls[id].outcome.value
      case Obtained(token) => assert FromCall(s.shared.calls, s.shared.calls[id].key, token);
      case Failed(error) => assert FromFailure(s.shared.calls, s.shared.calls[id].key, error);
    }
    TracedKept(s.shared, s'.shared, s.callers, s'.callers, step.caller);
  }

  lemma SomebodyOn(callers: seq<Caller>, c: nat, id: CallId)
    requires c < |callers| && OnCall(callers[c], id)
    ensures CallersOn(callers, id) >= 1
  {
    TotalZero(callers, OnCallWeight(id));
    assert OnCallWeight(id)(callers[c]) == 1;
  }

  lemma TracedStep(cfg: Config, s: State, step: Step)
    requires Consistent(s) && Enabled(cfg, s, step)
    ensures var s' := Apply(cfg, s, step); Traced(s'.shared, s'.callers)
  {
    match step
    case Check(_, _, _) => TracedCheck(cfg, s, step);
    case JoinCall(_, _) => TracedJoin(cfg, s, step);
    case Respond(_, _) =>
    case CompleteCall(_) => TracedComplete(cfg, s, step);
    case Observe(_) => TracedObserve(cfg, s, step);
    case GiveUp(c) => TracedMove(s.shared, s.callers, c, Returned(s.callers[c].target, ContextError));
    case Cancel(c) => TracedMove(s.shared, s.callers, c, Leaving(s.callers[c].target, s.callers[c].call));
    case ReleaseWaiter(c) =>
      assert CallFlags(s.shared.calls[s.callers[c].call], s.runners[s.callers[c].call]);
      TracedRelease(s.shared, s.callers, s.callers[c].call);
      TracedMove(Release(s.shared, s.callers[c].call), s.callers, c, Returned(s.callers[c].target, ContextError));
  }

  lemma TracedMove(s: Shared, callers: seq<Caller>, c: nat, x: Caller)
    requires Traced(s, callers) && c < |callers| && CallerTraced(s.calls, callers[c])
    requires x == Returned(callers[c].target, ContextError)
             || (callers[c].Waiting? && x == Leaving(callers[c].target, callers[c].call))
    ensures Traced(s, callers[c := x])
  {}

  lemma TracedRelease(s: Shared, callers: seq<Caller>, id: CallId)
    requires Traced(s, callers) && id < |s.calls| && (s.calls[id].outcome.Some? ==> s.calls[id].completed)
    ensures Traced(Release(s, id), callers)
  {
    assert Extends(s.calls, Release(s, id).calls);
    TracedKept(s, Release(s, id), callers, callers, |callers|);
  }

  /* ---------- Runs ---------- */

  /** No step changes what a caller asked for or its target. */
  lemma AskedStep(cfg: Config, s: State, step: Step)
    requires TargetsAsked(cfg, s.asked, s.callers) && Enabled(cfg, s, step)
    ensures var s' := Apply(cfg, s, step); TargetsAsked(cfg, s'.asked, s'.callers)
  {}

  /** Every step of every interleaving keeps the invariant. */
  lemma InvStep(cfg: Config, s: State, step: Step)
    requires Inv(cfg, s) && Enabled(cfg, s, step)
    ensures Inv(cfg, Apply(cfg, s, step))
  {
    AskedStep(cfg, s, step);
    CoordinatedStep(cfg, s, step);
    FlagsStep(cfg, s, step);
    WaitersStep(cfg, s, step);
    TracedStep(cfg, s, step);
  }

  function Moves(cfg: Config): (State, Step, State) -> bool {
    (s, step, s') => Enabled(cfg, s, step) && Apply(cfg, s, step) == s'
  }

  lemma InvAlongRun(cfg: Config, states: seq<State>, steps: seq<Step>, n: nat)
    requires Run(Moves(cfg), states, steps) && Inv(cfg, states[0]) && n <= |steps|
    ensures Inv(cfg, states[n])
  {
    forall s, step, s' | Moves(cfg)(s, step, s') && Inv(cfg, s) ensures Inv(cfg, s') {
      InvStep(cfg, s, step);
    }
    KeptAlongRun(Moves(cfg), s => Inv(cfg, s), states, steps, n);
  }

  ghost predicate Reachable(cfg: Config, s: State) {
    exists states, steps :: Run(Moves(cfg), states, steps) && states[0] == INITIAL && states[|steps|] == s
  }

  lemma ReachableInv(cfg: Config, s: State)
    requires Reachable(cfg, s)
    ensures Inv(cfg, s)
  {
    var states, steps :| Run(Moves(cfg), states, steps) && states[0] == INITIAL && states[|steps|] == s;
    InvAlongRun(cfg, states, steps, |steps|);
  }
}
