/** Every interleaving of Key and Refresh calls on a remote provider. A step is one region under the mutex, one
    operation on the refresh gate, or one exchange with the key server. */
module RemoteKeysRuns {
  import opened Options
  import opened Jwk
  import opened RemoteKeys
  import opened Counting
  import opened Runs

  datatype Op = KeyOp(kid: string, alg: string) | RefreshOp

  /** A snapshot and when it was taken. */
  datatype Seen = Seen(snapshot: Snapshot, at: Time)

  datatype Answer =
    | KeyAnswer(decoded: DecodedKey, given: Option<PublicKey>)
    | KeyNotFound
    | Failure(error: RefreshError)
    | RefreshAnswer(outcome: Option<RefreshError>)

  /** Where a call stands. `first` is the snapshot a Key call started with; Refresh has none. */
  datatype Phase =
    | AwaitGate(first: Option<Seen>)
    | InGate(first: Option<Seen>)
    | Fetching(first: Option<Seen>)
    | Judging(first: Option<Seen>, result: FetchResult)
    | Committing(first: Option<Seen>, attempt: Attempt)
    | Releasing(first: Option<Seen>, error: Option<RefreshError>)
    | Refreshed(first: Option<Seen>, error: Option<RefreshError>)
    | Returned(first: Option<Seen>, answer: Answer, second: Option<Time>)

  /** `since` is history: how many attempts had been committed when the call arrived. */
  datatype Caller = Caller(op: Op, ctx: Option<ContextError>, since: nat, phase: Phase)

  /** `log` and `launches` are history: the attempts committed, and for every fetch launched the attempts its
      caller's snapshot had seen (None for Refresh). */
  datatype State = State(
    remote: Remote, gate: Option<nat>, callers: seq<Caller>, log: seq<Attempt>, launches: seq<Option<nat>>)

  const INITIAL := State(EMPTY, None, [], [], [])

  datatype Step =
    | Arrive(op: Op, ctx: Option<ContextError>, now: Time)
    | EndContext(caller: nat, error: ContextError)
    | FailLock(caller: nat)
    | Acquire(caller: nat)
    | Read(caller: nat)
    | Exchange(caller: nat, response: Response)
    | Judge(caller: nat, now: Time)
    | CommitAttempt(caller: nat)
    | Unlock(caller: nat)
    | Finish(caller: nat, now: Time)

  predicate HoldsGate(p: Phase) {
    p.InGate? || p.Fetching? || p.Judging? || p.Committing? || p.Releasing?
  }

  predicate Enabled(s: State, step: Step) {
    if step.Arrive? then true
    else
      && step.caller < |s.callers|
      && var c := s.callers[step.caller];
         match step
         case Arrive(_, _, _) => true
         case EndContext(_, _) => c.ctx.None?
         case FailLock(_) => c.phase.AwaitGate? && c.ctx.Some?
         case Acquire(_) => c.phase.AwaitGate? && s.gate.None?
         case Read(_) => c.phase.InGate?
         case Exchange(_, _) => c.phase.Fetching?
         case Judge(_, _) => c.phase.Judging?
         case CommitAttempt(_) => c.phase.Committing?
         case Unlock(_) => c.phase.Releasing?
         case Finish(_, _) => c.phase.Refreshed?
  }

  /** Key takes its first snapshot on arrival and is done if that holds an unexpired key. */
  function Arrival(r: Remote, limits: Limits, op: Op, ctx: Option<ContextError>, since: nat, now: Time): Caller {
    match op
    case RefreshOp => Caller(op, ctx, since, AwaitGate(None))
    case KeyOp(kid, alg) =>
      var seen := Seen(TakeSnapshot(r, limits, kid, now), now);
      if seen.snapshot.key.Some? && seen.snapshot.unexpired then
        var key := seen.snapshot.key.value;
        Caller(op, ctx, since, Returned(Some(seen), KeyAnswer(key, key.ForAlgorithm(alg)), None))
      else
        Caller(op, ctx, since, AwaitGate(Some(seen)))
  }

  /** The end of Key, from its second snapshot; Refresh just returns its error. */
  function Ending(r: Remote, limits: Limits, c: Caller, now: Time): Phase
    requires c.phase.Refreshed?
  {
    match c.op
    case RefreshOp => Returned(c.phase.first, RefreshAnswer(c.phase.error), None)
    case KeyOp(kid, alg) =>
      var second := TakeSnapshot(r, limits, kid, now);
      var answer :=
        if c.phase.error.Some? then
          if second.key.Some? && second.staleOK then KeyAnswer(second.key.value, second.key.value.ForAlgorithm(alg))
          else Failure(c.phase.error.value)
        else if second.key.None? then KeyNotFound
        else KeyAnswer(second.key.value, second.key.value.ForAlgorithm(alg));
      Returned(c.phase.first, answer, Some(now))
  }

  function DecisionFor(s: State, c: Caller): Decision
    requires c.phase.InGate?
  {
    match c.phase.first
    case None => Fetch
    case Some(seen) => Decide(s.remote, seen.snapshot.generation, seen.snapshot.refreshVersion, c.ctx)
  }

  function VersionOf(first: Option<Seen>): Option<nat> {
    match first case None => None case Some(seen) => Some(seen.snapshot.refreshVersion)
  }

  function Move(s: State, c: nat, p: Phase): State
    requires c < |s.callers|
  {
    s.(callers := s.callers[c := s.callers[c].(phase := p)])
  }

  function ErrorOf(result: FetchResult): Option<RefreshError> {
    match result case Fetched(_) => None case FetchFailed(error) => Some(error)
  }

  function Apply(limits: Limits, s: State, step: Step): State
    requires Enabled(s, step)
  {
    match step
    case Arrive(op, ctx, now) => s.(callers := s.callers + [Arrival(s.remote, limits, op, ctx, |s.log|, now)])
    case EndContext(c, e) => s.(callers := s.callers[c := s.callers[c].(ctx := Some(e))])
    case FailLock(c) =>
      var e := s.callers[c].ctx.value;
      Move(s, c, Refreshed(s.callers[c].phase.first, Some(RefreshError(0, {e}))))
    case Acquire(c) => Move(s, c, InGate(s.callers[c].phase.first)).(gate := Some(c))
    case Read(c) =>
      var first := s.callers[c].phase.first;
      (match DecisionFor(s, s.callers[c])
       case Return(error) => Move(s, c, Releasing(first, error))
       case Fetch => Move(s, c, Fetching(first)).(launches := s.launches + [VersionOf(first)]))
    case Exchange(c, response) =>
      Move(s, c, Judging(s.callers[c].phase.first, FetchOutcome(response, s.callers[c].ctx)))
    case Judge(c, now) =>
      var attempt := Attempt(s.callers[c].phase.result, s.callers[c].ctx, now);
      Move(s, c, Committing(s.callers[c].phase.first, attempt))
    case CommitAttempt(c) =>
      var a := s.callers[c].phase.attempt;
      Move(s, c, Releasing(s.callers[c].phase.first, ErrorOf(a.result)))
        .(remote := Commit(s.remote, limits, a), log := s.log + [a])
    case Unlock(c) =>
      Move(s, c, Refreshed(s.callers[c].phase.first, s.callers[c].phase.error)).(gate := None)
    case Finish(c, now) => Move(s, c, Ending(s.remote, limits, s.callers[c], now))
  }

  /* ---------- The invariant ---------- */

  /** A snapshot is what the provider showed after the first `refreshVersion` attempts. */
  ghost predicate SnapshotTrue(log: seq<Attempt>, seen: Seen) {
    && seen.snapshot.refreshVersion <= |log|
    && seen.snapshot.generation == Successes(log[..seen.snapshot.refreshVersion])
  }

  /** One of the attempts from the `since`-th on succeeded. */
  ghost predicate SucceededSince(log: seq<Attempt>, since: nat) {
    exists i | 0 <= i < |log| :: since <= i && log[i].result.Fetched?
  }

  /** `e` is what some attempt since the call arrived failed with, or what the call's own context ended with. */
  ghost predicate ErrorReal(log: seq<Attempt>, c: Caller, e: RefreshError) {
    || (exists i | 0 <= i < |log| :: c.since <= i && log[i].result == FetchFailed(e))
    || (c.ctx.Some? && e == RefreshError(0, {c.ctx.value}))
  }

  ghost predicate OutcomeReal(log: seq<Attempt>, c: Caller, error: Option<RefreshError>) {
    match error
    case None => SucceededSince(log, c.since)
    case Some(e) => ErrorReal(log, c, e)
  }

  /** Each operation has its own answers, and none is made up. */
  ghost predicate AnswerReal(log: seq<Attempt>, c: Caller, answer: Answer) {
    match answer
    case KeyAnswer(_, _) => c.op.KeyOp?
    case KeyNotFound => c.op.KeyOp? && SucceededSince(log, c.since)
    case Failure(e) => c.op.KeyOp? && ErrorReal(log, c, e)
    case RefreshAnswer(outcome) => c.op.RefreshOp? && OutcomeReal(log, c, outcome)
  }

  ghost predicate OutcomesReal(log: seq<Attempt>, c: Caller) {
    && c.since <= |log|
    && (c.phase.first.Some? ==> c.phase.first.value.snapshot.refreshVersion == c.since)
    && (c.phase.Releasing? || c.phase.Refreshed? ==> OutcomeReal(log, c, c.phase.error))
    && (c.phase.Returned? ==> AnswerReal(log, c, c.phase.answer))
  }

  /** Where a returned key may come from: a set that was unexpired at the first snapshot, one committed after
      it, or one fetched at most maxStale before the second snapshot. */
  ghost predicate Sourced(
    log: seq<Attempt>, limits: Limits, kid: string, key: DecodedKey, first: Seen, second: Option<Time>)
  {
    exists i | 0 <= i < |log| ::
      && log[i].result.Fetched? && kid in log[i].result.keys && log[i].result.keys[kid] == key
      && (|| (i < first.snapshot.refreshVersion && first.at < log[i].at + limits.refreshInterval)
          || first.snapshot.refreshVersion <= i
          || (second.Some? && second.value - log[i].at <= limits.maxStale))
  }

  ghost predicate CallerTrue(log: seq<Attempt>, limits: Limits, c: Caller) {
    && (c.op.KeyOp? <==> c.phase.first.Some?)
    && (c.op.KeyOp? ==> SnapshotTrue(log, c.phase.first.value))
    && OutcomesReal(log, c)
    && (c.op.KeyOp? && c.phase.Returned? && c.phase.answer.KeyAnswer? ==>
          && Sourced(log, limits, c.op.kid, c.phase.answer.decoded, c.phase.first.value, c.phase.second)
          && c.phase.answer.given == c.phase.answer.decoded.ForAlgorithm(c.op.alg))
  }

  ghost predicate GateExclusive(s: State) {
    && (s.gate.Some? ==> s.gate.value < |s.callers|)
    && forall c: nat :: c < |s.callers| ==> (HoldsGate(s.callers[c].phase) <==> s.gate == Some(c))
  }

  predicate Busy(s: State) {
    s.gate.Some? && s.gate.value < |s.callers|
    && var p := s.callers[s.gate.value].phase; p.Fetching? || p.Judging? || p.Committing?
  }

  /** The i-th fetch was launched by a snapshot as new as the i attempts before it, or after a canceled attempt. */
  predicate Justified(launch: Option<nat>, log: seq<Attempt>, i: nat) {
    launch.Some? ==> launch.value <= i && (launch.value == i || (0 < i <= |log| && log[i - 1].Canceled()))
  }

  ghost predicate LaunchesJustified(s: State) {
    && |s.launches| == |s.log| + (if Busy(s) then 1 else 0)
    && forall i | 0 <= i < |s.launches| :: Justified(s.launches[i], s.log, i)
  }

  ghost predicate Inv(limits: Limits, s: State) {
    && s.remote == Replay(s.log, limits)
    && GateExclusive(s)
    && LaunchesJustified(s)
    && forall c: nat :: c < |s.callers| ==> CallerTrue(s.log, limits, s.callers[c])
  }

  /* ---------- Growing the log ---------- */

  lemma CallerStaysTrue(log: seq<Attempt>, a: Attempt, limits: Limits, c: Caller)
    requires CallerTrue(log, limits, c)
    ensures CallerTrue(log + [a], limits, c)
  {
    var log' := log + [a];
    OutcomesStay(log, a, c);
    if c.op.KeyOp? {
      var seen := c.phase.first.value;
      assert log'[..seen.snapshot.refreshVersion] == log[..seen.snapshot.refreshVersion];
      if c.phase.Returned? && c.phase.answer.KeyAnswer? {
        SourcedStays(log, a, limits, c.op.kid, c.phase.answer.decoded, seen, c.phase.second);
      }
    }
  }

  lemma OutcomesStay(log: seq<Attempt>, a: Attempt, c: Caller)
    requires OutcomesReal(log, c)
    ensures OutcomesReal(log + [a], c)
  {
    forall i | 0 <= i < |log| ensures (log + [a])[i] == log[i] {}
    if SucceededSince(log, c.since) {
      var i :| 0 <= i < |log| && c.since <= i && log[i].result.Fetched?;
      assert (log + [a])[i].result.Fetched?;
    }
    forall e | ErrorReal(log, c, e) ensures ErrorReal(log + [a], c, e) {
      if i :| 0 <= i < |log| && c.since <= i && log[i].result == FetchFailed(e) {
        assert (log + [a])[i].result == FetchFailed(e);
      }
    }
  }

  lemma SourcedStays(
    log: seq<Attempt>, a: Attempt, limits: Limits, kid: string, key: DecodedKey, first: Seen, second: Option<Time>)
    requires Sourced(log, limits, kid, key, first, second)
    ensures Sourced(log + [a], limits, kid, key, first, second)
  {
    var i :| 0 <= i < |log|
      && log[i].result.Fetched? && kid in log[i].result.keys && log[i].result.keys[kid] == key
      && (|| (i < first.snapshot.refreshVersion && first.at < log[i].at + limits.refreshInterval)
          || first.snapshot.refreshVersion <= i
          || (second.Some? && second.value - log[i].at <= limits.maxStale));
    assert (log + [a])[i] == log[i];
  }

  /* ---------- Every step keeps the invariant ---------- */

  lemma GateStep(limits: Limits, s: State, step: Step)
    requires GateExclusive(s) && Enabled(s, step)
    ensures GateExclusive(Apply(limits, s, step))
  {}

  lemma ArrivalTrue(log: seq<Attempt>, limits: Limits, op: Op, ctx: Option<ContextError>, now: Time)
    ensures CallerTrue(log, limits, Arrival(Replay(log, limits), limits, op, ctx, |log|, now))
  {
    ReplayMeaning(log, limits);
    assert log[..|log|] == log;
  }

  lemma EndingTrue(log: seq<Attempt>, limits: Limits, c: Caller, now: Time)
    requires CallerTrue(log, limits, c) && c.phase.Refreshed?
    ensures CallerTrue(log, limits, c.(phase := Ending(Replay(log, limits), limits, c, now)))
  {
    ReplayMeaning(log, limits);
    var p := Ending(Replay(log, limits), limits, c, now);
    if c.op.KeyOp? && p.answer.KeyAnswer? {
      var i := LastSuccess(log).value;
      assert log[i].result.keys[c.op.kid] == p.answer.decoded;
    }
  }

  /** refreshIfUnchanged returns nil only after a refresh that succeeded since the snapshot. */
  lemma ReadTrue(limits: Limits, s: State, c: Caller)
    requires s.remote == Replay(s.log, limits) && CallerTrue(s.log, limits, c) && c.phase.InGate?
    ensures match DecisionFor(s, c)
            case Return(error) => CallerTrue(s.log, limits, c.(phase := Releasing(c.phase.first, error)))
            case Fetch => CallerTrue(s.log, limits, c.(phase := Fetching(c.phase.first)))
                          && Justified(VersionOf(c.phase.first), s.log, |s.log|)
  {
    if c.op.KeyOp? {
      var n := c.phase.first.value.snapshot.refreshVersion;
      DecideExactly(s.log, limits, n, c.ctx);
    }
  }

  lemma CallersStep(limits: Limits, s: State, step: Step)
    requires Inv(limits, s) && Enabled(s, step)
    ensures var s' := Apply(limits, s, step);
            forall c: nat :: c < |s'.callers| ==> CallerTrue(s'.log, limits, s'.callers[c])
  {
    match step
    case Arrive(op, ctx, now) => ArrivalTrue(s.log, limits, op, ctx, now);
    case Read(c) => ReadTrue(limits, s, s.callers[c]);
    case Finish(c, now) => EndingTrue(s.log, limits, s.callers[c], now);
    case CommitAttempt(c) => CommitCallers(limits, s, c);
    case _ =>
  }

  /** The outcome of a call's own attempt is real once the attempt is committed. */
  lemma OwnAttemptReal(log: seq<Attempt>, a: Attempt, c: Caller)
    requires c.since <= |log|
    ensures OutcomeReal(log + [a], c, ErrorOf(a.result))
  {
    assert (log + [a])[|log|] == a;
  }

  lemma CommitCallers(limits: Limits, s: State, c: nat)
    requires Inv(limits, s) && Enabled(s, CommitAttempt(c))
    ensures var s' := Apply(limits, s, CommitAttempt(c));
            forall i: nat :: i < |s'.callers| ==> CallerTrue(s'.log, limits, s'.callers[i])
  {
    var s' := Apply(limits, s, CommitAttempt(c));
    var a := s.callers[c].phase.attempt;
    forall i: nat | i < |s'.callers| ensures CallerTrue(s'.log, limits, s'.callers[i]) {
      CallerStaysTrue(s.log, a, limits, s.callers[i]);
      if i == c {
        OwnAttemptReal(s.log, a, s.callers[c]);
      }
    }
  }

  lemma LaunchStep(limits: Limits, s: State, step: Step)
    requires Inv(limits, s) && Enabled(s, step)
    ensures LaunchesJustified(Apply(limits, s, step))
  {
    if step.Read? {
      ReadTrue(limits, s, s.callers[step.caller]);
    }
  }

  lemma InvStep(limits: Limits, s: State, step: Step)
    requires Inv(limits, s) && Enabled(s, step)
    ensures Inv(limits, Apply(limits, s, step))
  {
    GateStep(limits, s, step);
    CallersStep(limits, s, step);
    LaunchStep(limits, s, step);
    if step.CommitAttempt? {
      var a := s.callers[step.caller].phase.attempt;
      assert (s.log + [a])[..|s.log|] == s.log;
    }
  }

  /* ---------- Runs ---------- */

  function Moves(limits: Limits): (State, Step, State) -> bool {
    (s, step, s') => Enabled(s, step) && Apply(limits, s, step) == s'
  }

  lemma InvAlongRun(limits: Limits, states: seq<State>, steps: seq<Step>, n: nat)
    requires Run(Moves(limits), states, steps) && Inv(limits, states[0]) && n <= |steps|
    ensures Inv(limits, states[n])
  {
    forall s, step, s' | Moves(limits)(s, step, s') && Inv(limits, s) ensures Inv(limits, s') {
      InvStep(limits, s, step);
    }
    KeptAlongRun(Moves(limits), s => Inv(limits, s), states, steps, n);
  }

  ghost predicate Reachable(limits: Limits, s: State) {
    exists states, steps :: Run(Moves(limits), states, steps) && states[0] == INITIAL && states[|steps|] == s
  }

  lemma ReachableInv(limits: Limits, s: State)
    requires Reachable(limits, s)
    ensures Inv(limits, s)
  {
    var states, steps :| Run(Moves(limits), states, steps) && states[0] == INITIAL && states[|steps|] == s;
    InvAlongRun(limits, states, steps, |steps|);
  }

  /* ---------- What every run guarantees ---------- */

  /** Once refreshIfUnchanged has returned nil, a refresh that succeeded after the caller's snapshot has been
      committed. */
  lemma NilAfterSuccess(limits: Limits, s: State, c: nat)
    requires Reachable(limits, s) && c < |s.callers| && s.callers[c].op.KeyOp?
    requires s.callers[c].phase.Refreshed? && s.callers[c].phase.error.None?
    ensures s.callers[c].phase.first.Some?
    ensures SucceededSince(s.log, s.callers[c].phase.first.value.snapshot.refreshVersion)
  {
    ReachableInv(limits, s);
    assert CallerTrue(s.log, limits, s.callers[c]);
  }

  /** Every key Key has returned comes from an acceptable set, and is given only for a matching algorithm. */
  lemma KeyProvenance(limits: Limits, s: State, c: nat)
    requires Reachable(limits, s) && c < |s.callers| && s.callers[c].op.KeyOp?
    requires s.callers[c].phase.Returned? && s.callers[c].phase.answer.KeyAnswer?
    ensures var p := s.callers[c].phase;
            && p.first.Some?
            && Sourced(s.log, limits, s.callers[c].op.kid, p.answer.decoded, p.first.value, p.second)
            && p.answer.given == p.answer.decoded.ForAlgorithm(s.callers[c].op.alg)
  {
    ReachableInv(limits, s);
    assert CallerTrue(s.log, limits, s.callers[c]);
  }

  /** The provider always holds exactly the last set that was decoded, with that attempt's times. */
  lemma StoredSetIsLastDecoded(limits: Limits, s: State)
    requires Reachable(limits, s)
    ensures match LastSuccess(s.log)
            case None => s.remote.keys == map[] && s.remote.fetchedAt == 0 && s.remote.expiresAt == 0
            case Some(i) =>
              && s.remote.keys == s.log[i].result.keys && s.remote.fetchedAt == s.log[i].at
              && s.remote.expiresAt == s.log[i].at + limits.refreshInterval
  {
    ReachableInv(limits, s);
    ReplayMeaning(s.log, limits);
  }

  /** At most one caller is past the gate, and only it can have a fetch under way. */
  lemma OneAtATime(limits: Limits, s: State, c: nat, d: nat)
    requires Reachable(limits, s) && c < |s.callers| && d < |s.callers|
    requires HoldsGate(s.callers[c].phase) && HoldsGate(s.callers[d].phase)
    ensures c == d
  {
    ReachableInv(limits, s);
  }

  /** Fetches launched on behalf of snapshots that had seen exactly `v` attempts. */
  function LaunchesFor(launches: seq<Option<nat>>, v: nat): nat {
    if launches == [] then 0
    else LaunchesFor(launches[..|launches| - 1], v) + if launches[|launches| - 1] == Some(v) then 1 else 0
  }

  /** Attempts from the v-th up to but not including the m-th that were canceled by their own caller. */
  function CanceledBetween(log: seq<Attempt>, v: nat, m: nat): nat
    requires m <= |log|
  {
    if m <= v then 0 else CanceledBetween(log, v, m - 1) + if log[m - 1].Canceled() then 1 else 0
  }

  lemma {:induction false} LaunchCount(launches: seq<Option<nat>>, log: seq<Attempt>, v: nat, n: nat)
    requires n <= |launches| <= |log| + 1
    requires forall i | 0 <= i < |launches| :: Justified(launches[i], log, i)
    ensures LaunchesFor(launches[..n], v)
            <= (if n > v then 1 else 0) + CanceledBetween(log, v, if n == 0 then 0 else n - 1)
  {
    if n > 0 {
      LaunchCount(launches, log, v, n - 1);
      assert launches[..n][..n - 1] == launches[..n - 1];
      assert Justified(launches[n - 1], log, n - 1);
    }
  }

  /** Any number of callers holding snapshots of the same attempt count launch, together and over the whole
      run, at most one fetch plus one for each attempt since then that its own caller canceled. */
  lemma FetchesCoalesce(limits: Limits, s: State, v: nat)
    requires Reachable(limits, s)
    ensures LaunchesFor(s.launches, v) <= 1 + CanceledBetween(s.log, v, |s.log|)
  {
    ReachableInv(limits, s);
    LaunchCount(s.launches, s.log, v, |s.launches|);
    assert s.launches[..|s.launches|] == s.launches;
  }

  /** Snapshots that saw the same number of attempts saw the same generation. */
  lemma SameVersionSameGeneration(limits: Limits, s: State, c: nat, d: nat)
    requires Reachable(limits, s) && c < |s.callers| && d < |s.callers|
    requires s.callers[c].op.KeyOp? && s.callers[d].op.KeyOp?
    ensures s.callers[c].phase.first.Some? && s.callers[d].phase.first.Some?
    ensures var x, y := s.callers[c].phase.first.value.snapshot, s.callers[d].phase.first.value.snapshot;
            x.refreshVersion == y.refreshVersion ==> x.generation == y.generation
  {
    ReachableInv(limits, s);
    assert CallerTrue(s.log, limits, s.callers[c]) && CallerTrue(s.log, limits, s.callers[d]);
  }

  /** A caller whose context is live when it reads the provider never leaves with the error of an attempt that
      was canceled by another caller. */
  lemma NoPoisoning(limits: Limits, s: State, c: nat)
    requires Reachable(limits, s) && Enabled(s, Read(c)) && s.callers[c].op.KeyOp? && s.callers[c].ctx.None?
    ensures var p := Apply(limits, s, Read(c)).callers[c].phase;
            p.Releasing? && p.error.Some? ==>
              && s.log != [] && !s.log[|s.log| - 1].Canceled()
              && s.log[|s.log| - 1].result == FetchFailed(p.error.value)
  {
    ReachableInv(limits, s);
    ReplayMeaning(s.log, limits);
    var caller := s.callers[c];
    assert CallerTrue(s.log, limits, caller);
    var n := caller.phase.first.value.snapshot.refreshVersion;
    FetchOnlyWhenNeeded(s.log, limits, n, caller.ctx);
  }

  /** The last decoded set holds the kid. */
  ghost predicate LastSetHas(log: seq<Attempt>, kid: string) {
    LastSuccess(log).Some? && kid in log[LastSuccess(log).value].result.keys
  }

  /** The key the last decoded set holds under a kid, given out for an algorithm. */
  ghost function LastKey(log: seq<Attempt>, kid: string, alg: string): Answer
    requires LastSetHas(log, kid)
  {
    var key := log[LastSuccess(log).value].result.keys[kid];
    KeyAnswer(key, key.ForAlgorithm(alg))
  }

  /** Key returns at once exactly when the last decoded set holds the kid and has not expired, and then with that
      set's key. */
  lemma ImmediateExactly(limits: Limits, s: State, kid: string, alg: string, ctx: Option<ContextError>, now: Time)
    requires Reachable(limits, s)
    ensures var p := Arrival(s.remote, limits, KeyOp(kid, alg), ctx, |s.log|, now).phase;
            if LastSetHas(s.log, kid) && now < s.log[LastSuccess(s.log).value].at + limits.refreshInterval
            then p.Returned? && p.answer == LastKey(s.log, kid, alg)
            else p.AwaitGate?
  {
    ReachableInv(limits, s);
    ReplayMeaning(s.log, limits);
  }

  /** After a successful refresh Key answers with the key the last decoded set holds under the kid, and otherwise that
      there is none. */
  lemma AnsweredExactly(limits: Limits, s: State, c: nat, now: Time)
    requires Reachable(limits, s) && c < |s.callers| && s.callers[c].op.KeyOp?
    requires s.callers[c].phase.Refreshed? && s.callers[c].phase.error.None?
    ensures var op := s.callers[c].op;
            Ending(s.remote, limits, s.callers[c], now).answer ==
              if LastSetHas(s.log, op.kid) then LastKey(s.log, op.kid, op.alg) else KeyNotFound
  {
    ReachableInv(limits, s);
    ReplayMeaning(s.log, limits);
    assert CallerTrue(s.log, limits, s.callers[c]);
  }

  /** After a failed refresh, Key still answers with the last decoded set's key exactly when that set holds the kid and
      was fetched at most maxStale ago; otherwise it reports the refresh error. */
  lemma FallbackExactly(limits: Limits, s: State, c: nat, now: Time)
    requires Reachable(limits, s) && c < |s.callers| && s.callers[c].op.KeyOp?
    requires s.callers[c].phase.Refreshed? && s.callers[c].phase.error.Some?
    ensures var op := s.callers[c].op;
            Ending(s.remote, limits, s.callers[c], now).answer ==
              if LastSetHas(s.log, op.kid) && s.log[LastSuccess(s.log).value].at != 0
                 && now - s.log[LastSuccess(s.log).value].at <= limits.maxStale
              then LastKey(s.log, op.kid, op.alg)
              else Failure(s.callers[c].phase.error.value)
  {
    ReachableInv(limits, s);
    ReplayMeaning(s.log, limits);
  }

  /** Refresh always makes an attempt of its own, whatever others have just fetched. */
  lemma RefreshFetches(limits: Limits, s: State, c: nat)
    requires Reachable(limits, s) && Enabled(s, Read(c)) && s.callers[c].op.RefreshOp?
    ensures var s' := Apply(limits, s, Read(c));
            s'.callers[c].phase.Fetching? && s'.launches == s.launches + [None]
  {
    ReachableInv(limits, s);
    assert CallerTrue(s.log, limits, s.callers[c]);
  }

  /** The answer of every call is real: Refresh reports success only after an attempt made since it arrived succeeded,
      Key misses a key only after such a success, and an error is that of an attempt since then or of the call's own
      context. */
  lemma AnswersAreReal(limits: Limits, s: State, c: nat)
    requires Reachable(limits, s) && c < |s.callers| && s.callers[c].phase.Returned?
    ensures match s.callers[c].phase.answer
            case KeyAnswer(_, _) => s.callers[c].op.KeyOp?
            case KeyNotFound => s.callers[c].op.KeyOp? && SucceededSince(s.log, s.callers[c].since)
            case Failure(e) => s.callers[c].op.KeyOp? && ErrorReal(s.log, s.callers[c], e)
            case RefreshAnswer(None) => s.callers[c].op.RefreshOp? && SucceededSince(s.log, s.callers[c].since)
            case RefreshAnswer(Some(e)) => s.callers[c].op.RefreshOp? && ErrorReal(s.log, s.callers[c], e)
  {
    ReachableInv(limits, s);
    assert CallerTrue(s.log, limits, s.callers[c]);
  }

  /** How a call's own context decides whether its fetch counts as canceled. If the context had ended before the
      exchange, every transport failure does; if it ends between the exchange and the judgment, only an error that
      wraps what it ended with does; while it has not ended, none does. A bad response is judged by its error alone. */
  lemma FetchJudged(limits: Limits, s: State, c: nat, response: Response, ended: Option<ContextError>, now: Time)
    requires Enabled(s, Exchange(c, response)) && (ended.Some? ==> s.callers[c].ctx.None?)
    ensures var before := s.callers[c].ctx;
            var after := if ended.Some? then ended else before;
            var exchanged := Apply(limits, s, Exchange(c, response));
            var then' := if ended.Some? then Apply(limits, exchanged, EndContext(c, ended.value)) else exchanged;
            && Enabled(then', Judge(c, now))
            && var p := Apply(limits, then', Judge(c, now)).callers[c].phase;
               && p.Committing? && p.attempt.at == now
               && (p.attempt.result.Fetched? <==> response.GoodResponse?)
               && (p.attempt.Canceled() <==>
                     && after.Some?
                     && match response
                        case GoodResponse(_) => false
                        case BadResponse(error) => after.value in error.wraps
                        case TransportFailed(error) => before.Some? || after.value in error.wraps)
  {
    CancellationAttributed(response, s.callers[c].ctx, if ended.Some? then ended else s.callers[c].ctx);
    FetchExactly(response, s.callers[c].ctx);
  }

  /** A step moves its own caller and nobody else. */
  lemma StepIsLocal(limits: Limits, s: State, step: Step, d: nat)
    requires Enabled(s, step) && d < |s.callers| && (step.Arrive? || d != step.caller)
    ensures d < |Apply(limits, s, step).callers| && Apply(limits, s, step).callers[d] == s.callers[d]
  {}

  /* ---------- Nobody is stuck at the gate ---------- */

  function PhaseWork(): Caller -> nat {
    (c: Caller) =>
      match c.phase
      case AwaitGate(_) => 7 case InGate(_) => 6 case Fetching(_) => 5 case Judging(_, _) => 4
      case Committing(_, _) => 3 case Releasing(_, _) => 2 case Refreshed(_, _) => 1 case Returned(_, _, _) => 0
  }

  /** Steps left before every call has returned. */
  function Work(s: State): nat {
    Total(s.callers, PhaseWork())
  }

  /** While some call has not returned, the holder of the gate, or this call itself, can take a step. */
  lemma SomebodyMoves(limits: Limits, s: State, c: nat) returns (step: Step)
    requires Inv(limits, s) && c < |s.callers| && !s.callers[c].phase.Returned?
    ensures Enabled(s, step) && !step.Arrive? && !step.EndContext?
  {
    var mover := if s.gate.Some? then s.gate.value else c;
    assert HoldsGate(s.callers[mover].phase) <==> s.gate == Some(mover);
    match s.callers[mover].phase
    case AwaitGate(_) => step := Acquire(mover);
    case InGate(_) => step := Read(mover);
    case Fetching(_) => step := Exchange(mover, GoodResponse(map[]));
    case Judging(_, _) => step := Judge(mover, 0);
    case Committing(_, _) => step := CommitAttempt(mover);
    case Releasing(_, _) => step := Unlock(mover);
    case Refreshed(_, _) => step := Finish(mover, 0);
  }

  lemma WorkDecreases(limits: Limits, s: State, step: Step)
    requires Enabled(s, step) && !step.Arrive? && !step.EndContext?
    ensures Work(Apply(limits, s, step)) < Work(s)
  {
    TotalUpdate(s.callers, step.caller, Apply(limits, s, step).callers[step.caller], PhaseWork());
  }

  /** Along a run without new arrivals and newly ended contexts, every step uses up some of the work there was at
      the start. */
  lemma RunsAreBounded(limits: Limits, states: seq<State>, steps: seq<Step>, n: nat)
    requires Run(Moves(limits), states, steps) && n <= |steps|
    requires forall i | 0 <= i < |steps| :: !steps[i].Arrive? && !steps[i].EndContext?
    ensures n + Work(states[n]) <= Work(states[0])
  {
    forall i | 0 <= i < n ensures Work(states[i + 1]) < Work(states[i]) {
      MoveUsesWork(limits, states[i], steps[i], states[i + 1]);
    }
    WorkAlongRun(Work, states, n);
  }

  lemma MoveUsesWork(limits: Limits, s: State, step: Step, s': State)
    requires Moves(limits)(s, step, s') && !step.Arrive? && !step.EndContext?
    ensures Work(s') < Work(s)
  {
    WorkDecreases(limits, s, step);
  }

  /** A step that needs neither a new call nor the end of a context. */
  predicate Progress(step: Step) {
    !step.Arrive? && !step.EndContext?
  }

  predicate AllReturned(s: State) {
    forall c | 0 <= c < |s.callers| :: s.callers[c].phase.Returned?
  }

  /** Until every call has returned, a step of the protocol itself brings one of them nearer. */
  lemma Advance(limits: Limits, s: State) returns (step: Step, s': State)
    requires Inv(limits, s) && !AllReturned(s)
    ensures Advances(Moves(limits), Progress, s => Inv(limits, s), Work, s, step, s')
  {
    var c :| 0 <= c < |s.callers| && !s.callers[c].phase.Returned?;
    step := SomebodyMoves(limits, s, c);
    s' := Apply(limits, s, step);
    InvStep(limits, s, step);
    WorkDecreases(limits, s, step);
  }

  /** From every reachable state, without any new arrival or ended context, the protocol can bring every call home. */
  lemma EverybodyReturns(limits: Limits, s: State) returns (states: seq<State>, steps: seq<Step>)
    requires Reachable(limits, s)
    ensures Run(Moves(limits), states, steps) && states[0] == s && AllReturned(states[|steps|])
    ensures forall i | 0 <= i < |steps| :: Progress(steps[i])
  {
    ReachableInv(limits, s);
    var inv := s => Inv(limits, s);
    forall t | inv(t) && !AllReturned(t)
      ensures exists step, t' :: Advances(Moves(limits), Progress, inv, Work, t, step, t')
    {
      var step, t' := Advance(limits, t);
    }
    states, steps := Completes(Moves(limits), Progress, inv, Work, AllReturned, s);
  }
}
