/** jwk/remote.go: what the remote key provider holds, and what snapshots and refresh attempts do with it. */
module RemoteKeys {
  import opened Options
  import opened Jwk

  /** Nanoseconds since Go's zero time, so that 0 is the zero time. */
  type Time = nat

  /** The errors a context ends with. */
  datatype ContextError = Canceled | DeadlineExceeded

  /** An error, and which context errors errors.Is finds in its chain. */
  datatype RefreshError = RefreshError(id: int, wraps: set<ContextError>)

  datatype FetchResult = Fetched(keys: map<string, DecodedKey>) | FetchFailed(error: RefreshError)

  /** How the HTTP exchange of one fetch went. */
  datatype Response =
    | TransportFailed(error: RefreshError)   // httpClient.Do returned an error
    | BadResponse(error: RefreshError)       // wrong status, unreadable body or a rejected set
    | GoodResponse(keys: map<string, DecodedKey>)

  /** fetch: a transport error is reported as the context's own error once the context has ended. */
  function FetchOutcome(response: Response, ctx: Option<ContextError>): FetchResult {
    match response
    case GoodResponse(keys) => Fetched(keys)
    case BadResponse(error) => FetchFailed(error)
    case TransportFailed(error) =>
      FetchFailed(if ctx.Some? then RefreshError(error.id, {ctx.value}) else error)
  }

  /** canceledByCaller in refreshLocked. */
  predicate CanceledByCaller(result: FetchResult, ctx: Option<ContextError>) {
    result.FetchFailed? && ctx.Some? && ctx.value in result.error.wraps
  }

  /** One finished refresh attempt, and the context of its caller when it had finished. */
  datatype Attempt = Attempt(result: FetchResult, ctx: Option<ContextError>, at: Time)
  {
    predicate Canceled() {
      CanceledByCaller(result, ctx)
    }
  }

  datatype Remote = Remote(
    keys: map<string, DecodedKey>, fetchedAt: Time, expiresAt: Time,
    generation: nat, refreshVersion: nat,
    lastRefreshErr: Option<RefreshError>, lastCanceled: bool)

  const EMPTY := Remote(map[], 0, 0, 0, 0, None, false)

  datatype Limits = Limits(refreshInterval: nat, maxStale: nat)

  datatype Snapshot = Snapshot(
    key: Option<DecodedKey>, unexpired: bool, staleOK: bool, generation: nat, refreshVersion: nat)

  function TakeSnapshot(r: Remote, limits: Limits, kid: string, now: Time): Snapshot {
    Snapshot(
      if kid in r.keys then Some(r.keys[kid]) else None,
      now < r.expiresAt,
      r.fetchedAt != 0 && now - r.fetchedAt <= limits.maxStale,
      r.generation, r.refreshVersion)
  }

  /** The locked region of refreshLocked. */
  function Commit(r: Remote, limits: Limits, a: Attempt): Remote {
    match a.result
    case FetchFailed(error) =>
      r.(refreshVersion := r.refreshVersion + 1, lastRefreshErr := Some(error), lastCanceled := a.Canceled())
    case Fetched(keys) =>
      Remote(keys, a.at, a.at + limits.refreshInterval, r.generation + 1, r.refreshVersion + 1, None, a.Canceled())
  }

  /** What refreshIfUnchanged does once it holds the gate. */
  datatype Decision = Return(error: Option<RefreshError>) | Fetch

  function Decide(r: Remote, generation: nat, refreshVersion: nat, ctx: Option<ContextError>): Decision {
    if r.generation != generation then Return(None)
    else if r.refreshVersion != refreshVersion then
      if r.lastCanceled && ctx.None? then Fetch else Return(r.lastRefreshErr)
    else Fetch
  }

  /* ---------- The state is a function of the attempts committed so far ---------- */

  function Replay(log: seq<Attempt>, limits: Limits): Remote {
    if log == [] then EMPTY else Commit(Replay(log[..|log| - 1], limits), limits, log[|log| - 1])
  }

  function Successes(log: seq<Attempt>): nat {
    if log == [] then 0
    else Successes(log[..|log| - 1]) + if log[|log| - 1].result.Fetched? then 1 else 0
  }

  /** The position of the last successful attempt. */
  function LastSuccess(log: seq<Attempt>): (i: Option<nat>)
    ensures i.Some? ==> i.value < |log| && log[i.value].result.Fetched?
    ensures forall j | (if i.Some? then i.value + 1 else 0) <= j < |log| :: log[j].result.FetchFailed?
  {
    if log == [] then None
    else if log[|log| - 1].result.Fetched? then Some(|log| - 1)
    else LastSuccess(log[..|log| - 1])
  }

  /** The stored set and its times are those of the last successful attempt; failures change neither. The
      counters count attempts and successes; the remembered error is that of the last attempt. */
  lemma {:induction false} ReplayMeaning(log: seq<Attempt>, limits: Limits)
    ensures var r := Replay(log, limits);
            && r.refreshVersion == |log| && r.generation == Successes(log)
            && (match LastSuccess(log)
                case None => r.keys == map[] && r.fetchedAt == 0 && r.expiresAt == 0
                case Some(i) =>
                  r.keys == log[i].result.keys && r.fetchedAt == log[i].at
                  && r.expiresAt == log[i].at + limits.refreshInterval)
    ensures log != [] ==>
              var r, last := Replay(log, limits), log[|log| - 1];
              && r.lastCanceled == last.Canceled()
              && r.lastRefreshErr == if last.result.FetchFailed? then Some(last.result.error) else None
  {
    if log != [] {
      ReplayMeaning(log[..|log| - 1], limits);
    }
  }

  lemma {:induction false} SuccessesMonotone(log: seq<Attempt>, n: nat)
    requires n <= |log|
    ensures Successes(log[..n]) <= Successes(log)
    ensures Successes(log[..n]) == Successes(log) <==> forall j | n <= j < |log| :: log[j].result.FetchFailed?
    decreases |log|
  {
    if n == |log| {
      assert log[..n] == log;
    } else {
      var init := log[..|log| - 1];
      SuccessesMonotone(init, n);
      assert init[..n] == log[..n];
      assert forall j | n <= j < |init| :: init[j] == log[j];
    }
  }

  /** If no attempt since a snapshot succeeded but some attempt was made, an error is remembered. */
  lemma UnchangedGenerationMeansError(log: seq<Attempt>, limits: Limits, n: nat)
    requires n < |log| && Successes(log[..n]) == Successes(log)
    ensures Replay(log, limits).lastRefreshErr.Some?
  {
    ReplayMeaning(log, limits);
    SuccessesMonotone(log, n);
  }

  /** What refreshIfUnchanged decides against a snapshot taken after `n` attempts, told from the attempts alone: fetch
      if there has been none since; be content if one since succeeded; else report the last error, unless that attempt
      was canceled by its own caller and this caller is still there. */
  lemma DecideExactly(log: seq<Attempt>, limits: Limits, n: nat, ctx: Option<ContextError>)
    requires n <= |log|
    ensures Decide(Replay(log, limits), Successes(log[..n]), n, ctx) ==
              if n == |log| then Fetch
              else if exists j | n <= j < |log| :: log[j].result.Fetched? then Return(None)
              else if log[|log| - 1].Canceled() && ctx.None? then Fetch
              else Return(Some(log[|log| - 1].result.error))
  {
    ReplayMeaning(log, limits);
    SuccessesMonotone(log, n);
    if n == |log| {
      assert log[..n] == log;
    }
  }

  /** Decide never says nil without cause: against a snapshot taken after `n` attempts, a nil answer means a
      later attempt succeeded. */
  lemma NilMeansRefreshed(log: seq<Attempt>, limits: Limits, n: nat, ctx: Option<ContextError>)
    requires n <= |log|
    ensures Decide(Replay(log, limits), Successes(log[..n]), n, ctx) == Return(None) <==>
              exists j | n <= j < |log| :: log[j].result.Fetched?
  {
    ReplayMeaning(log, limits);
    SuccessesMonotone(log, n);
    if n < |log| && Successes(log[..n]) == Successes(log) {
      UnchangedGenerationMeansError(log, limits, n);
    }
  }

  /** Against such a snapshot a new fetch is launched exactly when nothing was attempted since, or everything
      attempted since failed, the last attempt because its own caller left, and this caller is still there. */
  lemma FetchOnlyWhenNeeded(log: seq<Attempt>, limits: Limits, n: nat, ctx: Option<ContextError>)
    requires n <= |log|
    ensures Decide(Replay(log, limits), Successes(log[..n]), n, ctx) == Fetch <==>
              || n == |log|
              || (&& (forall j | n <= j < |log| :: log[j].result.FetchFailed?)
                  && log[|log| - 1].Canceled() && ctx.None?)
  {
    ReplayMeaning(log, limits);
    SuccessesMonotone(log, n);
    if n == |log| {
      assert log[..n] == log;
    }
  }

  /** An error is inherited from somebody else's attempt only if that attempt was not canceled by its caller,
      or the inheriting caller's own context has ended. */
  lemma LiveCallerInheritsNoCancellation(log: seq<Attempt>, limits: Limits, n: nat, ctx: Option<ContextError>)
    requires n < |log| && ctx.None?
    requires Decide(Replay(log, limits), Successes(log[..n]), n, ctx).Return?
    requires Decide(Replay(log, limits), Successes(log[..n]), n, ctx).error.Some?
    ensures !log[|log| - 1].Canceled()
  {
    ReplayMeaning(log, limits);
  }

  /** A fetch succeeds exactly with a good response, and fails with the response's error, except that a transport
      error is replaced by the context's own once the context has ended. */
  lemma FetchExactly(response: Response, ctx: Option<ContextError>)
    ensures match FetchOutcome(response, ctx)
            case Fetched(keys) => response == GoodResponse(keys)
            case FetchFailed(e) =>
              if response.TransportFailed? && ctx.Some? then e.wraps == {ctx.value}
              else !response.GoodResponse? && e == response.error
  {}

  /** Which failed attempts count as canceled by the caller. The context is read when the transport fails and again
      after the fetch: a bad response, or a transport failure before the context ended, counts only if its error wraps
      what the context ended with. */
  lemma CancellationAttributed(response: Response, atError: Option<ContextError>, after: Option<ContextError>)
    requires atError.Some? ==> after == atError
    ensures CanceledByCaller(FetchOutcome(response, atError), after) <==>
              && after.Some?
              && match response
                 case GoodResponse(_) => false
                 case BadResponse(error) => after.value in error.wraps
                 case TransportFailed(error) => atError.Some? || after.value in error.wraps
  {}
}
