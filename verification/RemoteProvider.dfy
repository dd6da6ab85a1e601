/** jwk/remote.go as it runs: the provider's fields, its mutex-protected regions and the refresh gate. */
module RemoteProvider {
  import opened Options
  import opened Jwk
  import opened RemoteKeys

  class RemoteProvider {
    const limits: Limits
    var keys: map<string, DecodedKey>
    var fetchedAt: Time
    var expiresAt: Time
    var generation: nat
    var refreshVersion: nat
    var lastRefreshErr: Option<RefreshError>
    var lastRefreshCanceledByCaller: bool
    var gateTaken: bool

    ghost function View(): Remote
      reads this
    {
      Remote(keys, fetchedAt, expiresAt, generation, refreshVersion, lastRefreshErr, lastRefreshCanceledByCaller)
    }

    constructor (limits: Limits)
      ensures View() == EMPTY && !gateTaken && this.limits == limits
    {
      this.limits := limits;
      keys, fetchedAt, expiresAt := map[], 0, 0;
      generation, refreshVersion := 0, 0;
      lastRefreshErr, lastRefreshCanceledByCaller, gateTaken := None, false, false;
    }

    method Snapshot(kid: string, now: Time) returns (s: RemoteKeys.Snapshot)
      ensures s == TakeSnapshot(View(), limits, kid, now)
    {
      var key := if kid in keys then Some(keys[kid]) else None;
      s := RemoteKeys.Snapshot(
        key, now < expiresAt, fetchedAt != 0 && now - fetchedAt <= limits.maxStale, generation, refreshVersion);
    }

    /** The select of lockRefresh, where `gateChosen` says which of its ready cases ran. */
    method LockRefresh(ctx: Option<ContextError>, gateChosen: bool) returns (err: Option<ContextError>)
      requires if gateChosen then !gateTaken else ctx.Some?
      modifies this`gateTaken
      ensures gateChosen ==> gateTaken && err == None
      ensures !gateChosen ==> gateTaken == old(gateTaken) && err == ctx
    {
      if gateChosen {
        gateTaken := true;
        return None;
      }
      return ctx;
    }

    method UnlockRefresh()
      requires gateTaken
      modifies this`gateTaken
      ensures !gateTaken
    {
      gateTaken := false;
    }

    /** One refresh attempt, by the holder of the gate. Its context is read when the transport fails and again
        after the fetch. */
    method RefreshLocked(
      response: Response, ctxAtError: Option<ContextError>, ctxAfter: Option<ContextError>, now: Time)
      returns (err: Option<RefreshError>)
      requires gateTaken
      modifies this
      ensures gateTaken
      ensures var result := FetchOutcome(response, ctxAtError);
              && View() == Commit(old(View()), limits, Attempt(result, ctxAfter, now))
              && err == if result.FetchFailed? then Some(result.error) else None
    {
      var result := FetchOutcome(response, ctxAtError);
      var canceledByCaller := result.FetchFailed? && ctxAfter.Some? && ctxAfter.value in result.error.wraps;
      refreshVersion := refreshVersion + 1;
      lastRefreshErr := if result.FetchFailed? then Some(result.error) else None;
      lastRefreshCanceledByCaller := canceledByCaller;
      if result.Fetched? {
        keys := result.keys;
        fetchedAt := now;
        expiresAt := now + limits.refreshInterval;
        generation := generation + 1;
      }
      return lastRefreshErr;
    }

    /** refreshIfUnchanged from the moment it holds the gate. Its context may end at any moment, so it is given
        at each of the three at which it is read. */
    method RefreshIfUnchanged(
      snapshotGeneration: nat, snapshotVersion: nat, ctxAtRead: Option<ContextError>,
      response: Response, ctxAtError: Option<ContextError>, ctxAfter: Option<ContextError>, now: Time)
      returns (err: Option<RefreshError>)
      requires gateTaken
      modifies this
      ensures !gateTaken
      ensures var result := FetchOutcome(response, ctxAtError);
              match Decide(old(View()), snapshotGeneration, snapshotVersion, ctxAtRead)
              case Return(e) => View() == old(View()) && err == e
              case Fetch =>
                && View() == Commit(old(View()), limits, Attempt(result, ctxAfter, now))
                && err == if result.FetchFailed? then Some(result.error) else None
    {
      var currentGeneration, currentRefreshVersion := generation, refreshVersion;
      var lastErr, canceled := lastRefreshErr, lastRefreshCanceledByCaller;
      if currentGeneration != snapshotGeneration {
        UnlockRefresh();
        return None;
      }
      if currentRefreshVersion != snapshotVersion {
        if canceled && ctxAtRead.None? {
          err := RefreshLocked(response, ctxAtError, ctxAfter, now);
          UnlockRefresh();
          return;
        }
        UnlockRefresh();
        return lastErr;
      }
      err := RefreshLocked(response, ctxAtError, ctxAfter, now);
      UnlockRefresh();
    }
  }
}
