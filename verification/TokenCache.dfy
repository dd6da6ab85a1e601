/** client/cache.go: what the token cache holds, and what each region under its mutex does to it. */
module TokenCache {
  import opened Options
  import opened ClientRequest
  import opened Freshness
  import C = Claims

  /** Calls are numbered in the order they are started. */
  type CallId = nat

  /** RequestCanceled stands for the errors a request ends with because its own context was canceled. */
  datatype CallError = RequestCanceled | RequestFailed(code: int)

  datatype Outcome = Obtained(token: CachedToken) | Failed(error: CallError)

  /** An inflightCall, with the key and the form its goroutine was started with. Its `done` channel is
      closed exactly when it is completed. */
  datatype Call = Call(
    key: CacheKey, form: Form, waiters: int,
    outcome: Option<Outcome>, completed: bool, abandoned: bool, canceled: bool)
  {
    /** The request is still awaited by somebody. */
    predicate Live() {
      !completed && !abandoned
    }
  }

  datatype Shared = Shared(cache: map<CacheKey, CachedToken>, inflight: map<CacheKey, CallId>, calls: seq<Call>)
  {
    predicate WellFormed() {
      forall k <- inflight :: inflight[k] < |calls| && calls[inflight[k]].key == k
    }
  }

  /** Where joinOrStartCall leaves the caller. */
  datatype Joined = Hit(token: CachedToken) | Wait(call: CallId)

  /** purgeStaleLocked. */
  function Purge(cache: map<CacheKey, CachedToken>, skew: nat, now: C.Time): map<CacheKey, CachedToken> {
    map k | k in cache && FreshAt(cache[k], skew, now) :: cache[k]
  }

  function Lookup(s: Shared, skew: nat, now: C.Time): Shared {
    s.(cache := Purge(s.cache, skew, now))
  }

  function Update(s: Shared, id: CallId, call: Call): Shared
    requires id < |s.calls|
  {
    s.(calls := s.calls[id := call])
  }

  /** Registers a new call, with its first waiter, in flight for its key. */
  function Start(s: Shared, key: CacheKey, form: Form): Shared {
    s.(inflight := s.inflight[key := |s.calls|], calls := s.calls + [Call(key, form, 1, None, false, false, false)])
  }

  /** Uses a cached token, joins the request in flight, or starts one. */
  function Attach(s: Shared, key: CacheKey, form: Form): (r: (Shared, Joined))
    requires s.WellFormed()
  {
    if key in s.cache then (s, Hit(s.cache[key]))
    else if key in s.inflight then
      var id := s.inflight[key];
      (Update(s, id, s.calls[id].(waiters := s.calls[id].waiters + 1)), Wait(id))
    else (Start(s, key, form), Wait(|s.calls|))
  }

  /** joinOrStartCall. */
  function Join(s: Shared, key: CacheKey, form: Form, skew: nat, now: C.Time): (r: (Shared, Joined))
    requires s.WellFormed()
  {
    Attach(Lookup(s, skew, now), key, form)
  }

  predicate InFlight(s: Shared, id: CallId)
    requires id < |s.calls|
  {
    s.calls[id].key in s.inflight && s.inflight[s.calls[id].key] == id
  }

  /** Takes a call out of flight. */
  function Drop(s: Shared, id: CallId): Shared
    requires id < |s.calls|
  {
    s.(inflight := s.inflight - {s.calls[id].key})
  }

  function Settled(call: Call, outcome: Outcome): Call {
    call.(outcome := Some(outcome), completed := true, canceled := true)
  }

  /** Takes an answered call out of flight if it is still there, caching its token unless it was abandoned. */
  function Retire(s: Shared, id: CallId, outcome: Outcome): Shared
    requires id < |s.calls|
  {
    if !InFlight(s, id) then s
    else if outcome.Obtained? && !s.calls[id].abandoned
    then Drop(s.(cache := s.cache[s.calls[id].key := outcome.token]), id)
    else Drop(s, id)
  }

  /** The locked region at the end of runCall. */
  function Complete(s: Shared, id: CallId, outcome: Outcome): Shared
    requires id < |s.calls|
  {
    Retire(Update(s, id, Settled(s.calls[id], outcome)), id, outcome)
  }

  /** releaseWaiter. */
  function Release(s: Shared, id: CallId): Shared
    requires id < |s.calls|
  {
    var call := s.calls[id];
    var left := call.(waiters := call.waiters - 1);
    if call.completed || call.abandoned || !InFlight(s, id) then s
    else if left.waiters > 0 then Update(s, id, left)
    else Drop(Update(s, id, left.(abandoned := true, canceled := true)), id)
  }
}
