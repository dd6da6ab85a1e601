/** client/provider.go and client/cache.go as they run: the provider's maps and the shared call records.
    Each method is one region under the mutex and is proved to do what the step functions of TokenCache say. */
module Provider {
  import opened Options
  import opened ClientRequest
  import opened Freshness
  import opened TokenCache
  import C = Claims

  class InflightCall {
    ghost const id: CallId
    ghost const key: CacheKey
    ghost const form: Form

    var waiters: int
    var outcome: Option<Outcome>
    var completed: bool
    var abandoned: bool
    var canceled: bool  // cancel() has been called
    var closed: bool    // close(done) has been called

    constructor (ghost id: CallId, ghost key: CacheKey, ghost form: Form)
      ensures this.id == id && this.key == key && this.form == form && !closed
      ensures waiters == 1 && outcome == None && !completed && !abandoned && !canceled
    {
      this.id, this.key, this.form := id, key, form;
      waiters, outcome := 1, None;
      completed, abandoned, canceled, closed := false, false, false, false;
    }

    ghost function Value(): Call
      reads this
    {
      Call(key, form, waiters, outcome, completed, abandoned, canceled)
    }

    method Finish(result: Outcome)
      modifies this
      ensures Value() == old(Value()).(outcome := Some(result), completed := true, canceled := true)
      ensures closed == old(closed)
    {
      outcome := Some(result);
      completed := true;
      canceled := true;
    }

    method Close()
      requires !closed
      modifies this`closed
      ensures closed && Value() == old(Value())
    {
      closed := true;
    }

    method AddWaiter()
      modifies this
      ensures Value() == old(Value()).(waiters := old(waiters) + 1)
      ensures closed == old(closed)
    {
      waiters := waiters + 1;
    }
  }

  class Provider {
    const refreshSkew: nat
    var cache: map<CacheKey, CachedToken>
    var inflight: map<CacheKey, InflightCall>

    ghost var started: seq<InflightCall>  // every call ever started, in order
    ghost var view: Shared                // what the fields stand for

    ghost predicate Valid()
      reads this, started
    {
      RecordsMatch() && ChannelsMatch() && MapsMatch()
    }

    ghost predicate RecordsMatch()
      reads this, started
    {
      && |started| == |view.calls|
      && forall i | 0 <= i < |started| :: started[i].id == i && started[i].Value() == view.calls[i]
    }

    /** A call's channel is closed exactly when the call is completed. */
    ghost predicate ChannelsMatch()
      reads this, started
    {
      forall i | 0 <= i < |started| :: started[i].closed == started[i].completed
    }

    ghost predicate MapsMatch()
      reads this
    {
      && cache == view.cache && inflight.Keys == view.inflight.Keys
      && forall k <- inflight :: Registered(inflight[k]) && inflight[k].key == k && inflight[k].id == view.inflight[k]
    }

    ghost predicate Registered(call: InflightCall)
      reads this
    {
      call.id < |started| && started[call.id] == call
    }

    lemma ViewWellFormed()
      requires Valid()
      ensures view.WellFormed()
    {
      forall k <- view.inflight ensures view.inflight[k] < |view.calls| && view.calls[view.inflight[k]].key == k {
        assert Registered(inflight[k]);
      }
    }

    constructor (skew: nat)
      ensures Valid() && refreshSkew == skew
      ensures view == Shared(map[], map[], [])
    {
      refreshSkew := skew;
      cache, inflight, started := map[], map[], [];
      view := Shared(map[], map[], []);
    }

    method PurgeStaleLocked(now: C.Time)
      requires Valid()
      modifies this`cache, this`view
      ensures Valid() && view == Lookup(old(view), refreshSkew, now)
    {
      var keys := cache.Keys;
      while keys != {}
        modifies this`cache
        invariant keys <= cache.Keys <= old(cache.Keys)
        invariant forall k <- cache :: cache[k] == old(cache[k])
        invariant forall k <- old(cache) :: k in keys || (k in cache <==> FreshAt(old(cache[k]), refreshSkew, now))
      {
        var k :| k in keys;
        keys := keys - {k};
        if !FreshAt(cache[k], refreshSkew, now) {
          cache := cache - {k};
        }
      }
      assert cache == Purge(old(cache), refreshSkew, now);
      view := Lookup(view, refreshSkew, now);
    }

    method Cached(key: CacheKey, now: C.Time) returns (token: Option<CachedToken>)
      requires Valid()
      modifies this`cache, this`view
      ensures Valid() && view == Lookup(old(view), refreshSkew, now)
      ensures token == if key in view.cache then Some(view.cache[key]) else None
    {
      PurgeStaleLocked(now);
      token := if key in cache then Some(cache[key]) else None;
    }

    method JoinOrStartCall(key: CacheKey, ghost form: Form, now: C.Time)
      returns (call: InflightCall?, token: Option<CachedToken>)
      requires Valid()
      modifies this, started
      ensures Valid() && old(view).WellFormed()
      ensures view == Join(old(view), key, form, refreshSkew, now).0
      ensures match Join(old(view), key, form, refreshSkew, now).1
              case Hit(t) => call == null && token == Some(t)
              case Wait(id) => token == None && call != null && Registered(call) && call.id == id
    {
      ViewWellFormed();
      PurgeStaleLocked(now);
      call, token := AttachLocked(key, form);
    }

    /** joinOrStartCall once the stale tokens are gone. */
    method AttachLocked(key: CacheKey, ghost form: Form) returns (call: InflightCall?, token: Option<CachedToken>)
      requires Valid()
      modifies this`inflight, this`started, this`view, started
      ensures Valid() && old(view).WellFormed()
      ensures view == Attach(old(view), key, form).0
      ensures match Attach(old(view), key, form).1
              case Hit(t) => call == null && token == Some(t)
              case Wait(id) => token == None && call != null && Registered(call) && call.id == id
    {
      ViewWellFormed();
      if key in cache {
        return null, Some(cache[key]);
      }
      if key in inflight {
        call := inflight[key];
        JoinCall(call);
        return call, None;
      }
      call := StartCall(key, form);
      return call, None;
    }

    method JoinCall(call: InflightCall)
      requires Valid() && Registered(call)
      modifies this`view, call
      ensures Valid()
      ensures var was := old(view).calls[call.id];
              view == Update(old(view), call.id, was.(waiters := was.waiters + 1))
    {
      call.AddWaiter();
      view := Update(view, call.id, call.Value());
    }

    method StartCall(key: CacheKey, ghost form: Form) returns (call: InflightCall)
      requires Valid()
      modifies this`inflight, this`started, this`view
      ensures Valid() && Registered(call) && call.id == |old(view).calls|
      ensures view == Start(old(view), key, form)
    {
      call := new InflightCall(|started|, key, form);
      started := started + [call];
      inflight := inflight[key := call];
      view := Start(view, key, form);
    }

    /** The end of runCall, once the request has been answered. Its goroutine ends once, so the call is not completed
        yet; its channel is then still open, and closing it does not panic. */
    method FinishCall(call: InflightCall, outcome: Outcome, key: CacheKey)
      requires Valid() && Registered(call) && call.key == key && !call.completed
      modifies this`cache, this`inflight, this`view, call
      ensures Valid() && call.closed
      ensures view == Complete(old(view), call.id, outcome)
    {
      assert !call.closed;
      Settle(call, outcome);
      RetireLocked(call, outcome, key);
      call.Close();
    }

    /** Records the outcome in the call. */
    method Settle(call: InflightCall, outcome: Outcome)
      requires RecordsMatch() && MapsMatch() && Registered(call)
      modifies this`view, call
      ensures RecordsMatch() && MapsMatch()
      ensures call.closed == old(call.closed) && call.completed
      ensures view == Update(old(view), call.id, Settled(old(view).calls[call.id], outcome))
    {
      call.Finish(outcome);
      view := Update(view, call.id, call.Value());
    }

    method RetireLocked(call: InflightCall, outcome: Outcome, key: CacheKey)
      requires RecordsMatch() && MapsMatch() && Registered(call) && call.key == key
      modifies this`cache, this`inflight, this`view
      ensures RecordsMatch() && MapsMatch()
      ensures view == Retire(old(view), call.id, outcome)
    {
      if key in inflight && inflight[key] == call {
        if outcome.Obtained? && !call.abandoned {
          cache := cache[key := outcome.token];
          view := view.(cache := cache);
        }
        RemoveInFlight(call, key);
      }
    }

    method RemoveInFlight(call: InflightCall, key: CacheKey)
      requires RecordsMatch() && MapsMatch() && Registered(call) && call.key == key
      modifies this`inflight, this`view
      ensures RecordsMatch() && MapsMatch() && view == Drop(old(view), call.id)
      ensures started == old(started)
    {
      inflight := inflight - {key};
      view := view.(inflight := view.inflight - {key});
    }

    method ReleaseWaiter(key: CacheKey, call: InflightCall)
      requires Valid() && Registered(call) && call.key == key
      modifies this`inflight, this`view, call
      ensures Valid() && view == Release(old(view), call.id)
    {
      if call.completed || call.abandoned {
        return;
      }
      if key !in inflight || inflight[key] != call {
        return;
      }
      Leave(call);
      if call.waiters > 0 {
        return;
      }
      Abandon(call);
      RemoveInFlight(call, key);
    }

    method Leave(call: InflightCall)
      requires Valid() && Registered(call)
      modifies this`view, call
      ensures Valid() && call.closed == old(call.closed)
      ensures var was := old(view).calls[call.id];
              view == Update(old(view), call.id, was.(waiters := was.waiters - 1))
    {
      call.waiters := call.waiters - 1;
      view := Update(view, call.id, call.Value());
    }

    method Abandon(call: InflightCall)
      requires Valid() && Registered(call)
      modifies this`view, call
      ensures Valid()
      ensures view == Update(old(view), call.id, old(view).calls[call.id].(abandoned := true, canceled := true))
    {
      call.abandoned := true;
      call.canceled := true;
      view := Update(view, call.id, call.Value());
    }
  }
}
