/** internal/authapp/ratelimit.go: a fixed-window limiter that forgets expired windows lazily. */
module RateLimiter {

  /** Nanoseconds since Go's zero time, so that 0 is the zero time. */
  type Time = nat

  const MINUTE: nat := 60_000_000_000

  datatype Window = Window(resetAt: Time, count: nat)

  datatype Limiter = Limiter(windows: map<string, Window>, nextSweep: Time)

  datatype Verdict = Verdict(ok: bool, retryAfter: int)

  datatype Request = Request(key: string, limit: int, window: int, now: Time)
  {
    /** Requests with no limit pass without touching the limiter. */
    predicate Counted() {
      limit > 0 && window > 0
    }
  }

  const NEW := Limiter(map[], 0)

  function Unexpired(windows: map<string, Window>, now: Time): map<string, Window> {
    map k | k in windows && now < windows[k].resetAt :: windows[k]
  }

  /** sweepExpired. */
  function Sweep(l: Limiter, now: Time, window: nat): Limiter {
    if l.nextSweep != 0 && now < l.nextSweep then l
    else Limiter(Unexpired(l.windows, now), now + if window < MINUTE then window else MINUTE)
  }

  /** The window of `r.key` once `r` has been counted in it. */
  function CountIn(windows: map<string, Window>, r: Request): Window
    requires r.Counted()
  {
    var current := if r.key in windows then windows[r.key] else Window(0, 0);
    var base := if current.resetAt == 0 || r.now >= current.resetAt then Window(r.now + r.window, 0) else current;
    base.(count := base.count + 1)
  }

  function Judge(w: Window, r: Request): Verdict {
    if w.count <= r.limit then Verdict(true, 0) else Verdict(false, w.resetAt - r.now)
  }

  function AllowStep(l: Limiter, r: Request): (Limiter, Verdict) {
    if !r.Counted() then (l, Verdict(true, 0))
    else
      var swept := Sweep(l, r.now, r.window);
      var w := CountIn(swept.windows, r);
      (swept.(windows := swept.windows[r.key := w]), Judge(w, r))
  }

  class FixedWindowRateLimiter {
    var windows: map<string, Window>
    var nextSweep: Time

    ghost function View(): Limiter
      reads this
    {
      Limiter(windows, nextSweep)
    }

    constructor ()
      ensures View() == NEW
    {
      windows, nextSweep := map[], 0;
    }

    method SweepExpired(now: Time, window: nat)
      modifies this
      ensures View() == Sweep(old(View()), now, window)
    {
      if nextSweep != 0 && now < nextSweep {
        return;
      }
      var keys := windows.Keys;
      while keys != {}
        modifies this`windows
        invariant keys <= windows.Keys <= old(windows.Keys)
        invariant forall k <- windows :: windows[k] == old(windows[k])
        invariant forall k <- old(windows) :: k in keys || (k in windows <==> now < old(windows[k]).resetAt)
      {
        var k :| k in keys;
        keys := keys - {k};
        if now >= windows[k].resetAt {
          windows := windows - {k};
        }
      }
      assert windows == Unexpired(old(windows), now);
      var interval := if window < MINUTE then window else MINUTE;
      nextSweep := now + interval;
    }

    method Allow(key: string, limit: int, window: int, now: Time) returns (ok: bool, retryAfter: int)
      modifies this
      ensures View() == AllowStep(old(View()), Request(key, limit, window, now)).0
      ensures Verdict(ok, retryAfter) == AllowStep(old(View()), Request(key, limit, window, now)).1
    {
      if limit <= 0 || window <= 0 {
        return true, 0;
      }
      SweepExpired(now, window);
      var current := if key in windows then windows[key] else Window(0, 0);
      if current.resetAt == 0 || now >= current.resetAt {
        current := Window(now + window, 0);
      }
      current := current.(count := current.count + 1);
      windows := windows[key := current];
      if current.count <= limit {
        return true, 0;
      }
      return false, current.resetAt - now;
    }
  }
}
