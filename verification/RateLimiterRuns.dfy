/** Whole runs of the rate limiter: what sweeping does not change, and how much gets through. */
module RateLimiterRuns {
  import opened RateLimiter

  function Init<T>(xs: seq<T>): seq<T>
    requires xs != []
  {
    xs[..|xs| - 1]
  }

  function Last<T>(xs: seq<T>): T
    requires xs != []
  {
    xs[|xs| - 1]
  }

  /** The limiter after a sequence of requests. */
  function After(reqs: seq<Request>): Limiter {
    if reqs == [] then NEW else AllowStep(After(Init(reqs)), Last(reqs)).0
  }

  /** The answer to the last request of a sequence. */
  function Answer(reqs: seq<Request>): Verdict
    requires reqs != []
  {
    AllowStep(After(Init(reqs)), Last(reqs)).1
  }

  function LastTime(reqs: seq<Request>): Time {
    if reqs == [] then 0 else if Last(reqs).Counted() then Last(reqs).now else LastTime(Init(reqs))
  }

  /** The clock, read before the lock is taken, does not run backwards in lock order. */
  predicate Ordered(reqs: seq<Request>) {
    reqs == [] || (Ordered(Init(reqs)) && (Last(reqs).Counted() ==> LastTime(Init(reqs)) <= Last(reqs).now))
  }

  /* ---------- Sweeping is invisible ---------- */

  /** The same limiter with no sweeping: windows are only ever added and reset. */
  function Remembered(reqs: seq<Request>): map<string, Window> {
    if reqs == [] then map[]
    else
      var r := Last(reqs);
      var windows := Remembered(Init(reqs));
      if r.Counted() then windows[r.key := CountIn(windows, r)] else windows
  }

  function RememberedAnswer(reqs: seq<Request>): Verdict
    requires reqs != []
  {
    var r := Last(reqs);
    if r.Counted() then Judge(CountIn(Remembered(Init(reqs)), r), r) else Verdict(true, 0)
  }

  /** The last request falls into a window of its key that a sweep has already deleted. */
  predicate Forgotten(reqs: seq<Request>)
    requires reqs != []
  {
    var r, all := Last(reqs), Remembered(Init(reqs));
    r.Counted() && r.key in all && r.now < all[r.key].resetAt && r.key !in After(Init(reqs)).windows
  }

  predicate NeverForgotten(reqs: seq<Request>) {
    reqs == [] || (NeverForgotten(Init(reqs)) && !Forgotten(reqs))
  }

  /** What a sweep leaves is unchanged. */
  ghost predicate Remains(swept: map<string, Window>, all: map<string, Window>) {
    forall k <- swept :: k in all && swept[k] == all[k]
  }

  /** Only a window that is gone although its key still falls into it is counted differently. */
  lemma CountAfterSweep(l: Limiter, all: map<string, Window>, r: Request)
    requires Remains(l.windows, all) && r.Counted()
    ensures var swept := Sweep(l, r.now, r.window).windows;
            if r.key in all && r.now < all[r.key].resetAt && r.key !in l.windows
            then CountIn(swept, r) == Window(r.now + r.window, 1)
            else CountIn(swept, r) == CountIn(all, r)
                 && Remains(AllowStep(l, r).0.windows, all[r.key := CountIn(all, r)])
  {}

  lemma {:induction false} RemainsAlong(reqs: seq<Request>)
    requires NeverForgotten(reqs)
    ensures Remains(After(reqs).windows, Remembered(reqs))
  {
    if reqs != [] {
      RemainsAlong(Init(reqs));
      if Last(reqs).Counted() {
        CountAfterSweep(After(Init(reqs)), Remembered(Init(reqs)), Last(reqs));
      }
    }
  }

  /** As long as no window was forgotten, the next request gets the verdict and the retry delay of a limiter that
      never sweeps if and only if its own window has not been swept away, or had room for it anyway. */
  lemma AgreesExactly(reqs: seq<Request>)
    requires reqs != [] && NeverForgotten(Init(reqs))
    ensures Answer(reqs) == RememberedAnswer(reqs) <==>
              (Forgotten(reqs) ==> Remembered(Init(reqs))[Last(reqs).key].count < Last(reqs).limit)
  {
    RemainsAlong(Init(reqs));
    if Last(reqs).Counted() {
      CountAfterSweep(After(Init(reqs)), Remembered(Init(reqs)), Last(reqs));
    }
  }

  /** While nothing is forgotten sweeping is invisible, whatever the clock does. */
  lemma NeverForgottenAgrees(reqs: seq<Request>, n: nat)
    requires NeverForgotten(reqs) && 0 < n <= |reqs|
    ensures Answer(reqs[..n]) == RememberedAnswer(reqs[..n])
  {
    NeverForgottenPrefix(reqs, n);
    AgreesExactly(reqs[..n]);
  }

  /* ---------- Forgetting is exactly what can be seen ---------- */

  function Repeat(r: Request, m: nat): (rs: seq<Request>)
    ensures |rs| == m
  {
    if m == 0 then [] else Repeat(r, m - 1) + [r]
  }

  /** At no point of the run would repeating the current request, however often, tell the two limiters apart. */
  ghost predicate Indistinguishable(reqs: seq<Request>) {
    forall n: nat, m: nat :: 0 < n <= |reqs| ==> AgreesAfter(reqs[..n], m)
  }

  predicate AgreesAfter(reqs: seq<Request>, m: nat)
    requires reqs != []
  {
    var repeated := reqs + Repeat(Last(reqs), m);
    Answer(repeated) == RememberedAnswer(repeated)
  }

  lemma RepeatLast(reqs: seq<Request>, m: nat)
    requires reqs != []
    ensures Last(reqs + Repeat(Last(reqs), m)) == Last(reqs)
    ensures m > 0 ==> Init(reqs + Repeat(Last(reqs), m)) == reqs + Repeat(Last(reqs), m - 1)
    ensures m == 0 ==> reqs + Repeat(Last(reqs), m) == reqs
  {
    if m > 0 {
      assert reqs + Repeat(Last(reqs), m) == (reqs + Repeat(Last(reqs), m - 1)) + [Last(reqs)];
    }
  }

  /** A repeated request only adds to the count of its window. */
  lemma {:induction false} RepeatCounts(reqs: seq<Request>, m: nat)
    requires reqs != [] && Last(reqs).Counted()
    ensures var r := Last(reqs);
            var repeated := reqs + Repeat(r, m);
            && r.key in After(reqs).windows && r.now < After(reqs).windows[r.key].resetAt
            && r.key in After(repeated).windows
            && After(repeated).windows[r.key]
               == Window(After(reqs).windows[r.key].resetAt, After(reqs).windows[r.key].count + m)
            && Answer(repeated) == Judge(After(repeated).windows[r.key], r)
  {
    RepeatLast(reqs, m);
    if m > 0 {
      RepeatCounts(reqs, m - 1);
    }
  }

  /** The same of the limiter that never sweeps. */
  lemma {:induction false} RepeatRemembered(reqs: seq<Request>, m: nat)
    requires reqs != [] && Last(reqs).Counted()
    ensures var r := Last(reqs);
            var repeated := reqs + Repeat(r, m);
            && r.key in Remembered(reqs) && r.now < Remembered(reqs)[r.key].resetAt
            && r.key in Remembered(repeated)
            && Remembered(repeated)[r.key]
               == Window(Remembered(reqs)[r.key].resetAt, Remembered(reqs)[r.key].count + m)
            && RememberedAnswer(repeated) == Judge(Remembered(repeated)[r.key], r)
  {
    RepeatLast(reqs, m);
    if m > 0 {
      RepeatRemembered(reqs, m - 1);
    }
  }

  lemma {:induction false} RepeatForgetsNothing(reqs: seq<Request>, m: nat)
    requires reqs != [] && NeverForgotten(reqs)
    ensures NeverForgotten(reqs + Repeat(Last(reqs), m))
  {
    RepeatLast(reqs, m);
    if m > 0 {
      RepeatForgetsNothing(reqs, m - 1);
      if Last(reqs).Counted() {
        RepeatCounts(reqs, m - 1);
        RepeatRemembered(reqs, m - 1);
      }
    }
  }

  lemma {:induction false} RememberedCounts(reqs: seq<Request>)
    ensures forall k <- Remembered(reqs) :: Remembered(reqs)[k].count >= 1
  {
    if reqs != [] {
      RememberedCounts(Init(reqs));
    }
  }

  /** How often a request whose window was forgotten must be repeated until only one limiter still lets it through. */
  lemma ForgottenShows(reqs: seq<Request>) returns (m: nat)
    requires reqs != [] && NeverForgotten(Init(reqs)) && Forgotten(reqs)
    ensures !AgreesAfter(reqs, m)
  {
    var r, count := Last(reqs), Remembered(Init(reqs))[Last(reqs).key].count;
    RemainsAlong(Init(reqs));
    CountAfterSweep(After(Init(reqs)), Remembered(Init(reqs)), r);
    RememberedCounts(Init(reqs));
    m := if count < r.limit then r.limit - count else 0;
    RepeatCounts(reqs, m);
    RepeatRemembered(reqs, m);
  }

  lemma {:induction false} FirstForgotten(reqs: seq<Request>) returns (n: nat)
    requires !NeverForgotten(reqs)
    ensures 0 < n <= |reqs| && NeverForgotten(Init(reqs[..n])) && Forgotten(reqs[..n])
  {
    if NeverForgotten(Init(reqs)) {
      n := |reqs|;
      assert reqs[..n] == reqs;
    } else {
      n := FirstForgotten(Init(reqs));
      assert Init(reqs)[..n] == reqs[..n];
    }
  }

  lemma {:induction false} NeverForgottenPrefix(reqs: seq<Request>, n: nat)
    requires NeverForgotten(reqs) && n <= |reqs|
    ensures NeverForgotten(reqs[..n])
  {
    if n == |reqs| {
      assert reqs[..n] == reqs;
    } else {
      NeverForgottenPrefix(Init(reqs), n);
      assert Init(reqs)[..n] == reqs[..n];
    }
  }

  /** Exactly the runs in which no request meets a forgotten window are indistinguishable from those of a limiter
      that never sweeps. */
  lemma InvisibleExactly(reqs: seq<Request>)
    ensures Indistinguishable(reqs) <==> NeverForgotten(reqs)
  {
    if NeverForgotten(reqs) {
      forall n: nat, m: nat | 0 < n <= |reqs| ensures AgreesAfter(reqs[..n], m) {
        NeverForgottenPrefix(reqs, n);
        RepeatForgetsNothing(reqs[..n], m);
        AgreesExactly(reqs[..n] + Repeat(Last(reqs[..n]), m));
      }
    } else {
      var n := FirstForgotten(reqs);
      var m := ForgottenShows(reqs[..n]);
    }
  }

  /* ---------- A clock that never runs backwards ---------- */

  /** Every window that is gone had expired by the time of the last counted request. */
  ghost predicate GoneExpired(swept: map<string, Window>, all: map<string, Window>, now: Time) {
    forall k <- all :: k in swept || all[k].resetAt <= now
  }

  lemma GoneExpiredStep(l: Limiter, all: map<string, Window>, before: Time, r: Request)
    requires Remains(l.windows, all) && GoneExpired(l.windows, all, before) && r.Counted() && before <= r.now
    ensures GoneExpired(AllowStep(l, r).0.windows, all[r.key := CountIn(all, r)], r.now)
  {}

  lemma {:induction false} OrderedForgetsNothing(reqs: seq<Request>)
    requires Ordered(reqs)
    ensures NeverForgotten(reqs) && GoneExpired(After(reqs).windows, Remembered(reqs), LastTime(reqs))
  {
    if reqs != [] {
      OrderedForgetsNothing(Init(reqs));
      RemainsAlong(Init(reqs));
      if Last(reqs).Counted() {
        GoneExpiredStep(After(Init(reqs)), Remembered(Init(reqs)), LastTime(Init(reqs)), Last(reqs));
      }
    }
  }

  /** With a clock that never runs backwards, every request gets the verdict and the retry delay it would
      get from a limiter that never forgets a window. */
  lemma SweepingIsInvisible(reqs: seq<Request>, n: nat)
    requires Ordered(reqs) && 0 < n <= |reqs|
    ensures Answer(reqs[..n]) == RememberedAnswer(reqs[..n])
  {
    OrderedForgetsNothing(reqs);
    NeverForgottenAgrees(reqs, n);
  }

  /** If the clock may run backwards the two can differ: a sweep at a later time forgets a full window that an
      earlier time still falls into. */
  lemma BackwardClockDiffers()
    ensures var reqs := [Request("a", 1, 10, 1), Request("b", 1, 10, 20), Request("a", 1, 10, 2)];
            !Ordered(reqs) && Forgotten(reqs) && Answer(reqs).ok && !RememberedAnswer(reqs).ok
  {
    var r1, r2, r3 := Request("a", 1, 10, 1), Request("b", 1, 10, 20), Request("a", 1, 10, 2);
    assert "a" != "b";
    assert Init([r1]) == [] && Init([r1, r2]) == [r1] && Init([r1, r2, r3]) == [r1, r2];
    assert After([r1]) == Limiter(map["a" := Window(11, 1)], 11);
    assert After([r1, r2]) == Limiter(map["b" := Window(30, 1)], 30);
    assert Remembered([r1]) == map["a" := Window(11, 1)];
    assert Remembered([r1, r2])["a"] == Window(11, 1);
    assert LastTime([r1, r2]) == 20;
  }

  /** A request without a limit or a window always passes, and leaves no trace. */
  lemma UnlimitedPasses(reqs: seq<Request>)
    requires reqs != [] && (Last(reqs).limit <= 0 || Last(reqs).window <= 0)
    ensures Answer(reqs) == Verdict(true, 0) && After(reqs) == After(Init(reqs))
  {}

  /** A sweep that is due deletes exactly the expired windows and is next due after the request's window length, at
      most a minute; one that is not due does nothing. */
  lemma SweepExactly(l: Limiter, now: Time, window: nat)
    ensures var swept := Sweep(l, now, window);
            if now < l.nextSweep then swept == l
            else
              && (forall k :: k in swept.windows <==> k in l.windows && now < l.windows[k].resetAt)
              && (forall k <- swept.windows :: swept.windows[k] == l.windows[k])
              && swept.nextSweep <= now + window && swept.nextSweep <= now + MINUTE
              && (swept.nextSweep == now + window || swept.nextSweep == now + MINUTE)
  {}

  /** Forgetting is prompt: after a counted request every stored window has been expired for less than a minute. */
  lemma {:induction false} SweepingIsPrompt(reqs: seq<Request>)
    requires Ordered(reqs)
    ensures forall k <- After(reqs).windows :: LastTime(reqs) < After(reqs).windows[k].resetAt + MINUTE
    ensures After(reqs).nextSweep <= LastTime(reqs) + MINUTE
    ensures forall k <- After(reqs).windows :: 0 < After(reqs).nextSweep < After(reqs).windows[k].resetAt + MINUTE
  {
    if reqs != [] {
      SweepingIsPrompt(Init(reqs));
    }
  }

  /* ---------- One key with a fixed limit ---------- */

  /** When the window holding the last of these request times ends. */
  function End(ts: seq<Time>, window: nat): Time {
    if ts == [] then 0
    else if Last(ts) < End(Init(ts), window) then End(Init(ts), window)
    else Last(ts) + window
  }

  /** How many of the request times the window of the last one holds. */
  function Position(ts: seq<Time>, window: nat): nat {
    if ts == [] then 0
    else if Last(ts) < End(Init(ts), window) then Position(Init(ts), window) + 1
    else 1
  }

  predicate Sorted(ts: seq<Time>) {
    forall i, j | 0 <= i < j < |ts| :: ts[i] <= ts[j]
  }

  /** Accepted requests with times from `lo` up to but not including `hi`. */
  function Accepted(ts: seq<Time>, limit: nat, window: nat, lo: int, hi: int): nat {
    if ts == [] then 0
    else
      Accepted(Init(ts), limit, window, lo, hi)
      + if lo <= Last(ts) < hi && Position(ts, window) <= limit then 1 else 0
  }

  /** Requests, accepted or not, with times from `lo` up to but not including `hi`. */
  function Made(ts: seq<Time>, lo: int, hi: int): nat {
    if ts == [] then 0 else Made(Init(ts), lo, hi) + if lo <= Last(ts) < hi then 1 else 0
  }

  lemma {:induction false} AcceptedSplit(ts: seq<Time>, limit: nat, window: nat, lo: int, mid: int, hi: int)
    requires lo <= mid <= hi
    ensures Accepted(ts, limit, window, lo, hi)
            == Accepted(ts, limit, window, lo, mid) + Accepted(ts, limit, window, mid, hi)
  {
    if ts != [] {
      AcceptedSplit(Init(ts), limit, window, lo, mid, hi);
    }
  }

  lemma {:induction false} NothingAt(ts: seq<Time>, limit: nat, window: nat, lo: int, hi: int)
    requires forall i | 0 <= i < |ts| :: !(lo <= ts[i] < hi)
    ensures Accepted(ts, limit, window, lo, hi) == 0 && Made(ts, lo, hi) == 0
  {
    if ts != [] {
      NothingAt(Init(ts), limit, window, lo, hi);
    }
  }

  lemma {:induction false} BeforeEnd(ts: seq<Time>, window: nat)
    requires Sorted(ts) && window > 0 && ts != []
    ensures End(ts, window) - window <= Last(ts) < End(ts, window)
    ensures forall i | 0 <= i < |ts| :: ts[i] < End(ts, window)
  {
    if |ts| > 1 {
      BeforeEnd(Init(ts), window);
    } else {
      assert Init(ts) == [];
    }
  }

  /** A window accepts exactly the first `limit` requests it holds, and the opening one among them. */
  lemma {:induction false} WindowAcceptsFirst(ts: seq<Time>, limit: nat, window: nat)
    requires Sorted(ts) && window > 0 && limit > 0 && ts != []
    ensures var e := End(ts, window);
            && Made(ts, e - window, e) == Position(ts, window) >= 1
            && Accepted(ts, limit, window, e - window, e)
               == (if Position(ts, window) <= limit then Position(ts, window) else limit)
            && Accepted(ts, limit, window, e - window + 1, e) < Accepted(ts, limit, window, e - window, e)
  {
    var e := End(ts, window);
    BeforeEnd(ts, window);
    if |ts| > 1 {
      BeforeEnd(Init(ts), window);
      if Last(ts) < End(Init(ts), window) {
        WindowAcceptsFirst(Init(ts), limit, window);
      } else {
        NothingAt(Init(ts), limit, window, e - window, e);
        NothingAt(Init(ts), limit, window, e - window + 1, e);
      }
    } else {
      assert Init(ts) == [];
    }
  }

  /** In the window length before the current window opened, fewer than `limit` requests were accepted: the
      request that opened the previous window is too old. */
  lemma {:induction false} BeforeWindow(ts: seq<Time>, limit: nat, window: nat, lo: int)
    requires Sorted(ts) && window > 0 && limit > 0 && ts != []
    requires End(ts, window) - 2 * window < lo <= End(ts, window) - window
    ensures Accepted(ts, limit, window, lo, End(ts, window) - window) <= limit - 1
  {
    BeforeEnd(ts, window);
    var start := End(ts, window) - window;
    if |ts| > 1 {
      var e := End(Init(ts), window);
      BeforeEnd(Init(ts), window);
      if Last(ts) < e {
        BeforeWindow(Init(ts), limit, window, lo);
      } else {
        WindowAcceptsFirst(Init(ts), limit, window);
        var mid := if lo <= e then lo else e;
        AcceptedSplit(Init(ts), limit, window, e - window + 1, mid, e);
        AcceptedSplit(Init(ts), limit, window, mid, e, start);
        AcceptedSplit(Init(ts), limit, window, mid, lo, start);
        NothingAt(Init(ts), limit, window, e, start);
      }
    } else {
      assert Init(ts) == [];
    }
  }

  /** The most requests an interval of one window length can see accepted: a full window and all but the opening
      request of the window before, unless the interval is a single instant. */
  function MostAccepted(limit: nat, window: nat): nat
    requires limit > 0
  {
    if window == 1 then limit else 2 * limit - 1
  }

  lemma {:induction false} IntervalBound(ts: seq<Time>, limit: nat, window: nat, lo: int)
    requires Sorted(ts) && window > 0 && limit > 0
    ensures Accepted(ts, limit, window, lo, lo + window) <= MostAccepted(limit, window)
  {
    if ts != [] {
      IntervalBound(Init(ts), limit, window, lo);
      if lo <= Last(ts) < lo + window {
        var e := End(ts, window);
        BeforeEnd(ts, window);
        WindowAcceptsFirst(ts, limit, window);
        if lo <= e - window {
          BeforeWindow(ts, limit, window, lo);
          AcceptedSplit(ts, limit, window, lo, e - window, lo + window);
          AcceptedSplit(ts, limit, window, e - window, lo + window, e);
        } else {
          AcceptedSplit(ts, limit, window, e - window, lo, e);
          AcceptedSplit(ts, limit, window, lo, e, lo + window);
          NothingAt(ts, limit, window, e, lo + window);
        }
      }
    }
  }

  lemma Snoc<T>(xs: seq<T>, x: T)
    ensures Init(xs + [x]) == xs && Last(xs + [x]) == x
  {}

  /** `n` more requests at one instant that all fall into the current window. */
  lemma {:induction false} Fill(ts: seq<Time>, limit: nat, window: nat, t: Time, n: nat, lo: int, hi: int)
    returns (more: seq<Time>)
    requires Sorted(ts) && ts != [] && Last(ts) <= t < End(ts, window)
    requires Position(ts, window) + n <= limit && lo <= t < hi
    ensures Sorted(more) && more != [] && Last(ts) <= Last(more) <= t
    ensures End(more, window) == End(ts, window) && Position(more, window) == Position(ts, window) + n
    ensures Accepted(more, limit, window, lo, hi) == Accepted(ts, limit, window, lo, hi) + n
  {
    if n == 0 {
      more := ts;
    } else {
      var init := Fill(ts, limit, window, t, n - 1, lo, hi);
      more := init + [t];
      Snoc(init, t);
    }
  }

  /** The bound is attained for every limit and window: `limit` requests in the last instants of one window and
      `limit` in the first instant of the next, with the first of all just outside the interval. */
  lemma IntervalBoundSharp(limit: nat, window: nat) returns (ts: seq<Time>)
    requires limit > 0 && window > 0
    ensures Sorted(ts) && Accepted(ts, limit, window, window - 1, 2 * window - 1) == MostAccepted(limit, window)
  {
    var lo, hi := window - 1, 2 * window - 1;
    Snoc([], 0);
    assert [] + [0] == [0];
    var first := Fill([0], limit, window, window - 1, limit - 1, lo, hi);
    if window == 1 {
      ts := first;
    } else {
      Snoc(first, window);
      ts := Fill(first + [window], limit, window, window, limit - 1, lo, hi);
    }
  }

  /* ---------- From runs over many keys to the times of one ---------- */

  function TimesOf(reqs: seq<Request>, key: string): seq<Time> {
    if reqs == [] then []
    else if Last(reqs).key == key then TimesOf(Init(reqs), key) + [Last(reqs).now]
    else TimesOf(Init(reqs), key)
  }

  /** The key is configured once: every request for it has the same positive limit and window. */
  predicate Configured(reqs: seq<Request>, key: string, limit: int, window: int) {
    && limit > 0 && window > 0
    && forall i | 0 <= i < |reqs| && reqs[i].key == key :: reqs[i].limit == limit && reqs[i].window == window
  }

  /** How many requests for the key were let through in an interval. */
  function LetThrough(reqs: seq<Request>, key: string, lo: int, hi: int): nat {
    if reqs == [] then 0
    else
      LetThrough(Init(reqs), key, lo, hi)
      + if Last(reqs).key == key && lo <= Last(reqs).now < hi && Answer(reqs).ok then 1 else 0
  }

  lemma {:induction false} TimesSorted(reqs: seq<Request>, key: string, limit: int, window: int)
    requires Ordered(reqs) && Configured(reqs, key, limit, window)
    ensures Sorted(TimesOf(reqs, key))
    ensures forall i | 0 <= i < |TimesOf(reqs, key)| :: TimesOf(reqs, key)[i] <= LastTime(reqs)
  {
    if reqs != [] {
      ConfiguredInit(reqs, key, limit, window);
      TimesSorted(Init(reqs), key, limit, window);
    }
  }

  lemma ConfiguredInit(reqs: seq<Request>, key: string, limit: int, window: int)
    requires Configured(reqs, key, limit, window) && reqs != []
    ensures Configured(Init(reqs), key, limit, window)
    ensures Last(reqs).key == key ==> Last(reqs).limit == limit && Last(reqs).window == window
  {
    assert forall i | 0 <= i < |Init(reqs)| :: Init(reqs)[i] == reqs[i];
  }

  /** The remembered window of a key is a function of its own request times. */
  lemma {:induction false} KeyIsIndependent(reqs: seq<Request>, key: string, limit: int, window: int)
    requires Configured(reqs, key, limit, window)
    ensures var ts := TimesOf(reqs, key);
            if ts == [] then key !in Remembered(reqs)
            else key in Remembered(reqs) && Remembered(reqs)[key] == Window(End(ts, window), Position(ts, window))
    ensures TimesOf(reqs, key) != [] ==> End(TimesOf(reqs, key), window) > 0
  {
    if reqs != [] {
      ConfiguredInit(reqs, key, limit, window);
      KeyIsIndependent(Init(reqs), key, limit, window);
      if Last(reqs).key == key {
        var ts := TimesOf(reqs, key);
        assert Init(ts) == TimesOf(Init(reqs), key) && Last(ts) == Last(reqs).now;
      }
    }
  }

  /** The verdict on a request: its place in its window against the limit, and the time left in the window. */
  lemma VerdictByPosition(reqs: seq<Request>, key: string, limit: int, window: int)
    requires Ordered(reqs) && Configured(reqs, key, limit, window) && reqs != [] && Last(reqs).key == key
    ensures var ts := TimesOf(reqs, key);
            Answer(reqs) == if Position(ts, window) <= limit then Verdict(true, 0)
                            else Verdict(false, End(ts, window) - Last(reqs).now)
  {
    ConfiguredInit(reqs, key, limit, window);
    OrderedForgetsNothing(reqs);
    AgreesExactly(reqs);
    KeyIsIndependent(reqs, key, limit, window);
  }

  lemma {:induction false} LetThroughIsAccepted(
    reqs: seq<Request>, key: string, limit: int, window: int, lo: int, hi: int)
    requires Ordered(reqs) && Configured(reqs, key, limit, window)
    ensures LetThrough(reqs, key, lo, hi) == Accepted(TimesOf(reqs, key), limit, window, lo, hi)
  {
    if reqs != [] {
      ConfiguredInit(reqs, key, limit, window);
      LetThroughIsAccepted(Init(reqs), key, limit, window, lo, hi);
      if Last(reqs).key == key {
        VerdictByPosition(reqs, key, limit, window);
        var ts := TimesOf(reqs, key);
        assert Init(ts) == TimesOf(Init(reqs), key) && Last(ts) == Last(reqs).now;
      }
    }
  }

  /** In every run, and whatever other keys do, fewer than 2 * limit requests of a key are let through in any
      half-open interval of one window length, and at most limit in a single instant. */
  lemma RateBound(reqs: seq<Request>, key: string, limit: int, window: int, lo: int)
    requires Ordered(reqs) && Configured(reqs, key, limit, window)
    ensures LetThrough(reqs, key, lo, lo + window) <= MostAccepted(limit, window)
  {
    LetThroughIsAccepted(reqs, key, limit, window, lo, lo + window);
    TimesSorted(reqs, key, limit, window);
    IntervalBound(TimesOf(reqs, key), limit, window, lo);
  }

  /** A run that makes one key's requests at the given times. */
  function RequestsAt(ts: seq<Time>, key: string, limit: int, window: int): seq<Request> {
    if ts == [] then [] else RequestsAt(Init(ts), key, limit, window) + [Request(key, limit, window, Last(ts))]
  }

  lemma AppendRequest(reqs: seq<Request>, r: Request)
    requires Ordered(reqs) && LastTime(reqs) <= r.now && Configured(reqs, r.key, r.limit, r.window)
    ensures Ordered(reqs + [r]) && LastTime(reqs + [r]) == r.now && Configured(reqs + [r], r.key, r.limit, r.window)
    ensures TimesOf(reqs + [r], r.key) == TimesOf(reqs, r.key) + [r.now]
  {
    Snoc(reqs, r);
  }

  lemma {:induction false} RequestsAtRun(ts: seq<Time>, key: string, limit: int, window: int)
    requires Sorted(ts) && limit > 0 && window > 0
    ensures var reqs := RequestsAt(ts, key, limit, window);
            && Ordered(reqs) && Configured(reqs, key, limit, window) && TimesOf(reqs, key) == ts
            && LastTime(reqs) == if ts == [] then 0 else Last(ts)
  {
    if ts != [] {
      var init, last := RequestsAt(Init(ts), key, limit, window), Request(key, limit, window, Last(ts));
      RequestsAtRun(Init(ts), key, limit, window);
      assert LastTime(init) <= last.now;
      AppendRequest(init, last);
    }
  }

  /** For every key, limit and window there is a run that lets through as many as RateBound allows. */
  lemma RateBoundSharp(key: string, limit: int, window: int) returns (reqs: seq<Request>, lo: int)
    requires limit > 0 && window > 0
    ensures Ordered(reqs) && Configured(reqs, key, limit, window)
    ensures LetThrough(reqs, key, lo, lo + window) == MostAccepted(limit, window)
  {
    var ts := IntervalBoundSharp(limit, window);
    RequestsAtRun(ts, key, limit, window);
    reqs, lo := RequestsAt(ts, key, limit, window), window - 1;
    LetThroughIsAccepted(reqs, key, limit, window, lo, lo + window);
  }

  /** In every run, the current window of a key has let through exactly as many requests as it holds, up to
      the limit. */
  lemma WindowQuota(reqs: seq<Request>, key: string, limit: int, window: int)
    requires Ordered(reqs) && Configured(reqs, key, limit, window) && TimesOf(reqs, key) != []
    ensures var ts := TimesOf(reqs, key);
            var e := End(ts, window);
            var held := Made(ts, e - window, e);
            held >= 1 && LetThrough(reqs, key, e - window, e) == if held <= limit then held else limit
  {
    var e := End(TimesOf(reqs, key), window);
    LetThroughIsAccepted(reqs, key, limit, window, e - window, e);
    TimesSorted(reqs, key, limit, window);
    WindowAcceptsFirst(TimesOf(reqs, key), limit, window);
  }
}
