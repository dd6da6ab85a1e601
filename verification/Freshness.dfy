/** client/cache.go `freshAt`: when a cached token may still be handed out. */
module Freshness {
  import opened TokenService
  import C = Claims

  datatype CachedToken = CachedToken(response: TokenResponse, expiresAt: C.Time)

  /** The skew freshAt really applies: a tenth of the lifetime when the configured skew would exceed it. */
  function EffectiveSkew(expiresIn: int, skew: nat): (r: nat)
    requires expiresIn > 0
    ensures r < expiresIn * SECOND && r <= skew
  {
    var ttl := expiresIn * SECOND;
    if skew >= ttl then ttl / 10 else skew
  }

  predicate FreshAt(token: CachedToken, skew: nat, now: C.Time) {
    token.response.expiresIn > 0 && token.expiresAt - now > EffectiveSkew(token.response.expiresIn, skew)
  }

  /** What requestToken stores for a response that arrives at `received`. */
  function Received(response: TokenResponse, received: C.Time): CachedToken
    requires response.expiresIn > 0
  {
    CachedToken(response, received + response.expiresIn * SECOND)
  }

  /** Once stale, always stale; and a token is fresh at the moment it arrives. */
  lemma FreshnessAntitone(token: CachedToken, skew: nat, earlier: C.Time, later: C.Time)
    requires earlier <= later && FreshAt(token, skew, later)
    ensures FreshAt(token, skew, earlier)
  {}

  lemma ArrivesFresh(response: TokenResponse, skew: nat, received: C.Time)
    requires response.expiresIn > 0
    ensures FreshAt(Received(response, received), skew, received)
  {}

  /** `t` would be served from the cache at or after `received`. */
  predicate Hit(token: CachedToken, received: C.Time, skew: nat, t: C.Time) {
    t >= received && FreshAt(token, skew, t)
  }

  /** The configured skew makes up for a lag, or a tenth of the lifetime does where the skew would swallow it. */
  predicate SkewCovers(lag: int, expiresIn: int, skew: nat) {
    if skew < expiresIn * SECOND then lag <= skew else 10 * lag <= expiresIn * SECOND
  }

  lemma SkewCoversExactly(lag: int, expiresIn: int, skew: nat)
    requires expiresIn > 0
    ensures lag <= EffectiveSkew(expiresIn, skew) <==> SkewCovers(lag, expiresIn, skew)
  {}

  /** A token is fresh while it has more than the skew left, or more than a tenth of its lifetime where the skew would
      swallow it. */
  lemma FreshExactly(token: CachedToken, skew: nat, now: C.Time)
    ensures FreshAt(token, skew, now) <==>
              token.response.expiresIn > 0 && !SkewCovers(token.expiresAt - now, token.response.expiresIn, skew)
  {
    if token.response.expiresIn > 0 {
      SkewCoversExactly(token.expiresAt - now, token.response.expiresIn, skew);
    }
  }

  lemma HitsBefore(response: TokenResponse, received: C.Time, skew: nat, exp: C.Time)
    requires response.expiresIn > 0
    ensures (forall t: C.Time :: Hit(Received(response, received), received, skew, t) ==> t < exp) <==>
              SkewCovers(received + response.expiresIn * SECOND - exp, response.expiresIn, skew)
  {
    var token := Received(response, received);
    var last: C.Time := token.expiresAt - EffectiveSkew(response.expiresIn, skew) - 1;
    assert Hit(token, received, skew, last);
    SkewCoversExactly(received + response.expiresIn * SECOND - exp, response.expiresIn, skew);
  }

  /** A cache hit is before the token's `exp` claim, whenever it happens, if and only if the skew covers the lag:
      how much later than its `exp` the client believes the token to end. */
  lemma HitsBeforeExp(issued: C.Time, ttl: nat, exp: C.Time, response: TokenResponse, received: C.Time, skew: nat)
    requires Stamped(issued, ttl, exp, response) && ttl >= SECOND
    ensures response.expiresIn > 0
    ensures var lag := received + response.expiresIn * SECOND - exp;
            (forall t: C.Time :: Hit(Received(response, received), received, skew, t) ==> t < exp) <==>
              SkewCovers(lag, response.expiresIn, skew)
    ensures received + response.expiresIn * SECOND - exp < received - issued + SECOND
  {
    HitsBefore(response, received, skew, exp);
  }

  /** Latency plus one second covered by the skew is enough. */
  lemma LatencyWithinSkew(issued: C.Time, ttl: nat, exp: C.Time, response: TokenResponse, received: C.Time, skew: nat)
    requires Stamped(issued, ttl, exp, response) && ttl >= SECOND
    requires SkewCovers(received - issued + SECOND, response.expiresIn, skew)
    ensures forall t: C.Time :: Hit(Received(response, received), received, skew, t) ==> t < exp
  {
    HitsBeforeExp(issued, ttl, exp, response, received, skew);
  }

  const DEFAULT_SKEW: nat := 60 * SECOND
  const DEFAULT_TIMEOUT: nat := 10 * SECOND
  const DEFAULT_TTL: nat := 900 * SECOND

  /** From the issuing service to the client's cache: with the default lifetime, skew and request timeout,
      no cache hit is ever expired. */
  lemma DefaultsNeverExpired(s: Service, request: TokenRequest, lookup: Lookup, received: C.Time, t: C.Time)
    requires Issue(s, request, lookup).Issued? && s.accessTokenTTL == DEFAULT_TTL
    requires s.now <= received <= s.now + DEFAULT_TIMEOUT
    requires Issue(s, request, lookup).response.expiresIn > 0 ==>
               Hit(Received(Issue(s, request, lookup).response, received), received, DEFAULT_SKEW, t)
    ensures t < Issue(s, request, lookup).claims.expiresAt
  {
    IssuedStamped(s, request, lookup);
    var o := Issue(s, request, lookup);
    LatencyWithinSkew(s.now, DEFAULT_TTL, o.claims.expiresAt, o.response, received, DEFAULT_SKEW);
  }

  /** The condition matters: a five-second token issued late within its second is served from the cache
      after it expired, even if it arrives at once. */
  lemma ShortTokenServedExpired(issued: C.Time, exp: C.Time, response: TokenResponse)
    requires Stamped(issued, 5 * SECOND, exp, response) && SubSecond(issued) == 900_000_000
    ensures response.expiresIn > 0
    ensures exists t: C.Time :: Hit(Received(response, issued), issued, DEFAULT_SKEW, t) && t >= exp
  {
    HitsBeforeExp(issued, 5 * SECOND, exp, response, issued, DEFAULT_SKEW);
  }
}
