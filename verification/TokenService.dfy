/** server/token_service.go: issuing an access token for the client credentials grant. */
module TokenService {
  import opened Options
  import opened Text
  import opened StringSet
  import opened Scopes
  import opened ServerScopes
  import opened ServerClient
  import C = Claims

  const SECOND: nat := 1_000_000_000

  datatype TokenRequest = TokenRequest(
    grantType: string, clientID: string, clientSecret: string, audience: string, scopes: seq<string>)

  datatype TokenResponse = TokenResponse(accessToken: string, tokenType: string, expiresIn: int, scope: string)

  /** What the client store and the secret comparison answer for this request. */
  datatype Lookup = Found(client: Client, secretMatches: bool) | NotFound | Unauthorized | StoreFailure

  datatype OAuthCode = UnsupportedGrantType | InvalidClient | InvalidRequest | InvalidTarget | InvalidScope

  datatype Outcome =
    | Issued(claims: C.Claims, response: TokenResponse)
    | Refused(status: nat, code: OAuthCode)
    | ServerError

  /** The parts of the service a request depends on: configuration, clock, random id and signer. */
  datatype Service = Service(
    issuer: string, accessTokenTTL: nat, now: C.Time, jti: Option<string>, signed: Option<string>)

  datatype Authentication = Authenticated(client: Client) | Denied | Failed

  function Authenticate(request: TokenRequest, lookup: Lookup): Authentication {
    if request.clientID == "" || request.clientSecret == "" then Denied
    else
      match lookup
      case NotFound => Denied
      case Unauthorized => Denied
      case StoreFailure => Failed
      case Found(client, secretMatches) =>
        if client.disabled || !secretMatches then Denied else Authenticated(client.Normalized())
  }

  /** slices.Contains after trimming the needle. */
  predicate Contains(items: seq<string>, needle: string) {
    Trim(needle) in items
  }

  /** The request's scopes, or the client's defaults when it names none. */
  function Requested(request: TokenRequest, client: Client): seq<string> {
    if |request.scopes| == 0 then client.defaultScopes else request.scopes
  }

  function Issue(s: Service, request: TokenRequest, lookup: Lookup): Outcome {
    if request.grantType != "client_credentials" then Refused(400, UnsupportedGrantType)
    else
      match Authenticate(request, lookup)
      case Denied => Refused(401, InvalidClient)
      case Failed => ServerError
      case Authenticated(client) =>
        if request.audience == "" then Refused(400, InvalidRequest)
        else if !Contains(client.allowedAudiences, request.audience) then Refused(403, InvalidTarget)
        else
          match Resolve(Requested(request, client), client.allowedScopes)
          case None => Refused(400, InvalidScope)
          case Some(scopes) => IssueAccessToken(s, client, request.audience, scopes)
  }

  function SubSecond(t: nat): (f: nat)
    ensures f < SECOND && f <= t
  {
    t % SECOND
  }

  /** int64(d.Seconds()) for a nonnegative duration. */
  function WholeSeconds(d: nat): (n: nat)
    ensures n * SECOND + SubSecond(d) == d
  {
    d / SECOND
  }

  /** jwt.NewNumericDate: whole seconds, rounded down. */
  function NumericDate(t: C.Time): C.Time {
    t - SubSecond(t)
  }

  function IssueAccessToken(s: Service, client: Client, audience: string, scopes: seq<string>): Outcome {
    if s.jti.None? then ServerError
    else
      var claims := C.Claims(
        s.issuer, client.id, [audience],
        NumericDate(s.now + s.accessTokenTTL), NumericDate(s.now), NumericDate(s.now),
        s.jti.value, client.id, ScopeString(scopes), "access");
      if s.signed.None? then ServerError
      else Issued(claims, TokenResponse(s.signed.value, "Bearer", WholeSeconds(s.accessTokenTTL), claims.scope))
  }

  /* ---------- Which requests get a token, and why the others do not ---------- */

  /** The client is registered, enabled and has proved its identity. */
  predicate Known(request: TokenRequest, lookup: Lookup) {
    && request.clientID != "" && request.clientSecret != ""
    && lookup.Found? && lookup.secretMatches && !lookup.client.disabled
  }

  /** The token endpoint issues a token exactly when the grant type is right, the client is known, enabled and
      authenticated, the audience is one of its audiences, every requested scope, or every default scope where none
      is requested, can be honoured, and neither the random id nor the signature fails. */
  lemma IssuedExactly(s: Service, request: TokenRequest, lookup: Lookup)
    ensures Issue(s, request, lookup).Issued? <==>
              && request.grantType == "client_credentials" && Known(request, lookup)
              && request.audience != "" && Trim(request.audience) in AllFields(lookup.client.allowedAudiences)
              && AllHonoured(if request.scopes != [] then request.scopes else Normalize(lookup.client.defaultScopes),
                             Normalize(lookup.client.allowedScopes))
              && s.jti.Some? && s.signed.Some?
  {
    if lookup.Found? {
      var client := lookup.client.Normalized();
      NormalizeTokens(lookup.client.allowedAudiences);
      ResolveMeaning(Requested(request, client), client.allowedScopes);
    }
  }

  /** Every refusal has its own cause. */
  lemma RefusedExactly(s: Service, request: TokenRequest, lookup: Lookup)
    ensures var o := Issue(s, request, lookup);
            var grant := request.grantType == "client_credentials";
            var known := grant && Known(request, lookup);
            && (o == Refused(400, UnsupportedGrantType) <==> !grant)
            && (o == Refused(401, InvalidClient) <==>
                  grant && !Known(request, lookup)
                  && (request.clientID == "" || request.clientSecret == "" || !lookup.StoreFailure?))
            && (o == Refused(400, InvalidRequest) <==> known && request.audience == "")
            && (o == Refused(403, InvalidTarget) <==>
                  known && request.audience != ""
                  && Trim(request.audience) !in AllFields(lookup.client.allowedAudiences))
            && (o == Refused(400, InvalidScope) <==>
                  known && request.audience != "" && Trim(request.audience) in AllFields(lookup.client.allowedAudiences)
                  && !AllHonoured(
                        if request.scopes != [] then request.scopes else Normalize(lookup.client.defaultScopes),
                        Normalize(lookup.client.allowedScopes)))
  {
    if lookup.Found? {
      var client := lookup.client.Normalized();
      NormalizeTokens(lookup.client.allowedAudiences);
      ResolveMeaning(Requested(request, client), client.allowedScopes);
    }
  }

  /* ---------- What an issued token grants ---------- */

  /** The scope claim splits back into exactly the scopes resolved for the request, or for the defaults where it
      names none. */
  lemma IssuedScopes(s: Service, request: TokenRequest, lookup: Lookup)
    requires Tokens(request.scopes) && Issue(s, request, lookup).Issued?
    ensures lookup.Found?
    ensures var asked := if request.scopes != [] then request.scopes else Normalize(lookup.client.defaultScopes);
            && Tokens(asked) && Tokens(Normalize(lookup.client.allowedScopes))
            && Resolve(asked, Normalize(lookup.client.allowedScopes))
               == Some(Fields(Issue(s, request, lookup).claims.scope))
  {
    var allowed := Normalize(lookup.client.allowedScopes);
    var asked := if request.scopes != [] then request.scopes else Normalize(lookup.client.defaultScopes);
    NormalizedTokens(lookup.client);
    var scopes := Resolve(asked, allowed).value;
    ResolveTokens(asked, allowed);
    NormalFormFixed(scopes);
    ScopeStringRoundTrip(scopes);
  }

  /** From policy to guard. A resource service that requires `required` lets the token through exactly when
      every required token is one of the issued scopes. The issued scopes are exactly the concrete ones asked for and
      the concrete policy entries under a wildcard asked for; each is allowed by the client's policy and covered by a
      scope that was asked for, where a request that names scopes asks for nothing else. */
  lemma PolicyToGuard(s: Service, request: TokenRequest, lookup: Lookup, required: seq<string>)
    requires Tokens(request.scopes) && Issue(s, request, lookup).Issued?
    ensures lookup.Found?
    ensures var claims := Issue(s, request, lookup).claims;
            claims.HasAllScopes(required) <==> forall t :: t in Normalize(required) ==> t in Fields(claims.scope)
    ensures var issued := Fields(Issue(s, request, lookup).claims.scope);
            var asked := if request.scopes != [] then request.scopes else Normalize(lookup.client.defaultScopes);
            var allowed := Normalize(lookup.client.allowedScopes);
            && (forall t :: t in issued <==> STAR !in t && (t in asked || (t in allowed && WildcardFor(t, asked))))
            && forall t :: t in issued ==> ScopeSetCovers(allowed, t) && ScopeSetCovers(asked, t)
  {
    IssuedScopes(s, request, lookup);
    var allowed := Normalize(lookup.client.allowedScopes);
    var asked := if request.scopes != [] then request.scopes else Normalize(lookup.client.defaultScopes);
    var claims := Issue(s, request, lookup).claims;
    C.ScopesAreFields(claims);
    ResolveTokens(asked, allowed);
    forall i | 0 <= i < |claims.Scopes()| ensures !ContainsWildcard(claims.Scopes()[i]) {
      assert claims.Scopes()[i] in claims.Scopes();
    }
    C.ConcreteGuard(claims, required);
    forall t | t in claims.Scopes() ensures ScopeSetCovers(allowed, t) && ScopeSetCovers(asked, t) {
      IssuedIsCovered(asked, allowed, t);
    }
  }

  /** A token carries every concrete scope its request named, and the response reports the claim unchanged. */
  lemma RequestedConcreteGranted(s: Service, request: TokenRequest, lookup: Lookup, t: string)
    requires Tokens(request.scopes) && Issue(s, request, lookup).Issued?
    requires t in request.scopes && !ContainsWildcard(t)
    ensures var o := Issue(s, request, lookup); o.claims.HasAllScopes([t]) && o.response.scope == o.claims.scope
  {
    PolicyToGuard(s, request, lookup, [t]);
    forall u | u in Normalize([t]) ensures u == t {
      NormalizeTokens([t]);
      AllFieldsOfTokens([t]);
    }
  }

  /** A client that passes Validate and names no scope is never refused for its scopes, and what it is
      issued is exactly its default scopes. */
  lemma ValidClientGetsDefaults(s: Service, request: TokenRequest, client: Client, secretMatches: bool)
    requires request.scopes == [] && client.ValidationError() == None
    ensures var o := Issue(s, request, Found(client, secretMatches));
            && o != Refused(400, InvalidScope)
            && (o.Issued? ==> Fields(o.claims.scope) == Normalize(client.defaultScopes))
  {
    ValidClientDefaults(client);
    if Issue(s, request, Found(client, secretMatches)).Issued? {
      IssuedScopes(s, request, Found(client, secretMatches));
    }
  }

  /* ---------- What an issued token says ---------- */

  /** Times cut to whole seconds: `exp` to the second the token expires in, the lifetime to the seconds it fills. */
  predicate Stamped(issued: C.Time, ttl: nat, exp: C.Time, response: TokenResponse) {
    && CutTo(exp, issued + ttl)
    && CutTo(response.expiresIn * SECOND, ttl)
  }

  /** `whole` is the last whole second at or before `t`. */
  predicate CutTo(whole: int, t: nat) {
    whole % SECOND == 0 && whole <= t < whole + SECOND
  }

  lemma AccessTokenStamped(s: Service, client: Client, audience: string, scopes: seq<string>)
    requires IssueAccessToken(s, client, audience, scopes).Issued?
    ensures var o := IssueAccessToken(s, client, audience, scopes);
            && Stamped(s.now, s.accessTokenTTL, o.claims.expiresAt, o.response)
            && CutTo(o.claims.issuedAt, s.now) && o.claims.notBefore == o.claims.issuedAt
  {
    WholeSecondsCut(s.now);
    WholeSecondsCut(s.now + s.accessTokenTTL);
    WholeSecondsCut(s.accessTokenTTL);
  }

  lemma WholeSecondsCut(t: nat)
    ensures CutTo(NumericDate(t), t) && CutTo(WholeSeconds(t) * SECOND, t)
  {}

  lemma IssuedStamped(s: Service, request: TokenRequest, lookup: Lookup)
    requires Issue(s, request, lookup).Issued?
    ensures var o := Issue(s, request, lookup);
            && Stamped(s.now, s.accessTokenTTL, o.claims.expiresAt, o.response)
            && CutTo(o.claims.issuedAt, s.now) && o.claims.notBefore == o.claims.issuedAt
  {
    var client := Authenticate(request, lookup).client;
    var scopes := Resolve(Requested(request, client), client.allowedScopes).value;
    AccessTokenStamped(s, client, request.audience, scopes);
  }

  /** A token is bound to an audience of the client's list. */
  lemma AudienceBound(s: Service, request: TokenRequest, lookup: Lookup)
    requires Issue(s, request, lookup).Issued?
    ensures var o := Issue(s, request, lookup);
            && o.claims.audience == [request.audience]
            && Trim(request.audience) in AllFields(lookup.client.allowedAudiences)
  {
    IssuedExactly(s, request, lookup);
  }

  /** The claims name the authenticated client, this issuer and the access use; the response is a bearer token. */
  lemma IssuedIdentity(s: Service, request: TokenRequest, lookup: Lookup)
    requires Issue(s, request, lookup).Issued?
    ensures var o := Issue(s, request, lookup);
            && o.claims.issuer == s.issuer && o.claims.tokenUse == "access"
            && o.claims.subject == o.claims.clientID == Trim(lookup.client.id)
            && Some(o.claims.id) == s.jti && Some(o.response.accessToken) == s.signed
            && o.response.tokenType == "Bearer" && o.response.scope == o.claims.scope
  {}
}
