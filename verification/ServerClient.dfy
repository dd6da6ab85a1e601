/** server/client.go: registered clients and the validation of their scope policy. */
module ServerClient {
  import opened Options
  import opened Text
  import opened StringSet
  import opened Scopes
  import opened ServerScopes

  datatype Client = Client(
    id: string,
    secrets: seq<string>,
    secretSHA256Hex: seq<string>,
    allowedAudiences: seq<string>,
    allowedScopes: seq<string>,
    defaultScopes: seq<string>,
    disabled: bool)
  {
    function Normalized(): Client {
      this.(id := Trim(id),
            secretSHA256Hex := TrimAll(secretSHA256Hex),
            allowedAudiences := Normalize(allowedAudiences),
            allowedScopes := Normalize(allowedScopes),
            defaultScopes := Normalize(defaultScopes))
    }

    predicate HasCredentials() {
      (exists i | 0 <= i < |secrets| :: secrets[i] != "") || |secretSHA256Hex| > 0
    }

    /** The single tests Validate makes, on a normalized client. */
    predicate Fails(e: PolicyError) {
      match e
      case MissingID => id == ""
      case MissingSecret => !HasCredentials()
      case BadDigest => exists i | 0 <= i < |secretSHA256Hex| :: !IsSHA256Hex(secretSHA256Hex[i])
      case MissingAudience => |allowedAudiences| == 0
      case BadAllowedWildcard => exists i | 0 <= i < |allowedScopes| :: !ValidWildcardSyntax(allowedScopes[i])
      case WildcardDefault => exists i | 0 <= i < |defaultScopes| :: ContainsWildcard(defaultScopes[i])
      case DefaultNotAllowed => exists i | 0 <= i < |defaultScopes| :: !IsScopeAllowed(defaultScopes[i], allowedScopes)
    }

    /** Why ValidateScopePolicy fails; None when it returns nil. */
    function ScopePolicyError(): Option<PolicyError> {
      var c := Normalized();
      if c.Fails(BadAllowedWildcard) then Some(BadAllowedWildcard)
      else if c.Fails(WildcardDefault) then Some(WildcardDefault)
      else None
    }

    /** Why Validate fails; None when it returns nil. */
    function ValidationError(): Option<PolicyError> {
      var c := Normalized();
      if c.Fails(MissingID) then Some(MissingID)
      else if c.Fails(MissingSecret) then Some(MissingSecret)
      else if c.Fails(BadDigest) then Some(BadDigest)
      else if c.Fails(MissingAudience) then Some(MissingAudience)
      else if c.ScopePolicyError().Some? then c.ScopePolicyError()
      else if c.Fails(DefaultNotAllowed) then Some(DefaultNotAllowed)
      else None
    }
  }

  datatype PolicyError =
    | MissingID | MissingSecret | BadDigest | MissingAudience
    | BadAllowedWildcard | WildcardDefault | DefaultNotAllowed

  function TrimAll(values: seq<string>): (r: seq<string>)
    ensures |r| == |values| && forall i | 0 <= i < |r| :: r[i] == Trim(values[i])
  {
    seq(|values|, i requires 0 <= i < |values| => Trim(values[i]))
  }

  predicate IsHexDigit(c: char) {
    '0' <= c <= '9' || 'a' <= c <= 'f' || 'A' <= c <= 'F'
  }

  /** hex.DecodeString succeeds and yields the 32 bytes of a SHA-256 digest. */
  predicate IsSHA256Hex(s: string) {
    |s| == 64 && forall i | 0 <= i < |s| :: IsHexDigit(s[i])
  }

  lemma NormalizedTokens(c: Client)
    ensures Tokens(c.Normalized().allowedScopes) && Tokens(c.Normalized().defaultScopes)
    ensures StrictlySorted(c.Normalized().defaultScopes)
  {
    NormalizeTokens(c.allowedScopes);
    NormalizeTokens(c.defaultScopes);
  }

  /** Normalizing twice is normalizing once. */
  lemma NormalizedIdempotent(c: Client)
    ensures c.Normalized().Normalized() == c.Normalized()
  {
    NormalizeIdempotent(c.allowedAudiences);
    NormalizeIdempotent(c.allowedScopes);
    NormalizeIdempotent(c.defaultScopes);
    TrimIdempotent(c.id);
    var hashes := c.secretSHA256Hex;
    forall i | 0 <= i < |hashes| ensures Trim(Trim(hashes[i])) == Trim(hashes[i]) {
      TrimIdempotent(hashes[i]);
    }
    assert TrimAll(TrimAll(hashes)) == TrimAll(hashes);
  }

  /** Normalizing trims and sorts; it takes nothing else away and adds nothing. */
  lemma NormalizedKeeps(c: Client)
    ensures var n := c.Normalized();
            && n.id == Trim(c.id) && n.secrets == c.secrets && n.disabled == c.disabled
            && |n.secretSHA256Hex| == |c.secretSHA256Hex|
            && (forall i | 0 <= i < |c.secretSHA256Hex| :: n.secretSHA256Hex[i] == Trim(c.secretSHA256Hex[i]))
            && SameElements(n.allowedAudiences, AllFields(c.allowedAudiences))
            && SameElements(n.allowedScopes, AllFields(c.allowedScopes))
            && SameElements(n.defaultScopes, AllFields(c.defaultScopes))
  {
    NormalizeTokens(c.allowedAudiences);
    NormalizeTokens(c.allowedScopes);
    NormalizeTokens(c.defaultScopes);
  }

  /* ---------- What validation refuses ---------- */

  /** What is wrong with a client as it was configured, before anything is normalized. */
  ghost predicate Fault(c: Client, e: PolicyError) {
    match e
    case MissingID => Blank(c.id)
    case MissingSecret => c.secretSHA256Hex == [] && forall s :: s in c.secrets ==> s == ""
    case BadDigest => exists h :: h in c.secretSHA256Hex && !IsSHA256Hex(Trim(h))
    case MissingAudience => AllFields(c.allowedAudiences) == []
    case BadAllowedWildcard => exists t :: t in AllFields(c.allowedScopes) && !WellFormed(t)
    case WildcardDefault => exists t :: t in AllFields(c.defaultScopes) && STAR in t
    case DefaultNotAllowed => exists t :: t in AllFields(c.defaultScopes) && !CoveredByOne(c.allowedScopes, t)
  }

  /** Some scope of the policy covers `t`. */
  ghost predicate CoveredByOne(policy: seq<string>, t: string) {
    exists p :: p in AllFields(policy) && ScopeCovers(p, t)
  }

  function Rank(e: PolicyError): nat {
    match e
    case MissingID => 0 case MissingSecret => 1 case BadDigest => 2 case MissingAudience => 3
    case BadAllowedWildcard => 4 case WildcardDefault => 5 case DefaultNotAllowed => 6
  }

  ghost predicate FirstFault(c: Client, e: PolicyError) {
    Fault(c, e) && forall earlier :: Rank(earlier) < Rank(e) ==> !Fault(c, earlier)
  }

  lemma NoElements(a: seq<string>, b: seq<string>)
    requires SameElements(a, b)
    ensures a == [] <==> b == []
  {
    assert a != [] ==> a[0] in b;
    assert b != [] ==> b[0] in a;
  }

  /** Searching a list by index or by element, in any arrangement of the same elements. */
  lemma SomeElement(xs: seq<string>, ys: seq<string>, p: string -> bool)
    requires SameElements(xs, ys)
    ensures (exists i | 0 <= i < |xs| :: p(xs[i])) <==> exists t :: t in ys && p(t)
  {
    if i :| 0 <= i < |xs| && p(xs[i]) {
      assert xs[i] in ys;
    }
    if t :| t in ys && p(t) {
      var i :| 0 <= i < |xs| && xs[i] == t;
    }
  }

  lemma SomeTrimmed(xs: seq<string>, p: string -> bool)
    ensures (exists i | 0 <= i < |xs| :: p(TrimAll(xs)[i])) <==> exists h :: h in xs && p(Trim(h))
  {
    if i :| 0 <= i < |xs| && p(TrimAll(xs)[i]) {
      assert xs[i] in xs;
    }
    if h :| h in xs && p(Trim(h)) {
      var i :| 0 <= i < |xs| && xs[i] == h;
      assert TrimAll(xs)[i] == Trim(h);
    }
  }

  lemma DigestCheck(c: Client)
    ensures c.Normalized().Fails(BadDigest) <==> Fault(c, BadDigest)
  {
    SomeTrimmed(c.secretSHA256Hex, h => !IsSHA256Hex(h));
  }

  lemma SecretCheck(c: Client)
    ensures c.Normalized().Fails(MissingSecret) <==> Fault(c, MissingSecret)
  {
    SomeElement(c.secrets, c.secrets, s => s != "");
  }

  lemma AllowedCheck(c: Client)
    ensures c.Normalized().Fails(BadAllowedWildcard) <==> Fault(c, BadAllowedWildcard)
  {
    NormalizeTokens(c.allowedScopes);
    forall t ensures ValidWildcardSyntax(t) <==> WellFormed(t) {
      ValidSyntaxExactly(t);
    }
    SomeElement(Normalize(c.allowedScopes), AllFields(c.allowedScopes), t => !ValidWildcardSyntax(t));
  }

  lemma WildcardCheck(c: Client)
    ensures c.Normalized().Fails(WildcardDefault) <==> Fault(c, WildcardDefault)
  {
    NormalizeTokens(c.defaultScopes);
    SomeElement(Normalize(c.defaultScopes), AllFields(c.defaultScopes), t => ContainsWildcard(t));
  }

  lemma DefaultsCheck(c: Client)
    ensures c.Normalized().Fails(DefaultNotAllowed) <==> Fault(c, DefaultNotAllowed)
  {
    var allowed := Normalize(c.allowedScopes);
    NormalizeTokens(c.allowedScopes);
    NormalizeTokens(c.defaultScopes);
    forall t ensures IsScopeAllowed(t, allowed) <==> CoveredByOne(c.allowedScopes, t) {
      SomeElement(allowed, AllFields(c.allowedScopes), p => ScopeCovers(p, t));
    }
    SomeElement(Normalize(c.defaultScopes), AllFields(c.defaultScopes), t => !IsScopeAllowed(t, allowed));
  }

  lemma CheckFindsFault(c: Client, e: PolicyError)
    ensures c.Normalized().Fails(e) <==> Fault(c, e)
  {
    match e
    case MissingID => TrimIdempotent(c.id);
    case MissingSecret => SecretCheck(c);
    case BadDigest => DigestCheck(c);
    case MissingAudience =>
      NormalizeTokens(c.allowedAudiences);
      NoElements(Normalize(c.allowedAudiences), AllFields(c.allowedAudiences));
    case BadAllowedWildcard => AllowedCheck(c);
    case WildcardDefault => WildcardCheck(c);
    case DefaultNotAllowed => DefaultsCheck(c);
  }

  /** The first failing test, in the order Validate makes them. */
  function FirstOf(fails: PolicyError -> bool): Option<PolicyError> {
    if fails(MissingID) then Some(MissingID)
    else if fails(MissingSecret) then Some(MissingSecret)
    else if fails(BadDigest) then Some(BadDigest)
    else if fails(MissingAudience) then Some(MissingAudience)
    else if fails(BadAllowedWildcard) then Some(BadAllowedWildcard)
    else if fails(WildcardDefault) then Some(WildcardDefault)
    else if fails(DefaultNotAllowed) then Some(DefaultNotAllowed)
    else None
  }

  lemma FirstOfMeaning(fails: PolicyError -> bool)
    ensures match FirstOf(fails)
            case None => forall e :: !fails(e)
            case Some(e) => fails(e) && forall earlier :: Rank(earlier) < Rank(e) ==> !fails(earlier)
  {
    forall e ensures FirstOf(fails).None? ==> !fails(e) {
      match e
      case MissingID => case MissingSecret => case BadDigest => case MissingAudience =>
      case BadAllowedWildcard => case WildcardDefault => case DefaultNotAllowed =>
    }
  }

  function Tests(n: Client): PolicyError -> bool {
    e => n.Fails(e)
  }

  lemma ValidationOrder(c: Client)
    ensures c.ValidationError() == FirstOf(Tests(c.Normalized()))
  {
    NormalizedIdempotent(c);
  }

  /** Validate accepts exactly the clients without any fault, and otherwise names the first. */
  lemma ValidationExactly(c: Client)
    ensures match c.ValidationError()
            case None => forall e :: !Fault(c, e)
            case Some(e) => FirstFault(c, e)
  {
    var tests := Tests(c.Normalized());
    ValidationOrder(c);
    FirstOfMeaning(tests);
    forall e ensures tests(e) <==> Fault(c, e) {
      CheckFindsFault(c, e);
    }
  }

  /** ValidateScopePolicy accepts exactly the clients whose wildcards are well formed and whose defaults hold none. */
  lemma PolicyExactly(c: Client)
    ensures match c.ScopePolicyError()
            case None => !Fault(c, BadAllowedWildcard) && !Fault(c, WildcardDefault)
            case Some(e) =>
              && Fault(c, e)
              && (e == BadAllowedWildcard || (e == WildcardDefault && !Fault(c, BadAllowedWildcard)))
  {
    AllowedCheck(c);
    WildcardCheck(c);
  }

  /** What a passing Validate says about the scope policy of the normalized client. */
  lemma ValidPolicy(c: Client)
    requires c.ValidationError() == None
    ensures var n := c.Normalized();
            && (forall i | 0 <= i < |n.allowedScopes| :: ValidWildcardSyntax(n.allowedScopes[i]))
            && forall i | 0 <= i < |n.defaultScopes| ::
                 !ContainsWildcard(n.defaultScopes[i]) && IsScopeAllowed(n.defaultScopes[i], n.allowedScopes)
  {
    ValidationOrder(c);
    assert !c.Normalized().Fails(BadAllowedWildcard) && !c.Normalized().Fails(WildcardDefault);
    assert !c.Normalized().Fails(DefaultNotAllowed);
  }

  /* ---------- The defaults of a valid client ---------- */

  /** For a normalized client, requesting the defaults yields exactly the defaults if and only if no default
      is a wildcard and each is allowed. */
  lemma DefaultsResolve(c: Client)
    ensures var defaults, allowed := Normalize(c.defaultScopes), Normalize(c.allowedScopes);
            Resolve(defaults, allowed) == Some(defaults) <==>
            forall i | 0 <= i < |defaults| :: !ContainsWildcard(defaults[i]) && IsScopeAllowed(defaults[i], allowed)
  {
    NormalizedTokens(c);
    ConcreteResolves(Normalize(c.defaultScopes), Normalize(c.allowedScopes));
  }

  /** A client that passes Validate is always issued exactly its default scopes. */
  lemma ValidClientDefaults(c: Client)
    requires c.ValidationError() == None
    ensures Resolve(Normalize(c.defaultScopes), Normalize(c.allowedScopes)) == Some(Normalize(c.defaultScopes))
  {
    DefaultsResolve(c);
    ValidPolicy(c);
  }
}
