/** The request a client provider makes: client/provider.go `target`, client/cache.go `cacheKey` and
    the form of client/token_http.go `requestToken`. */
module ClientRequest {
  import opened Text
  import opened StringSet
  import opened Options

  datatype Target = Target(audience: string, scopes: seq<string>)

  datatype CacheKey = CacheKey(audience: string, scope: string)

  type Form = map<string, string>

  /** The caller's audience and scopes, or the provider's where the caller gave none. */
  function TargetFor(defaults: Target, audience: string, scopes: seq<string>): Option<Target> {
    var a := if Trim(audience) == "" then defaults.audience else audience;
    var s := if |scopes| == 0 then defaults.scopes else scopes;
    if Trim(a) == "" then None else Some(Target(Trim(a), Normalize(s)))
  }

  method ResolveTarget(defaults: Target, audience: string, scopes: seq<string>) returns (r: Option<Target>)
    ensures r == TargetFor(defaults, audience, scopes)
  {
    var audience, scopes := audience, scopes;
    if Trim(audience) == "" {
      audience := defaults.audience;
    }
    if |scopes| == 0 {
      scopes := defaults.scopes;
    }
    audience := Trim(audience);
    scopes := NormalizeValues(scopes);
    if audience == "" {
      return None;
    }
    return Some(Target(audience, scopes));
  }

  function KeyOf(audience: string, scopes: seq<string>): CacheKey {
    CacheKey(Trim(audience), ScopeString(scopes))
  }

  function KeyForm(k: CacheKey): Form {
    var base := map["grant_type" := "client_credentials", "audience" := k.audience];
    if k.scope == "" then base else base["scope" := k.scope]
  }

  /** The form is built from the target alone, and for a resolved target it is a function of its cache key. */
  method BuildForm(audience: string, scopes: seq<string>) returns (form: Form)
    ensures form == KeyForm(CacheKey(audience, ScopeString(scopes)))
    ensures Trimmed(audience) ==> form == KeyForm(KeyOf(audience, scopes))
  {
    if Trimmed(audience) {
      TrimTrimmed(audience);
    }
    form := map[];
    form := form["grant_type" := "client_credentials"];
    form := form["audience" := audience];
    var scope := ScopeString(scopes);
    if scope != "" {
      form := form["scope" := scope];
    }
  }

  /** What a caller is taken to ask for: its own audience unless that is blank, its own scopes unless it gives none,
      and nothing at all without any audience. */
  lemma TargetExactly(defaults: Target, audience: string, scopes: seq<string>)
    ensures TargetFor(defaults, audience, scopes).None? <==> Blank(audience) && Blank(defaults.audience)
    ensures TargetFor(defaults, audience, scopes).Some? ==>
              var t := TargetFor(defaults, audience, scopes).value;
              && t.audience == Trim(if Blank(audience) then defaults.audience else audience)
              && StrictlySorted(t.scopes)
              && SameElements(t.scopes, AllFields(if scopes != [] then scopes else defaults.scopes))
  {
    TrimIdempotent(audience);
    TrimIdempotent(defaults.audience);
    NormalizeTokens(scopes);
    NormalizeTokens(defaults.scopes);
  }

  lemma ResolvedTargetTrimmed(defaults: Target, audience: string, scopes: seq<string>)
    requires TargetFor(defaults, audience, scopes).Some?
    ensures var t := TargetFor(defaults, audience, scopes).value;
            Trimmed(t.audience) && t.audience != "" && Normalize(t.scopes) == t.scopes
  {
    TrimIdempotent(if Trim(audience) == "" then defaults.audience else audience);
    NormalizeIdempotent(if |scopes| == 0 then defaults.scopes else scopes);
  }

  /** Two targets share a cache key exactly when their trimmed audiences and their scope tokens agree. */
  lemma KeysAgree(a: Target, b: Target)
    ensures KeyOf(a.audience, a.scopes) == KeyOf(b.audience, b.scopes) <==>
              Trim(a.audience) == Trim(b.audience) && SameElements(AllFields(a.scopes), AllFields(b.scopes))
  {
    ScopeStringInjective(a.scopes, b.scopes);
  }

  /** Different keys send different forms. */
  lemma KeyFormInjective(k: CacheKey, l: CacheKey)
    ensures KeyForm(k) == KeyForm(l) <==> k == l
  {
    if KeyForm(k) == KeyForm(l) {
      assert KeyForm(k)["audience"] == k.audience && KeyForm(l)["audience"] == l.audience;
      assert "scope" in KeyForm(k) <==> k.scope != "";
      assert "scope" in KeyForm(l) <==> l.scope != "";
    }
  }
}
