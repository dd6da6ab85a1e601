/** claims.go: the scope questions a resource service asks of a verified token. */
module Claims {
  import opened Text
  import opened StringSet
  import opened Scopes

  /** Times are nanoseconds since Go's zero time. */
  type Time = nat

  datatype Claims = Claims(
    issuer: string,
    subject: string,
    audience: seq<string>,
    expiresAt: Time,
    notBefore: Time,
    issuedAt: Time,
    id: string,
    clientID: string,
    scope: string,
    tokenUse: string)
  {
    function Scopes(): seq<string> {
      if Trim(scope) == "" then [] else Fields(scope)
    }

    predicate HasScope(required: string) {
      ScopeSetCovers(Scopes(), required)
    }

    predicate HasAnyScope(required: seq<string>) {
      var required := Normalize(required);
      required == [] || exists i | 0 <= i < |required| :: ScopeSetCovers(Scopes(), required[i])
    }

    predicate HasAllScopes(required: seq<string>) {
      var required := Normalize(required);
      required == [] || forall i | 0 <= i < |required| :: ScopeSetCovers(Scopes(), required[i])
    }
  }

  lemma BlankHasNoFields(s: string)
    requires Blank(s)
    ensures Fields(s) == []
    decreases |s|
  {
    if s != "" {
      assert forall i | 0 <= i < |s[1..]| :: s[1..][i] == s[i + 1];
      BlankHasNoFields(s[1..]);
    }
  }

  /** The blank test in Scopes changes nothing: it is always the fields of the claim. */
  lemma ScopesAreFields(c: Claims)
    ensures c.Scopes() == Fields(c.scope)
  {
    TrimIdempotent(c.scope);
    if Blank(c.scope) {
      BlankHasNoFields(c.scope);
    }
  }

  /** Every scope of `weaker` is covered by some scope of `stronger`. */
  predicate Dominates(stronger: Claims, weaker: Claims) {
    forall i | 0 <= i < |weaker.Scopes()| :: ScopeSetCovers(stronger.Scopes(), weaker.Scopes()[i])
  }

  lemma CoverThrough(stronger: Claims, weaker: Claims, required: string)
    requires Dominates(stronger, weaker)
    ensures ScopeSetCovers(weaker.Scopes(), required) ==> ScopeSetCovers(stronger.Scopes(), required)
  {
    if ScopeSetCovers(weaker.Scopes(), required) {
      var j :| 0 <= j < |weaker.Scopes()| && ScopeCovers(weaker.Scopes()[j], required);
      var k :| 0 <= k < |stronger.Scopes()| && ScopeCovers(stronger.Scopes()[k], weaker.Scopes()[j]);
      CoversTransitive(stronger.Scopes()[k], weaker.Scopes()[j], required);
    }
  }

  /** A token whose scopes cover another's passes every check the other passes. */
  lemma GuardsMonotone(stronger: Claims, weaker: Claims, scope: string, required: seq<string>)
    requires Dominates(stronger, weaker)
    ensures weaker.HasScope(scope) ==> stronger.HasScope(scope)
    ensures weaker.HasAnyScope(required) ==> stronger.HasAnyScope(required)
    ensures weaker.HasAllScopes(required) ==> stronger.HasAllScopes(required)
  {
    var needed := Normalize(required);
    forall r | ScopeSetCovers(weaker.Scopes(), r) ensures ScopeSetCovers(stronger.Scopes(), r) {
      CoverThrough(stronger, weaker, r);
    }
  }

  /** Covering the scopes of another token is exactly what it takes to pass every check it passes. */
  lemma DominatesExactly(stronger: Claims, weaker: Claims)
    ensures Dominates(stronger, weaker) <==> forall r :: weaker.HasScope(r) ==> stronger.HasScope(r)
  {
    ScopesAreFields(weaker);
    if Dominates(stronger, weaker) {
      forall r | weaker.HasScope(r) ensures stronger.HasScope(r) {
        CoverThrough(stronger, weaker, r);
      }
    } else if forall r :: weaker.HasScope(r) ==> stronger.HasScope(r) {
      forall i | 0 <= i < |weaker.Scopes()| ensures ScopeSetCovers(stronger.Scopes(), weaker.Scopes()[i]) {
        TokenTrims(weaker.Scopes()[i]);
        CoversReflexive(weaker.Scopes()[i]);
        assert weaker.HasScope(weaker.Scopes()[i]);
      }
    }
  }

  /** The guard asks for the meaning of a scope: whatever it denotes must be denoted by a scope of the claim, and a
      malformed wildcard must be listed itself. */
  ghost predicate Permits(claim: string, required: string) {
    Included(Fields(claim), required)
  }

  lemma CheckDecidesPermission(c: Claims, required: string)
    ensures c.HasScope(required) <==> Permits(c.scope, required)
  {
    ScopesAreFields(c);
    SetCoversExactly(c.Scopes(), required);
  }

  /** HasAllScopes passes exactly when the token permits every required token, whatever mix of concrete and
      wildcard scopes the token and the requirement hold; HasAnyScope when it permits one, or none is required. */
  lemma GuardsDecidePermission(c: Claims, required: seq<string>)
    ensures c.HasAllScopes(required) <==> forall r :: r in Normalize(required) ==> Permits(c.scope, r)
    ensures c.HasAnyScope(required) <==>
              Normalize(required) == [] || exists r :: r in Normalize(required) && Permits(c.scope, r)
  {
    var needed := Normalize(required);
    forall i | 0 <= i < |needed| ensures ScopeSetCovers(c.Scopes(), needed[i]) <==> Permits(c.scope, needed[i]) {
      CheckDecidesPermission(c, needed[i]);
    }
    if c.HasAllScopes(required) {
      forall r | r in needed ensures Permits(c.scope, r) {
        var i :| 0 <= i < |needed| && needed[i] == r;
      }
    }
    if r :| r in needed && Permits(c.scope, r) {
      var i :| 0 <= i < |needed| && needed[i] == r;
    }
  }

  /** When the claim lists concrete scopes only, the guard is plain set inclusion. */
  lemma ConcreteGuard(c: Claims, required: seq<string>)
    requires forall i | 0 <= i < |c.Scopes()| :: !ContainsWildcard(c.Scopes()[i])
    ensures c.HasAllScopes(required) <==> forall t :: t in Normalize(required) ==> t in c.Scopes()
  {
    var needed, owned := Normalize(required), c.Scopes();
    NormalizeTokens(required);
    ScopesAreFields(c);
    forall i | 0 <= i < |needed| ensures ScopeSetCovers(owned, needed[i]) <==> needed[i] in owned {
      TokenTrims(needed[i]);
      forall j | 0 <= j < |owned| ensures ScopeCovers(owned[j], needed[i]) <==> owned[j] == needed[i] {
        TokenTrims(owned[j]);
        ConcreteCovers(owned[j], needed[i]);
      }
    }
    if c.HasAllScopes(required) {
      forall t | t in needed ensures t in owned {
        var i :| 0 <= i < |needed| && needed[i] == t;
      }
    }
  }
}
