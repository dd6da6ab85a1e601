/** server/scopes.go: deciding which scopes a token request is issued. */
module ServerScopes {
  import opened Options
  import opened Text
  import opened StringSet
  import opened Scopes

  predicate IsScopeAllowed(requested: string, allowed: seq<string>) {
    ScopeSetCovers(allowed, requested)
  }

  predicate ContainsInvalidWildcard(scopes: seq<string>) {
    exists i | 0 <= i < |scopes| :: !ValidWildcardSyntax(scopes[i])
  }

  /** A concrete entry of the policy selected by a wildcard request. */
  predicate Selects(requested: string, scope: string) {
    !ContainsWildcard(scope) && ScopeCovers(requested, scope)
  }

  function Selected(requested: string, allowed: seq<string>): (r: seq<string>)
    ensures forall t :: t in r <==> t in allowed && Selects(requested, t)
  {
    if allowed == [] then [] else
      var last := allowed[|allowed| - 1];
      assert allowed == allowed[..|allowed| - 1] + [last];
      Selected(requested, allowed[..|allowed| - 1]) + (if Selects(requested, last) then [last] else [])
  }

  function Expand(requested: string, allowed: seq<string>): seq<string> {
    Normalize(Selected(requested, allowed))
  }

  method ExpandWildcardScopeRequest(requested: string, allowed: seq<string>) returns (r: seq<string>)
    ensures r == Expand(requested, allowed)
  {
    var expanded := [];
    for i := 0 to |allowed|
      invariant expanded == Selected(requested, allowed[..i])
    {
      assert allowed[..i + 1][..i] == allowed[..i];
      if !ContainsWildcard(allowed[i]) && ScopeCovers(requested, allowed[i]) {
        expanded := expanded + [allowed[i]];
      }
    }
    assert allowed[..|allowed|] == allowed;
    r := NormalizeValues(expanded);
  }

  /** What one requested scope contributes; nothing when the request must be refused. */
  function Contribution(scope: string, allowed: seq<string>): seq<string> {
    if ContainsWildcard(scope) then Expand(scope, allowed)
    else if IsScopeAllowed(scope, allowed) then [scope]
    else []
  }

  /** Everything appended for a list of requests, in order; None at the first refusal. */
  function Gather(requested: seq<string>, allowed: seq<string>): Option<seq<string>> {
    if requested == [] then Some([]) else
      var last := Contribution(requested[|requested| - 1], allowed);
      match Gather(requested[..|requested| - 1], allowed)
      case None => None
      case Some(issued) => if last == [] then None else Some(issued + last)
  }

  function Resolve(requested: seq<string>, allowed: seq<string>): Option<seq<string>> {
    if ContainsInvalidWildcard(requested) then None else
      match Gather(requested, allowed)
      case None => None
      case Some(issued) => Some(Normalize(issued))
  }

  method ResolveRequestedScopes(requested: seq<string>, allowed: seq<string>) returns (r: Option<seq<string>>)
    ensures r == Resolve(requested, allowed)
  {
    if ContainsInvalidWildcard(requested) {
      return None;
    }
    var issued := [];
    for i := 0 to |requested|
      invariant Gather(requested[..i], allowed) == Some(issued)
    {
      assert requested[..i + 1][..i] == requested[..i];
      var scope := requested[i];
      if ContainsWildcard(scope) {
        var expanded := ExpandWildcardScopeRequest(scope, allowed);
        if |expanded| == 0 {
          GatherStops(requested, allowed, i + 1);
          return None;
        }
        issued := issued + expanded;
        continue;
      }
      if !IsScopeAllowed(scope, allowed) {
        GatherStops(requested, allowed, i + 1);
        return None;
      }
      issued := issued + [scope];
    }
    assert requested[..|requested|] == requested;
    var normalized := NormalizeValues(issued);
    r := Some(normalized);
  }

  lemma {:induction false} GatherStops(requested: seq<string>, allowed: seq<string>, n: nat)
    requires n <= |requested| && Gather(requested[..n], allowed) == None
    ensures Gather(requested, allowed) == None
    decreases |requested| - n
  {
    if n == |requested| {
      assert requested[..n] == requested;
    } else {
      assert requested[..n + 1][..n] == requested[..n];
      GatherStops(requested, allowed, n + 1);
    }
  }

  /* ---------- What resolution means ---------- */

  /** A single request can be honoured: a concrete scope must be allowed, a wildcard must select
      at least one concrete policy entry. */
  ghost predicate Honoured(scope: string, allowed: seq<string>) {
    if ContainsWildcard(scope)
    then WellFormed(scope) && exists i | 0 <= i < |allowed| :: Selects(scope, allowed[i])
    else IsScopeAllowed(scope, allowed)
  }

  /** `t` is a token of a requested concrete scope, or of a policy entry a requested wildcard selects. */
  ghost predicate Granted(t: string, requested: seq<string>, allowed: seq<string>) {
    exists i | 0 <= i < |requested| :: GrantedBy(t, requested[i], allowed)
  }

  ghost predicate GrantedBy(t: string, scope: string, allowed: seq<string>) {
    if ContainsWildcard(scope)
    then exists j | 0 <= j < |allowed| :: Selects(scope, allowed[j]) && t in Fields(allowed[j])
    else t in Fields(scope)
  }

  lemma NonblankHasField(s: string)
    requires !Blank(s)
    ensures Fields(s) != []
    decreases |s|
  {
    if IsSpace(s[0]) {
      assert forall i | 0 <= i < |s[1..]| :: s[1..][i] == s[i + 1];
      NonblankHasField(s[1..]);
    }
  }

  lemma ExpandMeaning(scope: string, allowed: seq<string>)
    ensures Expand(scope, allowed) != [] <==> exists i | 0 <= i < |allowed| :: Selects(scope, allowed[i])
    ensures forall t :: t in Expand(scope, allowed) <==>
                          exists j | 0 <= j < |allowed| :: Selects(scope, allowed[j]) && t in Fields(allowed[j])
  {
    var hits := Selected(scope, allowed);
    NormalizeTokens(hits);
    forall t ensures t in Expand(scope, allowed) <==>
                     exists j | 0 <= j < |allowed| :: Selects(scope, allowed[j]) && t in Fields(allowed[j]) {
      InAllFields(hits, t);
      if k :| 0 <= k < |hits| && t in Fields(hits[k]) {
        assert hits[k] in allowed;
      }
      if j :| 0 <= j < |allowed| && Selects(scope, allowed[j]) && t in Fields(allowed[j]) {
        assert allowed[j] in hits;
      }
    }
    if i :| 0 <= i < |allowed| && Selects(scope, allowed[i]) {
      TrimIdempotent(allowed[i]);
      NonblankHasField(allowed[i]);
      assert Fields(allowed[i])[0] in Expand(scope, allowed);
    }
    if Expand(scope, allowed) != [] {
      assert Expand(scope, allowed)[0] in Expand(scope, allowed);
    }
  }

  lemma ContributionMeaning(scope: string, allowed: seq<string>, t: string)
    requires ValidWildcardSyntax(scope)
    ensures Contribution(scope, allowed) != [] <==> Honoured(scope, allowed)
    ensures Honoured(scope, allowed) ==>
              (t in AllFields(Contribution(scope, allowed)) <==> GrantedBy(t, scope, allowed))
  {
    ValidSyntaxExactly(scope);
    ExpandMeaning(scope, allowed);
    AllFieldsOne(scope);
    if ContainsWildcard(scope) {
      NormalizeTokens(Selected(scope, allowed));
      AllFieldsOfTokens(Expand(scope, allowed));
    }
  }

  ghost predicate AllHonoured(requested: seq<string>, allowed: seq<string>) {
    forall i | 0 <= i < |requested| :: Honoured(requested[i], allowed)
  }

  lemma SplitLast(init: seq<string>, last: string, allowed: seq<string>, t: string)
    ensures AllHonoured(init + [last], allowed) <==> AllHonoured(init, allowed) && Honoured(last, allowed)
    ensures Granted(t, init + [last], allowed) <==> Granted(t, init, allowed) || GrantedBy(t, last, allowed)
    ensures ContainsInvalidWildcard(init + [last]) <==> ContainsInvalidWildcard(init) || !ValidWildcardSyntax(last)
  {
    var all := init + [last];
    assert forall i | 0 <= i < |init| :: all[i] == init[i];
    assert all[|init|] == last;
  }

  lemma {:induction false} GatherMeaning(requested: seq<string>, allowed: seq<string>, t: string)
    requires !ContainsInvalidWildcard(requested)
    ensures Gather(requested, allowed).Some? <==> AllHonoured(requested, allowed)
    ensures Gather(requested, allowed).Some? ==>
              (t in AllFields(Gather(requested, allowed).value) <==> Granted(t, requested, allowed))
  {
    if requested != [] {
      var init, last := requested[..|requested| - 1], requested[|requested| - 1];
      assert requested == init + [last];
      SplitLast(init, last, allowed, t);
      GatherMeaning(init, allowed, t);
      ContributionMeaning(last, allowed, t);
      if Gather(init, allowed).Some? {
        AllFieldsAppend(Gather(init, allowed).value, Contribution(last, allowed));
      }
    }
  }

  /** Resolution succeeds exactly when every wildcard is well formed and every request can be honoured;
      the result is then the sorted, duplicate-free list of exactly the granted tokens. */
  lemma ResolveMeaning(requested: seq<string>, allowed: seq<string>)
    ensures Resolve(requested, allowed).Some? <==>
              forall i | 0 <= i < |requested| :: Honoured(requested[i], allowed)
    ensures Resolve(requested, allowed).Some? ==>
              && StrictlySorted(Resolve(requested, allowed).value)
              && forall t :: t in Resolve(requested, allowed).value <==> Granted(t, requested, allowed)
  {
    if ContainsInvalidWildcard(requested) {
      var i :| 0 <= i < |requested| && !ValidWildcardSyntax(requested[i]);
      ValidSyntaxExactly(requested[i]);
      assert !Honoured(requested[i], allowed);
    } else {
      GatherMeaning(requested, allowed, "");
      if Resolve(requested, allowed).Some? {
        var issued := Gather(requested, allowed).value;
        NormalizeTokens(issued);
        forall t ensures t in Normalize(issued) <==> Granted(t, requested, allowed) {
          GatherMeaning(requested, allowed, t);
        }
      }
    }
  }

  predicate Tokens(scopes: seq<string>) {
    forall i | 0 <= i < |scopes| :: IsToken(scopes[i])
  }

  /** A requested wildcard that covers `t`. */
  predicate WildcardFor(t: string, requested: seq<string>) {
    exists i | 0 <= i < |requested| :: ContainsWildcard(requested[i]) && ScopeCovers(requested[i], t)
  }

  lemma TokenField(s: string, t: string)
    requires IsToken(s)
    ensures t in Fields(s) <==> t == s
  {
    AllFieldsOfTokens([s]);
    AllFieldsOne(s);
  }

  /** On token lists the result is exactly the concrete requests plus the concrete policy entries
      under a requested wildcard, so no issued scope contains a star. */
  lemma ResolveTokens(requested: seq<string>, allowed: seq<string>)
    requires Tokens(requested) && Tokens(allowed) && Resolve(requested, allowed).Some?
    ensures var r := Resolve(requested, allowed).value;
            && Tokens(r) && StrictlySorted(r)
            && forall t :: t in r <==>
                             !ContainsWildcard(t) && (t in requested || (t in allowed && WildcardFor(t, requested)))
  {
    ResolveMeaning(requested, allowed);
    var r := Resolve(requested, allowed).value;
    forall t
      ensures t in r <==> !ContainsWildcard(t) && (t in requested || (t in allowed && WildcardFor(t, requested)))
    {
      GrantedTokens(t, requested, allowed);
    }
    forall i | 0 <= i < |r| ensures IsToken(r[i]) {
      assert r[i] in r;
    }
  }

  lemma GrantedTokens(t: string, requested: seq<string>, allowed: seq<string>)
    requires Tokens(requested) && Tokens(allowed)
    ensures Granted(t, requested, allowed) <==>
              !ContainsWildcard(t) && (t in requested || (t in allowed && WildcardFor(t, requested)))
  {
    forall s | s in requested || s in allowed ensures t in Fields(s) <==> t == s {
      TokenField(s, t);
    }
    if t in requested && !ContainsWildcard(t) {
      var i :| 0 <= i < |requested| && requested[i] == t;
      assert GrantedBy(t, requested[i], allowed);
    }
    if t in allowed && !ContainsWildcard(t) && WildcardFor(t, requested) {
      var i :| 0 <= i < |requested| && ContainsWildcard(requested[i]) && ScopeCovers(requested[i], t);
      var j :| 0 <= j < |allowed| && allowed[j] == t;
      assert GrantedBy(t, requested[i], allowed);
    }
  }

  /** Every issued scope is allowed by the policy and covered by one of the requests. */
  lemma IssuedIsCovered(requested: seq<string>, allowed: seq<string>, t: string)
    requires Tokens(requested) && Tokens(allowed)
    requires Resolve(requested, allowed).Some? && t in Resolve(requested, allowed).value
    ensures IsScopeAllowed(t, allowed) && ScopeSetCovers(requested, t)
  {
    ResolveTokens(requested, allowed);
    ResolveMeaning(requested, allowed);
    assert IsToken(t);
    TokenTrims(t);
    CoversReflexive(t);
    if t in requested {
      var i :| 0 <= i < |requested| && requested[i] == t;
      assert Honoured(requested[i], allowed);
    } else {
      var j :| 0 <= j < |allowed| && allowed[j] == t;
    }
  }

  /* ---------- Resolution is a monotone closure ---------- */

  /** Asking again for what was issued gives the same scopes. */
  lemma ResolveIdempotent(requested: seq<string>, allowed: seq<string>)
    requires Tokens(requested) && Tokens(allowed) && Resolve(requested, allowed).Some?
    ensures Resolve(Resolve(requested, allowed).value, allowed) == Resolve(requested, allowed)
  {
    ResolveTokens(requested, allowed);
    var r := Resolve(requested, allowed).value;
    forall i | 0 <= i < |r| ensures Honoured(r[i], allowed) {
      assert r[i] in r;
      IssuedIsCovered(requested, allowed, r[i]);
    }
    ConcreteResolves(r, allowed);
  }

  /** A sorted list of tokens resolves to itself exactly when each is concrete and allowed. */
  lemma ConcreteResolves(scopes: seq<string>, allowed: seq<string>)
    requires Tokens(scopes) && Tokens(allowed) && StrictlySorted(scopes)
    ensures Resolve(scopes, allowed) == Some(scopes) <==>
              forall i | 0 <= i < |scopes| :: !ContainsWildcard(scopes[i]) && IsScopeAllowed(scopes[i], allowed)
  {
    ResolveMeaning(scopes, allowed);
    if Resolve(scopes, allowed).Some? {
      ResolveTokens(scopes, allowed);
      var r := Resolve(scopes, allowed).value;
      if forall i | 0 <= i < |scopes| :: !ContainsWildcard(scopes[i]) {
        forall t ensures t in r <==> t in scopes {
          ConcreteGranted(t, scopes, allowed);
        }
        SortedUnique(r, scopes);
      } else {
        var i :| 0 <= i < |scopes| && ContainsWildcard(scopes[i]);
        assert scopes[i] !in r;
      }
    }
  }

  lemma ConcreteGranted(t: string, scopes: seq<string>, allowed: seq<string>)
    requires forall i | 0 <= i < |scopes| :: !ContainsWildcard(scopes[i])
    ensures !ContainsWildcard(t) && (t in scopes || (t in allowed && WildcardFor(t, scopes))) <==> t in scopes
  {}

  /** A larger policy keeps every success and never takes an issued scope away. */
  lemma ResolveMonotone(requested: seq<string>, allowed: seq<string>, more: seq<string>)
    requires forall t :: t in allowed ==> t in more
    requires Resolve(requested, allowed).Some?
    ensures Resolve(requested, more).Some?
    ensures forall t :: t in Resolve(requested, allowed).value ==> t in Resolve(requested, more).value
  {
    ResolveMeaning(requested, allowed);
    ResolveMeaning(requested, more);
    forall i | 0 <= i < |requested| ensures Honoured(requested[i], more) {
      HonouredMonotone(requested[i], allowed, more);
    }
    forall t | Granted(t, requested, allowed) ensures Granted(t, requested, more) {
      var i :| 0 <= i < |requested| && GrantedBy(t, requested[i], allowed);
      if ContainsWildcard(requested[i]) {
        var j :| 0 <= j < |allowed| && Selects(requested[i], allowed[j]) && t in Fields(allowed[j]);
        assert allowed[j] in more;
      }
      assert GrantedBy(t, requested[i], more);
    }
  }

  lemma HonouredMonotone(scope: string, allowed: seq<string>, more: seq<string>)
    requires forall t :: t in allowed ==> t in more
    requires Honoured(scope, allowed)
    ensures Honoured(scope, more)
  {
    if ContainsWildcard(scope) {
      var i :| 0 <= i < |allowed| && Selects(scope, allowed[i]);
      assert allowed[i] in more;
    } else {
      var i :| 0 <= i < |allowed| && ScopeCovers(allowed[i], scope);
      assert allowed[i] in more;
    }
  }
}
