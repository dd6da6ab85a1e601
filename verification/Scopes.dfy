/** scopes.go: wildcard scopes and the covering test. */
module Scopes {
  import opened Options
  import opened Text

  datatype Wildcard = Wildcard(prefix: string, recursive: bool)

  const STAR := '*'
  const DOT: string := "."

  predicate ContainsWildcard(scope: string) {
    STAR in scope
  }

  function WildcardParts(scope: string): Option<Wildcard> {
    var candidate :=
      if Count(scope, STAR) == 1 && HasSuffix(scope, ".*") then Some(Wildcard(scope[..|scope| - 2], false))
      else if Count(scope, STAR) == 2 && HasSuffix(scope, ".**") then Some(Wildcard(scope[..|scope| - 3], true))
      else None;
    if candidate.Some? && Trim(candidate.value.prefix) == "" then None else candidate
  }

  /** ValidateScopeWildcard returns nil. */
  predicate ValidWildcardSyntax(scope: string) {
    !ContainsWildcard(scope) || WildcardParts(scope).Some?
  }

  predicate ScopeCovers(owned: string, required: string) {
    var owned, required := Trim(owned), Trim(required);
    if owned == "" || required == "" then false
    else if owned == required then true
    else if ContainsWildcard(required) && WildcardParts(required).None? then false
    else
      match WildcardParts(owned)
      case None => false
      case Some(w) =>
        if !HasPrefix(required, w.prefix + DOT) then false
        else
          var suffix := required[|w.prefix| + 1..];
          if suffix == "" then false
          else w.recursive || ('.' !in suffix && !ContainsWildcard(suffix))
  }

  predicate ScopeSetCovers(owned: seq<string>, required: string) {
    exists i | 0 <= i < |owned| :: ScopeCovers(owned[i], required)
  }

  /* ---------- What scopes denote ---------- */

  /** A permission a service can hold: a trimmed, nonempty name without a wildcard. */
  predicate Concrete(c: string) {
    c != "" && Trimmed(c) && STAR !in c
  }

  /** How a wildcard is written: its prefix, a dot, and one or two stars. */
  function Pattern(w: Wildcard): string {
    w.prefix + DOT + (if w.recursive then "**" else "*")
  }

  predicate IsWildcard(scope: string, w: Wildcard) {
    scope == Pattern(w) && STAR !in w.prefix && !Blank(w.prefix)
  }

  /** A scope may contain stars only as the end of a wildcard. */
  ghost predicate WellFormed(scope: string) {
    STAR !in scope || exists w :: IsWildcard(scope, w)
  }

  predicate Matches(w: Wildcard, c: string, rest: string) {
    rest != "" && c == w.prefix + DOT + rest && (w.recursive || '.' !in rest)
  }

  /** `prefix.*` stands for one more dot-free segment, `prefix.**` for any nonempty remainder,
      anything else for itself. */
  ghost predicate Denotes(pattern: string, c: string) {
    && Concrete(c)
    && (c == Trim(pattern) || exists w, rest :: IsWildcard(Trim(pattern), w) && Matches(w, c, rest))
  }

  lemma CountOne(d: char, c: char)
    ensures Count([d], c) == if d == c then 1 else 0
  {
    assert [d][1..] == "";
  }

  lemma CountStars()
    ensures Count(".*", STAR) == 1 && Count(".**", STAR) == 2
  {
    CountOne('.', STAR);
    CountOne('*', STAR);
    CountAppend(".", "*", STAR);
    CountAppend(".*", "*", STAR);
    assert "." + "*" == ".*" && ".*" + "*" == ".**";
  }

  lemma SuffixSplit(scope: string, stars: string)
    requires HasSuffix(scope, DOT + stars)
    ensures scope == scope[..|scope| - |stars| - 1] + (DOT + stars)
    ensures scope == scope[..|scope| - |stars| - 1] + DOT + stars
  {}

  /** Cutting a suffix that holds all the stars leaves a star-free prefix. */
  lemma CutStars(prefix: string, stars: string)
    requires Count(prefix + stars, STAR) == Count(stars, STAR)
    ensures STAR !in prefix
  {
    CountAppend(prefix, stars, STAR);
    CountZero(prefix, STAR);
  }

  /** A wildcard is written prefix, dot, stars, with no star in the prefix. */
  lemma PartsShape(scope: string)
    ensures WildcardParts(scope).Some? ==> IsWildcard(scope, WildcardParts(scope).value)
  {
    CountStars();
    if WildcardParts(scope).Some? {
      var w := WildcardParts(scope).value;
      var stars := if w.recursive then "**" else "*";
      assert DOT + "*" == ".*" && DOT + "**" == ".**";
      TrimIdempotent(w.prefix);
      SuffixSplit(scope, stars);
      CutStars(w.prefix, DOT + stars);
    }
  }

  lemma PatternParts(w: Wildcard)
    requires STAR !in w.prefix && !Blank(w.prefix)
    ensures WildcardParts(Pattern(w)) == Some(w)
  {
    CountStars();
    TrimIdempotent(w.prefix);
    if w.recursive {
      assert DOT + "**" == ".**";
      TailStars(w.prefix, ".**");
      assert Pattern(w) == w.prefix + ".**";
    } else {
      assert DOT + "*" == ".*";
      TailStars(w.prefix, ".*");
      assert Pattern(w) == w.prefix + ".*";
    }
  }

  lemma TailStars(prefix: string, tail: string)
    requires STAR !in prefix
    ensures Count(prefix + tail, STAR) == Count(tail, STAR)
    ensures HasSuffix(prefix + tail, tail) && (prefix + tail)[..|prefix + tail| - |tail|] == prefix
  {
    CountAppend(prefix, tail, STAR);
    CountZero(prefix, STAR);
  }

  /** A scope is taken apart exactly when it is written as a wildcard, and into what it was written from. */
  lemma PartsExactly(scope: string, w: Wildcard)
    ensures WildcardParts(scope) == Some(w) <==> IsWildcard(scope, w)
  {
    PartsShape(scope);
    if IsWildcard(scope, w) {
      PatternParts(w);
    }
  }

  lemma ValidSyntaxExactly(scope: string)
    ensures ValidWildcardSyntax(scope) <==> WellFormed(scope)
  {
    PartsShape(scope);
    if w :| IsWildcard(scope, w) {
      PatternParts(w);
    }
  }

  lemma StarInParts(scope: string)
    ensures WildcardParts(scope).Some? ==> STAR in scope
  {
    CountZero(scope, STAR);
  }

  /** Denotation in terms of the parts the covering test works on. */
  lemma DenotesByParts(pattern: string)
    ensures forall c :: Denotes(pattern, c) <==>
              && Concrete(c)
              && match WildcardParts(Trim(pattern))
                 case None => c == Trim(pattern)
                 case Some(w) => exists rest: string :: Matches(w, c, rest)
  {
    var t := Trim(pattern);
    StarInParts(t);
    forall w ensures WildcardParts(t) == Some(w) <==> IsWildcard(t, w) {
      PartsExactly(t, w);
    }
  }

  /** The covering test on a trimmed wildcard, without slicing. */
  ghost predicate Reaches(w: Wildcard, required: string) {
    exists rest: string ::
      rest != "" && required == w.prefix + DOT + rest && (w.recursive || ('.' !in rest && STAR !in rest))
  }

  lemma CoversByReach(owned: string, required: string)
    ensures ScopeCovers(owned, required) <==>
              && Trim(owned) != "" && Trim(required) != ""
              && (|| Trim(owned) == Trim(required)
                  || (&& ValidWildcardSyntax(Trim(required))
                      && WildcardParts(Trim(owned)).Some?
                      && Reaches(WildcardParts(Trim(owned)).value, Trim(required))))
  {
    var o, r := Trim(owned), Trim(required);
    if WildcardParts(o).Some? {
      var w := WildcardParts(o).value;
      if HasPrefix(r, w.prefix + DOT) {
        assert r == w.prefix + DOT + r[|w.prefix| + 1..];
      }
      if Reaches(w, r) {
        var rest :| rest != "" && r == w.prefix + DOT + rest && (w.recursive || ('.' !in rest && STAR !in rest));
        assert r[|w.prefix| + 1..] == rest;
      }
    }
  }

  /* ---------- Dotted strings ---------- */

  lemma CharAt(p: string, x: string, i: nat)
    requires i < |p + DOT + x|
    ensures (p + DOT + x)[i] == if i < |p| then p[i] else if i == |p| then '.' else x[i - |p| - 1]
  {}

  /** A shared last segment means a shared prefix. */
  lemma LastDotUnique(p: string, x: string, q: string, y: string)
    requires p + DOT + x == q + DOT + y && '.' !in x && '.' !in y
    ensures p == q && x == y
  {
    CharAt(p, x, |p|);
    CharAt(q, y, |p|);
    CharAt(p, x, |q|);
    CharAt(q, y, |q|);
    var s := p + DOT + x;
    assert |p| == |q|;
    assert s[..|p|] == p && s[..|q|] == q;
    assert s[|p| + 1..] == x && s[|q| + 1..] == y;
  }

  /** A prefix that ends at or before the dot after `q` also starts every other string under `q`. */
  lemma Rebase(p: string, rest: string, q: string, tail: string, more: string) returns (below: string)
    requires p + DOT + rest == q + DOT + tail && |p| <= |q|
    ensures q + DOT + more == p + DOT + below && |below| == |q| - |p| + |more|
  {
    var s, c := q + DOT + tail, q + DOT + more;
    assert s[..|p| + 1] == p + DOT;
    assert s[..|p| + 1] == c[..|p| + 1];
    below := c[|p| + 1..];
  }

  /** A wildcard pattern reached through a star-free prefix has a prefix at least as long. */
  lemma ReachLength(w: Wildcard, v: Wildcard, rest: string)
    requires w.prefix + DOT + rest == Pattern(v) && STAR !in w.prefix
    ensures |w.prefix| <= |v.prefix|
    ensures STAR in rest
  {
    var stars := if v.recursive then "**" else "*";
    var t := Pattern(v);
    CharAt(w.prefix, rest, |v.prefix| + 1);
    CharAt(v.prefix, stars, |v.prefix| + 1);
    CharAt(w.prefix, rest, |t| - 1);
    CharAt(v.prefix, stars, |t| - 1);
  }

  /** Reaching a wildcard means reaching everything it denotes. */
  lemma ReachesIncludes(a: string, b: string, c: string)
    requires WildcardParts(Trim(a)).Some? && ValidWildcardSyntax(Trim(b))
    requires Reaches(WildcardParts(Trim(a)).value, Trim(b)) && Denotes(b, c)
    ensures Denotes(a, c)
  {
    var w := WildcardParts(Trim(a)).value;
    var t := Trim(b);
    DenotesByParts(a);
    DenotesByParts(b);
    var rest :| rest != "" && t == w.prefix + DOT + rest && (w.recursive || ('.' !in rest && STAR !in rest));
    PartsShape(t);
    match WildcardParts(t)
    case None =>
      assert Matches(w, c, rest);
    case Some(v) =>
      PartsShape(Trim(a));
      ReachLength(w, v, rest);
      var more :| Matches(v, c, more);
      var below := Rebase(w.prefix, rest, v.prefix, if v.recursive then "**" else "*", more);
      assert Matches(w, c, below);
  }

  /* ---------- Covering and inclusion ---------- */

  function Xs(n: nat): (x: string)
    ensures |x| == n && forall i | 0 <= i < n :: x[i] == 'x'
  {
    seq(n, _ => 'x')
  }

  /** A scope under a wildcard whose last segments are longer than any given pattern. */
  function Tail(v: Wildcard, n: nat): string {
    if v.recursive then Xs(n) + DOT + Xs(n) else Xs(n)
  }

  function Probe(v: Wildcard, n: nat): string {
    v.prefix + DOT + Tail(v, n)
  }

  lemma ProbeDenoted(b: string, v: Wildcard, n: nat)
    requires Trimmed(b) && WildcardParts(b) == Some(v) && n > 0
    ensures Denotes(b, Probe(v, n))
  {
    PartsShape(b);
    TrimTrimmed(b);
    DenotesByParts(b);
    var c := Probe(v, n);
    assert c[0] == b[0];
    assert c[|c| - 1] == 'x';
    assert Matches(v, c, Tail(v, n));
  }

  /** What denotes a long enough probe of a wildcard reaches the wildcard, or is the same one. */
  lemma ProbeReached(a: string, w: Wildcard, b: string, v: Wildcard, n: nat)
    requires Trimmed(a) && Trimmed(b) && WildcardParts(a) == Some(w) && WildcardParts(b) == Some(v)
    requires n > |a| && Denotes(a, Probe(v, n))
    ensures a == b || Reaches(w, b)
  {
    PartsShape(a);
    PartsShape(b);
    TrimTrimmed(a);
    DenotesByParts(a);
    var rest :| Matches(w, Probe(v, n), rest);
    if w.recursive {
      PrefixReached(w, v, n, rest);
    } else {
      SegmentReached(w, v, n, rest);
    }
  }

  /** A prefix shorter than the tail of the probe ends before that tail. */
  lemma PrefixReached(w: Wildcard, v: Wildcard, n: nat, rest: string)
    requires Matches(w, Probe(v, n), rest) && w.recursive && n > |w.prefix|
    ensures Reaches(w, Pattern(v))
  {
    CharAt(w.prefix, rest, |w.prefix|);
    CharAt(v.prefix, Tail(v, n), |w.prefix|);
    var below := Rebase(w.prefix, rest, v.prefix, Tail(v, n), if v.recursive then "**" else "*");
    assert Pattern(v) == w.prefix + DOT + below;
  }

  /** One more segment is not enough to denote a probe of a recursive wildcard. */
  lemma SegmentReached(w: Wildcard, v: Wildcard, n: nat, rest: string)
    requires Matches(w, Probe(v, n), rest) && !w.recursive && n > |w.prefix|
    ensures w == v
  {
    if v.recursive {
      assert Probe(v, n) == v.prefix + DOT + Xs(n) + DOT + Xs(n);
      LastDotUnique(v.prefix + DOT + Xs(n), Xs(n), w.prefix, rest);
    } else {
      LastDotUnique(v.prefix, Xs(n), w.prefix, rest);
    }
  }

  /** What denotes a long enough probe of a wildcard covers the wildcard. */
  lemma ProbeCovered(a: string, b: string, v: Wildcard, n: nat)
    requires WildcardParts(Trim(b)) == Some(v) && n > |Trim(a)| && Denotes(a, Probe(v, n))
    ensures ScopeCovers(a, b)
  {
    var s, t := Trim(a), Trim(b);
    TrimIdempotent(a);
    TrimIdempotent(b);
    CoversByReach(a, b);
    DenotesByParts(a);
    if WildcardParts(s).Some? {
      ProbeReached(s, WildcardParts(s).value, t, v, n);
    }
  }

  lemma CoversIncludes(a: string, b: string, c: string)
    requires ScopeCovers(a, b) && Denotes(b, c)
    ensures Denotes(a, c)
  {
    CoversByReach(a, b);
    if Trim(a) != Trim(b) {
      ReachesIncludes(a, b, c);
    }
  }

  /** `c` is denoted by one of the owned scopes. */
  ghost predicate DenotedByOne(owned: seq<string>, c: string) {
    exists i | 0 <= i < |owned| :: Denotes(owned[i], c)
  }

  lemma {:induction false} LongerThanAll(owned: seq<string>) returns (n: nat)
    ensures n > 0 && forall i | 0 <= i < |owned| :: n > |Trim(owned[i])|
  {
    if owned == [] {
      n := 1;
    } else {
      var rest := LongerThanAll(owned[1..]);
      n := if rest > |Trim(owned[0])| then rest else |Trim(owned[0])| + 1;
      assert forall i | 0 < i < |owned| :: owned[i] == owned[1..][i - 1];
    }
  }

  /** One member of a scope's denotation stands for all of it: whatever owned scope denotes it covers the whole. */
  lemma Representative(owned: seq<string>, b: string) returns (c: string)
    requires Trim(b) != "" && ValidWildcardSyntax(Trim(b))
    ensures Denotes(b, c)
    ensures forall i | 0 <= i < |owned| :: Denotes(owned[i], c) ==> ScopeCovers(owned[i], b)
  {
    var t := Trim(b);
    TrimIdempotent(b);
    match WildcardParts(t)
    case None =>
      c := t;
      forall i | 0 <= i < |owned| && Denotes(owned[i], c) ensures ScopeCovers(owned[i], b) {
        DenotedIsCovered(owned[i], b);
      }
    case Some(v) =>
      var n := LongerThanAll(owned);
      c := Probe(v, n);
      ProbeDenoted(t, v, n);
      forall i | 0 <= i < |owned| && Denotes(owned[i], c) ensures ScopeCovers(owned[i], b) {
        ProbeCovered(owned[i], b, v, n);
      }
  }

  lemma DenotedIsReached(w: Wildcard, c: string, rest: string)
    requires Matches(w, c, rest) && STAR !in c
    ensures Reaches(w, c)
  {
    assert c[|w.prefix| + 1..] == rest;
  }

  lemma DenotedIsCovered(a: string, b: string)
    requires Denotes(a, Trim(b))
    ensures ScopeCovers(a, b)
  {
    TrimIdempotent(a);
    CoversByReach(a, b);
    DenotesByParts(a);
    if WildcardParts(Trim(a)).Some? {
      var w := WildcardParts(Trim(a)).value;
      var rest :| Matches(w, Trim(b), rest);
      DenotedIsReached(w, Trim(b), rest);
    }
  }

  /** The test on a set of owned scopes decides inclusion in their union, for every concrete or validly wildcarded
      requirement: no requirement is met by several owned scopes together and by none of them alone. */
  lemma SetCoversDecidesInclusion(owned: seq<string>, b: string)
    requires Trim(b) != "" && WellFormed(Trim(b))
    ensures ScopeSetCovers(owned, b) <==> forall c :: Denotes(b, c) ==> DenotedByOne(owned, c)
  {
    ValidSyntaxExactly(Trim(b));
    if ScopeSetCovers(owned, b) {
      var i :| 0 <= i < |owned| && ScopeCovers(owned[i], b);
      forall c | Denotes(b, c) ensures DenotedByOne(owned, c) {
        CoversIncludes(owned[i], b, c);
      }
    } else {
      var c := Representative(owned, b);
    }
  }

  /** Covering decides inclusion of denotations, for every concrete or validly wildcarded requirement. */
  lemma CoversDecidesInclusion(a: string, b: string)
    requires Trim(b) != "" && WellFormed(Trim(b))
    ensures ScopeCovers(a, b) <==> forall c :: Denotes(b, c) ==> Denotes(a, c)
  {
    SetCoversDecidesInclusion([a], b);
    assert [a][0] == a;
    assert forall c :: DenotedByOne([a], c) <==> Denotes(a, c);
  }

  /** A malformed wildcard is covered only by itself, and denotes nothing. */
  lemma MalformedCoveredByItself(a: string, b: string)
    requires !WellFormed(Trim(b))
    ensures ScopeCovers(a, b) <==> Trim(a) == Trim(b)
    ensures forall c :: !Denotes(b, c)
  {
    ValidSyntaxExactly(Trim(b));
    TrimIdempotent(b);
    CoversByReach(a, b);
    assert STAR in Trim(b);
  }

  /** What the set test decides, for all inputs. */
  ghost predicate Included(owned: seq<string>, b: string) {
    && !Blank(b)
    && if WellFormed(Trim(b)) then forall c :: Denotes(b, c) ==> DenotedByOne(owned, c)
       else exists i | 0 <= i < |owned| :: Trim(owned[i]) == Trim(b)
  }

  lemma SetCoversExactly(owned: seq<string>, b: string)
    ensures ScopeSetCovers(owned, b) <==> Included(owned, b)
  {
    TrimIdempotent(b);
    if Trim(b) != "" {
      if WellFormed(Trim(b)) {
        SetCoversDecidesInclusion(owned, b);
      } else {
        forall i | 0 <= i < |owned| ensures ScopeCovers(owned[i], b) <==> Trim(owned[i]) == Trim(b) {
          MalformedCoveredByItself(owned[i], b);
        }
      }
    }
  }

  lemma CoversReflexive(a: string)
    requires Trim(a) != ""
    ensures ScopeCovers(a, a)
  {}

  /** Transitive for all strings, malformed wildcards included. */
  lemma CoversTransitive(a: string, b: string, c: string)
    requires ScopeCovers(a, b) && ScopeCovers(b, c)
    ensures ScopeCovers(a, c)
  {
    CoversByReach(a, b);
    CoversByReach(b, c);
    ValidSyntaxExactly(Trim(c));
    if !WellFormed(Trim(c)) {
      MalformedCoveredByItself(b, c);
      MalformedCoveredByItself(a, b);
    } else {
      CoversDecidesInclusion(b, c);
      var member := Representative([], c);
      if !WellFormed(Trim(b)) {
        MalformedCoveredByItself(a, b);
      }
      CoversDecidesInclusion(a, b);
      CoversDecidesInclusion(a, c);
    }
  }

  /** Two scopes that cover each other are the same scope. */
  lemma CoversAntisymmetric(a: string, b: string)
    requires ScopeCovers(a, b) && ScopeCovers(b, a)
    ensures Trim(a) == Trim(b)
  {
    CoversByReach(a, b);
    CoversByReach(b, a);
    var s, t := Trim(a), Trim(b);
    if s != t {
      var w, v := WildcardParts(s).value, WildcardParts(t).value;
      PartsShape(s);
      PartsShape(t);
      MutualReach(w, v);
    }
  }

  lemma MutualReach(w: Wildcard, v: Wildcard)
    requires STAR !in w.prefix && STAR !in v.prefix
    requires Reaches(w, Pattern(v)) && Reaches(v, Pattern(w))
    ensures w == v
  {
    var r1 :| r1 != "" && Pattern(v) == w.prefix + DOT + r1 && (w.recursive || ('.' !in r1 && STAR !in r1));
    var r2 :| r2 != "" && Pattern(w) == v.prefix + DOT + r2 && (v.recursive || ('.' !in r2 && STAR !in r2));
    ReachLength(w, v, r1);
    ReachLength(v, w, r2);
    assert Pattern(v)[..|w.prefix|] == w.prefix && Pattern(v)[..|v.prefix|] == v.prefix;
  }

  lemma TrimKeepsOut(a: string, c: char)
    requires c !in a
    ensures c !in Trim(a)
  {
    var pre, post := TrimShape(a);
    assert forall i | 0 <= i < |Trim(a)| :: Trim(a)[i] == a[|pre| + i];
  }

  /** A concrete scope covers itself and nothing else. */
  lemma ConcreteCovers(a: string, b: string)
    requires !ContainsWildcard(a) && Trim(b) != ""
    ensures ScopeCovers(a, b) <==> Trim(a) == Trim(b)
  {
    TrimKeepsOut(a, STAR);
    CountZero(Trim(a), STAR);
  }
}
