/** internal/stringset: whitespace-delimited values as a sorted, duplicate-free list of tokens. */
module StringSet {
  import opened Text

  /** The order slices.Sort uses on strings. Go compares bytes; UTF-8 keeps code point order. */
  predicate Less(a: string, b: string) {
    b != "" && (a == "" || a[0] < b[0] || (a[0] == b[0] && Less(a[1..], b[1..])))
  }

  lemma {:induction false} LessTransitive(a: string, b: string, c: string)
    requires Less(a, b) && Less(b, c)
    ensures Less(a, c)
  {
    if a != "" && a[0] == b[0] == c[0] {
      LessTransitive(a[1..], b[1..], c[1..]);
    }
  }

  /** Less is a strict total order: exactly one of the three holds. */
  lemma {:induction false} LessTrichotomy(a: string, b: string)
    ensures Less(a, b) || Less(b, a) <==> a != b
    ensures !(Less(a, b) && Less(b, a))
  {
    if a != "" && b != "" && a[0] == b[0] {
      LessTrichotomy(a[1..], b[1..]);
      assert a == [a[0]] + a[1..] && b == [b[0]] + b[1..];
    }
  }

  /** What Less means: the shorter of two strings of which one starts the other, or the smaller character where they
      first differ. */
  lemma {:induction false} LessExactly(a: string, b: string)
    ensures Less(a, b) <==>
              exists n: nat :: n <= |a| && n < |b| && a[..n] == b[..n] && (n == |a| || a[n] < b[n])
  {
    if a != "" && b != "" && a[0] == b[0] {
      LessExactly(a[1..], b[1..]);
      if n: nat :| n <= |a[1..]| && n < |b[1..]| && a[1..][..n] == b[1..][..n]
                   && (n == |a[1..]| || a[1..][n] < b[1..][n]) {
        assert a[..n + 1] == [a[0]] + a[1..][..n] && b[..n + 1] == [b[0]] + b[1..][..n];
        assert n + 1 == |a| || a[n + 1] < b[n + 1];
      }
      if n: nat :| n <= |a| && n < |b| && a[..n] == b[..n] && (n == |a| || a[n] < b[n]) {
        assert n > 0;
        assert a[1..][..n - 1] == a[..n][1..] && b[1..][..n - 1] == b[..n][1..];
        assert n - 1 == |a[1..]| || a[1..][n - 1] < b[1..][n - 1];
      }
    } else if a == "" && b != "" {
      assert a[..0] == b[..0];
    } else if a != "" && b != "" {
      assert a[..0] == b[..0];
      forall n: nat | 0 < n <= |a| && n < |b| ensures a[..n] != b[..n] {
        assert a[..n][0] != b[..n][0];
      }
    }
  }

  predicate StrictlySorted(xs: seq<string>) {
    forall i, j | 0 <= i < j < |xs| :: Less(xs[i], xs[j])
  }

  predicate Distinct(xs: seq<string>) {
    forall i, j | 0 <= i < j < |xs| :: xs[i] != xs[j]
  }

  ghost predicate SameElements(a: seq<string>, b: seq<string>) {
    forall t :: t in a <==> t in b
  }

  /* ---------- slices.Sort ---------- */

  function Insert(x: string, xs: seq<string>): seq<string> {
    if xs == [] then [x]
    else if Less(x, xs[0]) then [x] + xs
    else [xs[0]] + Insert(x, xs[1..])
  }

  function Sort(xs: seq<string>): seq<string> {
    if xs == [] then [] else Insert(xs[0], Sort(xs[1..]))
  }

  lemma {:induction false} InsertElements(x: string, xs: seq<string>)
    ensures multiset(Insert(x, xs)) == multiset{x} + multiset(xs)
  {
    if xs != [] && !Less(x, xs[0]) {
      InsertElements(x, xs[1..]);
      assert xs == [xs[0]] + xs[1..];
    }
  }

  lemma {:induction false} InsertSorted(x: string, xs: seq<string>)
    requires StrictlySorted(xs) && x !in xs
    ensures StrictlySorted(Insert(x, xs))
  {
    if xs != [] {
      LessTrichotomy(x, xs[0]);
      if Less(x, xs[0]) {
        forall j | 0 < j < |xs| ensures Less(x, xs[j]) {
          LessTransitive(x, xs[0], xs[j]);
        }
      } else {
        var rest := Insert(x, xs[1..]);
        InsertSorted(x, xs[1..]);
        InsertElements(x, xs[1..]);
        forall j | 0 <= j < |rest| ensures Less(xs[0], rest[j]) {
          assert rest[j] in multiset(rest);
          assert rest[j] == x || rest[j] in xs[1..];
        }
      }
    }
  }

  lemma {:induction false} SortCorrect(xs: seq<string>)
    ensures multiset(Sort(xs)) == multiset(xs)
    ensures Distinct(xs) ==> StrictlySorted(Sort(xs))
  {
    if xs != [] {
      SortCorrect(xs[1..]);
      InsertElements(xs[0], Sort(xs[1..]));
      assert xs == [xs[0]] + xs[1..];
      if Distinct(xs) {
        assert xs[0] !in xs[1..];
        assert xs[0] !in multiset(Sort(xs[1..]));
        InsertSorted(xs[0], Sort(xs[1..]));
      }
    }
  }

  lemma HeadIsElement(b: seq<string>)
    requires b != []
    ensures b[0] in b
  {}

  /** A strictly sorted list is determined by its elements. */
  lemma {:induction false} SortedUnique(a: seq<string>, b: seq<string>)
    requires StrictlySorted(a) && StrictlySorted(b) && SameElements(a, b)
    ensures a == b
  {
    if a == [] {
      if b != [] {
        HeadIsElement(b);
      }
    } else {
      assert a[0] in b && b[0] in a;
      var i :| 0 <= i < |a| && a[i] == b[0];
      var j :| 0 <= j < |b| && b[j] == a[0];
      LessTrichotomy(a[0], b[0]);
      assert a[0] == b[0];
      SortedTail(a);
      SortedTail(b);
      SortedUnique(a[1..], b[1..]);
    }
  }

  lemma SortedTail(a: seq<string>)
    requires StrictlySorted(a) && a != []
    ensures StrictlySorted(a[1..])
    ensures forall t :: t in a[1..] <==> t in a && t != a[0]
  {
    forall i | 0 < i < |a| ensures a[i] != a[0] {
      LessTrichotomy(a[0], a[i]);
    }
  }

  /* ---------- Normalize ---------- */

  /** Keeps the first occurrence of every element. */
  function Dedup(xs: seq<string>): seq<string> {
    if xs == [] then [] else
      var seen := Dedup(xs[..|xs| - 1]);
      if xs[|xs| - 1] in seen then seen else seen + [xs[|xs| - 1]]
  }

  lemma {:induction false} DedupCorrect(xs: seq<string>)
    ensures Distinct(Dedup(xs)) && SameElements(Dedup(xs), xs)
  {
    if xs != [] {
      DedupCorrect(xs[..|xs| - 1]);
      assert xs == xs[..|xs| - 1] + [xs[|xs| - 1]];
    }
  }

  function Normalize(values: seq<string>): seq<string> {
    Sort(Dedup(AllFields(values)))
  }

  /** The two nested loops over `seen` and `result`, followed by the sort. */
  method NormalizeValues(values: seq<string>) returns (result: seq<string>)
    ensures result == Normalize(values)
  {
    if |values| == 0 {
      return [];
    }
    var seen: set<string> := {};
    result := [];
    for i := 0 to |values|
      invariant result == Dedup(AllFields(values[..i]))
      invariant forall t :: t in seen <==> t in result
    {
      var items := Fields(values[i]);
      ghost var before := AllFields(values[..i]);
      assert before + items[..0] == before;
      for j := 0 to |items|
        invariant result == Dedup(before + items[..j])
        invariant forall t :: t in seen <==> t in result
      {
        ghost var now := before + items[..j + 1];
        assert now[..|now| - 1] == before + items[..j] && now[|now| - 1] == items[j];
        if items[j] in seen {
          continue;
        }
        seen := seen + {items[j]};
        result := result + [items[j]];
      }
      assert values[..i + 1] == values[..i] + [values[i]];
      AllFieldsAppend(values[..i], [values[i]]);
      AllFieldsOne(values[i]);
      assert items[..|items|] == items;
    }
    assert values[..|values|] == values;
    result := Sort(result);
  }

  /** Normalize returns the strictly sorted list of the maximal whitespace-free runs of its values. */
  lemma NormalizeMeaning(values: seq<string>)
    ensures StrictlySorted(Normalize(values))
    ensures forall t :: t in Normalize(values) <==> exists i | 0 <= i < |values| :: OccursIn(t, values[i])
  {
    NormalizeTokens(values);
    forall t ensures t in AllFields(values) <==> exists i | 0 <= i < |values| :: OccursIn(t, values[i]) {
      InAllFields(values, t);
      forall i | 0 <= i < |values| ensures t in Fields(values[i]) <==> OccursIn(t, values[i]) {
        FieldsAreRuns(values[i], t);
      }
    }
  }

  lemma NormalizeTokens(values: seq<string>)
    ensures StrictlySorted(Normalize(values))
    ensures SameElements(Normalize(values), AllFields(values))
    ensures forall i | 0 <= i < |Normalize(values)| :: IsToken(Normalize(values)[i])
  {
    var distinct := Dedup(AllFields(values));
    DedupCorrect(AllFields(values));
    SortCorrect(distinct);
    forall t ensures t in Normalize(values) <==> t in AllFields(values) {
      assert t in Sort(distinct) <==> t in multiset(Sort(distinct));
    }
    forall i | 0 <= i < |Normalize(values)| ensures IsToken(Normalize(values)[i]) {
      assert Normalize(values)[i] in AllFields(values);
    }
  }

  /** Normal forms agree exactly when the token sets agree, whatever the order, repetition or grouping. */
  lemma NormalizeCanonical(a: seq<string>, b: seq<string>)
    ensures Normalize(a) == Normalize(b) <==> SameElements(AllFields(a), AllFields(b))
  {
    NormalizeTokens(a);
    NormalizeTokens(b);
    if SameElements(AllFields(a), AllFields(b)) {
      SortedUnique(Normalize(a), Normalize(b));
    }
  }

  /** A normal form is a list of tokens in strict order, and every such list is its own normal form. */
  lemma NormalFormFixed(xs: seq<string>)
    ensures Normalize(xs) == xs <==> StrictlySorted(xs) && forall i | 0 <= i < |xs| :: IsToken(xs[i])
  {
    NormalizeTokens(xs);
    if StrictlySorted(xs) && forall i | 0 <= i < |xs| :: IsToken(xs[i]) {
      AllFieldsOfTokens(xs);
      SortedUnique(Normalize(xs), xs);
    }
  }

  lemma NormalizeIdempotent(values: seq<string>)
    ensures Normalize(Normalize(values)) == Normalize(values)
  {
    NormalizeTokens(values);
    NormalFormFixed(Normalize(values));
  }

  /** Passing the values as one space-joined string changes nothing. */
  lemma NormalizeGrouping(values: seq<string>)
    ensures Normalize([JoinSpace(values)]) == Normalize(values)
  {
    FieldsOfJoin(values);
    AllFieldsOne(JoinSpace(values));
  }

  lemma NormalizeOrder(a: seq<string>, b: seq<string>)
    requires SameElements(a, b)
    ensures Normalize(a) == Normalize(b)
  {
    forall t ensures t in AllFields(a) <==> t in AllFields(b) {
      InAllFields(a, t);
      InAllFields(b, t);
      if i :| 0 <= i < |a| && t in Fields(a[i]) {
        assert a[i] in b;
      }
      if i :| 0 <= i < |b| && t in Fields(b[i]) {
        assert b[i] in a;
      }
    }
    NormalizeCanonical(a, b);
  }

  /* ---------- ScopeString ---------- */

  function ScopeString(scopes: seq<string>): string {
    JoinSpace(Normalize(scopes))
  }

  /** Splitting a scope string gives the normal form back. */
  lemma ScopeStringRoundTrip(scopes: seq<string>)
    ensures Fields(ScopeString(scopes)) == Normalize(scopes)
  {
    NormalizeTokens(scopes);
    FieldsOfJoin(Normalize(scopes));
    AllFieldsOfTokens(Normalize(scopes));
  }

  /** Scope strings agree exactly when the token sets agree. */
  lemma ScopeStringInjective(a: seq<string>, b: seq<string>)
    ensures ScopeString(a) == ScopeString(b) <==> SameElements(AllFields(a), AllFields(b))
  {
    ScopeStringRoundTrip(a);
    ScopeStringRoundTrip(b);
    NormalizeCanonical(a, b);
  }
}
