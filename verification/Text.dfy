/** The string operations the scope code is built from: Go's TrimSpace, Fields, Join, Count,
    HasPrefix and HasSuffix, with strings as sequences of code points. */
module Text {

  const SPACE: string := " "

  /** Go's unicode.IsSpace. */
  predicate IsSpace(c: char) {
    || '\t' <= c <= '\r'
    || c == ' ' || c == '\U{85}' || c == '\U{A0}' || c == '\U{1680}'
    || '\U{2000}' <= c <= '\U{200A}'
    || c == '\U{2028}' || c == '\U{2029}' || c == '\U{202F}' || c == '\U{205F}' || c == '\U{3000}'
  }

  predicate Blank(s: string) {
    forall i | 0 <= i < |s| :: IsSpace(s[i])
  }

  predicate SpaceFree(s: string) {
    forall i | 0 <= i < |s| :: !IsSpace(s[i])
  }

  /** A token is what Fields can produce: nonempty and without whitespace. */
  predicate IsToken(s: string) {
    s != "" && SpaceFree(s)
  }

  /* ---------- TrimSpace ---------- */

  function TrimLeft(s: string): string {
    if s == "" || !IsSpace(s[0]) then s else TrimLeft(s[1..])
  }

  function TrimRight(s: string): string {
    if s == "" || !IsSpace(s[|s| - 1]) then s else TrimRight(s[..|s| - 1])
  }

  function Trim(s: string): string {
    TrimRight(TrimLeft(s))
  }

  /** A trimmed string has no whitespace at either end. */
  predicate Trimmed(s: string) {
    s == "" || (!IsSpace(s[0]) && !IsSpace(s[|s| - 1]))
  }

  lemma BlankAppend(a: string, b: string, rest: string)
    requires Blank(a) && Blank(b)
    ensures Blank(a + b) && a + (b + rest) == a + b + rest && rest + a + b == rest + (a + b)
  {}

  lemma {:induction false} TrimLeftShape(s: string) returns (pre: string)
    ensures Blank(pre) && s == pre + TrimLeft(s)
    ensures TrimLeft(s) == "" || !IsSpace(TrimLeft(s)[0])
  {
    if s == "" || !IsSpace(s[0]) {
      pre := "";
    } else {
      pre := TrimLeftShape(s[1..]);
      assert s == s[..1] + s[1..];
      BlankAppend(s[..1], pre, TrimLeft(s));
      pre := s[..1] + pre;
    }
  }

  lemma {:induction false} TrimRightShape(s: string) returns (post: string)
    ensures Blank(post) && s == TrimRight(s) + post
    ensures TrimRight(s) == "" || !IsSpace(TrimRight(s)[|TrimRight(s)| - 1])
  {
    if s == "" || !IsSpace(s[|s| - 1]) {
      post := "";
    } else {
      var init, last := s[..|s| - 1], s[|s| - 1..];
      post := TrimRightShape(init);
      assert s == init + last;
      BlankAppend(post, last, TrimRight(s));
      post := post + last;
    }
  }

  /** What TrimSpace means: the trimmed middle between two whitespace margins. */
  lemma TrimShape(s: string) returns (pre: string, post: string)
    ensures Blank(pre) && Blank(post) && s == pre + Trim(s) + post
    ensures Trimmed(Trim(s))
  {
    pre := TrimLeftShape(s);
    post := TrimRightShape(TrimLeft(s));
    var l := TrimLeft(s);
    assert Trim(s) != "" ==> Trim(s)[0] == l[0];
  }

  lemma TrimTrimmed(s: string)
    requires Trimmed(s)
    ensures Trim(s) == s
  {}

  /** Trimming twice is trimming once, and only blank strings trim to nothing. */
  lemma TrimIdempotent(s: string)
    ensures Trimmed(Trim(s)) && Trim(Trim(s)) == Trim(s)
    ensures Trim(s) == "" <==> Blank(s)
  {
    var pre, post := TrimShape(s);
    TrimTrimmed(Trim(s));
    if Trim(s) != "" {
      assert s[|pre|] == Trim(s)[0];
    }
  }

  lemma TokenTrims(s: string)
    requires IsToken(s)
    ensures Trim(s) == s
  {
    TrimTrimmed(s);
  }

  /* ---------- Fields ---------- */

  /** Length of the longest whitespace-free prefix. */
  function WordLength(s: string): (n: nat)
    ensures n <= |s| && SpaceFree(s[..n])
    ensures n < |s| ==> IsSpace(s[n])
  {
    if s == "" || IsSpace(s[0]) then 0 else
      var n := WordLength(s[1..]);
      assert s[..n + 1] == [s[0]] + s[1..][..n];
      n + 1
  }

  /** Go's strings.Fields. */
  function Fields(s: string): (r: seq<string>)
    ensures forall i | 0 <= i < |r| :: IsToken(r[i])
    decreases |s|
  {
    if s == "" then []
    else if IsSpace(s[0]) then Fields(s[1..])
    else [s[..WordLength(s)]] + Fields(s[WordLength(s)..])
  }

  /** `t` occurs in `s` as a maximal whitespace-free run starting at `i`. */
  predicate RunAt(s: string, i: nat, t: string) {
    && i + |t| <= |s| && s[i..i + |t|] == t && IsToken(t)
    && (i == 0 || IsSpace(s[i - 1]))
    && (i + |t| == |s| || IsSpace(s[i + |t|]))
  }

  ghost predicate OccursIn(t: string, s: string) {
    exists i: nat :: RunAt(s, i, t)
  }

  lemma WordIsSpaceFree(s: string)
    ensures forall k | 0 <= k < WordLength(s) :: !IsSpace(s[k])
  {
    forall k | 0 <= k < WordLength(s) ensures !IsSpace(s[k]) {
      assert s[..WordLength(s)][k] == s[k];
    }
  }

  /** How many characters Fields consumes before it recurses. */
  function Step(s: string): (n: nat)
    requires s != ""
    ensures 0 < n <= |s|
  {
    if IsSpace(s[0]) then 1 else WordLength(s)
  }

  lemma RunShift(s: string, i: nat, t: string)
    requires s != "" && RunAt(s[Step(s)..], i, t)
    ensures RunAt(s, i + Step(s), t)
  {
    var n := Step(s);
    assert s[i + n..i + n + |t|] == s[n..][i..i + |t|];
    assert t[0] == s[n..][i];
  }

  /** A run either is the first word or lies in the part Fields recurses on. */
  lemma RunSplit(s: string, i: nat, t: string)
    requires s != "" && RunAt(s, i, t)
    ensures if i < Step(s) then !IsSpace(s[0]) && t == s[..Step(s)] else RunAt(s[Step(s)..], i - Step(s), t)
  {
    var n := Step(s);
    WordIsSpaceFree(s);
    assert t[0] == s[i];
    if i < n {
      assert forall k | 0 <= k < |t| :: s[i + k] == t[k];
      assert |t| == n;
    } else {
      var rest := s[n..];
      assert forall k | 0 <= k < |rest| :: rest[k] == s[n + k];
      assert rest[i - n..i - n + |t|] == t;
      assert i > n ==> IsSpace(rest[i - n - 1]);
      assert i - n + |t| < |rest| ==> IsSpace(rest[i - n + |t|]);
    }
  }

  lemma {:induction false} FieldsOccur(s: string, t: string)
    requires t in Fields(s)
    ensures OccursIn(t, s)
    decreases |s|
  {
    var rest := s[Step(s)..];
    if !IsSpace(s[0]) && t == s[..Step(s)] {
      WordIsSpaceFree(s);
      assert RunAt(s, 0, t);
    } else {
      assert t in Fields(rest);
      FieldsOccur(rest, t);
      var i: nat :| RunAt(rest, i, t);
      RunShift(s, i, t);
    }
  }

  lemma {:induction false} RunsAreFields(s: string, i: nat, t: string)
    requires RunAt(s, i, t)
    ensures t in Fields(s)
    decreases |s|
  {
    RunSplit(s, i, t);
    if i >= Step(s) {
      RunsAreFields(s[Step(s)..], i - Step(s), t);
    }
  }

  /** Fields returns exactly the maximal whitespace-free runs of its argument. */
  lemma FieldsAreRuns(s: string, t: string)
    ensures t in Fields(s) <==> OccursIn(t, s)
  {
    if t in Fields(s) {
      FieldsOccur(s, t);
    }
    if OccursIn(t, s) {
      var i: nat :| RunAt(s, i, t);
      RunsAreFields(s, i, t);
    }
  }

  lemma {:induction false} WordLengthAppend(w: string, rest: string)
    requires IsToken(w) && (rest == "" || IsSpace(rest[0]))
    ensures WordLength(w + rest) == |w|
  {
    var s := w + rest;
    assert s[0] == w[0] && s[1..] == w[1..] + rest;
    if |w| > 1 {
      WordLengthAppend(w[1..], rest);
    } else {
      assert s[1..] == rest;
    }
  }

  lemma FieldsOfWord(w: string, rest: string)
    requires IsToken(w) && (rest == "" || IsSpace(rest[0]))
    ensures Fields(w + rest) == [w] + Fields(rest)
  {
    WordLengthAppend(w, rest);
    assert (w + rest)[0] == w[0];
    assert (w + rest)[..|w|] == w && (w + rest)[|w|..] == rest;
  }

  /** Whitespace between two strings separates their fields. */
  lemma {:induction false} FieldsAppend(a: string, b: string)
    requires b == "" || IsSpace(b[0])
    ensures Fields(a + b) == Fields(a) + Fields(b)
    decreases |a|
  {
    if a == "" {
      assert a + b == b;
    } else {
      FieldsAppend(a[Step(a)..], b);
      if IsSpace(a[0]) {
        assert (a + b)[1..] == a[1..] + b;
      } else {
        FieldsOfWordThenRest(a, b);
      }
    }
  }

  lemma SplitConcat<T>(a: seq<T>, n: nat, b: seq<T>)
    requires n <= |a|
    ensures a + b == a[..n] + (a[n..] + b)
  {}

  lemma FieldsOfWordThenRest(a: string, b: string)
    requires a != "" && !IsSpace(a[0]) && (b == "" || IsSpace(b[0]))
    ensures Fields(a + b) == [a[..WordLength(a)]] + Fields(a[WordLength(a)..] + b)
  {
    var w, rest := a[..WordLength(a)], a[WordLength(a)..] + b;
    assert IsToken(w);
    assert rest == "" || IsSpace(rest[0]);
    SplitConcat(a, WordLength(a), b);
    FieldsOfWord(w, rest);
  }

  /* ---------- Join ---------- */

  /** Go's strings.Join(items, " "). */
  function JoinSpace(items: seq<string>): string {
    if items == [] then ""
    else if |items| == 1 then items[0]
    else items[0] + SPACE + JoinSpace(items[1..])
  }

  /** Items are separated by exactly one space, and nothing stands before the first or after the last. */
  lemma {:induction false} JoinOneMore(items: seq<string>, last: string)
    ensures JoinSpace(items + [last]) == if items == [] then last else JoinSpace(items) + " " + last
  {
    if items == [] {
      assert items + [last] == [last];
    } else {
      JoinOneMore(items[1..], last);
      assert (items + [last])[1..] == items[1..] + [last];
      if |items| > 1 {
        JoinAssociates(items[0], JoinSpace(items[1..]), last);
      } else {
        assert JoinSpace(items[1..] + [last]) == last;
      }
    }
  }

  lemma JoinAssociates(first: string, rest: string, last: string)
    ensures first + SPACE + (rest + " " + last) == first + SPACE + rest + " " + last
  {}

  function AllFields(values: seq<string>): (r: seq<string>)
    ensures forall i | 0 <= i < |r| :: IsToken(r[i])
  {
    if values == [] then [] else Fields(values[0]) + AllFields(values[1..])
  }

  /** Splitting a space-joined list gives the fields of its items, in order. */
  lemma {:induction false} FieldsOfJoin(items: seq<string>)
    ensures Fields(JoinSpace(items)) == AllFields(items)
  {
    if |items| == 1 {
      assert AllFields(items) == Fields(items[0]) + AllFields(items[1..]);
    } else if |items| > 1 {
      var rest := JoinSpace(items[1..]);
      FieldsOfJoin(items[1..]);
      assert JoinSpace(items) == items[0] + (SPACE + rest);
      FieldsAppend(items[0], SPACE + rest);
      assert (SPACE + rest)[1..] == rest;
    }
  }

  lemma {:induction false} AllFieldsOfTokens(items: seq<string>)
    requires forall i | 0 <= i < |items| :: IsToken(items[i])
    ensures AllFields(items) == items
  {
    if items != [] {
      FieldsOfWord(items[0], "");
      assert items[0] + "" == items[0];
      AllFieldsOfTokens(items[1..]);
    }
  }

  lemma AllFieldsOne(v: string)
    ensures AllFields([v]) == Fields(v)
  {
    assert AllFields([v][1..]) == [];
  }

  lemma {:induction false} AllFieldsAppend(a: seq<string>, b: seq<string>)
    ensures AllFields(a + b) == AllFields(a) + AllFields(b)
  {
    if a == [] {
      assert a + b == b;
    } else {
      assert (a + b)[1..] == a[1..] + b;
      AllFieldsAppend(a[1..], b);
    }
  }

  /** A token is a field of a list exactly when it is a field of one of its values. */
  lemma {:induction false} InAllFields(values: seq<string>, t: string)
    ensures t in AllFields(values) <==> exists i | 0 <= i < |values| :: t in Fields(values[i])
  {
    if values != [] {
      InAllFields(values[1..], t);
      if t in AllFields(values[1..]) {
        var i :| 0 <= i < |values[1..]| && t in Fields(values[1..][i]);
        assert t in Fields(values[i + 1]);
      }
      if i :| 0 <= i < |values| && t in Fields(values[i]) {
        assert i > 0 ==> values[1..][i - 1] == values[i];
      }
    }
  }

  /* ---------- Prefixes, suffixes and counting ---------- */

  predicate HasPrefix(s: string, p: string) {
    |p| <= |s| && s[..|p|] == p
  }

  predicate HasSuffix(s: string, p: string) {
    |p| <= |s| && s[|s| - |p|..] == p
  }

  /** Go's strings.Count for a one-character separator. */
  function Count(s: string, c: char): nat {
    if s == "" then 0 else (if s[0] == c then 1 else 0) + Count(s[1..], c)
  }

  lemma {:induction false} CountAppend(a: string, b: string, c: char)
    ensures Count(a + b, c) == Count(a, c) + Count(b, c)
  {
    if a == "" {
      assert a + b == b;
    } else {
      assert (a + b)[1..] == a[1..] + b;
      CountAppend(a[1..], b, c);
    }
  }

  lemma {:induction false} CountZero(s: string, c: char)
    ensures Count(s, c) == 0 <==> c !in s
  {
    if s != "" {
      CountZero(s[1..], c);
    }
  }
}
