/** Totals over the participants of a protocol. */
module Counting {

  function Total<T>(xs: seq<T>, weight: T -> nat): nat {
    if xs == [] then 0 else weight(xs[0]) + Total(xs[1..], weight)
  }

  lemma {:induction false} TotalAppend<T>(xs: seq<T>, x: T, weight: T -> nat)
    ensures Total(xs + [x], weight) == Total(xs, weight) + weight(x)
  {
    if xs == [] {
      assert xs + [x] == [x];
    } else {
      assert (xs + [x])[1..] == xs[1..] + [x];
      TotalAppend(xs[1..], x, weight);
    }
  }

  lemma {:induction false} TotalUpdate<T>(xs: seq<T>, i: nat, x: T, weight: T -> nat)
    requires i < |xs|
    ensures Total(xs[i := x], weight) + weight(xs[i]) == Total(xs, weight) + weight(x)
  {
    if i == 0 {
      assert xs[0 := x][1..] == xs[1..];
    } else {
      assert xs[i := x][1..] == xs[1..][i - 1 := x];
      TotalUpdate(xs[1..], i - 1, x, weight);
    }
  }

  /** Lowering one weight by more than `extra` lowers the total by more than `extra`. */
  lemma TotalDecreases<T>(xs: seq<T>, i: nat, x: T, weight: T -> nat, extra: nat)
    requires i < |xs| && weight(x) + extra < weight(xs[i])
    ensures Total(xs[i := x], weight) + extra < Total(xs, weight)
  {
    TotalUpdate(xs, i, x, weight);
  }

  /** A total is zero exactly when every weight is. */
  lemma {:induction false} TotalZero<T>(xs: seq<T>, weight: T -> nat)
    ensures Total(xs, weight) == 0 <==> forall i | 0 <= i < |xs| :: weight(xs[i]) == 0
  {
    if xs != [] {
      TotalZero(xs[1..], weight);
      assert forall i | 0 < i < |xs| :: xs[i] == xs[1..][i - 1];
      assert forall i | 0 <= i < |xs[1..]| :: xs[1..][i] == xs[i + 1];
    }
  }
}
