/** Sums over the threads or tasks of a protocol. */
module Tallies {
  function Sum<T>(items: seq<T>, weight: T -> nat): nat {
    if |items| == 0 then 0 else weight(items[0]) + Sum(items[1..], weight)
  }

  lemma {:induction false} SumUpdate<T>(items: seq<T>, weight: T -> nat, t: nat, x: T)
    requires t < |items|
    ensures Sum(items[t := x], weight) + weight(items[t]) == Sum(items, weight) + weight(x)
  {
    if t == 0 {
      assert items[0 := x][1..] == items[1..];
    } else {
      assert items[t := x][1..] == items[1..][t - 1 := x];
      SumUpdate(items[1..], weight, t - 1, x);
    }
  }

  lemma {:induction false} SumAtLeast<T>(items: seq<T>, weight: T -> nat, t: nat)
    requires t < |items|
    ensures Sum(items, weight) >= weight(items[t])
  {
    if t > 0 {
      SumAtLeast(items[1..], weight, t - 1);
    }
  }

  lemma {:induction false} SumAtLeastTwo<T>(items: seq<T>, weight: T -> nat, t: nat, u: nat)
    requires t < u < |items|
    ensures Sum(items, weight) >= weight(items[t]) + weight(items[u])
  {
    if t == 0 {
      SumAtLeast(items[1..], weight, u - 1);
    } else {
      SumAtLeastTwo(items[1..], weight, t - 1, u - 1);
    }
  }

  lemma {:induction false} SumZero<T>(items: seq<T>, weight: T -> nat)
    requires forall t :: 0 <= t < |items| ==> weight(items[t]) == 0
    ensures Sum(items, weight) == 0
  {
    if |items| > 0 {
      SumZero(items[1..], weight);
    }
  }
}
