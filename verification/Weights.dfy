// Sums of natural-number weights over a list, and how they change when one item
// is replaced; used to measure progress and to account for committed work.
module Weights {

  function Sum<T>(weight: (nat, T) -> nat, items: seq<T>): nat {
    if items == [] then 0
    else Sum(weight, items[..|items| - 1]) + weight(|items| - 1, items[|items| - 1])
  }

  lemma {:induction false} SumOfUpdate<T>(weight: (nat, T) -> nat, items: seq<T>, i: nat, x: T)
    requires i < |items|
    ensures Sum(weight, items[i := x]) + weight(i, items[i]) == Sum(weight, items) + weight(i, x)
  {
    var last := |items| - 1;
    if i < last {
      SumOfUpdate(weight, items[..last], i, x);
      assert items[i := x][..last] == items[..last][i := x];
    } else {
      assert items[i := x][..last] == items[..last];
    }
  }
}
