// route_iterator<N>: the permutation with a given number, read off the
// factorial-base digits of that number by in-place swaps.
module Routes {
  import opened Arithmetic

  function Factorial(n: nat): (f: nat)
    ensures 1 <= f
  {
    if n == 0 then 1 else n * Factorial(n - 1)
  }

  // The digit of weight k! in the factorial-base expansion of id.
  function Digit(id: nat, k: nat): (d: nat)
    ensures d <= k
  {
    id / Factorial(k) % (k + 1)
  }

  function Identity(n: nat): (s: seq<int>)
    ensures |s| == n && forall i :: 0 <= i < n ==> s[i] == i
  {
    seq(n, i => i)
  }

  function Swap(s: seq<int>, i: nat, j: nat): (t: seq<int>)
    requires i < |s| && j < |s|
    ensures |t| == |s|
  {
    s[i := s[j]][j := s[i]]
  }

  // The contents of m_state before the loop iteration with counter k.
  function State(n: nat, id: nat, k: nat): (s: seq<int>)
    requires 1 <= k <= n
    ensures |s| == n
  {
    if k == 1 then Identity(n)
    else Swap(State(n, id, k - 1), k - 1, k - 1 - Digit(id, k - 1))
  }

  function Unrank(n: nat, id: nat): (s: seq<int>)
    requires 1 <= n
    ensures |s| == n
  {
    State(n, id, n)
  }

  ghost predicate IsPermutation(s: seq<int>, n: nat) {
    multiset(s) == multiset(Identity(n))
  }

  // ----- Permutations

  lemma PermutationElements(s: seq<int>, n: nat)
    requires IsPermutation(s, n)
    ensures |s| == n
    ensures forall v :: v in s <==> 0 <= v < n
    ensures forall k :: 0 <= k < n ==> 0 <= s[k] < n
  {
    assert |s| == |multiset(s)| == |multiset(Identity(n))| == n;
    forall v
      ensures v in s <==> 0 <= v < n
    {
      assert v in s <==> v in multiset(s);
      assert v in Identity(n) <==> v in multiset(Identity(n));
      if 0 <= v < n { assert Identity(n)[v] == v; }
    }
    assert forall k :: 0 <= k < n ==> s[k] in s;
  }

  lemma {:induction false} SwapPermutes(s: seq<int>, i: nat, j: nat)
    requires i < |s| && j < |s|
    ensures multiset(Swap(s, i, j)) == multiset(s)
    ensures Swap(Swap(s, i, j), i, j) == s
  {
  }

  lemma SwapStaysPermutation(s: seq<int>, n: nat, i: nat, j: nat)
    requires i < |s| && j < |s| && IsPermutation(s, n)
    ensures IsPermutation(Swap(s, i, j), n)
  {
    SwapPermutes(s, i, j);
  }

  // Two entries change places and no other entry changes.
  lemma SwapExchanges(s: seq<int>, i: nat, j: nat)
    requires i < |s| && j < |s|
    ensures var t := Swap(s, i, j);
            && t[i] == s[j] && t[j] == s[i]
            && forall m :: 0 <= m < |s| && m != i && m != j ==> t[m] == s[m]
  {
  }

  lemma SwapKeepsTail(s: seq<int>, i: nat, j: nat, k: nat)
    requires i < k && j < k && k <= |s|
    ensures forall m :: k <= m < |s| ==> Swap(s, i, j)[m] == s[m]
  {
  }

  lemma StateStep(n: nat, id: nat, k: nat, r: nat)
    requires 1 <= k < n && r == Digit(id, k)
    ensures State(n, id, k + 1) == if r > 0 then Swap(State(n, id, k), k, k - r) else State(n, id, k)
  {
    var s := State(n, id, k);
    assert Swap(s, k, k) == s;
  }

  // One iteration of the loop exchanges the entries at k and k - r, where r is the remainder
  // of the id divided by k! modulo k + 1, and changes no other entry.
  lemma StateExchange(n: nat, id: nat, k: nat)
    requires 1 <= k < n
    ensures Unrank(n, id) == State(n, id, n) && forall j :: 0 <= j < n ==> State(n, id, 1)[j] == j
    ensures var s, t, p := State(n, id, k), State(n, id, k + 1), k - id / Factorial(k) % (k + 1);
            && 0 <= p <= k && t[k] == s[p] && t[p] == s[k]
            && forall m :: 0 <= m < n && m != k && m != p ==> t[m] == s[m]
  {
    var d := Digit(id, k);
    assert State(n, id, k + 1) == Swap(State(n, id, k), k, k - d);
    SwapExchanges(State(n, id, k), k, k - d);
  }

  // Route 18 of four cities has the digits 0, 0 and 3: the first and the last city change places.
  lemma {:induction false} Route18OfFour(n: nat)
    requires n == 4
    ensures Unrank(n, 18) == [3, 1, 2, 0]
  {
    assert Factorial(1) == 1 && Factorial(2) == 2 && Factorial(3) == 6;
    assert Digit(18, 1) == 0 && Digit(18, 2) == 0 && Digit(18, 3) == 3;
    assert State(n, 18, 1) == [0, 1, 2, 3];
    assert State(n, 18, 2) == [0, 1, 2, 3];
    assert State(n, 18, 3) == [0, 1, 2, 3];
    assert State(n, 18, 4) == [3, 1, 2, 0];
  }

  // s permutes the first k values and keeps the others in place.
  ghost predicate PermutedBelow(s: seq<int>, n: nat, k: nat) {
    IsPermutation(s, n) && |s| == n && forall j :: k <= j < n ==> s[j] == j
  }

  lemma RearrangedBelow(s: seq<int>, t: seq<int>, n: nat, k: nat)
    requires 1 <= k <= n && PermutedBelow(s, n, k - 1)
    requires |t| == |s| && multiset(t) == multiset(s) && forall m :: k <= m < |s| ==> t[m] == s[m]
    ensures PermutedBelow(t, n, k)
  {
  }

  lemma SwapBelow(s: seq<int>, n: nat, k: nat, p: nat)
    requires 1 <= k <= n && p < k && PermutedBelow(s, n, k - 1)
    ensures PermutedBelow(Swap(s, k - 1, p), n, k)
  {
    SwapPermutes(s, k - 1, p);
    SwapKeepsTail(s, k - 1, p, k);
    RearrangedBelow(s, Swap(s, k - 1, p), n, k);
  }

  lemma StateIsSwap(n: nat, id: nat, k: nat)
    requires 2 <= k <= n
    ensures State(n, id, k) == Swap(State(n, id, k - 1), k - 1, k - 1 - Digit(id, k - 1))
  {
  }

  lemma StateStaysBelow(n: nat, id: nat, k: nat, before: seq<int>, p: nat)
    requires 2 <= k <= n && before == State(n, id, k - 1) && p == k - 1 - Digit(id, k - 1)
    requires PermutedBelow(before, n, k - 1)
    ensures PermutedBelow(State(n, id, k), n, k)
  {
    SwapBelow(before, n, k, p);
    StateIsSwap(n, id, k);
  }

  lemma {:induction false} StatePermutedBelow(n: nat, id: nat, k: nat)
    requires 1 <= k <= n
    ensures PermutedBelow(State(n, id, k), n, k)
  {
    if k == 1 {
    } else {
      StatePermutedBelow(n, id, k - 1);
      StateStaysBelow(n, id, k, State(n, id, k - 1), k - 1 - Digit(id, k - 1));
    }
  }

  lemma {:induction false} StatePermutes(n: nat, id: nat, k: nat)
    requires 1 <= k <= n
    ensures IsPermutation(State(n, id, k), n)
    ensures forall j :: k <= j < n ==> State(n, id, k)[j] == j
  {
    StatePermutedBelow(n, id, k);
  }

  lemma {:induction false} UnrankPermutes(n: nat, id: nat)
    requires 1 <= n
    ensures IsPermutation(Unrank(n, id), n)
    ensures forall k :: 0 <= k < n ==> 0 <= Unrank(n, id)[k] < n
  {
    StatePermutes(n, id, n);
    PermutationElements(Unrank(n, id), n);
  }

  // ----- The factorial number system

  // The value of the digits of weight below k!.
  function DigitSum(id: nat, k: nat): nat {
    if k == 0 then 0 else Digit(id, k - 1) * Factorial(k - 1) + DigitSum(id, k - 1)
  }

  lemma FactorialStep(k: nat)
    ensures Factorial(k + 1) == Factorial(k) * (k + 1)
  {
  }

  lemma {:induction false} DigitsDetermineRemainder(id: nat, k: nat)
    ensures id % Factorial(k) == DigitSum(id, k)
  {
    if k == 0 {
    } else {
      DigitsDetermineRemainder(id, k - 1);
      FactorialStep(k - 1);
      MixedRadixStep(id, Factorial(k - 1), k);
    }
  }

  // Every id below n! is the sum of its digits, each within its radix.
  lemma FactorialBase(n: nat, id: nat)
    requires id < Factorial(n)
    ensures id == DigitSum(id, n)
    ensures forall k :: 0 <= k ==> 0 <= Digit(id, k) <= k
  {
    DigitsDetermineRemainder(id, n);
    DivModUnique(id, Factorial(n), 0, id);
  }

  // Digits of weight below k! depend on id modulo k! only.
  lemma {:induction false} DigitOfRemainder(id: nat, j: nat, k: nat)
    requires j < k
    ensures Digit(id % Factorial(k), j) == Digit(id, j)
    decreases k
  {
    FactorialStep(k - 1);
    MixedRadixStep(id, Factorial(k - 1), k);
    var r := id % Factorial(k);
    if j == k - 1 {
      MixedRadixStep(r, Factorial(j), k);
      DivModUnique(r, Factorial(k), 0, r);
    } else {
      DigitOfRemainder(id, j, k - 1);
      DigitOfRemainder(r, j, k - 1);
    }
  }

  lemma {:induction false} StateOfRemainder(n: nat, id: nat, k: nat, m: nat)
    requires 1 <= k <= n && k <= m
    ensures State(n, id % Factorial(m), k) == State(n, id, k)
  {
    if k <= 1 {
    } else {
      StateOfRemainder(n, id, k - 1, m);
      DigitOfRemainder(id, k - 1, m);
    }
  }

  // ----- The inverse

  // A position of v in s; the only one when s is a permutation.
  ghost function IndexOf(s: seq<int>, v: int): (p: nat)
    requires v in s
    ensures p < |s| && s[p] == v
  {
    var p: nat :| p < |s| && s[p] == v;
    p
  }

  ghost predicate Settled(s: seq<int>, n: nat, k: nat) {
    |s| == n && IsPermutation(s, n) && forall j :: k < j < n ==> s[j] == j
  }

  lemma PositionOfTop(s: seq<int>, n: nat, k: nat)
    requires k < n && Settled(s, n, k)
    ensures k in s && IndexOf(s, k) <= k
  {
    PermutationElements(s, n);
  }

  // Swap value k, wherever it is, back to position k.
  ghost function UndoSwap(s: seq<int>, n: nat, k: nat): (t: seq<int>)
    requires 0 < k < n && Settled(s, n, k)
    ensures k in s && IndexOf(s, k) <= k
    ensures t == Swap(s, k, IndexOf(s, k))
    ensures Settled(t, n, k - 1)
  {
    PositionOfTop(s, n, k);
    SwapPermutes(s, k, IndexOf(s, k));
    Swap(s, k, IndexOf(s, k))
  }

  // Undo the swaps from the last one back: value k shows how far it was moved.
  ghost function RankFrom(s: seq<int>, n: nat, k: nat): nat
    requires k < n && Settled(s, n, k)
    decreases k
  {
    if k == 0 then 0
    else
      var t := UndoSwap(s, n, k);
      var d: nat := k - IndexOf(s, k);
      d * Factorial(k) + RankFrom(t, n, k - 1)
  }

  ghost function Rank(s: seq<int>, n: nat): nat
    requires 1 <= n && IsPermutation(s, n)
  {
    PermutationElements(s, n);
    RankFrom(s, n, n - 1)
  }

  lemma RepeatedElement(s: seq<int>, i: nat, j: nat)
    requires i < j < |s| && s[i] == s[j]
    ensures multiset(s)[s[i]] >= 2
  {
    assert s == s[..i] + [s[i]] + s[i + 1..j] + [s[j]] + s[j + 1..];
  }

  lemma IdentityCount(n: nat, v: nat)
    requires v < n
    ensures multiset(Identity(n))[v] == 1
  {
    var s := Identity(n);
    assert s == s[..v] + [v] + s[v + 1..];
    assert v !in s[..v] && v !in s[v + 1..];
  }

  lemma DistinctPositions(s: seq<int>, n: nat, i: nat, j: nat)
    requires IsPermutation(s, n) && i < j < |s|
    ensures s[i] != s[j]
  {
    PermutationElements(s, n);
    assert s[i] in s;
    IdentityCount(n, s[i]);
    if s[i] == s[j] {
      RepeatedElement(s, i, j);
    }
  }

  lemma IndexOfUnique(s: seq<int>, n: nat, v: int, p: nat)
    requires IsPermutation(s, n) && p < |s| && s[p] == v
    ensures IndexOf(s, v) == p
  {
    var q := IndexOf(s, v);
    if q < p { DistinctPositions(s, n, q, p); }
    if p < q { DistinctPositions(s, n, p, q); }
  }

  // A swap of value k from position k downwards can be read off its result.
  lemma SwapDetermines(s: seq<int>, t: seq<int>, n: nat, k: nat, p: nat, q: nat)
    requires k < n && IsPermutation(s, n) && |s| == |t| == n
    requires s[k] == k && t[k] == k && p <= k && q <= k
    requires Swap(s, k, p) == Swap(t, k, q)
    ensures p == q && s == t
  {
    var u := Swap(s, k, p);
    SwapPermutes(s, k, p);
    SwapPermutes(t, k, q);
    assert u[p] == k && u[q] == k;
    IndexOfUnique(u, n, k, p);
    IndexOfUnique(u, n, k, q);
  }

  // Undoing the swap of iteration k gives back the state before it.
  lemma {:induction false} UndoneState(n: nat, id: nat, k: nat)
    requires 0 < k < n
    ensures Settled(State(n, id, k + 1), n, k)
    ensures UndoSwap(State(n, id, k + 1), n, k) == State(n, id, k)
    ensures IndexOf(State(n, id, k + 1), k) == k - Digit(id, k)
  {
    var before, after := State(n, id, k), State(n, id, k + 1);
    StatePermutes(n, id, k);
    StatePermutes(n, id, k + 1);
    SwapPermutes(before, k, k - Digit(id, k));
    IndexOfUnique(after, n, k, k - Digit(id, k));
  }

  lemma {:induction false} RankFromState(n: nat, id: nat, k: nat)
    requires k < n
    ensures Settled(State(n, id, k + 1), n, k)
    ensures RankFrom(State(n, id, k + 1), n, k) == id % Factorial(k + 1)
  {
    StatePermutes(n, id, k + 1);
    if k == 0 {
    } else {
      UndoneState(n, id, k);
      RankFromState(n, id, k - 1);
      assert id % Factorial(k + 1) == Digit(id, k) * Factorial(k) + id % Factorial(k) by {
        FactorialStep(k);
        MixedRadixStep(id, Factorial(k), k + 1);
      }
    }
  }

  lemma {:induction false} SettledFromZero(s: seq<int>, n: nat)
    requires 0 < n && Settled(s, n, 0)
    ensures s == Identity(n)
  {
    PermutationElements(s, n);
    PositionOfTop(s, n, 0);
  }

  lemma {:induction false} RedoSwap(s: seq<int>, n: nat, k: nat, p: nat, r: nat)
    requires 0 < k < n && |s| == n && p <= k
    requires Digit(r, k) == k - p
    requires State(n, r % Factorial(k), k) == Swap(s, k, p)
    ensures State(n, r, k + 1) == s
  {
    StateOfRemainder(n, r, k, k);
    SwapPermutes(s, k, p);
  }

  lemma {:induction false} StateOfRankFrom(s: seq<int>, n: nat, k: nat)
    requires k < n && Settled(s, n, k)
    ensures RankFrom(s, n, k) < Factorial(k + 1)
    ensures State(n, RankFrom(s, n, k), k + 1) == s
    decreases k
  {
    if k == 0 {
      SettledFromZero(s, n);
    } else {
      var s' := UndoSwap(s, n, k);
      var p := IndexOf(s, k);
      StateOfRankFrom(s', n, k - 1);
      var d: nat, f, r' := k - p, Factorial(k), RankFrom(s', n, k - 1);
      var r := RankFrom(s, n, k);
      assert r == d * f + r';
      assert r < f * (k + 1) && Digit(r, k) == d && r % f == r' by {
        LeadingDigit(f, k, d, r');
      }
      assert r < Factorial(k + 1) by {
        FactorialStep(k);
      }
      RedoSwap(s, n, k, p, r);
    }
  }

  // Unranking is a bijection from [0, n!) onto the permutations of 0..n-1.
  lemma {:induction false} RankUnrank(n: nat, id: nat)
    requires 1 <= n && id < Factorial(n)
    ensures IsPermutation(Unrank(n, id), n)
    ensures Rank(Unrank(n, id), n) == id
  {
    StatePermutes(n, id, n);
    RankFromState(n, id, n - 1);
    DivModUnique(id, Factorial(n), 0, id);
  }

  lemma {:induction false} UnrankRank(s: seq<int>, n: nat)
    requires 1 <= n && IsPermutation(s, n)
    ensures Rank(s, n) < Factorial(n)
    ensures Unrank(n, Rank(s, n)) == s
  {
    PermutationElements(s, n);
    StateOfRankFrom(s, n, n - 1);
  }

  lemma UnrankInjective(n: nat, a: nat, b: nat)
    requires 1 <= n && a < Factorial(n) && b < Factorial(n)
    ensures Unrank(n, a) == Unrank(n, b) <==> a == b
  {
    RankUnrank(n, a);
    RankUnrank(n, b);
  }

  // ----- The iterator object

  // int_div
  method IntDiv(k: nat, divisor: nat) returns (q: nat, r: nat)
    requires 0 < divisor
    ensures q == k / divisor && r == k % divisor
  {
    q := k / divisor;
    assert divisor * q <= k;
    r := k - divisor * q;
  }

  method SwapEntries(a: array<int>, i: nat, j: nat)
    requires i < a.Length && j < a.Length
    modifies a
    ensures a[i] == old(a[j]) && a[j] == old(a[i])
    ensures forall m :: 0 <= m < a.Length && m != i && m != j ==> a[m] == old(a[m])
    ensures a[..] == Swap(old(a[..]), i, j)
  {
    var c := a[i];
    a[i] := a[j];
    a[j] := c;
  }

  // The two initialising loops of the constructor.
  method FillIdentity(a: array<int>)
    modifies a
    ensures a[..] == Identity(a.Length)
  {
    for k := 0 to a.Length
    {
      a[k] := -1;
    }
    for k := 0 to a.Length
      invariant forall j :: 0 <= j < k ==> a[j] == j
    {
      a[k] := k;
    }
  }

  // The decoding loop of the constructor.
  method ApplyDigits(a: array<int>, routeId: nat)
    requires 2 <= a.Length && a[..] == Identity(a.Length)
    modifies a
    ensures a[..] == Unrank(a.Length, routeId)
  {
    var n := a.Length;
    var divisor := 1;
    var iter := routeId;
    for k := 1 to n
      invariant divisor == Factorial(k) >= 1
      invariant a[..] == State(n, routeId, k)
    {
      QuotientIsNat(iter, divisor);
      var q, r := IntDiv(iter / divisor, k + 1);
      StateStep(n, routeId, k, r);
      if r > 0 {
        SwapEntries(a, k, k - r);
      }
      FactorialStep(k);
      divisor := divisor * (k + 1);
    }
  }

  class RouteIterator {
    const n: nat
    const routeId: nat
    const state: array<int>
    var i: nat

    ghost predicate Valid()
      reads this, state
    {
      && 2 <= n && routeId < Factorial(n)
      && state[..] == Unrank(n, routeId)
      && i < n
    }

    // The two assertions of the source are the preconditions.
    constructor (n: nat, routeId: nat)
      requires 2 <= n && routeId < Factorial(n)
      ensures Valid() && fresh(state)
      ensures this.n == n && this.routeId == routeId && i == 0
    {
      var a := new int[n];
      FillIdentity(a);
      ApplyDigits(a, routeId);
      this.n := n;
      this.routeId := routeId;
      this.state := a;
      this.i := 0;
    }

    predicate Done()
      reads this
    {
      i == n - 1
    }

    method First() returns (city: int)
      requires Valid()
      modifies this
      ensures Valid() && i == 0
      ensures city == Unrank(n, routeId)[0]
    {
      i := 0;
      city := state[0];
      assert city == state[..][0];
    }

    method Next() returns (city: int)
      requires Valid() && !Done()
      modifies this
      ensures Valid() && i == old(i) + 1
      ensures city == Unrank(n, routeId)[i]
    {
      i := i + 1;
      city := state[i];
      assert city == state[..][i];
    }
  }
}
