// The concurrent float sum 0 + 1 + ... + (n - 1), by atomic additions and by an
// OpenMP reduction, and its comparison with the closed form.
module FloatSum {
  import opened GeneralizedSum
  import opened Weights

  // ----- Single-precision arithmetic

  // Integers up to this magnitude have a significand that fits.
  const EXACT_LIMIT: int := 0x100_0000

  function Round(fl: real -> real, x: real): real {
    fl(x)
  }

  // Rounding leaves this integer alone.
  predicate Exact(fl: real -> real, m: int) {
    Round(fl, m as real) == m as real
  }

  // All that is assumed of rounding to binary32: integers that fit into its 24-bit
  // significand, and their doubles, are left alone.
  ghost predicate ExactOnIntegers(fl: real -> real) {
    forall m :: -EXACT_LIMIT <= m <= EXACT_LIMIT ==> Exact(fl, m) && Exact(fl, 2 * m)
  }

  lemma SmallIntegerIsExact(fl: real -> real, m: int)
    requires ExactOnIntegers(fl) && -EXACT_LIMIT <= m <= EXACT_LIMIT
    ensures Round(fl, m as real) == m as real
  {
    assert Exact(fl, m);
  }

  lemma SmallEvenIntegerIsExact(fl: real -> real, m: int)
    requires ExactOnIntegers(fl) && -EXACT_LIMIT <= m <= EXACT_LIMIT
    ensures Round(fl, (2 * m) as real) == (2 * m) as real
  {
    assert Exact(fl, m);
    assert Exact(fl, 2 * m);
  }

  function Minus(fl: real -> real, x: real, y: real): real {
    Round(fl, x - y)
  }

  function Times(fl: real -> real, x: real, y: real): real {
    Round(fl, x * y)
  }

  function Add(fl: real -> real): (real, real) -> real {
    (x, y) => Round(fl, x + y)
  }

  // ----- The expected value

  // 0 + 1 + ... + (n - 1)
  function Total(n: nat): nat {
    if n == 0 then 0 else Total(n - 1) + (n - 1)
  }

  lemma {:induction false} TotalClosedForm(n: nat)
    ensures 2 * Total(n) == n * (n - 1)
  {
    if n == 0 {
    } else {
      TotalClosedForm(n - 1);
    }
  }

  // (float)(((float)N - 1) * (float)N) / 2.0, rounded where the source rounds.
  function Expect(fl: real -> real, n: nat): real {
    Round(fl, Times(fl, Minus(fl, Round(fl, n as real), 1.0), Round(fl, n as real)) / 2.0)
  }

  lemma {:induction false} TotalGrows(m: nat, n: nat)
    requires m <= n
    ensures Total(m) <= Total(n)
  {
    if m == n {
    } else {
      TotalGrows(m, n - 1);
    }
  }

  // The bound on the total, as a bound on the number of iterations.
  lemma {:induction false} SizeBound(n: nat)
    ensures Total(n) <= EXACT_LIMIT <==> n <= 5793
  {
    TotalClosedForm(5793);
    TotalClosedForm(5794);
    if n <= 5793 {
      TotalGrows(n, 5793);
    } else {
      TotalGrows(5794, n);
    }
  }

  lemma ProductAsReal(x: int, y: int)
    ensures (x * y) as real == x as real * y as real
  {
  }

  lemma TimesOfProduct(fl: real -> real, x: real, y: real, product: real)
    requires x * y == product
    ensures Times(fl, x, y) == Round(fl, product)
  {
  }

  // The product is even, so one extra bit is available for it.
  lemma ExpectIsTotal(fl: real -> real, n: nat)
    requires ExactOnIntegers(fl) && Total(n) <= EXACT_LIMIT
    ensures Expect(fl, n) == Total(n) as real
  {
    SizeBound(n);
    var x := Round(fl, n as real);
    assert x == n as real by { SmallIntegerIsExact(fl, n); }
    var y := Minus(fl, x, 1.0);
    assert y == (n - 1) as real by {
      assert x - 1.0 == (n - 1) as real;
      SmallIntegerIsExact(fl, n - 1);
    }
    var z := Times(fl, y, x);
    assert z == (2 * Total(n)) as real by {
      TotalClosedForm(n);
      ProductAsReal(n - 1, n);
      TimesOfProduct(fl, y, x, (2 * Total(n)) as real);
      SmallEvenIntegerIsExact(fl, Total(n));
    }
    assert z / 2.0 == Total(n) as real;
    SmallIntegerIsExact(fl, Total(n));
  }

  // ----- Atomic additions

  // The progress of one loop iteration: with a compare-and-swap loop, the
  // accumulator is loaded and the sum is stored only if it is still unchanged.
  datatype Update = Pending | Loaded(seen: real) | Committed

  function CommittedValue(i: nat, u: Update): nat {
    if u.Committed? then i else 0
  }

  function RemainingValue(i: nat, u: Update): nat {
    if u.Committed? then 0 else i
  }

  function Open(i: nat, u: Update): nat {
    if u.Committed? then 0 else 1
  }

  // An iteration whose next step cannot commit because its load is missing or stale.
  function Stale(acc: real): (nat, Update) -> nat {
    (i, u) => if u == Committed || u == Loaded(acc) then 0 else 1
  }

  // Whatever has been committed, committed and remaining work add up to the total.
  lemma {:induction false} Conservation(work: seq<Update>)
    ensures Sum(CommittedValue, work) + Sum(RemainingValue, work) == Total(|work|)
  {
    if work == [] {
    } else {
      Conservation(work[..|work| - 1]);
    }
  }

  lemma {:induction false} AllCommitted(work: seq<Update>)
    requires forall i :: 0 <= i < |work| ==> work[i].Committed?
    ensures Sum(CommittedValue, work) == Total(|work|)
  {
    if work == [] {
    } else {
      AllCommitted(work[..|work| - 1]);
    }
  }

  lemma {:induction false} NoneCommitted(work: seq<Update>)
    requires forall i :: 0 <= i < |work| ==> work[i].Pending?
    ensures Sum(CommittedValue, work) == 0
  {
    if work == [] {
    } else {
      NoneCommitted(work[..|work| - 1]);
    }
  }

  // Adding one more term to the committed ones stays within the exact range.
  lemma CommitIsExact(fl: real -> real, work: seq<Update>, i: nat)
    requires ExactOnIntegers(fl) && Total(|work|) <= EXACT_LIMIT
    requires i < |work| && !work[i].Committed?
    ensures Sum(CommittedValue, work[i := Committed]) == Sum(CommittedValue, work) + i
    ensures Round(fl, Sum(CommittedValue, work) as real + Round(fl, i as real))
         == (Sum(CommittedValue, work) + i) as real
  {
    Conservation(work[i := Committed]);
    SumOfUpdate(CommittedValue, work, i, Committed);
    SmallIntegerIsExact(fl, i);
    SmallIntegerIsExact(fl, Sum(CommittedValue, work) + i);
  }

  class AtomicSum {
    const n: nat
    const fl: real -> real
    var acc: real
    var work: seq<Update>

    ghost predicate Valid()
      reads this
    {
      && ExactOnIntegers(fl) && Total(n) <= EXACT_LIMIT
      && |work| == n
      && acc == Sum(CommittedValue, work) as real
    }

    constructor (n: nat, fl: real -> real)
      requires ExactOnIntegers(fl) && Total(n) <= EXACT_LIMIT
      ensures Valid() && this.n == n && this.fl == fl
      ensures forall i :: 0 <= i < n ==> work[i].Pending?
    {
      this.n := n;
      this.fl := fl;
      acc := 0.0;
      work := seq(n, _ => Pending);
      new;
      NoneCommitted(work);
    }

    // The addition of iteration i takes effect; the sum is exact.
    method Commit(i: nat)
      requires Valid() && i < n && !work[i].Committed?
      modifies this
      ensures Valid() && work == old(work)[i := Committed]
      ensures acc == old(acc) + i as real
    {
      CommitIsExact(fl, work, i);
      acc := Round(fl, acc + Round(fl, i as real));
      work := work[i := Committed];
    }

    // A hardware atomic addition is one step.
    method RunFastAtomics()
      requires Valid()
      modifies this
      ensures Valid() && acc == Total(n) as real
    {
      while exists i :: 0 <= i < n && !work[i].Committed?
        invariant Valid()
        decreases Sum(Open, work)
      {
        var i :| 0 <= i < n && !work[i].Committed?;
        SumOfUpdate(Open, work, i, Committed);
        Commit(i);
      }
      AllCommitted(work);
    }

    // One step of the compare-and-swap loop of iteration i.
    method CasStep(i: nat)
      requires Valid() && i < n && !work[i].Committed?
      modifies this
      ensures Valid()
      ensures if old(work[i] == Loaded(acc))
              then work == old(work)[i := Committed] && acc == old(acc) + i as real
              else work == old(work)[i := Loaded(old(acc))] && acc == old(acc)
    {
      if work[i] == Loaded(acc) {
        Commit(i);
      } else {
        SumOfUpdate(CommittedValue, work, i, Loaded(acc));
        work := work[i := Loaded(acc)];
      }
    }

    // Unfinished iterations step in an arbitrary order. A failed compare-and-swap
    // is repeated, but every run ends: some iteration has committed in between.
    method RunCasLoops()
      requires Valid()
      modifies this
      ensures Valid() && acc == Total(n) as real
    {
      while exists i :: 0 <= i < n && !work[i].Committed?
        invariant Valid()
        decreases Sum(Open, work), Sum(Stale(acc), work)
      {
        var i :| 0 <= i < n && !work[i].Committed?;
        SumOfUpdate(Open, work, i, Committed);
        SumOfUpdate(Open, work, i, Loaded(acc));
        SumOfUpdate(Stale(acc), work, i, Loaded(acc));
        CasStep(i);
      }
      AllCommitted(work);
    }
  }

  // ----- The reduction

  // The addends of a reduction: every iteration once, and any number of zeros
  // (the private copies and the original variable start at zero).
  ghost predicate Covers(p: Plan, n: nat) {
    && InRange(Leaves(p), n)
    && forall i :: 0 <= i < n ==> multiset(Leaves(p))[At(i)] == 1
  }

  function Addends(fl: real -> real, n: nat): seq<real> {
    seq(n, i requires 0 <= i < n => Round(fl, i as real))
  }

  function LeafTotal(p: Plan): nat {
    match p
    case Leaf(Init) => 0
    case Leaf(At(i)) => i
    case Node(l, r) => LeafTotal(l) + LeafTotal(r)
  }

  function Copies(i: nat, count: nat): nat {
    i * count
  }

  lemma CopiesAdd(i: nat, x: nat, y: nat)
    ensures Copies(i, x + y) == Copies(i, x) + Copies(i, y)
    ensures Copies(i, 0) == 0 && Copies(i, 1) == i
  {
  }

  function Weighted(m: multiset<Slot>, n: nat): nat {
    if n == 0 then 0 else Weighted(m, n - 1) + Copies(n - 1, m[At(n - 1)])
  }

  lemma {:induction false} WeightedAdds(a: multiset<Slot>, b: multiset<Slot>, n: nat)
    ensures Weighted(a + b, n) == Weighted(a, n) + Weighted(b, n)
  {
    if n == 0 {
    } else {
      WeightedAdds(a, b, n - 1);
      CopiesAdd(n - 1, a[At(n - 1)], b[At(n - 1)]);
      assert (a + b)[At(n - 1)] == a[At(n - 1)] + b[At(n - 1)];
    }
  }

  lemma {:induction false} WeightedSingleton(s: Slot, n: nat)
    ensures Weighted(multiset{s}, n) == if s.At? && s.i < n then s.i else 0
  {
    if n == 0 {
    } else {
      WeightedSingleton(s, n - 1);
      CopiesAdd(n - 1, 0, 1);
    }
  }

  lemma {:induction false} LeafTotalIsWeighted(p: Plan, n: nat)
    requires InRange(Leaves(p), n)
    ensures LeafTotal(p) == Weighted(multiset(Leaves(p)), n)
  {
    match p
    case Leaf(s) =>
      assert s in Leaves(p);
      WeightedSingleton(s, n);
      assert multiset(Leaves(p)) == multiset{s};
    case Node(l, r) =>
      InRangeNode(l, r, n);
      LeafTotalIsWeighted(l, n);
      LeafTotalIsWeighted(r, n);
      WeightedAdds(multiset(Leaves(l)), multiset(Leaves(r)), n);
      assert multiset(Leaves(p)) == multiset(Leaves(l)) + multiset(Leaves(r));
  }

  lemma {:induction false} WeightedOnce(m: multiset<Slot>, n: nat)
    requires forall i :: 0 <= i < n ==> m[At(i)] == 1
    ensures Weighted(m, n) == Total(n)
  {
    if n == 0 {
    } else {
      WeightedOnce(m, n - 1);
      CopiesAdd(n - 1, 0, 1);
    }
  }

  // No partial sum of any subtree is rounded.
  lemma {:induction false} ReductionIsExact(fl: real -> real, n: nat, p: Plan)
    requires ExactOnIntegers(fl) && InRange(Leaves(p), n)
    requires LeafTotal(p) <= EXACT_LIMIT
    ensures Reduce(Add(fl), 0.0, Addends(fl, n), p) == LeafTotal(p) as real
  {
    match p
    case Leaf(Init) =>
    case Leaf(At(i)) =>
      assert At(i) in Leaves(p);
      SmallIntegerIsExact(fl, i);
    case Node(l, r) =>
      InRangeNode(l, r, n);
      ReductionIsExact(fl, n, l);
      ReductionIsExact(fl, n, r);
      SmallIntegerIsExact(fl, LeafTotal(p));
  }

  // Every grouping and order of a reduction gives the exact total.
  lemma ReductionSum(fl: real -> real, n: nat, p: Plan)
    requires ExactOnIntegers(fl) && Covers(p, n) && Total(n) <= EXACT_LIMIT
    ensures Reduce(Add(fl), 0.0, Addends(fl, n), p) == Total(n) as real
  {
    LeafTotalIsWeighted(p, n);
    WeightedOnce(multiset(Leaves(p)), n);
    ReductionIsExact(fl, n, p);
  }

  // ----- main

  // The N of the source is within the bound.
  lemma SourceSizeIsExact()
    ensures Total(5001) <= EXACT_LIMIT
  {
    SizeBound(5001);
  }

  // The three sums are exact and agree with the expected value whatever the schedules,
  // so the return code is 0.
  method CompareSums(n: nat, fl: real -> real, plan: Plan) returns (rc: int, a: real, casa: real, ra: real)
    requires ExactOnIntegers(fl) && Covers(plan, n) && Total(n) <= EXACT_LIMIT
    ensures rc == 0
    ensures a == casa == ra == Expect(fl, n) == Total(n) as real
  {
    ExpectIsTotal(fl, n);
    ReductionSum(fl, n, plan);
    rc := 0;
    var fast := new AtomicSum(n, fl);
    fast.RunFastAtomics();
    a := fast.acc;
    if a != Expect(fl, n) { rc := 1; }
    var cas := new AtomicSum(n, fl);
    cas.RunCasLoops();
    casa := cas.acc;
    if casa != Expect(fl, n) { rc := 1; }
    ra := Reduce(Add(fl), 0.0, Addends(fl, n), plan);
    if ra != Expect(fl, n) { rc := 1; }
  }
}
