// The BabelStream driver: the benchmark loops, the scalar simulation of them, and
// the validation of the arrays against it.
module BabelCheck {
  import opened GeneralizedSum
  import opened BabelStream

  datatype Selection = All | TriadOnly | NstreamOnly

  function KernelsOf(sel: Selection): seq<Kernel> {
    match sel
    case All => [Copy, Mul, Add, Triad]
    case TriadOnly => [Triad]
    case NstreamOnly => [Nstream]
  }

  // One index of the arrays after the given number of iterations of the benchmark.
  function Iterate<T>(ar: Arith<T>, scalar: T, sel: Selection, times: nat, e: Cell<T>): Cell<T> {
    if times == 0 then e
    else ApplyAll(ar, scalar, KernelsOf(sel), Iterate(ar, scalar, sel, times - 1, e))
  }

  // ----- The scalar simulation

  function GoldStep<T>(ar: Arith<T>, scalar: T, sel: Selection, g: Cell<T>): Cell<T> {
    match sel
    case All =>
      var goldC := g.a;
      var goldB := ar.times(scalar, goldC);
      var goldC' := ar.plus(g.a, goldB);
      Cell(ar.plus(goldB, ar.times(scalar, goldC')), goldB, goldC')
    case TriadOnly =>
      g.(a := ar.plus(g.b, ar.times(scalar, g.c)))
    case NstreamOnly =>
      g.(a := ar.plus(g.a, ar.plus(g.b, ar.times(scalar, g.c))))
  }

  function Gold<T>(ar: Arith<T>, scalar: T, sel: Selection, times: nat, start: Cell<T>): Cell<T> {
    if times == 0 then start else GoldStep(ar, scalar, sel, Gold(ar, scalar, sel, times - 1, start))
  }

  // ----- Lockstep of the arrays and the simulation

  lemma {:induction false} FourKernels<T>(
    ar: Arith<T>, scalar: T, k0: Kernel, k1: Kernel, k2: Kernel, k3: Kernel, e: Cell<T>)
    ensures ApplyAll(ar, scalar, [k0, k1, k2, k3], e)
         == Apply(ar, scalar, k3, Apply(ar, scalar, k2, Apply(ar, scalar, k1, Apply(ar, scalar, k0, e))))
  {
    var ks := [k0, k1, k2, k3];
    OneKernel(ar, scalar, k0, e);
    assert [k0, k1][..1] == [k0];
    assert ApplyAll(ar, scalar, [k0, k1], e) == Apply(ar, scalar, k1, Apply(ar, scalar, k0, e));
    assert [k0, k1, k2][..2] == [k0, k1];
    assert ks[..3] == [k0, k1, k2];
  }

  lemma {:induction false} OneKernel<T>(ar: Arith<T>, scalar: T, k: Kernel, e: Cell<T>)
    ensures ApplyAll(ar, scalar, [k], e) == Apply(ar, scalar, k, e)
  {
    assert [k][..0] == [];
  }

  // The nstream kernel and its simulation group the same three terms differently.
  ghost predicate NstreamRegroups<T(!new)>(ar: Arith<T>, scalar: T) {
    forall a, b, c :: ar.plus(ar.plus(a, b), ar.times(scalar, c)) == ar.plus(a, ar.plus(b, ar.times(scalar, c)))
  }

  ghost predicate InLockstep<T(!new)>(ar: Arith<T>, scalar: T, sel: Selection) {
    forall times, e :: Iterate(ar, scalar, sel, times, e) == Gold(ar, scalar, sel, times, e)
  }

  lemma {:induction false} StepAgrees<T(!new)>(ar: Arith<T>, scalar: T, sel: Selection, e: Cell<T>)
    requires sel == NstreamOnly ==> NstreamRegroups(ar, scalar)
    ensures ApplyAll(ar, scalar, KernelsOf(sel), e) == GoldStep(ar, scalar, sel, e)
  {
    match sel
    case All => FourKernels(ar, scalar, Copy, Mul, Add, Triad, e);
    case TriadOnly => OneKernel(ar, scalar, Triad, e);
    case NstreamOnly => OneKernel(ar, scalar, Nstream, e);
  }

  lemma {:induction false} IterationsAgree<T(!new)>(ar: Arith<T>, scalar: T, sel: Selection, times: nat, e: Cell<T>)
    requires sel == NstreamOnly ==> NstreamRegroups(ar, scalar)
    ensures Iterate(ar, scalar, sel, times, e) == Gold(ar, scalar, sel, times, e)
  {
    if times == 0 {
    } else {
      IterationsAgree(ar, scalar, sel, times - 1, e);
      StepAgrees(ar, scalar, sel, Gold(ar, scalar, sel, times - 1, e));
    }
  }

  // The arrays follow the simulation exactly: always for All and Triad, and for
  // Nstream exactly when the regrouping is harmless in the arithmetic used.
  lemma LockstepCondition<T(!new)>(ar: Arith<T>, scalar: T, sel: Selection)
    ensures InLockstep(ar, scalar, sel) <==> (sel == NstreamOnly ==> NstreamRegroups(ar, scalar))
  {
    if sel == NstreamOnly ==> NstreamRegroups(ar, scalar) {
      forall times: nat, e
        ensures Iterate(ar, scalar, sel, times, e) == Gold(ar, scalar, sel, times, e)
      {
        IterationsAgree(ar, scalar, sel, times, e);
      }
    } else {
      var a, b, c :| ar.plus(ar.plus(a, b), ar.times(scalar, c)) != ar.plus(a, ar.plus(b, ar.times(scalar, c)));
      var e := Cell(a, b, c);
      OneKernel(ar, scalar, Nstream, e);
      assert Iterate(ar, scalar, sel, 0, e) == e == Gold(ar, scalar, sel, 0, e);
      assert Iterate(ar, scalar, sel, 1, e) != Gold(ar, scalar, sel, 1, e);
    }
  }

  // ----- Closed forms over the reals

  function RealPlus(x: real, y: real): real {
    x + y
  }

  function RealTimes(x: real, y: real): real {
    x * y
  }

  const REALS: Arith<real> := Arith(0.0, RealPlus, RealTimes)

  lemma RealsRegroup(scalar: real)
    ensures NstreamRegroups(REALS, scalar)
  {
    forall a, b, c
      ensures REALS.plus(REALS.plus(a, b), REALS.times(scalar, c))
           == REALS.plus(a, REALS.plus(b, REALS.times(scalar, c)))
    {
      assert RealPlus(RealPlus(a, b), RealTimes(scalar, c)) == RealPlus(a, RealPlus(b, RealTimes(scalar, c)));
    }
  }

  function Pow(x: real, k: nat): real {
    if k == 0 then 1.0 else x * Pow(x, k - 1)
  }

  lemma Distribute(x: real, y: real, z: real)
    ensures x * (y + z) == x * y + x * z
    ensures (y + z) * x == y * x + z * x
  {
  }

  lemma MulAssociative(x: real, y: real, z: real)
    ensures x * (y * z) == (x * y) * z
  {
  }

  // The simulated steps in plain real arithmetic; the intermediate values have names.
  lemma AllStepOverReals(s: real, g: Cell<real>, a: real, b: real, c: real, t: real)
    requires a == g.a && b == s * a && c == a + b && t == s * c
    ensures GoldStep(REALS, s, All, g) == Cell(b + t, b, c)
  {
    assert b == RealTimes(s, a) && c == RealPlus(a, b) && t == RealTimes(s, c);
    assert GoldStep(REALS, s, All, g) == Cell(RealPlus(b, t), b, c);
  }

  lemma TriadStepOverReals(s: real, g: Cell<real>, c: real, t: real)
    requires c == g.c && t == s * c
    ensures GoldStep(REALS, s, TriadOnly, g) == Cell(g.b + t, g.b, g.c)
    ensures GoldStep(REALS, s, NstreamOnly, g) == Cell(g.a + (g.b + t), g.b, g.c)
  {
    assert t == RealTimes(s, c);
    assert GoldStep(REALS, s, TriadOnly, g) == Cell(RealPlus(g.b, t), g.b, g.c);
    assert GoldStep(REALS, s, NstreamOnly, g) == Cell(RealPlus(g.a, RealPlus(g.b, t)), g.b, g.c);
  }

  // An All step multiplies a by 2s + s^2.
  lemma AllStepScales(s: real, growth: real, a: real, g: Cell<real>)
    requires growth == 2.0 * s + s * s && g.a == a
    ensures GoldStep(REALS, s, All, g) == Cell(growth * a, s * a, (1.0 + s) * a)
  {
    var b := s * a;
    var c := a + b;
    var t := s * c;
    AllStepOverReals(s, g, a, b, c, t);
    AllFactors(s, growth, a, b, c);
  }

  lemma AllFactors(s: real, growth: real, a: real, b: real, c: real)
    requires growth == 2.0 * s + s * s && b == s * a && c == a + b
    ensures b + s * c == growth * a && c == (1.0 + s) * a
  {
    Distribute(s, a, b);
    SameProduct(b, s * a, s);
    MulAssociative(s, s, a);
    SameProduct(growth, 2.0 * s + s * s, a);
    Distribute(a, 2.0 * s, s * s);
    Distribute(a, 1.0, s);
    SameProduct(c, a + b, s);
  }

  // Multiplying a by x, k times.
  function Grown(x: real, k: nat, a: real): real {
    if k == 0 then a else x * Grown(x, k - 1, a)
  }

  lemma {:induction false} GrownIsPower(x: real, k: nat, a: real)
    ensures Grown(x, k, a) == Pow(x, k) * a
  {
    if k == 0 {
    } else {
      GrownIsPower(x, k - 1, a);
      PowerTimes(x, Pow(x, k - 1), Pow(x, k), a, Grown(x, k - 1, a));
    }
  }

  lemma {:induction false} AllGrows(s: real, growth: real, k: nat, start: Cell<real>)
    requires growth == 2.0 * s + s * s
    ensures Gold(REALS, s, All, k, start).a == Grown(growth, k, start.a)
  {
    if k == 0 {
    } else {
      AllGrows(s, growth, k - 1, start);
      AllStepScales(s, growth, Grown(growth, k - 1, start.a), Gold(REALS, s, All, k - 1, start));
    }
  }

  lemma {:induction false} AllClosedForm(s: real, growth: real, k: nat, start: Cell<real>)
    requires growth == 2.0 * s + s * s
    ensures Gold(REALS, s, All, k, start).a == Pow(growth, k) * start.a
  {
    AllGrows(s, growth, k, start);
    GrownIsPower(growth, k, start.a);
  }

  // After the first iteration b and c are fixed multiples of the previous a.
  lemma {:induction false} AllClosedFormBC(s: real, growth: real, k: nat, start: Cell<real>, a: real)
    requires growth == 2.0 * s + s * s
    requires a == Pow(growth, k) * start.a
    ensures Gold(REALS, s, All, k + 1, start).b == s * a
    ensures Gold(REALS, s, All, k + 1, start).c == (1.0 + s) * a
  {
    AllClosedForm(s, growth, k, start);
    AllStepScales(s, growth, a, Gold(REALS, s, All, k, start));
  }

  lemma PowerTimes(x: real, p: real, q: real, a: real, previous: real)
    requires q == x * p && previous == p * a
    ensures q * a == x * previous
  {
    MulAssociative(x, p, a);
    SameProduct(q, x * p, a);
    SameProduct(previous, p * a, x);
  }

  lemma SameProduct(x: real, y: real, z: real)
    requires x == y
    ensures x * z == y * z
  {
  }

  lemma {:induction false} NstreamClosedForm(s: real, increment: real, k: nat, start: Cell<real>)
    requires increment == start.b + s * start.c
    ensures Gold(REALS, s, NstreamOnly, k, start) == Cell(start.a + k as real * increment, start.b, start.c)
  {
    if k > 0 {
      NstreamClosedForm(s, increment, k - 1, start);
      var g := Gold(REALS, s, NstreamOnly, k - 1, start);
      TriadStepOverReals(s, g, start.c, s * start.c);
      var total := (k - 1) as real * increment;
      assert g.a == start.a + total;
      assert Gold(REALS, s, NstreamOnly, k, start) == Cell(start.a + total + increment, start.b, start.c);
      assert k as real * increment == total + increment by { AddOne(k, increment); }
    } else {
      SameProduct(k as real, 0.0, increment);
    }
  }

  lemma AddOne(k: nat, d: real)
    requires k > 0
    ensures k as real * d == (k - 1) as real * d + d
  {
    assert k as real == (k - 1) as real + 1.0;
    Distribute(d, (k - 1) as real, 1.0);
    SameProduct(k as real, (k - 1) as real + 1.0, d);
  }

  // Triad recomputes a from b and c: repeating it changes nothing, in any arithmetic.
  lemma {:induction false} TriadIsIdempotent<T>(ar: Arith<T>, s: T, k: nat, start: Cell<T>)
    requires 1 <= k
    ensures Gold(ar, s, TriadOnly, k, start) == Cell(ar.plus(start.b, ar.times(s, start.c)), start.b, start.c)
  {
    if k <= 1 {
    } else {
      TriadIsIdempotent(ar, s, k - 1, start);
    }
  }

  // ----- The dot product of uniform arrays

  function Elements(p: Plan): nat {
    match p
    case Leaf(s) => if s.At? then 1 else 0
    case Node(l, r) => Elements(l) + Elements(r)
  }

  function Inits(s: seq<Slot>): nat {
    multiset(s)[Init]
  }

  lemma {:induction false} ElementsAndInits(p: Plan)
    ensures Elements(p) + Inits(Leaves(p)) == |Leaves(p)|
  {
    match p
    case Leaf(s) =>
    case Node(l, r) =>
      ElementsAndInits(l);
      ElementsAndInits(r);
      assert multiset(Leaves(p)) == multiset(Leaves(l)) + multiset(Leaves(r));
  }

  lemma SlotsHaveOneInit(n: nat)
    ensures Inits(Slots(n)) == 1
  {
    var rest := Slots(n)[1..];
    forall k | 0 <= k < n
      ensures rest[k] == At(k)
    {
      assert Slots(n)[k + 1] == At(k);
    }
    assert Init !in rest;
    assert Slots(n) == [Init] + rest;
  }

  lemma {:induction false} LegalElements(p: Plan, n: nat)
    requires Legal(p, n)
    ensures Elements(p) == n
  {
    ElementsAndInits(p);
    SlotsHaveOneInit(n);
    assert |Leaves(p)| == |multiset(Leaves(p))| == |multiset(Slots(n))|;
  }

  lemma {:induction false} UniformReduce(v: real, values: seq<real>, p: Plan)
    requires InRange(Leaves(p), |values|)
    requires forall i :: 0 <= i < |values| ==> values[i] == v
    ensures Reduce(RealPlus, 0.0, values, p) == RealTimes(v, Elements(p) as real)
  {
    match p
    case Leaf(s) =>
      assert s in Leaves(p);
    case Node(l, r) =>
      InRangeNode(l, r, |values|);
      UniformReduce(v, values, l);
      UniformReduce(v, values, r);
      AddCounts(v, Elements(l), Elements(r), Elements(p));
  }

  lemma AddCounts(v: real, l: nat, r: nat, total: nat)
    requires total == l + r
    ensures RealTimes(v, total as real) == RealPlus(RealTimes(v, l as real), RealTimes(v, r as real))
  {
    assert total as real == l as real + r as real;
    Distribute(v, l as real, r as real);
  }

  // ----- Errors

  function Abs(x: real): real {
    if x < 0.0 then -x else x
  }

  // std::accumulate of |val - gold|
  function TotalError(xs: seq<real>, gold: real): real {
    if xs == [] then 0.0 else TotalError(xs[..|xs| - 1], gold) + Abs(xs[|xs| - 1] - gold)
  }

  // The error vanishes exactly when every element equals the simulated value.
  lemma {:induction false} NoError(xs: seq<real>, gold: real)
    ensures 0.0 <= TotalError(xs, gold)
    ensures TotalError(xs, gold) == 0.0 <==> forall i :: 0 <= i < |xs| ==> xs[i] == gold
  {
    if xs == [] {
    } else {
      var last := |xs| - 1;
      NoError(xs[..last], gold);
      assert forall i :: 0 <= i < last ==> xs[..last][i] == xs[i];
    }
  }

  // Deviations of size d in either direction add up to d for each element.
  lemma {:induction false} ErrorOfDeviations(xs: seq<real>, gold: real, d: real)
    requires 0.0 <= d && forall i :: 0 <= i < |xs| ==> xs[i] == gold + d || xs[i] == gold - d
    ensures TotalError(xs, gold) == |xs| as real * d
  {
    if xs == [] {
      SameProduct(|xs| as real, 0.0, d);
    } else {
      var last := |xs| - 1;
      ErrorOfDeviations(xs[..last], gold, d);
      assert xs[last] - gold == d || xs[last] - gold == -d;
      AddOne(|xs|, d);
    }
  }

  // Errors of parts of an array add up.
  lemma {:induction false} ErrorAdds(xs: seq<real>, ys: seq<real>, gold: real)
    ensures TotalError(xs + ys, gold) == TotalError(xs, gold) + TotalError(ys, gold)
  {
    if ys == [] {
      assert xs + ys == xs;
    } else {
      var last := |ys| - 1;
      ErrorAdds(xs, ys[..last], gold);
      assert (xs + ys)[..|xs + ys| - 1] == xs + ys[..last];
    }
  }

  lemma QuotientOfProduct(total: real, count: real, d: real)
    requires count > 0.0 && total == count * d
    ensures total / count == d
  {
  }

  // The average error of a uniform array is the distance of its value from gold.
  lemma UniformError(xs: seq<real>, gold: real, v: real, epsi: real)
    requires xs != [] && forall i :: 0 <= i < |xs| ==> xs[i] == v
    ensures TotalError(xs, gold) / |xs| as real > epsi <==> v - gold > epsi || gold - v > epsi
  {
    var d := if v < gold then gold - v else v - gold;
    ErrorOfDeviations(xs, gold, d);
    QuotientOfProduct(TotalError(xs, gold), |xs| as real, d);
  }

  method AverageError(xs: seq<real>, gold: real) returns (err: real)
    requires xs != []
    ensures err == TotalError(xs, gold) / |xs| as real
  {
    err := 0.0;
    for i := 0 to |xs|
      invariant err == TotalError(xs[..i], gold)
    {
      assert xs[..i + 1][..i] == xs[..i];
      err := err + Abs(xs[i] - gold);
    }
    assert xs[..|xs|] == xs;
    err := err / |xs| as real;
  }

  // The relative error of the sum exceeds 1e-8; the quotient by zero is a NaN or an infinity.
  predicate SumRejected(sum: real, goldSum: real) {
    if goldSum != 0.0 then Abs((sum - goldSum) / goldSum) > 0.00000001 else sum != 0.0
  }

  lemma QuotientAbove(x: real, g: real, t: real)
    requires g > 0.0
    ensures x / g > t <==> x > t * g
    ensures x / g < -t <==> -x > t * g
  {
    var q := x / g;
    assert q * g == x;
    if q > t { assert (q - t) * g > 0.0; }
    if q <= t { assert (t - q) * g >= 0.0; }
    if q < -t { assert (-t - q) * g > 0.0; }
    if q >= -t { assert (q + t) * g >= 0.0; }
  }

  lemma NegatedQuotient(x: real, g: real)
    requires g < 0.0
    ensures x / g == -x / -g
  {
    var q := x / g;
    assert q * g == x;
    assert q * -g == -x;
  }

  // The sum is rejected exactly if it is off by more than 1e-8 times the magnitude of the
  // expected sum, on either side; if zero is expected, every other sum is rejected.
  lemma RejectedSums(sum: real, goldSum: real, margin: real)
    requires margin == 0.00000001 * (if goldSum < 0.0 then -goldSum else goldSum)
    ensures SumRejected(sum, goldSum) <==> sum - goldSum > margin || goldSum - sum > margin
  {
    if goldSum > 0.0 {
      QuotientAbove(sum - goldSum, goldSum, 0.00000001);
    } else if goldSum < 0.0 {
      NegatedQuotient(sum - goldSum, goldSum);
      QuotientAbove(-(sum - goldSum), -goldSum, 0.00000001);
    }
  }

  function GoldSum(goldA: real, goldB: real, n: nat): real {
    goldA * goldB * n as real
  }

  datatype Report = Report(failedA: bool, failedB: bool, failedC: bool, failedSum: bool)

  // check_solution over the reals, with tolerance epsi on the averages.
  method CheckSolution(sel: Selection, ntimes: nat, scalar: real, start: Cell<real>, epsi: real,
                       a: seq<real>, b: seq<real>, c: seq<real>, sum: real) returns (report: Report)
    requires |a| == |b| == |c| > 0
    ensures var gold := Gold(REALS, scalar, sel, ntimes, start);
            && (report.failedA <==> TotalError(a, gold.a) / |a| as real > epsi)
            && (report.failedB <==> TotalError(b, gold.b) / |a| as real > epsi)
            && (report.failedC <==> TotalError(c, gold.c) / |a| as real > epsi)
            && (report.failedSum <==> sel == All && SumRejected(sum, GoldSum(gold.a, gold.b, |a|)))
  {
    var goldA, goldB, goldC := start.a, start.b, start.c;
    for i := 0 to ntimes
      invariant Cell(goldA, goldB, goldC) == Gold(REALS, scalar, sel, i, start)
    {
      ghost var g := Cell(goldA, goldB, goldC);
      match sel {
        case All =>
          goldC := goldA;
          goldB := scalar * goldC;
          goldC := goldA + goldB;
          AllStepOverReals(scalar, g, goldA, goldB, goldC, scalar * goldC);
          goldA := goldB + scalar * goldC;
        case TriadOnly =>
          TriadStepOverReals(scalar, g, goldC, scalar * goldC);
          goldA := goldB + scalar * goldC;
        case NstreamOnly =>
          TriadStepOverReals(scalar, g, goldC, scalar * goldC);
          goldA := goldA + (goldB + scalar * goldC);
      }
    }
    var goldSum := GoldSum(goldA, goldB, |a|);
    var errA := AverageError(a, goldA);
    var errB := AverageError(b, goldB);
    var errC := AverageError(c, goldC);
    report := Report(errA > epsi, errB > epsi, errC > epsi, sel == All && SumRejected(sum, goldSum));
  }

  // ----- The benchmark run

  // run_all, run_triad or run_nstream; the dot product of each All iteration may be
  // reduced along a different plan.
  method RunBenchmark<T>(stream: Stream<T>, sel: Selection, plans: seq<Plan>) returns (sum: T)
    requires stream.Valid()
    requires forall k :: 0 <= k < |plans| ==> InRange(Leaves(plans[k]), stream.Size())
    modifies stream.A(), stream.B(), stream.C()
    ensures forall i :: 0 <= i < stream.Size() ==>
              stream.At(i) == Iterate(stream.Ops(), stream.Scalar(), sel, |plans|, old(stream.At(i)))
    ensures sel == All && plans != [] ==>
              sum == Reduce(stream.Ops().plus, stream.Ops().zero,
                            Products(stream.Ops(), stream.A()[..], stream.B()[..]), plans[|plans| - 1])
  {
    sum := stream.Ops().zero;
    for k := 0 to |plans|
      invariant forall i :: 0 <= i < stream.Size() ==>
                  stream.At(i) == Iterate(stream.Ops(), stream.Scalar(), sel, k, old(stream.At(i)))
      invariant sel == All && k > 0 ==>
                  sum == Reduce(stream.Ops().plus, stream.Ops().zero,
                                Products(stream.Ops(), stream.A()[..], stream.B()[..]), plans[k - 1])
    {
      stream.RunKernels(KernelsOf(sel));
      if sel == All {
        sum := Dot(stream.Ops(), stream.A(), stream.B(), plans[k]);
      }
    }
  }

  // The whole program over the reals: initialise, run, read back, check. No
  // implementation, selection, number of iterations or reduction order is rejected.
  method RunAndCheck(indices: bool, sel: Selection, n: nat, scalar: real, start: Cell<real>, epsi: real,
                     plans: seq<Plan>) returns (report: Report)
    requires 0 < n && 0.0 <= epsi && 2 <= |plans|
    requires forall k :: 0 <= k < |plans| ==> Legal(plans[k], n)
    ensures report == Report(false, false, false, false)
  {
    forall k | 0 <= k < |plans|
      ensures InRange(Leaves(plans[k]), n)
    {
      LegalLeaves(plans[k], n);
    }
    var stream := NewStream(indices, REALS, scalar, n, start);
    var sum := RunBenchmark(stream, sel, plans);
    var a, b, c := stream.A()[..], stream.B()[..], stream.C()[..];
    ghost var gold := Gold(REALS, scalar, sel, |plans|, start);
    IterationsAgreeOverReals(scalar, sel, |plans|, start);
    forall i | 0 <= i < n
      ensures Cell(a[i], b[i], c[i]) == gold
    {
      assert stream.At(i) == gold;
    }
    UniformIsAccepted(gold, a, b, c, n);
    if sel == All {
      UniformDot(gold.a, gold.b, a, b, n, plans[|plans| - 1]);
      ExactSumIsAccepted(sum);
    }
    report := CheckSolution(sel, |plans|, scalar, start, epsi, a, b, c, sum);
  }

  lemma ExactSumIsAccepted(sum: real)
    ensures !SumRejected(sum, sum)
  {
    assert sum - sum == 0.0;
    if sum != 0.0 {
      assert 0.0 / sum == 0.0;
    }
  }

  lemma IterationsAgreeOverReals(scalar: real, sel: Selection, times: nat, e: Cell<real>)
    ensures Iterate(REALS, scalar, sel, times, e) == Gold(REALS, scalar, sel, times, e)
  {
    RealsRegroup(scalar);
    IterationsAgree(REALS, scalar, sel, times, e);
  }

  lemma UniformIsAccepted(gold: Cell<real>, a: seq<real>, b: seq<real>, c: seq<real>, n: nat)
    requires 0 < n == |a| == |b| == |c|
    requires forall i :: 0 <= i < n ==> Cell(a[i], b[i], c[i]) == gold
    ensures forall i :: 0 <= i < n ==> a[i] == gold.a && b[i] == gold.b
    ensures TotalError(a, gold.a) / n as real == 0.0
    ensures TotalError(b, gold.b) / n as real == 0.0
    ensures TotalError(c, gold.c) / n as real == 0.0
  {
    NoError(a, gold.a);
    NoError(b, gold.b);
    NoError(c, gold.c);
    assert forall i :: 0 <= i < n ==> Cell(a[i], b[i], c[i]).a == a[i];
    assert forall i :: 0 <= i < n ==> Cell(a[i], b[i], c[i]).b == b[i];
    assert forall i :: 0 <= i < n ==> Cell(a[i], b[i], c[i]).c == c[i];
  }

  lemma UniformProducts(x: real, y: real, a: seq<real>, b: seq<real>)
    requires |a| == |b|
    requires forall i :: 0 <= i < |a| ==> a[i] == x && b[i] == y
    ensures forall i :: 0 <= i < |a| ==> Products(REALS, a, b)[i] == RealTimes(x, y)
  {
    forall i | 0 <= i < |a|
      ensures Products(REALS, a, b)[i] == RealTimes(x, y)
    {
      assert Products(REALS, a, b)[i] == REALS.times(a[i], b[i]);
    }
  }

  // The dot product of uniform arrays is n times the product, under every plan.
  lemma UniformDot(x: real, y: real, a: seq<real>, b: seq<real>, n: nat, plan: Plan)
    requires |a| == |b| == n && Legal(plan, n)
    requires forall i :: 0 <= i < n ==> a[i] == x && b[i] == y
    ensures InRange(Leaves(plan), n)
    ensures Reduce(REALS.plus, REALS.zero, Products(REALS, a, b), plan) == GoldSum(x, y, n)
    ensures GoldSum(x, y, n) == RealTimes(RealTimes(x, y), n as real)
  {
    LegalLeaves(plan, n);
    LegalElements(plan, n);
    UniformProducts(x, y, a, b);
    var v := RealTimes(x, y);
    UniformReduce(v, Products(REALS, a, b), plan);
    GoldSumIsTimes(x, y, v, n);
  }

  lemma GoldSumIsTimes(x: real, y: real, v: real, n: nat)
    requires v == RealTimes(x, y)
    ensures GoldSum(x, y, n) == RealTimes(v, n as real)
  {
    SameProduct(v, x * y, n as real);
  }
}
