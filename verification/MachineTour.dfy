// find_best_route in machine arithmetic: the int divisor of the constructor and
// the int cost accumulator, and what every run free of overflow returns.
module MachineTour {
  import opened Arithmetic
  import opened GeneralizedSum
  import opened Routes
  import opened MachineRoute
  import opened TravelingSalesman

  const INT_MIN: int := -0x8000_0000

  predicate FitsInt(x: int) {
    INT_MIN <= x <= INT_MAX
  }

  // Every value of the accumulator along the route is an int.
  predicate RouteFits(n: nat, distances: seq<int>, route: seq<int>)
    requires |distances| == n * n && CitiesBelow(route, n)
  {
    forall i :: 0 <= i < |route| ==> FitsInt(CostUpTo(n, distances, route, i))
  }

  ghost predicate TourFits(n: nat, distances: seq<int>, p: seq<int>)
    requires |distances| == n * n && IsPermutation(p, n)
  {
    PermutationElements(p, n);
    RouteFits(n, distances, p)
  }

  // No route overflows the accumulator.
  ghost predicate NoOverflow(n: nat, distances: seq<int>)
    requires |distances| == n * n
  {
    forall p :: IsPermutation(p, n) ==> TourFits(n, distances, p)
  }

  // ----- The program with overflow checks

  // The loop over the route: undefined as soon as the accumulator leaves the int range.
  method MachinePathCost(n: nat, distances: seq<int>, route: seq<int>) returns (r: Outcome<int>)
    requires |distances| == n * n && CitiesBelow(route, n) && route != []
    ensures r.Defined? <==> RouteFits(n, distances, route)
    ensures r.Defined? <==> forall i :: 0 <= i < |route| ==>
              -0x8000_0000 <= CostUpTo(n, distances, route, i) <= 0x7FFF_FFFF
    ensures r.Defined? ==> r.value == PathCost(n, distances, route)
  {
    CostUpToLast(n, distances, route);
    var cost := 0;
    var from := route[0];
    for i := 0 to |route| - 1
      invariant from == route[i]
      invariant cost == CostUpTo(n, distances, route, i)
      invariant forall j :: 0 <= j <= i ==> FitsInt(CostUpTo(n, distances, route, j))
    {
      var to := route[i + 1];
      CostUpToNext(n, distances, route, i);
      DistanceAt(n, distances, from, to);
      var sum := cost + distances[to + n * from];
      if !FitsInt(sum) {
        return Undefined;
      }
      cost := sum;
      from := to;
    }
    r := Defined(cost);
  }

  // The body of the transform: undefined if the constructor or a sum overflows.
  method MachineRouteCost(n: nat, distances: seq<int>, id: nat) returns (r: Outcome<RouteCost>)
    requires 2 <= n && |distances| == n * n && id < Factorial(n)
    ensures IsPermutation(Unrank(n, id), n)
    ensures r.Defined? <==> n <= 12 && TourFits(n, distances, Unrank(n, id))
    ensures r.Defined? ==> r.value == IdCost(n, distances, id)
  {
    UnrankPermutes(n, id);
    var built := ConstructState(n, id);
    if built.Undefined? {
      return Undefined;
    }
    var cost := MachinePathCost(n, distances, built.value);
    r := if cost.Undefined? then Undefined else Defined(RouteCost(id, cost.value));
  }

  // Every id that the plan evaluates is free of overflow.
  ghost predicate LeavesFit(n: nat, distances: seq<int>, slots: seq<Slot>)
    requires 1 <= n && |distances| == n * n
  {
    forall id: nat :: At(id) in slots ==> n <= 12 && IdFits(n, distances, id)
  }

  ghost predicate IdFits(n: nat, distances: seq<int>, id: nat)
    requires 1 <= n && |distances| == n * n
  {
    UnrankPermutes(n, id);
    TourFits(n, distances, Unrank(n, id))
  }

  method MachineFindBestRoute(n: nat, distances: seq<int>, plan: Plan) returns (best: Outcome<RouteCost>)
    requires 2 <= n && |distances| == n * n
    requires InRange(Leaves(plan), Factorial(n))
    ensures best.Defined? <==> LeavesFit(n, distances, Leaves(plan))
    ensures best.Defined? ==> best.value == BestRoute(n, distances, plan)
    decreases plan
  {
    match plan
    case Leaf(Init) =>
      best := Defined(NO_ROUTE);
    case Leaf(At(id)) =>
      assert At(id) in Leaves(plan);
      best := MachineRouteCost(n, distances, id);
    case Node(l, r) =>
      InRangeNode(l, r, Factorial(n));
      LeavesFitNode(n, distances, l, r);
      var x := MachineFindBestRoute(n, distances, l);
      var y := MachineFindBestRoute(n, distances, r);
      best := if x.Defined? && y.Defined? then Defined(Better(x.value, y.value)) else Undefined;
  }

  lemma LeavesFitNode(n: nat, distances: seq<int>, l: Plan, r: Plan)
    requires 1 <= n && |distances| == n * n
    ensures LeavesFit(n, distances, Leaves(Node(l, r)))
       <==> LeavesFit(n, distances, Leaves(l)) && LeavesFit(n, distances, Leaves(r))
  {
    assert forall s: Slot :: s in Leaves(Node(l, r)) <==> s in Leaves(l) || s in Leaves(r);
  }

  // A legal plan evaluates every permutation.
  lemma LegalLeavesFit(n: nat, distances: seq<int>, plan: Plan)
    requires 1 <= n && |distances| == n * n && Legal(plan, Factorial(n))
    ensures LeavesFit(n, distances, Leaves(plan)) <==> n <= 12 && NoOverflow(n, distances)
  {
    LegalLeaves(plan, Factorial(n));
    if LeavesFit(n, distances, Leaves(plan)) {
      assert At(0) in Leaves(plan);
      forall p | IsPermutation(p, n)
        ensures TourFits(n, distances, p)
      {
        var id := TourHasId(n, distances, p);
        assert At(id) in Leaves(plan);
        assert IdFits(n, distances, id);
      }
    }
    if NoOverflow(n, distances) {
      forall id: nat | At(id) in Leaves(plan)
        ensures IdFits(n, distances, id)
      {
        UnrankPermutes(n, id);
      }
    }
  }

  // ----- When all paths cost the limit

  function RotateBy(p: seq<int>, k: nat): (r: seq<int>)
    requires k <= |p|
    ensures |r| == |p|
  {
    p[k..] + p[..k]
  }

  lemma RotationPermutes(n: nat, k: nat)
    requires k <= n
    ensures IsPermutation(RotateBy(Identity(n), k), n) && CitiesBelow(RotateBy(Identity(n), k), n)
  {
    var p := Identity(n);
    assert p == p[..k] + p[k..];
  }

  lemma CityAppended(n: nat, distances: seq<int>, r: seq<int>, x: int)
    requires |distances| == n * n && r != [] && 0 <= x < n && CitiesBelow(r, n)
    ensures CitiesBelow(r + [x], n)
    ensures PathCost(n, distances, r + [x]) == PathCost(n, distances, r) + Distance(n, distances, r[|r| - 1], x)
  {
    var back := r + [x];
    assert back[..|r|] == r && back[|r|] == x && back[|r| - 1] == r[|r| - 1];
  }

  lemma CityPrepended(n: nat, distances: seq<int>, x: int, r: seq<int>)
    requires |distances| == n * n && r != [] && 0 <= x < n && CitiesBelow(r, n)
    ensures CitiesBelow([x] + r, n)
    ensures PathCost(n, distances, [x] + r) == Distance(n, distances, x, r[0]) + PathCost(n, distances, r)
  {
    var front := [x] + r;
    assert front[0] == x && front[1] == r[0] && front[1..] == r;
    PathCostFromFront(n, distances, front);
  }

  // Moving the first city to the end trades the first edge for a new last one.
  lemma MoveFirstCity(n: nat, distances: seq<int>, x: int, r: seq<int>)
    requires |distances| == n * n && r != [] && 0 <= x < n && CitiesBelow(r, n)
    ensures CitiesBelow([x] + r, n) && CitiesBelow(r + [x], n)
    ensures PathCost(n, distances, r + [x]) + Distance(n, distances, x, r[0])
         == PathCost(n, distances, [x] + r) + Distance(n, distances, r[|r| - 1], x)
  {
    CityAppended(n, distances, r, x);
    CityPrepended(n, distances, x, r);
  }

  ghost predicate AllPathsCost(n: nat, distances: seq<int>, c: int)
    requires |distances| == n * n
  {
    forall p :: IsPermutation(p, n) ==> TourCost(n, distances, p) == c
  }

  lemma RotationsCost(n: nat, distances: seq<int>, c: int, k: nat)
    requires |distances| == n * n && AllPathsCost(n, distances, c) && k <= n
    ensures CitiesBelow(RotateBy(Identity(n), k), n)
    ensures PathCost(n, distances, RotateBy(Identity(n), k)) == c
  {
    RotationPermutes(n, k);
    assert TourCost(n, distances, RotateBy(Identity(n), k)) == c;
  }

  // If all rotations cost the same, consecutive edges are equal.
  lemma EqualEdges(n: nat, distances: seq<int>, c: int, k: nat)
    requires |distances| == n * n && AllPathsCost(n, distances, c) && 1 <= k < n - 1
    ensures Distance(n, distances, k, k + 1) == Distance(n, distances, k - 1, k)
  {
    var p := Identity(n);
    var r := p[k + 1..] + p[..k];
    RotationsCost(n, distances, c, k);
    RotationsCost(n, distances, c, k + 1);
    assert RotateBy(p, k) == [k] + r;
    assert RotateBy(p, k + 1) == r + [k];
    assert r[0] == k + 1 && r[|r| - 1] == k - 1;
    MoveFirstCity(n, distances, k, r);
  }

  lemma {:induction false} EdgesOfIdentity(n: nat, distances: seq<int>, c: int, k: nat)
    requires |distances| == n * n && AllPathsCost(n, distances, c) && k < n - 1
    ensures Distance(n, distances, k, k + 1) == Distance(n, distances, 0, 1)
  {
    if k == 0 {
    } else {
      EqualEdges(n, distances, c, k);
      EdgesOfIdentity(n, distances, c, k - 1);
    }
  }

  // A route all of whose edges have length e.
  lemma {:induction false} UniformPathCost(n: nat, distances: seq<int>, route: seq<int>, e: int)
    requires |distances| == n * n && CitiesBelow(route, n) && route != []
    requires forall k :: 0 <= k < |route| - 1 ==> Distance(n, distances, route[k], route[k + 1]) == e
    ensures PathCost(n, distances, route) == (|route| - 1) * e
  {
    var last := |route| - 1;
    if last == 0 {
    } else {
      UniformPathCost(n, distances, route[..last], e);
      assert Distance(n, distances, route[last - 1], route[last - 1 + 1]) == e;
      assert (last - 1) * e + e == last * e;
    }
  }

  lemma MultipleHasNoRemainder(c: int, m: nat, e: int)
    requires 0 < m && c == m * e
    ensures c % m == 0
  {
    assert c == e * m + 0;
    DivModUnique(c, m, e, 0);
  }

  lemma IdentityCost(n: nat, distances: seq<int>, c: int) returns (e: int)
    requires 2 <= n && |distances| == n * n && AllPathsCost(n, distances, c)
    ensures c == (n - 1) * e
  {
    e := Distance(n, distances, 0, 1);
    var p := Identity(n);
    forall k | 0 <= k < |p| - 1
      ensures Distance(n, distances, p[k], p[k + 1]) == e
    {
      EdgesOfIdentity(n, distances, c, k);
    }
    UniformPathCost(n, distances, p, e);
    RotationsCost(n, distances, c, 0);
    assert RotateBy(p, 0) == p;
  }

  // So the common cost is a multiple of the number of edges.
  lemma CommonCostDivides(n: nat, distances: seq<int>, c: int)
    requires 2 <= n && |distances| == n * n && AllPathsCost(n, distances, c)
    ensures c % (n - 1) == 0
  {
    var e := IdentityCost(n, distances, c);
    MultipleHasNoRemainder(c, n - 1, e);
  }

  ghost predicate NoPathAboveLimit(n: nat, distances: seq<int>)
    requires |distances| == n * n
  {
    forall p :: IsPermutation(p, n) ==> TourCost(n, distances, p) <= INT_MAX
  }

  lemma NoOverflowBoundsPaths(n: nat, distances: seq<int>)
    requires 1 <= n && |distances| == n * n && NoOverflow(n, distances)
    ensures NoPathAboveLimit(n, distances)
  {
    forall p | IsPermutation(p, n)
      ensures TourCost(n, distances, p) <= INT_MAX
    {
      PermutationElements(p, n);
      assert TourFits(n, distances, p);
      CostUpToLast(n, distances, p);
      assert FitsInt(CostUpTo(n, distances, p, n - 1));
    }
  }

  // Unless n - 1 divides INT_MAX, int costs alone rule out the invalid route.
  lemma SomePathIsBelow(n: nat, distances: seq<int>)
    requires 2 <= n && |distances| == n * n && NoPathAboveLimit(n, distances)
    requires INT_MAX % (n - 1) != 0
    ensures SomeRouteBelowLimit(n, distances)
  {
    if !SomeRouteBelowLimit(n, distances) {
      forall p | IsPermutation(p, n)
        ensures TourCost(n, distances, p) == INT_MAX
      {
        assert TourCost(n, distances, p) <= INT_MAX;
      }
      CommonCostDivides(n, distances, INT_MAX);
    }
  }

  // Global optimality with int costs: no path need be known to be below the limit.
  lemma OptimalWithoutOverflow(n: nat, distances: seq<int>)
    requires 2 <= n && |distances| == n * n && NoPathAboveLimit(n, distances)
    requires INT_MAX % (n - 1) != 0
    ensures EveryPlanIsOptimal(n, distances)
  {
    SomePathIsBelow(n, distances);
    OptimalityCondition(n, distances);
  }

  // ----- Where the invalid route can come from

  ghost predicate AlwaysOptimal(n: nat)
    requires 1 <= n
  {
    forall distances: seq<int> :: |distances| == n * n && NoOverflow(n, distances) ==> EveryPlanIsOptimal(n, distances)
  }

  function Uniform(n: nat, e: int): (distances: seq<int>)
    ensures |distances| == n * n && forall k :: 0 <= k < |distances| ==> distances[k] == e
  {
    ProductIsNat(n, n);
    seq(n * n, _ => e)
  }

  lemma UniformTour(n: nat, e: nat, route: seq<int>)
    requires CitiesBelow(route, n) && route != []
    ensures PathCost(n, Uniform(n, e), route) == (|route| - 1) * e
  {
    forall k | 0 <= k < |route| - 1
      ensures Distance(n, Uniform(n, e), route[k], route[k + 1]) == e
    {
      DistanceAt(n, Uniform(n, e), route[k], route[k + 1]);
    }
    UniformPathCost(n, Uniform(n, e), route, e);
  }

  // Equal distances that add up to INT_MAX along every path: no sum overflows, no path is below.
  lemma UniformIsCritical(n: nat, e: nat)
    requires 2 <= n && (n - 1) * e == INT_MAX
    ensures NoOverflow(n, Uniform(n, e)) && !SomeRouteBelowLimit(n, Uniform(n, e))
  {
    forall p | IsPermutation(p, n)
      ensures TourFits(n, Uniform(n, e), p) && TourCost(n, Uniform(n, e), p) == INT_MAX
    {
      PermutationElements(p, n);
      UniformTour(n, e, p);
      forall i | 0 <= i < |p|
        ensures FitsInt(CostUpTo(n, Uniform(n, e), p, i))
      {
        UniformTour(n, e, p[..i + 1]);
        MulLe(i, n - 1, e);
        ProductIsNat(i, e);
      }
    }
  }

  // For a given number of cities, every run free of overflow is optimal exactly when
  // n - 1 does not divide INT_MAX.
  lemma AlwaysOptimalCondition(n: nat)
    requires 2 <= n
    ensures AlwaysOptimal(n) <==> INT_MAX % (n - 1) != 0
  {
    if INT_MAX % (n - 1) != 0 {
      forall distances: seq<int> | |distances| == n * n && NoOverflow(n, distances)
        ensures EveryPlanIsOptimal(n, distances)
      {
        NoOverflowBoundsPaths(n, distances);
        OptimalWithoutOverflow(n, distances);
      }
    } else {
      var e := INT_MAX / (n - 1);
      QuotientIsNat(INT_MAX, n - 1);
      UniformIsCritical(n, e);
      OptimalityCondition(n, Uniform(n, e));
    }
  }

  // INT_MAX is prime to all the sizes the machine can construct, and to all that main offers.
  lemma SmallSizes(n: nat)
    requires 2 <= n <= 14
    ensures INT_MAX % (n - 1) == 0 <==> n == 2
  {
  }

  // Two cities at distance INT_MAX: a legal plan that returns the invalid route.
  lemma TwoCitiesAtTheLimit()
    ensures var plan := Node(Node(Leaf(At(0)), Leaf(At(1))), Leaf(Init));
            && Legal(plan, Factorial(2)) && InRange(Leaves(plan), Factorial(2))
            && NoOverflow(2, [0, INT_MAX, INT_MAX, 0])
            && BestRoute(2, [0, INT_MAX, INT_MAX, 0], plan) == RouteCost(-1, 0x7FFF_FFFF)
  {
    var plan := Node(Node(Leaf(At(0)), Leaf(At(1))), Leaf(Init));
    TwoCitiesPlan(plan, 2);
    TwoCitiesCosts(2, [0, INT_MAX, INT_MAX, 0]);
    LimitWinsLast(2, [0, INT_MAX, INT_MAX, 0], plan.left);
  }

  lemma TwoCitiesPlan(plan: Plan, n: nat)
    requires n == 2 && plan == Node(Node(Leaf(At(0)), Leaf(At(1))), Leaf(Init))
    ensures Factorial(n) == 2 && Legal(plan, 2) && InRange(Leaves(plan), 2)
  {
    assert Leaves(plan) == [At(0), At(1)] + [Init];
    assert Slots(2) == [Init] + [At(0), At(1)];
    LegalLeaves(plan, 2);
  }

  lemma TwoCitiesCosts(n: nat, distances: seq<int>)
    requires n == 2 && distances == [0, INT_MAX, INT_MAX, 0]
    ensures NoOverflow(n, distances) && !SomeRouteBelowLimit(n, distances)
  {
    forall p | IsPermutation(p, n)
      ensures TourFits(n, distances, p) && TourCost(n, distances, p) == INT_MAX
    {
      PermutationElements(p, n);
      DistinctPositions(p, n, 0, 1);
      CostUpToLast(n, distances, p);
      CostUpToNext(n, distances, p, 0);
      DistanceAt(n, distances, p[0], p[1]);
    }
  }

  // ----- The whole computation

  // find_best_route on the machine, for a legal reduction: it is defined exactly if N <= 12
  // and no route overflows the accumulator, and for three cities or more it is then optimal.
  method FindBestRouteOnMachine(n: nat, distances: seq<int>, plan: Plan) returns (best: Outcome<RouteCost>)
    requires 2 <= n && |distances| == n * n && Legal(plan, Factorial(n))
    ensures best.Defined? <==> n <= 12 && NoOverflow(n, distances)
    ensures best.Defined? && n >= 3 ==> IsOptimal(n, distances, best.value)
    ensures best.Defined? && best.value != NO_ROUTE ==> IsOptimal(n, distances, best.value)
  {
    BestRouteBounds(n, distances, plan);
    LegalLeavesFit(n, distances, plan);
    best := MachineFindBestRoute(n, distances, plan);
    if best.Defined? && n >= 3 {
      SmallSizes(n);
      NoOverflowBoundsPaths(n, distances);
      SomePathIsBelow(n, distances);
      BestRouteIsOptimal(n, distances, plan);
    }
  }
}
