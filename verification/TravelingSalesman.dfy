// find_best_route and solve_traveling_salesman: exhaustive search for the
// cheapest open path through n cities by a parallel reduction over route ids.
module TravelingSalesman {
  import opened Arithmetic
  import opened GeneralizedSum
  import opened Routes
  import MachineRoute

  datatype RouteCost = RouteCost(route: int, cost: int)

  // The default-constructed route_cost, the initial value of the reduction.
  const NO_ROUTE: RouteCost := RouteCost(-1, MachineRoute.INT_MAX)

  // The reduction operator; on a tie it keeps its right operand.
  function Better(x: RouteCost, y: RouteCost): RouteCost {
    if x.cost < y.cost then x else y
  }

  // ----- Path costs over a row-major n * n matrix

  predicate CitiesBelow(route: seq<int>, n: nat) {
    forall k :: 0 <= k < |route| ==> 0 <= route[k] < n
  }

  function Distance(n: nat, distances: seq<int>, from: int, to: int): int
    requires |distances| == n * n && 0 <= from < n && 0 <= to < n
  {
    RowMajorInBounds(n, n, from, to);
    distances[to + n * from]
  }

  lemma DistanceAt(n: nat, distances: seq<int>, from: int, to: int)
    requires |distances| == n * n && 0 <= from < n && 0 <= to < n
    ensures 0 <= to + n * from < |distances|
    ensures distances[to + n * from] == Distance(n, distances, from, to)
  {
    RowMajorInBounds(n, n, from, to);
  }

  // The cost of visiting the cities in order; no edge closes the path.
  function PathCost(n: nat, distances: seq<int>, route: seq<int>): int
    requires |distances| == n * n && CitiesBelow(route, n)
  {
    var last := |route| - 1;
    if last < 1 then 0
    else PathCost(n, distances, route[..last]) + Distance(n, distances, route[last - 1], route[last])
  }

  // The cost accumulated when the iterator is at position i.
  function CostUpTo(n: nat, distances: seq<int>, route: seq<int>, i: nat): int
    requires |distances| == n * n && CitiesBelow(route, n) && i < |route|
  {
    PathCost(n, distances, route[..i + 1])
  }

  lemma CostUpToNext(n: nat, distances: seq<int>, route: seq<int>, i: nat)
    requires |distances| == n * n && CitiesBelow(route, n) && i + 1 < |route|
    ensures CostUpTo(n, distances, route, i + 1)
         == CostUpTo(n, distances, route, i) + Distance(n, distances, route[i], route[i + 1])
  {
    assert route[..i + 2][..i + 1] == route[..i + 1];
  }

  lemma CostUpToLast(n: nat, distances: seq<int>, route: seq<int>)
    requires |distances| == n * n && CitiesBelow(route, n) && 0 < |route|
    ensures CostUpTo(n, distances, route, 0) == 0
    ensures CostUpTo(n, distances, route, |route| - 1) == PathCost(n, distances, route)
  {
    assert route[..|route|] == route;
  }

  // ----- Which entries of the matrix a path pays for

  // The matrix with entry w in row u and column v, and zeros elsewhere.
  function OneEdge(n: nat, u: nat, v: nat, w: int): (distances: seq<int>)
    requires u < n && v < n
    ensures |distances| == n * n
    ensures forall p :: 0 <= p < n * n ==> distances[p] == if p == u * n + v then w else 0
  {
    ProductIsNat(n, n);
    seq(n * n, p => if p == u * n + v then w else 0)
  }

  predicate GoesFromTo(route: seq<int>, u: nat, v: nat, i: nat)
    requires i < |route| - 1
  {
    route[i] == u && route[i + 1] == v
  }

  // The positions at which the route goes from u directly to v.
  ghost function Steps(route: seq<int>, u: nat, v: nat): set<nat> {
    set i: nat | i < |route| - 1 && GoesFromTo(route, u, v, i)
  }

  lemma OneEdgeDistance(n: nat, u: nat, v: nat, w: int, from: nat, to: nat)
    requires u < n && v < n && from < n && to < n
    ensures Distance(n, OneEdge(n, u, v, w), from, to) == if from == u && to == v then w else 0
  {
    RowMajorInBounds(n, n, from, to);
    if to + n * from == u * n + v {
      RowMajorInjective(n, from, to, u, v);
    }
  }

  lemma LastStep(route: seq<int>, last: nat, u: nat, v: nat)
    requires last == |route| - 1 && 1 <= last
    ensures |Steps(route, u, v)|
         == |Steps(route[..last], u, v)| + if route[last - 1] == u && route[last] == v then 1 else 0
  {
    var before := Steps(route[..last], u, v);
    assert last - 1 !in before;
    assert forall i: nat :: i < last - 1 ==> (GoesFromTo(route, u, v, i) <==> GoesFromTo(route[..last], u, v, i));
    if route[last - 1] == u && route[last] == v {
      assert Steps(route, u, v) == before + {last - 1};
    } else {
      assert Steps(route, u, v) == before;
    }
  }

  // The entry in row u and column v is paid once for each step from u to v, and no other entry is.
  lemma {:induction false} CostOfOneEdge(n: nat, u: nat, v: nat, w: int, route: seq<int>)
    requires u < n && v < n && CitiesBelow(route, n)
    ensures PathCost(n, OneEdge(n, u, v, w), route) == |Steps(route, u, v)| * w
  {
    var last := |route| - 1;
    if last < 1 {
      assert Steps(route, u, v) == {};
    } else {
      CostOfOneEdge(n, u, v, w, route[..last]);
      OneEdgeDistance(n, u, v, w, route[last - 1], route[last]);
      LastStep(route, last, u, v);
      Times(|Steps(route[..last], u, v)|, w);
    }
  }

  lemma Times(k: nat, w: int)
    ensures (k + 1) * w == k * w + w && (k + 0) * w == k * w
  {
  }

  // Costs add up when matrices do.
  lemma {:induction false} CostAdds(n: nat, d: seq<int>, e: seq<int>, sum: seq<int>, route: seq<int>)
    requires |d| == n * n && |e| == n * n && |sum| == n * n && CitiesBelow(route, n)
    requires forall p :: 0 <= p < n * n ==> sum[p] == d[p] + e[p]
    ensures PathCost(n, sum, route) == PathCost(n, d, route) + PathCost(n, e, route)
  {
    var last := |route| - 1;
    if last < 1 {
    } else {
      CostAdds(n, d, e, sum, route[..last]);
      RowMajorInBounds(n, n, route[last - 1], route[last]);
    }
  }

  ghost function TourCost(n: nat, distances: seq<int>, p: seq<int>): int
    requires |distances| == n * n && IsPermutation(p, n)
  {
    PermutationElements(p, n);
    PathCost(n, distances, p)
  }

  function IdCost(n: nat, distances: seq<int>, id: nat): RouteCost
    requires 1 <= n && |distances| == n * n && id < Factorial(n)
  {
    UnrankPermutes(n, id);
    RouteCost(id, PathCost(n, distances, Unrank(n, id)))
  }

  // The transformed elements of the reduction.
  function Costs(n: nat, distances: seq<int>): (cs: seq<RouteCost>)
    requires 1 <= n && |distances| == n * n
    ensures |cs| == Factorial(n)
  {
    seq(Factorial(n), id requires 0 <= id < Factorial(n) => IdCost(n, distances, id))
  }

  // The result of find_best_route when the reduction follows the given plan.
  function BestRoute(n: nat, distances: seq<int>, plan: Plan): RouteCost
    requires 1 <= n && |distances| == n * n
    requires InRange(Leaves(plan), Factorial(n))
  {
    Reduce(Better, NO_ROUTE, Costs(n, distances), plan)
  }

  // ----- The program

  // The body of the transform: walk the route with the iterator and add up distances.
  method RouteIdCost(n: nat, distances: seq<int>, id: nat) returns (r: RouteCost)
    requires 2 <= n && |distances| == n * n && id < Factorial(n)
    ensures r == IdCost(n, distances, id)
  {
    ghost var route := Unrank(n, id);
    assert CitiesBelow(route, n) by {
      UnrankPermutes(n, id);
    }
    CostUpToLast(n, distances, route);
    var cost := 0;
    var it := new RouteIterator(n, id);
    var from := it.First();
    while !it.Done()
      invariant fresh(it) && it.Valid() && it.n == n && it.routeId == id
      invariant from == route[it.i]
      invariant cost == CostUpTo(n, distances, route, it.i)
      decreases n - it.i
    {
      CostUpToNext(n, distances, route, it.i);
      var to := it.Next();
      DistanceAt(n, distances, from, to);
      cost := cost + distances[to + n * from];
      from := to;
    }
    CostUpToLast(n, distances, route);
    r := RouteCost(id, cost);
  }

  // std::transform_reduce, carried out along the given plan.
  method FindBestRoute(n: nat, distances: seq<int>, plan: Plan) returns (best: RouteCost)
    requires 2 <= n && |distances| == n * n
    requires InRange(Leaves(plan), Factorial(n))
    ensures best == BestRoute(n, distances, plan)
    decreases plan
  {
    match plan
    case Leaf(Init) =>
      best := NO_ROUTE;
    case Leaf(At(id)) =>
      assert At(id) in Leaves(plan);
      best := RouteIdCost(n, distances, id);
    case Node(l, r) =>
      InRangeNode(l, r, Factorial(n));
      var x := FindBestRoute(n, distances, l);
      var y := FindBestRoute(n, distances, r);
      best := Better(x, y);
  }

  // ----- What the reduction computes

  // Whatever the plan, the result is one of the operands and no operand is cheaper.
  lemma {:induction false} ReduceSelectsCheapest(init: RouteCost, values: seq<RouteCost>, p: Plan)
    returns (chosen: Slot)
    requires InRange(Leaves(p), |values|)
    ensures chosen in Leaves(p) && Reduce(Better, init, values, p) == Operand(init, values, chosen)
    ensures forall s :: s in Leaves(p) ==> Reduce(Better, init, values, p).cost <= Operand(init, values, s).cost
  {
    match p
    case Leaf(slot) =>
      chosen := slot;
    case Node(l, r) =>
      InRangeNode(l, r, |values|);
      var x := ReduceSelectsCheapest(init, values, l);
      var y := ReduceSelectsCheapest(init, values, r);
      chosen := if Reduce(Better, init, values, l).cost < Reduce(Better, init, values, r).cost then x else y;
  }

  lemma SingleResult(n: nat, distances: seq<int>, id: nat)
    requires 2 <= n && |distances| == n * n && id < Factorial(n)
    ensures BestRoute(n, distances, Leaf(Init)) == RouteCost(-1, 0x7FFF_FFFF)
    ensures InRange(Leaves(Leaf(At(id))), Factorial(n)) && CitiesBelow(Unrank(n, id), n)
    ensures BestRoute(n, distances, Leaf(At(id))) == RouteCost(id, PathCost(n, distances, Unrank(n, id)))
  {
    UnrankPermutes(n, id);
  }

  // Each combination keeps the cheaper of two partial results, and the right one on a tie.
  lemma CombinedResult(n: nat, distances: seq<int>, l: Plan, r: Plan)
    requires 1 <= n && |distances| == n * n
    requires InRange(Leaves(Node(l, r)), Factorial(n))
    ensures InRange(Leaves(l), Factorial(n)) && InRange(Leaves(r), Factorial(n))
    ensures BestRoute(n, distances, Node(l, r))
         == if BestRoute(n, distances, l).cost < BestRoute(n, distances, r).cost
            then BestRoute(n, distances, l) else BestRoute(n, distances, r)
  {
    InRangeNode(l, r, Factorial(n));
  }

  ghost predicate IsOptimal(n: nat, distances: seq<int>, best: RouteCost)
    requires 1 <= n && |distances| == n * n
  {
    && 0 <= best.route < Factorial(n)
    && best == IdCost(n, distances, best.route)
    && forall p :: IsPermutation(p, n) ==> best.cost <= TourCost(n, distances, p)
  }

  ghost predicate SomeRouteBelowLimit(n: nat, distances: seq<int>)
    requires |distances| == n * n
  {
    exists p :: IsPermutation(p, n) && TourCost(n, distances, p) < MachineRoute.INT_MAX
  }

  // No permutation escapes the enumeration.
  lemma TourHasId(n: nat, distances: seq<int>, p: seq<int>) returns (id: nat)
    requires 1 <= n && |distances| == n * n && IsPermutation(p, n)
    ensures id < Factorial(n) && Unrank(n, id) == p
    ensures Costs(n, distances)[id] == RouteCost(id, TourCost(n, distances, p))
  {
    UnrankRank(p, n);
    id := Rank(p, n);
  }

  // A legal plan selects an operand, and no operand s is cheaper.
  lemma CheapestOperand(n: nat, distances: seq<int>, plan: Plan, s: Slot) returns (chosen: Slot)
    requires 1 <= n && |distances| == n * n && Legal(plan, Factorial(n))
    requires s.At? ==> s.i < Factorial(n)
    ensures InRange(Leaves(plan), Factorial(n))
    ensures chosen.At? ==> chosen.i < Factorial(n)
    ensures BestRoute(n, distances, plan) == Operand(NO_ROUTE, Costs(n, distances), chosen)
    ensures BestRoute(n, distances, plan).cost <= Operand(NO_ROUTE, Costs(n, distances), s).cost
  {
    LegalLeaves(plan, Factorial(n));
    chosen := ReduceSelectsCheapest(NO_ROUTE, Costs(n, distances), plan);
    assert s in Leaves(plan);
  }

  // The cost returned is a lower bound for every open path, and it is the limit
  // or the cost of the route returned.
  lemma BestRouteBounds(n: nat, distances: seq<int>, plan: Plan)
    requires 1 <= n && |distances| == n * n && Legal(plan, Factorial(n))
    ensures InRange(Leaves(plan), Factorial(n))
    ensures var best := BestRoute(n, distances, plan);
            && (forall p :: IsPermutation(p, n) ==> best.cost <= TourCost(n, distances, p))
            && best.cost <= MachineRoute.INT_MAX
            && (best == NO_ROUTE || (0 <= best.route < Factorial(n) && best == IdCost(n, distances, best.route)))
  {
    var chosen := CheapestOperand(n, distances, plan, Init);
    var best := BestRoute(n, distances, plan);
    forall p | IsPermutation(p, n)
      ensures best.cost <= TourCost(n, distances, p)
    {
      var id := TourHasId(n, distances, p);
      var c := CheapestOperand(n, distances, plan, At(id));
    }
  }

  // Global optimality: for every order and grouping of the reduction, the route
  // returned is a cheapest open path over all permutations of the cities.
  lemma BestRouteIsOptimal(n: nat, distances: seq<int>, plan: Plan)
    requires 1 <= n && |distances| == n * n && Legal(plan, Factorial(n))
    requires SomeRouteBelowLimit(n, distances)
    ensures InRange(Leaves(plan), Factorial(n))
    ensures IsOptimal(n, distances, BestRoute(n, distances, plan))
  {
    BestRouteBounds(n, distances, plan);
    var p :| IsPermutation(p, n) && TourCost(n, distances, p) < MachineRoute.INT_MAX;
    assert BestRoute(n, distances, plan).cost <= TourCost(n, distances, p);
  }

  ghost predicate EveryPlanIsOptimal(n: nat, distances: seq<int>)
    requires 1 <= n && |distances| == n * n
  {
    forall plan :: Legal(plan, Factorial(n)) && InRange(Leaves(plan), Factorial(n)) ==>
      IsOptimal(n, distances, BestRoute(n, distances, plan))
  }

  lemma NothingBeatsLimit(n: nat, distances: seq<int>, plan: Plan)
    requires 1 <= n && |distances| == n * n
    requires InRange(Leaves(plan), Factorial(n))
    requires !SomeRouteBelowLimit(n, distances)
    ensures BestRoute(n, distances, plan).cost >= MachineRoute.INT_MAX
  {
    var chosen := ReduceSelectsCheapest(NO_ROUTE, Costs(n, distances), plan);
    if chosen.At? {
      UnrankPermutes(n, chosen.i);
      assert IdCost(n, distances, chosen.i).cost == TourCost(n, distances, Unrank(n, chosen.i));
    }
  }

  // The initial value wins a tie when it is the last right operand.
  lemma {:induction false} LimitWinsLast(n: nat, distances: seq<int>, rest: Plan)
    requires 1 <= n && |distances| == n * n
    requires InRange(Leaves(Node(rest, Leaf(Init))), Factorial(n))
    requires !SomeRouteBelowLimit(n, distances)
    ensures BestRoute(n, distances, Node(rest, Leaf(Init))) == NO_ROUTE
  {
    InRangeNode(rest, Leaf(Init), Factorial(n));
    NothingBeatsLimit(n, distances, rest);
    assert Reduce(Better, NO_ROUTE, Costs(n, distances), Leaf(Init)) == NO_ROUTE;
  }

  lemma {:induction false} LimitCanWin(n: nat, distances: seq<int>) returns (plan: Plan)
    requires 1 <= n && |distances| == n * n
    requires !SomeRouteBelowLimit(n, distances)
    ensures Legal(plan, Factorial(n)) && InRange(Leaves(plan), Factorial(n))
    ensures BestRoute(n, distances, plan) == NO_ROUTE
  {
    var rest := PlanEndingWith(Factorial(n), Init);
    plan := Node(rest, Leaf(Init));
    LegalLeaves(plan, Factorial(n));
    LimitWinsLast(n, distances, rest);
  }

  // The hypothesis of global optimality is exact over unbounded costs: if no path
  // costs less than the limit, some order of the reduction returns the invalid route -1.
  // MachineTour tells when costs that fit into an int can bring this about.
  lemma {:induction false} OptimalityCondition(n: nat, distances: seq<int>)
    requires 1 <= n && |distances| == n * n
    ensures EveryPlanIsOptimal(n, distances) <==> SomeRouteBelowLimit(n, distances)
  {
    if SomeRouteBelowLimit(n, distances) {
      forall plan | Legal(plan, Factorial(n)) && InRange(Leaves(plan), Factorial(n))
        ensures IsOptimal(n, distances, BestRoute(n, distances, plan))
      {
        BestRouteIsOptimal(n, distances, plan);
      }
    } else {
      var plan := LimitCanWin(n, distances);
    }
  }

  // The cost does not depend on the plan, although the operator is not commutative.
  lemma CostIsPlanIndependent(n: nat, distances: seq<int>, plan1: Plan, plan2: Plan)
    requires 1 <= n && |distances| == n * n
    requires Legal(plan1, Factorial(n)) && Legal(plan2, Factorial(n))
    ensures InRange(Leaves(plan1), Factorial(n)) && InRange(Leaves(plan2), Factorial(n))
    ensures BestRoute(n, distances, plan1).cost == BestRoute(n, distances, plan2).cost
  {
    LegalLeaves(plan1, Factorial(n));
    LegalLeaves(plan2, Factorial(n));
    var s1 := ReduceSelectsCheapest(NO_ROUTE, Costs(n, distances), plan1);
    var s2 := ReduceSelectsCheapest(NO_ROUTE, Costs(n, distances), plan2);
  }

  ghost predicate SomePlanReturns(n: nat, distances: seq<int>, best: RouteCost)
    requires 1 <= n && |distances| == n * n
  {
    exists plan :: Legal(plan, Factorial(n)) && InRange(Leaves(plan), Factorial(n))
                   && BestRoute(n, distances, plan) == best
  }

  // The route does depend on the plan: the results that occur under some plan
  // are exactly the optimal routes.
  lemma ReturnedRoutes(n: nat, distances: seq<int>, best: RouteCost)
    requires 1 <= n && |distances| == n * n
    requires SomeRouteBelowLimit(n, distances)
    ensures SomePlanReturns(n, distances, best) <==> IsOptimal(n, distances, best)
  {
    if SomePlanReturns(n, distances, best) {
      var plan :| Legal(plan, Factorial(n)) && InRange(Leaves(plan), Factorial(n))
                  && BestRoute(n, distances, plan) == best;
      BestRouteIsOptimal(n, distances, plan);
    }
    if IsOptimal(n, distances, best) {
      var last := At(best.route);
      var rest := PlanEndingWith(Factorial(n), last);
      var plan := Node(rest, Leaf(last));
      BestRouteIsOptimal(n, distances, plan);
      UnrankPermutes(n, BestRoute(n, distances, plan).route);
      InRangeNode(rest, Leaf(last), Factorial(n));
      assert best.cost <= BestRoute(n, distances, plan).cost;
      assert Reduce(Better, NO_ROUTE, Costs(n, distances), Leaf(last)) == best;
    }
  }

  // ----- Ties

  ghost predicate Symmetric(n: nat, distances: seq<int>)
    requires |distances| == n * n
  {
    forall from, to :: 0 <= from < n && 0 <= to < n ==>
      Distance(n, distances, from, to) == Distance(n, distances, to, from)
  }

  function Reverse(s: seq<int>): (t: seq<int>)
    ensures |t| == |s| && forall k :: 0 <= k < |s| ==> t[k] == s[|s| - 1 - k]
  {
    seq(|s|, k requires 0 <= k < |s| => s[|s| - 1 - k])
  }

  lemma {:induction false} ReversePermutes(s: seq<int>)
    ensures multiset(Reverse(s)) == multiset(s)
  {
    if s == [] {
    } else {
      ReversePermutes(s[1..]);
      assert Reverse(s) == Reverse(s[1..]) + [s[0]];
      assert s == [s[0]] + s[1..];
    }
  }

  // PathCost peeled from the front.
  lemma {:induction false} PathCostFromFront(n: nat, distances: seq<int>, route: seq<int>)
    requires |distances| == n * n && CitiesBelow(route, n) && 2 <= |route|
    ensures PathCost(n, distances, route)
         == Distance(n, distances, route[0], route[1]) + PathCost(n, distances, route[1..])
  {
    var last := |route| - 1;
    if last <= 1 {
    } else {
      PathCostFromFront(n, distances, route[..last]);
      assert route[..last][1..] == route[1..][..last - 1];
    }
  }

  lemma {:induction false} ReversedPathCost(n: nat, distances: seq<int>, route: seq<int>)
    requires |distances| == n * n && CitiesBelow(route, n) && Symmetric(n, distances)
    ensures PathCost(n, distances, Reverse(route)) == PathCost(n, distances, route)
  {
    var last := |route| - 1;
    if last < 1 {
    } else {
      ReversedPathCost(n, distances, route[..last]);
      PathCostFromFront(n, distances, Reverse(route));
      assert Reverse(route)[1..] == Reverse(route[..last]);
    }
  }

  // On a symmetric matrix every route has a different route of the same cost.
  lemma ReversedRoute(n: nat, distances: seq<int>, id: nat) returns (twin: nat)
    requires 2 <= n && |distances| == n * n && Symmetric(n, distances) && id < Factorial(n)
    ensures twin < Factorial(n) && twin != id
    ensures IdCost(n, distances, twin).cost == IdCost(n, distances, id).cost
  {
    var route := Unrank(n, id);
    UnrankPermutes(n, id);
    ReversePermutes(route);
    twin := TourHasId(n, distances, Reverse(route));
    ReversedPathCost(n, distances, route);
    DistinctPositions(route, n, 0, n - 1);
    assert Reverse(route)[0] != route[0];
  }

  // So the route printed is never determined by the distances alone.
  lemma RouteIsNotDetermined(n: nat, distances: seq<int>, best: RouteCost) returns (other: RouteCost)
    requires 2 <= n && |distances| == n * n && Symmetric(n, distances)
    requires SomeRouteBelowLimit(n, distances)
    requires SomePlanReturns(n, distances, best)
    ensures SomePlanReturns(n, distances, other)
    ensures other.route != best.route && other.cost == best.cost
  {
    ReturnedRoutes(n, distances, best);
    var twin := ReversedRoute(n, distances, best.route);
    other := IdCost(n, distances, twin);
    ReturnedRoutes(n, distances, other);
  }

  // ----- Range of the int accumulator

  // With distances in [0, bound] every partial sum stays within (n - 1) * bound.
  lemma {:induction false} PartialCosts(n: nat, distances: seq<int>, route: seq<int>, bound: nat)
    requires |distances| == n * n && CitiesBelow(route, n)
    requires forall k :: 0 <= k < |distances| ==> 0 <= distances[k] <= bound
    ensures 0 <= PathCost(n, distances, route)
    ensures route != [] ==> PathCost(n, distances, route) <= (|route| - 1) * bound
  {
    var last := |route| - 1;
    if last < 1 {
    } else {
      PartialCosts(n, distances, route[..last], bound);
      DistanceAt(n, distances, route[last - 1], route[last]);
      var d := Distance(n, distances, route[last - 1], route[last]);
      assert 0 <= d <= bound;
      Times(last - 1, bound);
    }
  }

  // A bound on the distances that callers can check makes every route affordable.
  lemma BoundedDistancesBelowLimit(n: nat, distances: seq<int>, bound: nat)
    requires 1 <= n && |distances| == n * n
    requires forall k :: 0 <= k < |distances| ==> 0 <= distances[k] <= bound
    requires (n - 1) * bound < MachineRoute.INT_MAX
    ensures SomeRouteBelowLimit(n, distances)
  {
    var p := Identity(n);
    assert IsPermutation(p, n);
    PartialCosts(n, distances, p, bound);
    assert TourCost(n, distances, p) < MachineRoute.INT_MAX;
  }

  // ----- The submatrix and the driver

  // init_distance_matrix_small: the first n rows and columns, with row length n.
  method InitDistanceMatrixSmall(size: nat, distances: seq<int>, n: nat) returns (small: array<int>)
    requires |distances| == size * size && n <= size
    ensures fresh(small) && small.Length == n * n
    ensures forall from, to :: 0 <= from < n && 0 <= to < n ==>
              Distance(n, small[..], from, to) == Distance(size, distances, from, to)
  {
    small := new int[n * n](_ => 0);
    for from := 0 to n
      invariant forall f, t :: 0 <= f < from && 0 <= t < n ==>
                  Distance(n, small[..], f, t) == Distance(size, distances, f, t)
    {
      for to := 0 to n
        invariant forall f, t :: (0 <= f < from && 0 <= t < n) || (f == from && 0 <= t < to) ==>
                    Distance(n, small[..], f, t) == Distance(size, distances, f, t)
      {
        RowMajorInBounds(n, n, from, to);
        RowMajorInBounds(size, size, from, to);
        ghost var before := small[..];
        small[to + n * from] := distances[to + size * from];
        forall f, t | (0 <= f < from && 0 <= t < n) || (f == from && 0 <= t < to)
          ensures Distance(n, small[..], f, t) == Distance(n, before, f, t)
        {
          RowMajorInBounds(n, n, f, t);
          if t + n * f == to + n * from {
            RowMajorInjective(n, f, t, from, to);
          }
        }
      }
    }
  }

  ghost predicate Submatrix(n: nat, small: seq<int>, size: nat, distances: seq<int>)
    requires |small| == n * n && |distances| == size * size && n <= size
  {
    forall from, to :: 0 <= from < n && 0 <= to < n ==>
      Distance(n, small, from, to) == Distance(size, distances, from, to)
  }

  lemma {:induction false} SubmatrixPathCost(n: nat, small: seq<int>, size: nat, distances: seq<int>, route: seq<int>)
    requires |small| == n * n && |distances| == size * size && n <= size
    requires Submatrix(n, small, size, distances) && CitiesBelow(route, n)
    ensures PathCost(n, small, route) == PathCost(size, distances, route)
  {
    if |route| <= 1 {
    } else {
      SubmatrixPathCost(n, small, size, distances, route[..|route| - 1]);
    }
  }

  // solve_traveling_salesman; each repetition may reduce along a different plan.
  method SolveTravelingSalesman(size: nat, distances: seq<int>, n: nat, plans: seq<Plan>)
    returns (best: RouteCost, route: seq<int>)
    requires |distances| == size * size && 2 <= n <= size
    requires 0 < |plans| && forall k :: 0 <= k < |plans| ==> Legal(plans[k], Factorial(n))
    requires exists p :: IsPermutation(p, n) && CitiesBelow(p, n)
                         && PathCost(size, distances, p) < MachineRoute.INT_MAX
    ensures IsPermutation(route, n) && CitiesBelow(route, n)
    ensures forall p :: IsPermutation(p, n) && CitiesBelow(p, n) ==>
              PathCost(size, distances, route) <= PathCost(size, distances, p)
    ensures best.cost == PathCost(size, distances, route)
    ensures 0 <= best.route < Factorial(n) && route == Unrank(n, best.route)
  {
    var small := InitDistanceMatrixSmall(size, distances, n);
    var d := small[..];
    assert SomeRouteBelowLimit(n, d) by {
      var p :| IsPermutation(p, n) && CitiesBelow(p, n) && PathCost(size, distances, p) < MachineRoute.INT_MAX;
      SubmatrixPathCost(n, d, size, distances, p);
      assert TourCost(n, d, p) < MachineRoute.INT_MAX;
    }
    best := NO_ROUTE;
    for k := 0 to |plans|
      invariant k > 0 ==> IsOptimal(n, d, best)
    {
      BestRouteIsOptimal(n, d, plans[k]);
      best := FindBestRoute(n, d, plans[k]);
    }
    var rit := new RouteIterator(n, best.route);
    route := rit.state[..];
    UnrankPermutes(n, best.route);
    SubmatrixPathCost(n, d, size, distances, route);
    forall p | IsPermutation(p, n) && CitiesBelow(p, n)
      ensures PathCost(size, distances, route) <= PathCost(size, distances, p)
    {
      SubmatrixPathCost(n, d, size, distances, p);
      assert best.cost <= TourCost(n, d, p);
    }
  }
}
