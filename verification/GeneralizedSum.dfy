// The value of a parallel std::transform_reduce, as section 29.8.5 of
// ISO/IEC 14882:2017 defines it: the reduction operator is applied to the
// initial value and the transformed elements in any order and any grouping.
module GeneralizedSum {

  // An operand of the reduction: the initial value or the i-th transformed element.
  datatype Slot = Init | At(i: nat)

  // One way of carrying the reduction out: a binary tree of applications.
  datatype Plan = Leaf(slot: Slot) | Node(left: Plan, right: Plan)

  function Leaves(p: Plan): (s: seq<Slot>)
    ensures 0 < |s|
  {
    match p
    case Leaf(slot) => [slot]
    case Node(l, r) => Leaves(l) + Leaves(r)
  }

  function Slots(n: nat): (s: seq<Slot>)
    ensures |s| == n + 1 && s[0] == Init
    ensures forall i :: 0 <= i < n ==> s[i + 1] == At(i)
  {
    [Init] + seq(n, i requires 0 <= i < n => At(i))
  }

  // Every operand is consumed exactly once.
  ghost predicate Legal(p: Plan, n: nat) {
    multiset(Leaves(p)) == multiset(Slots(n))
  }

  predicate InRange(slots: seq<Slot>, n: nat) {
    forall s :: s in slots && s.At? ==> s.i < n
  }

  function Operand<T>(init: T, values: seq<T>, s: Slot): T
    requires s.At? ==> s.i < |values|
  {
    match s
    case Init => init
    case At(i) => values[i]
  }

  function Reduce<T>(op: (T, T) -> T, init: T, values: seq<T>, p: Plan): T
    requires InRange(Leaves(p), |values|)
  {
    match p
    case Leaf(slot) =>
      assert slot in Leaves(p);
      Operand(init, values, slot)
    case Node(l, r) =>
      InRangeNode(l, r, |values|);
      op(Reduce(op, init, values, l), Reduce(op, init, values, r))
  }

  lemma InRangeNode(l: Plan, r: Plan, n: nat)
    requires InRange(Leaves(Node(l, r)), n)
    ensures InRange(Leaves(l), n) && InRange(Leaves(r), n)
  {
    forall s | s in Leaves(l) || s in Leaves(r)
      ensures s in Leaves(Node(l, r))
    {}
  }

  lemma SlotsMembers(n: nat, s: Slot)
    ensures s in Slots(n) <==> (s.At? ==> s.i < n)
  {
    if s.At? && s.i < n {
      assert Slots(n)[s.i + 1] == s;
    }
    if s in Slots(n) {
      var k :| 0 <= k < n + 1 && Slots(n)[k] == s;
      assert k > 0 ==> Slots(n)[k - 1 + 1] == At(k - 1);
    }
  }

  // A legal plan has exactly the initial value and the n elements as leaves.
  lemma LegalLeaves(p: Plan, n: nat)
    requires Legal(p, n)
    ensures InRange(Leaves(p), n)
    ensures forall s: Slot :: s in Leaves(p) <==> (s.At? ==> s.i < n)
  {
    forall s: Slot
      ensures s in Leaves(p) <==> (s.At? ==> s.i < n)
    {
      SlotsMembers(n, s);
      assert s in Leaves(p) <==> s in multiset(Leaves(p));
      assert s in Slots(n) <==> s in multiset(Slots(n));
    }
  }

  // ----- Agreement with the wording of the standard

  // GENERALIZED_NONCOMMUTATIVE_SUM(op, a1, ..., aN): a1 alone, or op applied
  // to the sums of a nonempty prefix and of the remaining suffix.
  ghost predicate NoncommutativeSum<T(!new)>(op: (T, T) -> T, a: seq<T>, v: T)
    decreases |a|
  {
    || (|a| == 1 && v == a[0])
    || exists k: nat, x, y ::
         0 < k < |a| && NoncommutativeSum(op, a[..k], x) && NoncommutativeSum(op, a[k..], y) && v == op(x, y)
  }

  function Operands<T>(init: T, values: seq<T>, slots: seq<Slot>): (a: seq<T>)
    requires InRange(slots, |values|)
    ensures |a| == |slots|
  {
    seq(|slots|, k requires 0 <= k < |slots| => assert slots[k] in slots; Operand(init, values, slots[k]))
  }

  lemma OperandsSplit<T>(init: T, values: seq<T>, slots: seq<Slot>, k: nat)
    requires InRange(slots, |values|) && k <= |slots|
    ensures InRange(slots[..k], |values|) && InRange(slots[k..], |values|)
    ensures Operands(init, values, slots)[..k] == Operands(init, values, slots[..k])
    ensures Operands(init, values, slots)[k..] == Operands(init, values, slots[k..])
  {
    assert forall s :: s in slots[..k] ==> s in slots;
    assert forall s :: s in slots[k..] ==> s in slots;
  }

  lemma {:induction false} PlanIsNoncommutativeSum<T(!new)>(op: (T, T) -> T, init: T, values: seq<T>, p: Plan)
    requires InRange(Leaves(p), |values|)
    ensures NoncommutativeSum(op, Operands(init, values, Leaves(p)), Reduce(op, init, values, p))
  {
    match p
    case Leaf(slot) =>
    case Node(l, r) =>
      InRangeNode(l, r, |values|);
      PlanIsNoncommutativeSum(op, init, values, l);
      PlanIsNoncommutativeSum(op, init, values, r);
      OperandsSplit(init, values, Leaves(p), |Leaves(l)|);
      assert Leaves(p)[..|Leaves(l)|] == Leaves(l) && Leaves(p)[|Leaves(l)|..] == Leaves(r);
  }

  lemma {:induction false} NoncommutativeSumHasPlan<T(!new)>(
    op: (T, T) -> T, init: T, values: seq<T>, slots: seq<Slot>, v: T) returns (p: Plan)
    requires InRange(slots, |values|)
    requires NoncommutativeSum(op, Operands(init, values, slots), v)
    ensures Leaves(p) == slots && Reduce(op, init, values, p) == v
    decreases |slots|
  {
    var a := Operands(init, values, slots);
    if |a| == 1 && v == a[0] {
      p := Leaf(slots[0]);
      assert slots == [slots[0]];
    } else {
      var k: nat, x, y :|
        0 < k < |a| && NoncommutativeSum(op, a[..k], x) && NoncommutativeSum(op, a[k..], y) && v == op(x, y);
      OperandsSplit(init, values, slots, k);
      var l := NoncommutativeSumHasPlan(op, init, values, slots[..k], x);
      var r := NoncommutativeSumHasPlan(op, init, values, slots[k..], y);
      p := Node(l, r);
      assert slots[..k] + slots[k..] == slots;
    }
  }

  // GENERALIZED_SUM: a noncommutative sum over any rearrangement of the operands.
  ghost predicate IsGeneralizedSum<T(!new)>(op: (T, T) -> T, init: T, values: seq<T>, v: T) {
    exists slots :: multiset(slots) == multiset(Slots(|values|)) && InRange(slots, |values|)
                    && NoncommutativeSum(op, Operands(init, values, slots), v)
  }

  ghost predicate SomePlanYields<T(!new)>(op: (T, T) -> T, init: T, values: seq<T>, v: T) {
    exists p :: Legal(p, |values|) && InRange(Leaves(p), |values|) && Reduce(op, init, values, p) == v
  }

  // The legal plans yield exactly the values the standard permits.
  lemma LegalPlansAreGeneralizedSums<T(!new)>(op: (T, T) -> T, init: T, values: seq<T>, v: T)
    ensures IsGeneralizedSum(op, init, values, v) <==> SomePlanYields(op, init, values, v)
  {
    if IsGeneralizedSum(op, init, values, v) {
      var slots :| multiset(slots) == multiset(Slots(|values|)) && InRange(slots, |values|)
                   && NoncommutativeSum(op, Operands(init, values, slots), v);
      var p := NoncommutativeSumHasPlan(op, init, values, slots, v);
      assert Legal(p, |values|);
    }
    if SomePlanYields(op, init, values, v) {
      var p :| Legal(p, |values|) && InRange(Leaves(p), |values|) && Reduce(op, init, values, p) == v;
      PlanIsNoncommutativeSum(op, init, values, p);
      assert multiset(Leaves(p)) == multiset(Slots(|values|));
    }
  }

  // ----- Building plans

  // Combine the slots from the left, one at a time.
  function LeftComb(slots: seq<Slot>): (p: Plan)
    requires 0 < |slots|
    ensures Leaves(p) == slots
  {
    if |slots| == 1 then Leaf(slots[0])
    else
      assert slots[..|slots| - 1] + [slots[|slots| - 1]] == slots;
      Node(LeftComb(slots[..|slots| - 1]), Leaf(slots[|slots| - 1]))
  }

  // For every operand there is a legal plan that combines it last, on the right.
  lemma PlanEndingWith(n: nat, last: Slot) returns (rest: Plan)
    requires 0 < n
    requires last.At? ==> last.i < n
    ensures Legal(Node(rest, Leaf(last)), n)
  {
    SlotsMembers(n, last);
    var slots := Slots(n);
    var k :| 0 <= k < |slots| && slots[k] == last;
    var others := slots[..k] + slots[k + 1..];
    MoveToEnd(slots, k);
    rest := LeftComb(others);
    assert Leaves(Node(rest, Leaf(last))) == others + [last];
  }

  lemma MoveToEnd<T>(s: seq<T>, k: nat)
    requires k < |s|
    ensures multiset(s[..k] + s[k + 1..] + [s[k]]) == multiset(s)
  {
    assert s == s[..k] + [s[k]] + s[k + 1..];
  }
}
