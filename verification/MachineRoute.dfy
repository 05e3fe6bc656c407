// The widths of the machine types behind route_iterator: the factorials are
// uint64_t, the divisor of the constructor is a 32-bit int.
module MachineRoute {
  import opened Arithmetic
  import opened Routes

  const INT_MAX: int := 0x7FFF_FFFF
  const TWO_TO_THE_32: int := 0x1_0000_0000
  const TWO_TO_THE_64: int := 0x1_0000_0000_0000_0000

  // ----- uint64_t factorial: unsigned arithmetic wraps around

  function FactorialU64(n: nat): nat {
    if n == 0 then 1 else n * FactorialU64(n - 1) % TWO_TO_THE_64
  }

  lemma ProductModulo(n: nat, x: nat, m: nat)
    requires 0 < m
    ensures n * (x % m) % m == n * x % m
  {
    var q, r := x / m, x % m;
    assert n * x == n * (q * m) + n * r;
    assert n * (q * m) == (n * q) * m;
    var q2, r2 := n * r / m, n * r % m;
    assert n * r == q2 * m + r2;
    assert n * x == (n * q + q2) * m + r2;
    DivModUnique(n * x, m, n * q + q2, r2);
  }

  lemma {:induction false} FactorialU64IsRemainder(n: nat)
    ensures FactorialU64(n) == Factorial(n) % TWO_TO_THE_64
  {
    if n == 0 {
    } else {
      FactorialU64IsRemainder(n - 1);
      ProductModulo(n, Factorial(n - 1), TWO_TO_THE_64);
    }
  }

  lemma {:induction false} FactorialGrows(m: nat, n: nat)
    requires m <= n
    ensures Factorial(m) <= Factorial(n)
    decreases n - m
  {
    if m == n {
    } else {
      FactorialStep(m);
      var f := Factorial(m);
      assert f * (m + 1) == f * m + f;
      FactorialGrows(m + 1, n);
    }
  }

  lemma FactorialTable()
    ensures Factorial(12) == 479001600
    ensures Factorial(13) == 6227020800
    ensures Factorial(14) == 87178291200
    ensures Factorial(20) == 2432902008176640000
    ensures Factorial(21) == 51090942171709440000
  {
    assert Factorial(4) == 24;
    assert Factorial(8) == 40320;
    assert Factorial(12) == 479001600;
    assert Factorial(16) == 20922789888000;
    assert Factorial(20) == 2432902008176640000;
  }

  // factorial(n) is exact in uint64_t for n up to 20 and wraps at every larger n.
  lemma FactorialFitsUint64(n: nat)
    ensures FactorialU64(n) == Factorial(n) <==> n <= 20
  {
    FactorialU64IsRemainder(n);
    FactorialTable();
    if n <= 20 {
      FactorialGrows(n, 20);
      DivModUnique(Factorial(n), TWO_TO_THE_64, 0, Factorial(n));
    } else {
      FactorialGrows(21, n);
    }
  }

  // ----- The constructor with an int divisor

  datatype Outcome<T> = Defined(value: T) | Undefined

  // The products that fit into an int.
  lemma NextFactorialFits(k: nat)
    ensures Factorial(k) * (k + 1) == Factorial(k + 1)
    ensures Factorial(k + 1) <= INT_MAX <==> k + 1 <= 12
  {
    FactorialStep(k);
    if k + 1 <= 12 {
      FactorialGrows(k + 1, 12);
    } else {
      FactorialGrows(13, k + 1);
    }
    FactorialTable();
  }

  // Signed overflow has undefined behaviour (clause 8, paragraph 4 of ISO/IEC
  // 14882:2017), so the constructor is defined exactly when every product fits.
  method ConstructState(n: nat, routeId: nat) returns (result: Outcome<seq<int>>)
    requires 2 <= n && routeId < Factorial(n)
    ensures result.Defined? <==> n <= 12
    ensures result.Defined? ==> result.value == Unrank(n, routeId)
  {
    var state := seq(n, i => i);
    var divisor := 1;
    for k := 1 to n
      invariant k <= 12
      invariant 1 <= divisor == Factorial(k)
      invariant state == State(n, routeId, k)
    {
      var r := routeId / divisor % (k + 1);
      StateStep(n, routeId, k, r);
      if r > 0 {
        state := Swap(state, k, k - r);
      }
      NextFactorialFits(k);
      if divisor * (k + 1) > INT_MAX {
        return Undefined;
      }
      divisor := divisor * (k + 1);
    }
    return Defined(state);
  }

  // ----- The same loop when the overflowing product wraps around

  // Two's-complement reduction to 32 bits.
  function Wrap32(x: int): (r: int)
    ensures -0x8000_0000 <= r <= INT_MAX
    ensures (x - r) % TWO_TO_THE_32 == 0
  {
    (x + 0x8000_0000) % TWO_TO_THE_32 - 0x8000_0000
  }

  lemma Wrap32InRange(x: int)
    requires -0x8000_0000 <= x <= INT_MAX
    ensures Wrap32(x) == x
  {
  }

  function WrappedDivisor(k: nat): int
    requires 1 <= k
  {
    if k == 1 then 1 else Wrap32(WrappedDivisor(k - 1) * k)
  }

  // Wrapping loses multiples of 2^32 only: the divisor is congruent to the factorial.
  lemma {:induction false} WrappedDivisorCongruent(k: nat)
    requires 1 <= k
    ensures -0x8000_0000 <= WrappedDivisor(k) <= 0x7FFF_FFFF
    ensures (Factorial(k) - WrappedDivisor(k)) % 0x1_0000_0000 == 0
  {
    if k == 1 {
      assert Factorial(1) == 1;
    } else {
      WrappedDivisorCongruent(k - 1);
      FactorialStep(k - 1);
      var product := WrappedDivisor(k - 1) * k;
      CongruentStep(k, Factorial(k - 1), WrappedDivisor(k - 1), Factorial(k), product, Wrap32(product), TWO_TO_THE_32);
    }
  }

  lemma CongruentStep(k: nat, f: int, w: int, next: int, product: int, w': int, m: nat)
    requires 0 < m && (f - w) % m == 0
    requires next == f * k && product == w * k && (product - w') % m == 0
    ensures (next - w') % m == 0
  {
    var q, q' := (f - w) / m, (product - w') / m;
    assert f - w == q * m && product - w' == q' * m;
    assert next - product == (f - w) * k == (q * m) * k == (q * k) * m;
    DivModUnique(next - w', m, q * k + q', 0);
  }

  lemma {:induction false} WrappedDivisorExact(k: nat)
    requires 1 <= k <= 12
    ensures WrappedDivisor(k) == Factorial(k)
  {
    if k <= 1 {
    } else {
      WrappedDivisorExact(k - 1);
      FactorialStep(k - 1);
      FactorialGrows(k, 12);
      assert Factorial(12) == 479001600 by { FactorialTable(); }
      Wrap32InRange(WrappedDivisor(k - 1) * k);
    }
  }

  // One more product, reduced by q times 2^32.
  lemma {:induction false} WrapStep(k: nat, w: int, q: int, next: int)
    requires 1 <= k && WrappedDivisor(k) == w
    requires w * (k + 1) == q * TWO_TO_THE_32 + next && -0x8000_0000 <= next <= INT_MAX
    ensures WrappedDivisor(k + 1) == next
  {
    DivModUnique(w * (k + 1) + 0x8000_0000, TWO_TO_THE_32, q, next + 0x8000_0000);
  }

  // The divisors that wrapping produces: first wrong at 13!, zero at 34!.
  lemma {:induction false} WrappedDivisorTable(k: nat)
    requires k == 12
    ensures WrappedDivisor(k + 1) == 1932053504
    ensures WrappedDivisor(k + 2) == 1278945280
    ensures WrappedDivisor(k + 3) == 2004310016
    ensures WrappedDivisor(k + 4) == 2004189184
    ensures WrappedDivisor(k + 5) == -288522240
    ensures WrappedDivisor(k + 6) == -898433024
    ensures WrappedDivisor(k + 7) == 109641728
    ensures WrappedDivisor(k + 8) == -2102132736
    ensures WrappedDivisor(k + 9) == -1195114496
    ensures WrappedDivisor(k + 10) == -522715136
    ensures WrappedDivisor(k + 11) == 862453760
    ensures WrappedDivisor(k + 12) == -775946240
    ensures WrappedDivisor(k + 13) == 2076180480
    ensures WrappedDivisor(k + 14) == -1853882368
    ensures WrappedDivisor(k + 15) == 1484783616
    ensures WrappedDivisor(k + 16) == -1375731712
    ensures WrappedDivisor(k + 17) == -1241513984
    ensures WrappedDivisor(k + 18) == 1409286144
    ensures WrappedDivisor(k + 19) == 738197504
    ensures WrappedDivisor(k + 20) == -2147483648
    ensures WrappedDivisor(k + 21) == -2147483648
    ensures WrappedDivisor(k + 22) == 0
  {
    WrappedDivisorExact(k);
    assert Factorial(12) == 479001600 by { FactorialTable(); }
    WrapStep(k + 0, 479001600, 1, 1932053504);
    WrapStep(k + 1, 1932053504, 6, 1278945280);
    WrapStep(k + 2, 1278945280, 4, 2004310016);
    WrapStep(k + 3, 2004310016, 7, 2004189184);
    WrapStep(k + 4, 2004189184, 8, -288522240);
    WrapStep(k + 5, -288522240, -1, -898433024);
    WrapStep(k + 6, -898433024, -4, 109641728);
    WrapStep(k + 7, 109641728, 1, -2102132736);
    WrapStep(k + 8, -2102132736, -10, -1195114496);
    WrapStep(k + 9, -1195114496, -6, -522715136);
    WrapStep(k + 10, -522715136, -3, 862453760);
    WrapStep(k + 11, 862453760, 5, -775946240);
    WrapStep(k + 12, -775946240, -5, 2076180480);
    WrapStep(k + 13, 2076180480, 13, -1853882368);
    WrapStep(k + 14, -1853882368, -12, 1484783616);
    WrapStep(k + 15, 1484783616, 10, -1375731712);
    WrapStep(k + 16, -1375731712, -9, -1241513984);
    WrapStep(k + 17, -1241513984, -9, 1409286144);
    WrapStep(k + 18, 1409286144, 10, 738197504);
    WrapStep(k + 19, 738197504, 6, -2147483648);
    WrapStep(k + 20, -2147483648, -16, -2147483648);
    WrapStep(k + 21, -2147483648, -17, 0);
  }

  // The loop divides by the values up to (n - 1)!, which are not zero up to n = 34.
  lemma {:induction false} WrappedDivisorZero(k: nat)
    requires 1 <= k <= 34
    ensures WrappedDivisor(k) == 0 <==> k == 34
  {
    if k <= 12 {
      WrappedDivisorExact(k);
    } else {
      WrappedDivisorTable(12);
    }
  }

  // The divisor as an operand of the unsigned 64-bit division.
  function UnsignedDivisor(k: nat): (d: nat)
    requires 1 <= k <= 33
    ensures 0 < d < TWO_TO_THE_64
    ensures d == WrappedDivisor(k) || d == WrappedDivisor(k) + TWO_TO_THE_64
  {
    WrappedDivisorZero(k);
    if WrappedDivisor(k) < 0 then WrappedDivisor(k) + TWO_TO_THE_64 else WrappedDivisor(k)
  }

  function WrappedDigit(id: nat, k: nat): (r: nat)
    requires 1 <= k <= 33
    ensures r <= k
  {
    id / UnsignedDivisor(k) % (k + 1)
  }

  // The digit that the wrapped loop reads, by the two divisions with remainder. The divisor
  // d is the value of the int or, if that is negative, the value raised by 2^64.
  lemma WrappedDigitByDivision(id: nat, k: nat, d: nat, q: nat, r: nat, rest: nat)
    requires 1 <= k <= 33 && 0 < d < 0x1_0000_0000_0000_0000
    requires d == WrappedDivisor(k) || d == WrappedDivisor(k) + 0x1_0000_0000_0000_0000
    requires id == (q * (k + 1) + r) * d + rest && r <= k && rest < d
    ensures WrappedDigit(id, k) == r
  {
    WrappedDivisorCongruent(k);
    assert d == UnsignedDivisor(k);
    var quotient := q * (k + 1) + r;
    DivModUnique(id, d, quotient, rest);
    DivModUnique(quotient, k + 1, q, r);
  }

  lemma {:induction false} WrappedDigitExact(id: nat, k: nat)
    requires 1 <= k <= 12
    ensures WrappedDigit(id, k) == Digit(id, k)
  {
    WrappedDivisorExact(k);
  }

  function Digits(n: nat, id: nat): (ds: seq<nat>)
    ensures |ds| == n && InRadix(ds)
  {
    seq(n, k requires 0 <= k < n => Digit(id, k))
  }

  // The digits that the wrapped loop reads; at 35 cities it would divide by zero.
  function WrappedDigits(n: nat, id: nat): (ds: seq<nat>)
    requires n <= 34
    ensures |ds| == n && InRadix(ds)
  {
    seq(n, k requires 0 <= k < n => if k == 0 then 0 else WrappedDigit(id, k))
  }

  function WrappedUnrank(n: nat, id: nat): (s: seq<int>)
    requires 1 <= n <= 34
    ensures |s| == n
  {
    Shuffled(WrappedDigits(n, id), n)
  }

  // ----- Permutations and digits

  predicate InRadix(ds: seq<nat>) {
    forall k :: 0 <= k < |ds| ==> ds[k] <= k
  }

  // The swaps of the loop for an arbitrary list of digits, before iteration k.
  function Shuffled(ds: seq<nat>, k: nat): (s: seq<int>)
    requires InRadix(ds) && 1 <= k <= |ds|
    ensures |s| == |ds|
  {
    if k == 1 then Identity(|ds|) else Swap(Shuffled(ds, k - 1), k - 1, k - 1 - ds[k - 1])
  }

  lemma {:induction false} ShuffledStep(ds: seq<nat>, k: nat)
    requires InRadix(ds) && 1 <= k < |ds|
    ensures Shuffled(ds, k + 1) == Swap(Shuffled(ds, k), k, k - ds[k])
  {
  }

  lemma {:induction false} StateIsShuffled(n: nat, id: nat, k: nat)
    requires 1 <= k <= n
    ensures State(n, id, k) == Shuffled(Digits(n, id), k)
  {
    if k == 1 {
    } else {
      StateIsShuffled(n, id, k - 1);
      assert Digits(n, id)[k - 1] == Digit(id, k - 1);
      ShuffledStep(Digits(n, id), k - 1);
    }
  }

  lemma ShuffledIsSwap(ds: seq<nat>, k: nat)
    requires InRadix(ds) && 2 <= k <= |ds|
    ensures Shuffled(ds, k) == Swap(Shuffled(ds, k - 1), k - 1, k - 1 - ds[k - 1])
  {
  }

  lemma ShuffledStaysPermutation(ds: seq<nat>, k: nat, before: seq<int>, p: nat)
    requires InRadix(ds) && 2 <= k <= |ds| && before == Shuffled(ds, k - 1) && p == k - 1 - ds[k - 1]
    requires IsPermutation(before, |ds|)
    ensures IsPermutation(Shuffled(ds, k), |ds|)
  {
    SwapStaysPermutation(before, |ds|, k - 1, p);
    ShuffledIsSwap(ds, k);
  }

  lemma {:induction false} ShuffledPermutes(ds: seq<nat>, k: nat)
    requires InRadix(ds) && 1 <= k <= |ds|
    ensures IsPermutation(Shuffled(ds, k), |ds|)
  {
    if k == 1 {
    } else {
      ShuffledPermutes(ds, k - 1);
      ShuffledStaysPermutation(ds, k, Shuffled(ds, k - 1), k - 1 - ds[k - 1]);
    }
  }

  lemma {:induction false} ShuffledTail(ds: seq<nat>, k: nat, j: nat)
    requires InRadix(ds) && 1 <= k <= j < |ds|
    ensures Shuffled(ds, k)[j] == j
  {
    if k == 1 {
    } else {
      ShuffledTail(ds, k - 1, j);
      SwapKeepsTail(Shuffled(ds, k - 1), k - 1, k - 1 - ds[k - 1], k);
    }
  }

  ghost predicate SameDigits(ds: seq<nat>, es: seq<nat>, k: nat)
    requires k <= |ds| == |es|
  {
    forall j :: 1 <= j < k ==> ds[j] == es[j]
  }

  lemma SameDigitsStep(ds: seq<nat>, es: seq<nat>, j: nat, k: nat)
    requires 1 <= j < |ds| == |es| && k == j + 1
    ensures SameDigits(ds, es, k) <==> SameDigits(ds, es, j) && ds[j] == es[j]
  {
  }

  // The last swap tells its digit, and what was there before it.
  lemma {:induction false} LastSwapDetermines(ds: seq<nat>, es: seq<nat>, j: nat, k: nat)
    requires InRadix(ds) && InRadix(es) && 1 <= j < |ds| == |es| && k == j + 1
    ensures Shuffled(ds, k) == Shuffled(es, k) <==> Shuffled(ds, j) == Shuffled(es, j) && ds[j] == es[j]
  {
    ShuffledStep(ds, j);
    ShuffledStep(es, j);
    ShuffledPermutes(ds, j);
    ShuffledTail(ds, j, j);
    ShuffledTail(es, j, j);
    if Shuffled(ds, k) == Shuffled(es, k) {
      SwapDetermines(Shuffled(ds, j), Shuffled(es, j), |ds|, j, j - ds[j], j - es[j]);
    }
  }

  lemma {:induction false} SameDigitsShuffleAlike(ds: seq<nat>, es: seq<nat>, k: nat)
    requires InRadix(ds) && InRadix(es) && 1 <= k <= |ds| == |es|
    requires SameDigits(ds, es, k)
    ensures Shuffled(ds, k) == Shuffled(es, k)
  {
    if k == 1 {
    } else {
      SameDigitsStep(ds, es, k - 1, k);
      SameDigitsShuffleAlike(ds, es, k - 1);
      LastSwapDetermines(ds, es, k - 1, k);
    }
  }

  lemma {:induction false} SameShuffleSameDigits(ds: seq<nat>, es: seq<nat>, k: nat)
    requires InRadix(ds) && InRadix(es) && 1 <= k <= |ds| == |es|
    requires Shuffled(ds, k) == Shuffled(es, k)
    ensures SameDigits(ds, es, k)
  {
    if k == 1 {
    } else {
      LastSwapDetermines(ds, es, k - 1, k);
      SameShuffleSameDigits(ds, es, k - 1);
      SameDigitsStep(ds, es, k - 1, k);
    }
  }

  // The swaps tell all the digits they were made with.
  lemma {:induction false} ShuffledDeterminesDigits(ds: seq<nat>, es: seq<nat>, k: nat)
    requires InRadix(ds) && InRadix(es) && 1 <= k <= |ds| == |es|
    ensures Shuffled(ds, k) == Shuffled(es, k) <==> SameDigits(ds, es, k)
  {
    if SameDigits(ds, es, k) {
      SameDigitsShuffleAlike(ds, es, k);
    } else if Shuffled(ds, k) == Shuffled(es, k) {
      SameShuffleSameDigits(ds, es, k);
    }
  }

  // ----- How many cities survive the wrap-around

  ghost predicate WrappedUnranks(n: nat)
    requires 1 <= n <= 34
  {
    forall id: nat :: id < Factorial(n) && id < TWO_TO_THE_64 ==> WrappedUnrank(n, id) == Unrank(n, id)
  }

  // Decoding is right exactly when every digit is.
  lemma WrappedUnrankByDigits(n: nat, id: nat)
    requires 1 <= n <= 34
    ensures WrappedUnrank(n, id) == Unrank(n, id) <==> forall k :: 1 <= k < n ==> WrappedDigit(id, k) == Digit(id, k)
  {
    StateIsShuffled(n, id, n);
    ShuffledDeterminesDigits(WrappedDigits(n, id), Digits(n, id), n);
    assert forall k :: 1 <= k < n ==> WrappedDigits(n, id)[k] == WrappedDigit(id, k);
    assert forall k :: 1 <= k < n ==> Digits(n, id)[k] == Digit(id, k);
  }

  // What the wrapped loop constructs: the route whose digits are those that it reads.
  lemma WrappedRoute(n: nat, id: nat) returns (other: nat)
    requires 1 <= n <= 34
    ensures other < Factorial(n) && WrappedUnrank(n, id) == Unrank(n, other)
    ensures forall k :: 1 <= k < n ==> Digit(other, k) == WrappedDigit(id, k)
  {
    ShuffledPermutes(WrappedDigits(n, id), n);
    UnrankRank(WrappedUnrank(n, id), n);
    other := Rank(WrappedUnrank(n, id), n);
    StateIsShuffled(n, other, n);
    ShuffledDeterminesDigits(WrappedDigits(n, id), Digits(n, other), n);
    forall k | 1 <= k < n
      ensures Digit(other, k) == WrappedDigit(id, k)
    {
      assert WrappedDigits(n, id)[k] == Digits(n, other)[k];
    }
  }

  lemma {:induction false} UnsignedDivisorAt13(k: nat)
    requires k == 13
    ensures UnsignedDivisor(k) == 1932053504
  {
    WrappedDivisorTable(k - 1);
  }

  // Route number 13! has digit 1 at weight 13!, and 3 after the division by the wrapped value.
  lemma {:induction false} WrongDigit(id: nat, k: nat)
    requires k == 13 && id == 6227020800
    ensures id == Factorial(k) && Digit(id, k) == 1 && WrappedDigit(id, k) == 3
  {
    assert Factorial(13) == 6227020800 by { FactorialTable(); }
    UnsignedDivisorAt13(k);
    DivModUnique(id, Factorial(k), 1, 0);
    DivModUnique(id, UnsignedDivisor(k), 3, 430860288);
  }

  // With wrap-around, 13 cities are still enumerated correctly (the product that
  // overflows is never used), and no larger number of cities is.
  lemma {:induction false} WrappedUnranksUpTo13(n: nat)
    requires 1 <= n <= 34
    ensures WrappedUnranks(n) <==> n <= 13
  {
    if n <= 13 {
      forall id: nat | id < Factorial(n) && id < TWO_TO_THE_64
        ensures WrappedUnrank(n, id) == Unrank(n, id)
      {
        forall k | 1 <= k < n
          ensures WrappedDigit(id, k) == Digit(id, k)
        {
          WrappedDigitExact(id, k);
        }
        WrappedUnrankByDigits(n, id);
      }
    } else {
      WrongRoute(n, 13);
    }
  }

  // For every larger number of cities, route number 13! is decoded to a wrong permutation.
  lemma {:induction false} WrongRoute(n: nat, k: nat)
    requires k == 13 && k < n <= 34
    ensures 6227020800 < Factorial(n) && WrappedUnrank(n, 6227020800) != Unrank(n, 6227020800)
  {
    WrongDigit(6227020800, k);
    FactorialStep(k);
    FactorialGrows(k + 1, n);
    assert Factorial(k + 1) == Factorial(k) * (k + 1);
    WrappedUnrankByDigits(n, 6227020800);
  }

  // ----- Two ids for one permutation

  // Different ids, different permutations.
  ghost predicate WrappedInjective(n: nat)
    requires 1 <= n <= 34
  {
    forall a: nat, b: nat :: a < b < Factorial(n) && b < TWO_TO_THE_64 ==> WrappedUnrank(n, a) != WrappedUnrank(n, b)
  }

  const FIRST_ID: nat := 1738848153
  const SECOND_ID: nat := 13 * 6227020800 + 1738848153

  lemma {:induction false} LowDigitsAgree(a: nat, b: nat, j: nat, k: nat)
    requires j < k && a % Factorial(k) == b % Factorial(k)
    ensures Digit(a, j) == Digit(b, j)
  {
    DigitOfRemainder(a, j, k);
    DigitOfRemainder(b, j, k);
  }

  lemma {:induction false} CollidingIds(k: nat)
    requires k == 13
    ensures FIRST_ID < SECOND_ID < Factorial(k + 1)
    ensures FIRST_ID % Factorial(k) == SECOND_ID % Factorial(k)
    ensures WrappedDigit(FIRST_ID, k) == WrappedDigit(SECOND_ID, k)
  {
    assert Factorial(13) == 6227020800 && Factorial(14) == 87178291200 by { FactorialTable(); }
    UnsignedDivisorAt13(k);
    DivModUnique(SECOND_ID, Factorial(k), 13, FIRST_ID);
    DivModUnique(FIRST_ID, Factorial(k), 0, FIRST_ID);
    DivModUnique(SECOND_ID, UnsignedDivisor(k), 42, 1543871385);
    DivModUnique(FIRST_ID, UnsignedDivisor(k), 0, FIRST_ID);
  }

  lemma {:induction false} Collides(n: nat, k: nat)
    requires k == 13 && n == k + 1
    ensures FIRST_ID < SECOND_ID < Factorial(n) && WrappedUnrank(n, FIRST_ID) == WrappedUnrank(n, SECOND_ID)
  {
    CollidingIds(k);
    var ds, es := WrappedDigits(n, FIRST_ID), WrappedDigits(n, SECOND_ID);
    forall j | 1 <= j < n
      ensures ds[j] == es[j]
    {
      if j < k {
        LowDigitsAgree(FIRST_ID, SECOND_ID, j, k);
        WrappedDigitExact(FIRST_ID, j);
        WrappedDigitExact(SECOND_ID, j);
      }
    }
    ShuffledDeterminesDigits(ds, es, n);
  }

  // At 14 cities the wrapped loop maps two different ids to one permutation.
  lemma {:induction false} WrappedCollision()
    ensures !WrappedInjective(14)
  {
    Collides(14, 13);
  }
}
