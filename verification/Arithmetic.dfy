// Facts about division, remainder and row-major indexing that several models need.
module Arithmetic {

  lemma MulLe(x: nat, y: nat, z: nat)
    requires x <= y
    ensures x * z <= y * z
  {
    assert y * z == x * z + (y - x) * z;
  }

  lemma MultipleIsFar(x: int, b: nat)
    ensures 1 <= x ==> b <= x * b
    ensures x <= -1 ==> x * b + b <= 0
  {
    if 1 <= x {
      assert x * b == (x - 1) * b + b;
    } else if x <= -1 {
      assert x * b == (x + 1) * b - b;
    }
  }

  lemma DivModUnique(a: int, b: int, q: int, r: int)
    requires 0 < b && 0 <= r < b && a == q * b + r
    ensures a / b == q && a % b == r
  {
    assert (q - a / b) * b == a % b - r;
    MultipleIsFar(q - a / b, b);
  }

  lemma QuotientIsNat(a: nat, b: nat)
    requires 0 < b
    ensures 0 <= a / b
  {
    MultipleIsFar(a / b, b);
    assert a == (a / b) * b + a % b;
  }

  // One step of a mixed-radix expansion: the remainder by m * d splits into
  // the digit of weight m and the remainder by m.
  lemma MixedRadixStep(x: nat, m: nat, d: nat)
    requires 0 < m && 0 < d
    ensures 0 < m * d
    ensures x % (m * d) == (x / m % d) * m + x % m
    ensures x / m % d == x % (m * d) / m
    ensures x % (m * d) % m == x % m
  {
    var q, r := x / m, x % m;
    var q2, digit := q / d, q % d;
    assert q == q2 * d + digit;
    assert x == q * m + r;
    assert q * m == (q2 * d) * m + digit * m;
    assert (q2 * d) * m == q2 * (m * d);
    MulLe(digit, d - 1, m);
    assert (d - 1) * m + m == m * d;
    DivModUnique(x, m * d, q2, digit * m + r);
    DivModUnique(digit * m + r, m, digit, r);
  }

  // A digit d in [0, k] of weight f placed above a remainder below f.
  lemma LeadingDigit(f: nat, k: nat, d: nat, r: nat)
    requires d <= k && r < f
    ensures d * f + r < f * (k + 1)
    ensures (d * f + r) / f % (k + 1) == d
    ensures (d * f + r) % f == r
  {
    var x := d * f + r;
    assert x / f == d && x % f == r by { DivModUnique(x, f, d, r); }
    assert x / f % (k + 1) == d by { DivModUnique(d, k + 1, 0, d); }
    assert x < f * (k + 1) by { MulLe(d, k, f); assert f * (k + 1) == k * f + f; }
  }

  // Row-major indexing is injective and stays inside the buffer.
  lemma RowMajorInBounds(rows: nat, cols: nat, i: nat, j: nat)
    requires i < rows && j < cols
    ensures 0 <= i * cols + j < rows * cols
  {
    MulLe(i, rows - 1, cols);
    assert (rows - 1) * cols + cols == rows * cols;
  }

  lemma RowMajorInjective(cols: nat, i: nat, j: nat, i': nat, j': nat)
    requires j < cols && j' < cols && i * cols + j == i' * cols + j'
    ensures i == i' && j == j'
  {
    DivModUnique(i * cols + j, cols, i, j);
    DivModUnique(i' * cols + j', cols, i', j');
  }

  // The row and the column of position p.
  lemma RowMajorPosition(rows: nat, cols: nat, p: nat)
    requires p < rows * cols
    ensures 0 < cols && 0 <= p / cols < rows && 0 <= p % cols < cols
    ensures p / cols * cols + p % cols == p
  {
    assert cols != 0;
    MixedRadixStep(p, cols, rows);
    DivModUnique(p, cols * rows, 0, p);
    QuotientIsNat(p, cols);
  }

  lemma ProductIsNat(x: nat, y: nat)
    ensures 0 <= x * y
  {
    MulLe(0, x, y);
  }
}
