// The one-thread-per-block matrix product kernel, run in any block order, and
// the host-side verifier checkMatrix.
module MatrixMul {
  import opened Arithmetic
  import opened Weights

  // Two row-major factors: rows * inner and inner * cols.
  datatype Factors = Factors(a: seq<int>, b: seq<int>, rows: nat, inner: nat, cols: nat) {
    ghost predicate Valid() {
      |a| == rows * inner && |b| == inner * cols
    }
  }

  function Term(f: Factors, i: nat, j: nat, k: nat): int
    requires f.Valid() && i < f.rows && j < f.cols && k < f.inner
  {
    RowMajorInBounds(f.rows, f.inner, i, k);
    RowMajorInBounds(f.inner, f.cols, k, j);
    f.a[i * f.inner + k] * f.b[k * f.cols + j]
  }

  // The first k terms of row i times column j.
  function Dot(f: Factors, i: nat, j: nat, k: nat): int
    requires f.Valid() && i < f.rows && j < f.cols && k <= f.inner
  {
    if k == 0 then 0 else Dot(f, i, j, k - 1) + Term(f, i, j, k - 1)
  }

  // The entry that belongs at position p of the row-major product.
  function Entry(f: Factors, p: nat): int
    requires f.Valid() && p < f.rows * f.cols
  {
    RowMajorPosition(f.rows, f.cols, p);
    Dot(f, p / f.cols, p % f.cols, f.inner)
  }

  lemma EntryAt(f: Factors, i: nat, j: nat)
    requires f.Valid() && i < f.rows && j < f.cols
    ensures 0 <= i * f.cols + j < f.rows * f.cols
    ensures Entry(f, i * f.cols + j) == Dot(f, i, j, f.inner)
  {
    RowMajorInBounds(f.rows, f.cols, i, j);
    DivModUnique(i * f.cols + j, f.cols, i, j);
  }

  ghost predicate IsProduct(f: Factors, c: seq<int>)
    requires f.Valid()
  {
    f.rows * f.cols <= |c| && forall p :: 0 <= p < f.rows * f.cols ==> c[p] == Entry(f, p)
  }

  // ----- Laws of the matrix product

  // All entries are zero but the one in row u and column v, which is w.
  ghost predicate SingleEntry(s: seq<int>, rows: nat, cols: nat, u: nat, v: nat, w: int) {
    |s| == rows * cols && forall p :: 0 <= p < |s| ==> s[p] == if p == u * cols + v then w else 0
  }

  lemma SingleEntryAt(s: seq<int>, rows: nat, cols: nat, u: nat, v: nat, w: int, i: nat, j: nat)
    requires SingleEntry(s, rows, cols, u, v, w) && u < rows && v < cols && i < rows && j < cols
    ensures 0 <= i * cols + j < |s| && s[i * cols + j] == if i == u && j == v then w else 0
  {
    RowMajorInBounds(rows, cols, i, j);
    if i * cols + j == u * cols + v {
      RowMajorInjective(cols, i, j, u, v);
    }
  }

  lemma ZeroTimes(x: int, y: int)
    ensures x == 0 || y == 0 ==> x * y == 0
    ensures x == 1 ==> x * y == y
    ensures y == 1 ==> x * y == x
  {
  }

  // A term is the product of an entry of the row and an entry of the column.
  lemma TermIsProduct(f: Factors, i: nat, j: nat, k: nat, x: int, y: int)
    requires f.Valid() && i < f.rows && j < f.cols && k < f.inner
    requires 0 <= i * f.inner + k < |f.a| && f.a[i * f.inner + k] == x
    requires 0 <= k * f.cols + j < |f.b| && f.b[k * f.cols + j] == y
    ensures Term(f, i, j, k) == x * y
  {
  }

  lemma {:induction false} SingleLeftSum(f: Factors, u: nat, v: nat, w: int, i: nat, j: nat, k: nat)
    requires f.Valid() && i < f.rows && j < f.cols && u < f.rows && v < f.inner && k <= f.inner
    requires SingleEntry(f.a, f.rows, f.inner, u, v, w)
    ensures 0 <= v * f.cols + j < |f.b|
    ensures Dot(f, i, j, k) == if i == u && v < k then w * f.b[v * f.cols + j] else 0
  {
    RowMajorInBounds(f.inner, f.cols, v, j);
    if k == 0 {
    } else {
      SingleLeftSum(f, u, v, w, i, j, k - 1);
      SingleEntryAt(f.a, f.rows, f.inner, u, v, w, i, k - 1);
      RowMajorInBounds(f.inner, f.cols, k - 1, j);
      var x, y := f.a[i * f.inner + (k - 1)], f.b[(k - 1) * f.cols + j];
      TermIsProduct(f, i, j, k - 1, x, y);
      ZeroTimes(x, y);
    }
  }

  lemma {:induction false} SingleRightSum(f: Factors, u: nat, v: nat, w: int, i: nat, j: nat, k: nat)
    requires f.Valid() && i < f.rows && j < f.cols && u < f.inner && v < f.cols && k <= f.inner
    requires SingleEntry(f.b, f.inner, f.cols, u, v, w)
    ensures 0 <= i * f.inner + u < |f.a|
    ensures Dot(f, i, j, k) == if j == v && u < k then f.a[i * f.inner + u] * w else 0
  {
    RowMajorInBounds(f.rows, f.inner, i, u);
    if k == 0 {
    } else {
      SingleRightSum(f, u, v, w, i, j, k - 1);
      SingleEntryAt(f.b, f.inner, f.cols, u, v, w, k - 1, j);
      RowMajorInBounds(f.rows, f.inner, i, k - 1);
      var x, y := f.a[i * f.inner + (k - 1)], f.b[(k - 1) * f.cols + j];
      TermIsProduct(f, i, j, k - 1, x, y);
      ZeroTimes(x, y);
    }
  }

  // A left factor with the single entry w at (u, v) puts w times row v into row u.
  lemma SingleEntryTimes(f: Factors, u: nat, v: nat, w: int, i: nat, j: nat)
    requires f.Valid() && i < f.rows && j < f.cols && u < f.rows && v < f.inner
    requires SingleEntry(f.a, f.rows, f.inner, u, v, w)
    ensures 0 <= v * f.cols + j < |f.b| && 0 <= i * f.cols + j < f.rows * f.cols
    ensures Entry(f, i * f.cols + j) == if i == u then w * f.b[v * f.cols + j] else 0
  {
    EntryAt(f, i, j);
    SingleLeftSum(f, u, v, w, i, j, f.inner);
  }

  // A right factor with the single entry w at (u, v) puts column u times w into column v.
  lemma TimesSingleEntry(f: Factors, u: nat, v: nat, w: int, i: nat, j: nat)
    requires f.Valid() && i < f.rows && j < f.cols && u < f.inner && v < f.cols
    requires SingleEntry(f.b, f.inner, f.cols, u, v, w)
    ensures 0 <= i * f.inner + u < |f.a| && 0 <= i * f.cols + j < f.rows * f.cols
    ensures Entry(f, i * f.cols + j) == if j == v then f.a[i * f.inner + u] * w else 0
  {
    EntryAt(f, i, j);
    SingleRightSum(f, u, v, w, i, j, f.inner);
  }

  ghost predicate IsSum(s: seq<int>, t: seq<int>, sum: seq<int>) {
    |s| == |t| == |sum| && forall p :: 0 <= p < |s| ==> sum[p] == s[p] + t[p]
  }

  lemma Distribute(x: int, y: int, x': int, y': int, sum: int, sum': int)
    requires sum == x + y && sum' == x' + y'
    ensures sum * x' == x * x' + y * x'
    ensures x * sum' == x * x' + x * y'
  {
  }

  lemma {:induction false} SumOfLeftFactors(f: Factors, g: Factors, h: Factors, i: nat, j: nat, k: nat)
    requires f.Valid() && i < f.rows && j < f.cols && k <= f.inner
    requires g == f.(a := g.a) && h == f.(a := h.a) && IsSum(f.a, g.a, h.a)
    ensures Dot(h, i, j, k) == Dot(f, i, j, k) + Dot(g, i, j, k)
  {
    if k == 0 {
    } else {
      SumOfLeftFactors(f, g, h, i, j, k - 1);
      RowMajorInBounds(f.rows, f.inner, i, k - 1);
      RowMajorInBounds(f.inner, f.cols, k - 1, j);
      var p, y := i * f.inner + (k - 1), f.b[(k - 1) * f.cols + j];
      TermIsProduct(f, i, j, k - 1, f.a[p], y);
      TermIsProduct(g, i, j, k - 1, g.a[p], y);
      TermIsProduct(h, i, j, k - 1, h.a[p], y);
      Distribute(f.a[p], g.a[p], y, 0, h.a[p], y);
    }
  }

  lemma {:induction false} SumOfRightFactors(f: Factors, g: Factors, h: Factors, i: nat, j: nat, k: nat)
    requires f.Valid() && i < f.rows && j < f.cols && k <= f.inner
    requires g == f.(b := g.b) && h == f.(b := h.b) && IsSum(f.b, g.b, h.b)
    ensures Dot(h, i, j, k) == Dot(f, i, j, k) + Dot(g, i, j, k)
  {
    if k == 0 {
    } else {
      SumOfRightFactors(f, g, h, i, j, k - 1);
      RowMajorInBounds(f.rows, f.inner, i, k - 1);
      RowMajorInBounds(f.inner, f.cols, k - 1, j);
      var p, x := (k - 1) * f.cols + j, f.a[i * f.inner + (k - 1)];
      TermIsProduct(f, i, j, k - 1, x, f.b[p]);
      TermIsProduct(g, i, j, k - 1, x, g.b[p]);
      TermIsProduct(h, i, j, k - 1, x, h.b[p]);
      Distribute(x, 0, f.b[p], g.b[p], x, h.b[p]);
    }
  }

  // The product is additive in either factor. With the two laws for single entries this leaves
  // no choice: every matrix is a sum of single entries.
  lemma ProductAdds(f: Factors, g: Factors, h: Factors, c: seq<int>, d: seq<int>, e: seq<int>)
    requires f.Valid()
    requires || (g == f.(a := g.a) && h == f.(a := h.a) && IsSum(f.a, g.a, h.a))
             || (g == f.(b := g.b) && h == f.(b := h.b) && IsSum(f.b, g.b, h.b))
    requires IsProduct(f, c) && IsProduct(g, d) && |c| == |d|
    requires IsSum(c, d, e)
    ensures IsProduct(h, e)
  {
    forall p | 0 <= p < f.rows * f.cols
      ensures e[p] == Entry(h, p)
    {
      RowMajorPosition(f.rows, f.cols, p);
      if g == f.(a := g.a) && h == f.(a := h.a) && IsSum(f.a, g.a, h.a) {
        SumOfLeftFactors(f, g, h, p / f.cols, p % f.cols, f.inner);
      } else {
        SumOfRightFactors(f, g, h, p / f.cols, p % f.cols, f.inner);
      }
    }
  }

  ghost predicate IsIdentity(s: seq<int>, n: nat) {
    |s| == n * n && forall p :: 0 <= p < |s| ==> n != 0 && s[p] == if p / n == p % n then 1 else 0
  }

  lemma IdentityAt(s: seq<int>, n: nat, i: nat, k: nat)
    requires IsIdentity(s, n) && i < n && k < n
    ensures 0 <= i * n + k < |s| && s[i * n + k] == if i == k then 1 else 0
  {
    RowMajorInBounds(n, n, i, k);
    DivModUnique(i * n + k, n, i, k);
  }

  lemma {:induction false} IdentityLeftSum(f: Factors, i: nat, j: nat, k: nat)
    requires f.Valid() && i < f.rows && j < f.cols && k <= f.inner == f.rows && IsIdentity(f.a, f.rows)
    ensures 0 <= i * f.cols + j < |f.b|
    ensures Dot(f, i, j, k) == if i < k then f.b[i * f.cols + j] else 0
  {
    RowMajorInBounds(f.inner, f.cols, i, j);
    if k == 0 {
    } else {
      IdentityLeftSum(f, i, j, k - 1);
      IdentityAt(f.a, f.rows, i, k - 1);
      RowMajorInBounds(f.inner, f.cols, k - 1, j);
      var x, y := f.a[i * f.inner + (k - 1)], f.b[(k - 1) * f.cols + j];
      TermIsProduct(f, i, j, k - 1, x, y);
      ZeroTimes(x, y);
    }
  }

  lemma {:induction false} IdentityRightSum(f: Factors, i: nat, j: nat, k: nat)
    requires f.Valid() && i < f.rows && j < f.cols && k <= f.inner == f.cols && IsIdentity(f.b, f.cols)
    ensures 0 <= i * f.inner + j < |f.a|
    ensures Dot(f, i, j, k) == if j < k then f.a[i * f.inner + j] else 0
  {
    RowMajorInBounds(f.rows, f.inner, i, j);
    if k == 0 {
    } else {
      IdentityRightSum(f, i, j, k - 1);
      IdentityAt(f.b, f.cols, k - 1, j);
      RowMajorInBounds(f.rows, f.inner, i, k - 1);
      var x, y := f.a[i * f.inner + (k - 1)], f.b[(k - 1) * f.cols + j];
      TermIsProduct(f, i, j, k - 1, x, y);
      ZeroTimes(x, y);
    }
  }

  // The identity is neutral on the left ...
  lemma IdentityTimes(f: Factors, c: seq<int>)
    requires f.Valid() && f.inner == f.rows && IsIdentity(f.a, f.rows) && |c| == f.rows * f.cols
    ensures IsProduct(f, c) <==> c == f.b
  {
    forall p | 0 <= p < f.rows * f.cols
      ensures Entry(f, p) == f.b[p]
    {
      RowMajorPosition(f.rows, f.cols, p);
      IdentityLeftSum(f, p / f.cols, p % f.cols, f.inner);
    }
  }

  // ... and on the right.
  lemma TimesIdentity(f: Factors, c: seq<int>)
    requires f.Valid() && f.inner == f.cols && IsIdentity(f.b, f.cols) && |c| == f.rows * f.cols
    ensures IsProduct(f, c) <==> c == f.a
  {
    forall p | 0 <= p < f.rows * f.cols
      ensures Entry(f, p) == f.a[p]
    {
      RowMajorPosition(f.rows, f.cols, p);
      IdentityRightSum(f, p / f.cols, p % f.cols, f.inner);
    }
  }

  // ----- The range of the int arithmetic

  ghost predicate Bounded(s: seq<int>, bound: int) {
    forall i :: 0 <= i < |s| ==> -bound <= s[i] <= bound
  }

  lemma ProductBound(x: int, y: int, bound: int)
    requires -bound <= x <= bound && -bound <= y <= bound
    ensures -(bound * bound) <= x * y <= bound * bound
  {
    assert bound * bound - x * y == (bound - x) * bound + x * (bound - y);
    assert bound * bound + x * y == (bound - x) * bound + x * (bound + y);
    if 0 <= x {
      ProductIsNat(bound - x, bound);
      ProductIsNat(x, bound - y);
      ProductIsNat(x, bound + y);
    } else {
      assert bound * bound - x * y == (bound + x) * bound + (-x) * (bound + y);
      assert bound * bound + x * y == (bound + x) * bound + (-x) * (bound - y);
      ProductIsNat(bound + x, bound);
      ProductIsNat(-x, bound + y);
      ProductIsNat(-x, bound - y);
    }
  }

  // With entries in [-bound, bound] every product and every partial sum stays in range.
  lemma {:induction false} PartialSums(f: Factors, bound: nat, i: nat, j: nat, k: nat)
    requires f.Valid() && i < f.rows && j < f.cols && k <= f.inner
    requires Bounded(f.a, bound) && Bounded(f.b, bound)
    ensures -(k * (bound * bound)) <= Dot(f, i, j, k) <= k * (bound * bound)
    ensures k < f.inner ==> -(bound * bound) <= Term(f, i, j, k) <= bound * bound
  {
    if k < f.inner {
      TermBound(f, bound, i, j, k);
    }
    if k == 0 {
      assert Dot(f, i, j, k) == 0;
    } else {
      PartialSums(f, bound, i, j, k - 1);
      var square := bound * bound;
      assert k * square == (k - 1) * square + square;
    }
  }

  lemma TermBound(f: Factors, bound: nat, i: nat, j: nat, k: nat)
    requires f.Valid() && i < f.rows && j < f.cols && k < f.inner
    requires Bounded(f.a, bound) && Bounded(f.b, bound)
    ensures -(bound * bound) <= Term(f, i, j, k) <= bound * bound
  {
    RowMajorInBounds(f.rows, f.inner, i, k);
    RowMajorInBounds(f.inner, f.cols, k, j);
    ProductBound(f.a[i * f.inner + k], f.b[k * f.cols + j], bound);
  }

  // ----- The kernel

  // The grid has a block for position p of the result.
  predicate Covered(f: Factors, gridX: nat, gridY: nat, p: nat) {
    p < f.rows * f.cols && f.cols != 0 && p / f.cols < gridX && p % f.cols < gridY
  }

  lemma CoveredAt(f: Factors, gridX: nat, gridY: nat, i: nat, j: nat)
    requires i < f.rows && j < f.cols
    ensures Covered(f, gridX, gridY, i * f.cols + j) <==> i < gridX && j < gridY
  {
    RowMajorInBounds(f.rows, f.cols, i, j);
    DivModUnique(i * f.cols + j, f.cols, i, j);
  }

  lemma EverythingCovered(f: Factors, gridX: nat, gridY: nat, p: nat)
    requires f.rows <= gridX && f.cols <= gridY && p < f.rows * f.cols
    ensures Covered(f, gridX, gridY, p)
  {
    RowMajorPosition(f.rows, f.cols, p);
  }

  datatype Block = Waiting | Summing(k: nat, value: int) | Finished

  function Left(b: Block, inner: nat): nat {
    match b
    case Waiting => inner + 2
    case Summing(k, _) => if k <= inner then inner - k + 1 else 1
    case Finished => 0
  }

  function Remaining(inner: nat): (nat, Block) -> nat {
    (t, b) => Left(b, inner)
  }

  function Work(blocks: seq<Block>, inner: nat): nat {
    Sum(Remaining(inner), blocks)
  }

  function InitialBlocks(gridX: nat, gridY: nat): (blocks: seq<Block>)
    ensures |blocks| == gridX * gridY && forall t :: 0 <= t < |blocks| ==> blocks[t] == Waiting
  {
    ProductIsNat(gridX, gridY);
    seq(gridX * gridY, _ => Waiting)
  }

  // A launch on a gridX * gridY grid; block (x, y) is number x * gridY + y.
  class Launch {
    const f: Factors
    const c: array<int>
    const gridX: nat
    const gridY: nat
    var blocks: seq<Block>
    ghost const c0: seq<int>

    ghost predicate BlockOk(x: nat, y: nat)
      requires f.Valid() && f.rows * f.cols <= c.Length
      requires x < gridX && y < gridY && |blocks| == gridX * gridY
      reads this, c
    {
      RowMajorInBounds(gridX, gridY, x, y);
      match blocks[x * gridY + y]
      case Waiting => true
      case Summing(k, value) => x < f.rows && y < f.cols && k <= f.inner && value == Dot(f, x, y, k)
      case Finished =>
        x < f.rows && y < f.cols ==>
          (RowMajorInBounds(f.rows, f.cols, x, y);
           c[x * f.cols + y] == Dot(f, x, y, f.inner))
    }

    ghost predicate Valid()
      reads this, c
    {
      && f.Valid() && f.rows * f.cols <= c.Length && |c0| == c.Length
      && |blocks| == gridX * gridY
      && (forall x, y :: 0 <= x < gridX && 0 <= y < gridY ==> BlockOk(x, y))
      && (forall p :: 0 <= p < c.Length && !Covered(f, gridX, gridY, p) ==> c[p] == c0[p])
    }

    constructor (f: Factors, c: array<int>, gridX: nat, gridY: nat)
      requires f.Valid() && f.rows * f.cols <= c.Length
      ensures Valid() && this.f == f && this.c == c && this.gridX == gridX && this.gridY == gridY
      ensures c0 == old(c[..])
    {
      this.f := f;
      this.c := c;
      this.gridX := gridX;
      this.gridY := gridY;
      this.blocks := InitialBlocks(gridX, gridY);
      this.c0 := c[..];
      new;
      WaitingIsValid();
    }

    lemma WaitingIsValid()
      requires f.Valid() && f.rows * f.cols <= c.Length && c0 == c[..]
      requires |blocks| == gridX * gridY && forall t :: 0 <= t < |blocks| ==> blocks[t] == Waiting
      ensures Valid()
    {
      forall x, y | 0 <= x < gridX && 0 <= y < gridY
        ensures BlockOk(x, y)
      {
        RowMajorInBounds(gridX, gridY, x, y);
      }
    }

    // One step of block (x, y): the bounds test, one term of the sum, or the store.
    method Step(x: nat, y: nat)
      requires Valid() && x < gridX && y < gridY
      modifies this, c
      ensures Valid()
      ensures old(0 <= x * gridY + y < |blocks|)
      ensures if old(blocks[x * gridY + y].Finished?) then blocks == old(blocks) && c[..] == old(c[..])
              else Work(blocks, f.inner) < old(Work(blocks, f.inner))
      ensures |blocks| == old(|blocks|)
      ensures blocks[x * gridY + y] == match old(blocks[x * gridY + y])
                case Finished => Finished
                case Waiting => if x < f.rows && y < f.cols then Summing(0, 0) else Finished
                case Summing(k, value) =>
                  if x < f.rows && y < f.cols && k < f.inner then Summing(k + 1, value + Term(f, x, y, k))
                  else Finished
      ensures old(blocks[x * gridY + y].Summing? && f.inner <= blocks[x * gridY + y].k) ==>
                0 <= x * f.cols + y < c.Length && c[x * f.cols + y] == old(blocks[x * gridY + y]).value
      ensures forall t :: 0 <= t < |blocks| && t != x * gridY + y ==> blocks[t] == old(blocks[t])
      ensures forall p :: 0 <= p < c.Length && p != x * f.cols + y ==> c[p] == old(c[p])
    {
      RowMajorInBounds(gridX, gridY, x, y);
      var t := x * gridY + y;
      assert BlockOk(x, y);
      match blocks[t] {
        case Finished =>
        case Waiting =>
          Advance(x, y, if x < f.rows && y < f.cols then Summing(0, 0) else Finished);
        case Summing(k, value) =>
          if k < f.inner {
            RowMajorInBounds(f.rows, f.inner, x, k);
            RowMajorInBounds(f.inner, f.cols, k, y);
            Advance(x, y, Summing(k + 1, value + f.a[x * f.inner + k] * f.b[k * f.cols + y]));
          } else {
            RowMajorInBounds(f.rows, f.cols, x, y);
            Write(x, y, value);
            Advance(x, y, Finished);
          }
      }
    }

    method Advance(x: nat, y: nat, b: Block)
      requires Valid() && x < gridX && y < gridY
      requires 0 <= x * gridY + y < |blocks|
      requires Left(b, f.inner) < Left(blocks[x * gridY + y], f.inner)
      requires match b
               case Waiting => true
               case Summing(k, value) => x < f.rows && y < f.cols && k <= f.inner && value == Dot(f, x, y, k)
               case Finished =>
                 x < f.rows && y < f.cols ==>
                   0 <= x * f.cols + y < c.Length && c[x * f.cols + y] == Dot(f, x, y, f.inner)
      modifies this`blocks
      ensures Valid() && blocks == old(blocks)[x * gridY + y := b]
      ensures Work(blocks, f.inner) < old(Work(blocks, f.inner))
    {
      SumOfUpdate(Remaining(f.inner), blocks, x * gridY + y, b);
      blocks := blocks[x * gridY + y := b];
      forall x', y' | 0 <= x' < gridX && 0 <= y' < gridY
        ensures BlockOk(x', y')
      {
        assert old(BlockOk(x', y'));
        RowMajorInBounds(gridX, gridY, x', y');
        if x' * gridY + y' == x * gridY + y {
          RowMajorInjective(gridY, x', y', x, y);
        }
      }
    }

    // matrixC[i * BCols + j] = value: no other block's element is touched.
    method Write(x: nat, y: nat, value: int)
      requires Valid() && x < gridX && y < gridY && x < f.rows && y < f.cols
      requires value == Dot(f, x, y, f.inner)
      modifies c
      ensures Valid()
      ensures 0 <= x * f.cols + y < c.Length && c[..] == old(c[..])[x * f.cols + y := value]
    {
      RowMajorInBounds(f.rows, f.cols, x, y);
      CoveredAt(f, gridX, gridY, x, y);
      c[x * f.cols + y] := value;
      forall x', y' | 0 <= x' < gridX && 0 <= y' < gridY
        ensures BlockOk(x', y')
      {
        assert old(BlockOk(x', y'));
        RowMajorInBounds(gridX, gridY, x', y');
        if x' < f.rows && y' < f.cols && x' * f.cols + y' == x * f.cols + y {
          RowMajorInjective(f.cols, x', y', x, y);
        }
      }
    }

    // The whole launch: an arbitrary unfinished block steps until none is left. The
    // entries that have a block are right, all others are as before.
    method RunToCompletion()
      requires Valid()
      modifies this, c
      ensures Valid() && forall t :: 0 <= t < |blocks| ==> blocks[t].Finished?
      ensures forall p :: 0 <= p < f.rows * f.cols && Covered(f, gridX, gridY, p) ==> c[p] == Entry(f, p)
      ensures forall p :: 0 <= p < c.Length && !Covered(f, gridX, gridY, p) ==> c[p] == c0[p]
      ensures f.rows <= gridX && f.cols <= gridY ==> IsProduct(f, c[..])
    {
      while exists t :: 0 <= t < |blocks| && !blocks[t].Finished?
        invariant Valid()
        decreases Work(blocks, f.inner)
      {
        var t :| 0 <= t < |blocks| && !blocks[t].Finished?;
        RowMajorPosition(gridX, gridY, t);
        Step(t / gridY, t % gridY);
      }
      FinishedEntries();
    }

    lemma FinishedEntries()
      requires Valid() && forall t :: 0 <= t < |blocks| ==> blocks[t].Finished?
      ensures forall p :: 0 <= p < f.rows * f.cols && Covered(f, gridX, gridY, p) ==> c[p] == Entry(f, p)
      ensures f.rows <= gridX && f.cols <= gridY ==> IsProduct(f, c[..])
    {
      forall p | 0 <= p < f.rows * f.cols && Covered(f, gridX, gridY, p)
        ensures c[p] == Entry(f, p)
      {
        RowMajorPosition(f.rows, f.cols, p);
        RowMajorInBounds(gridX, gridY, p / f.cols, p % f.cols);
        assert BlockOk(p / f.cols, p % f.cols);
      }
      if f.rows <= gridX && f.cols <= gridY {
        forall p | 0 <= p < f.rows * f.cols
          ensures Covered(f, gridX, gridY, p)
        {
          EverythingCovered(f, gridX, gridY, p);
        }
      }
    }
  }

  // ----- The verifier

  // How many of the first p entries are wrong.
  function Mismatches(f: Factors, c: seq<int>, p: nat): nat
    requires f.Valid() && p <= f.rows * f.cols <= |c|
  {
    if p == 0 then 0
    else Mismatches(f, c, p - 1) + (if c[p - 1] != Entry(f, p - 1) then 1 else 0)
  }

  ghost function WrongEntries(f: Factors, c: seq<int>, p: nat): set<nat>
    requires f.Valid() && p <= f.rows * f.cols <= |c|
  {
    set q: nat | q < p && c[q] != Entry(f, q)
  }

  lemma {:induction false} MismatchesCount(f: Factors, c: seq<int>, p: nat)
    requires f.Valid() && p <= f.rows * f.cols <= |c|
    ensures Mismatches(f, c, p) == |WrongEntries(f, c, p)|
  {
    if p == 0 {
      assert WrongEntries(f, c, p) == {};
    } else {
      MismatchesCount(f, c, p - 1);
      var before := WrongEntries(f, c, p - 1);
      assert p - 1 !in before;
      if c[p - 1] != Entry(f, p - 1) {
        assert WrongEntries(f, c, p) == before + {p - 1};
      } else {
        assert WrongEntries(f, c, p) == before;
      }
    }
  }

  lemma {:induction false} NoMismatches(f: Factors, c: seq<int>, p: nat)
    requires f.Valid() && p <= f.rows * f.cols <= |c|
    ensures Mismatches(f, c, p) == 0 <==> forall q :: 0 <= q < p ==> c[q] == Entry(f, q)
  {
    if p == 0 {
    } else {
      NoMismatches(f, c, p - 1);
    }
  }

  // checkMatrix: the running index is the row-major position at every test, so the
  // result is the number of wrong entries and 0 means that c is the product.
  method CheckMatrix(c: seq<int>, f: Factors) returns (errors: nat)
    requires f.Valid() && f.rows * f.cols <= |c|
    ensures errors == |WrongEntries(f, c, f.rows * f.cols)|
    ensures errors == 0 <==> IsProduct(f, c)
  {
    var checkIndex := 0;
    errors := 0;
    for i := 0 to f.rows
      invariant checkIndex == i * f.cols <= f.rows * f.cols
      invariant errors == Mismatches(f, c, checkIndex)
    {
      for j := 0 to f.cols
        invariant checkIndex == i * f.cols + j <= f.rows * f.cols
        invariant errors == Mismatches(f, c, checkIndex)
      {
        var value := 0;
        for k := 0 to f.inner
          invariant value == Dot(f, i, j, k)
        {
          RowMajorInBounds(f.rows, f.inner, i, k);
          RowMajorInBounds(f.inner, f.cols, k, j);
          value := value + f.a[i * f.inner + k] * f.b[k * f.cols + j];
        }
        EntryAt(f, i, j);
        if c[checkIndex] != value {
          errors := errors + 1;
        }
        checkIndex := checkIndex + 1;
      }
      assert (i + 1) * f.cols == i * f.cols + f.cols;
      MulLe(i + 1, f.rows, f.cols);
    }
    NoMismatches(f, c, f.rows * f.cols);
    MismatchesCount(f, c, f.rows * f.cols);
  }

  // main: one block per entry of the product, then the check.
  method MultiplyAndCheck(f: Factors) returns (c: array<int>, errors: nat)
    requires f.Valid()
    ensures IsProduct(f, c[..]) && errors == 0
  {
    c := new int[f.rows * f.cols](_ => 0);
    var launch := new Launch(f, c, f.rows, f.cols);
    launch.RunToCompletion();
    errors := CheckMatrix(c[..], f);
  }
}
