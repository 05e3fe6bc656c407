// The grid-stride kernel vector_add as a system of GPU threads that take
// single memory accesses in an arbitrary interleaving.
module VectorAdd {
  import opened Arithmetic
  import opened Weights

  // Where a thread stands inside its loop body.
  datatype Pc<T> = Test | LoadedA(x: T) | LoadedB(x: T, y: T) | Done

  datatype Thread<T> = Thread(i: nat, pc: Pc<T>)

  // ----- Ownership of indices

  lemma ResidueUnique(stride: nat, i: nat, j: nat)
    requires 0 < stride && i % stride == j % stride && i <= j < i + stride
    ensures i == j
  {
    var q, q' := i / stride, j / stride;
    assert (q' - q) * stride == j - i;
    MultipleIsFar(q' - q, stride);
  }

  // Between two iterations of a thread lies no other index that it owns.
  lemma NextOwned(stride: nat, i: nat, j: nat)
    requires 0 < stride && i % stride == j % stride
    ensures j < i + stride <==> j <= i
  {
    if i <= j < i + stride {
      ResidueUnique(stride, i, j);
    }
  }

  lemma NextResidue(stride: nat, i: nat)
    requires 0 < stride
    ensures (i + stride) % stride == i % stride
  {
    DivModUnique(i + stride, stride, i / stride + 1, i % stride);
  }

  // The index that a thread visits in its m-th iteration.
  function VisitedIndex(gridDim: nat, blockDim: nat, block: nat, thread: nat, m: nat): nat {
    block * blockDim + thread + m * (blockDim * gridDim)
  }

  // Every index i is visited once and by one thread: the thread's number and the
  // iteration are the remainder and the quotient of i by the stride.
  lemma GridStridePartition(gridDim: nat, blockDim: nat, block: nat, thread: nat, m: nat, i: nat)
    requires block < gridDim && thread < blockDim
    ensures 0 < blockDim * gridDim
    ensures 0 <= i % (blockDim * gridDim) / blockDim < gridDim
    ensures VisitedIndex(gridDim, blockDim, block, thread, m) == i
       <==> block == i % (blockDim * gridDim) / blockDim
            && thread == i % (blockDim * gridDim) % blockDim
            && m == i / (blockDim * gridDim)
  {
    MixedRadixStep(i, blockDim, gridDim);
    var stride := blockDim * gridDim;
    var t := i % stride;
    assert t == t / blockDim * blockDim + t % blockDim;
    assert i == i / stride * stride + t;
    if VisitedIndex(gridDim, blockDim, block, thread, m) == i {
      RowMajorInBounds(gridDim, blockDim, block, thread);
      DivModUnique(i, stride, m, block * blockDim + thread);
      DivModUnique(t, blockDim, block, thread);
    }
  }

  // ----- The same in 32-bit arithmetic

  function U32(x: nat): (r: nat)
    ensures r < 0x1_0000_0000 && (x < 0x1_0000_0000 ==> r == x)
    ensures (x - r) % 0x1_0000_0000 == 0
  {
    x % 0x1_0000_0000
  }

  // The first index and the stride are computed in unsigned int and widened afterwards.
  function WrappedStart(blockDim: nat, block: nat, thread: nat): (i: nat)
    ensures i < 0x1_0000_0000 && (block * blockDim + thread - i) % 0x1_0000_0000 == 0
  {
    ProductIsNat(block, blockDim);
    U32(U32(block * blockDim) + thread)
  }

  function WrappedStride(gridDim: nat, blockDim: nat): (stride: nat)
    ensures stride < 0x1_0000_0000 && (blockDim * gridDim - stride) % 0x1_0000_0000 == 0
  {
    ProductIsNat(blockDim, gridDim);
    U32(blockDim * gridDim)
  }

  function WrappedVisit(gridDim: nat, blockDim: nat, block: nat, thread: nat, m: nat): nat {
    ProductIsNat(m, WrappedStride(gridDim, blockDim));
    WrappedStart(blockDim, block, thread) + m * WrappedStride(gridDim, blockDim)
  }

  ghost predicate SameVisit(gridDim: nat, blockDim: nat, v: (nat, nat, nat), w: (nat, nat, nat)) {
    WrappedVisit(gridDim, blockDim, v.0, v.1, v.2) == WrappedVisit(gridDim, blockDim, w.0, w.1, w.2)
  }

  // No index is visited by two threads, or in two iterations of one thread.
  ghost predicate VisitsAreDistinct(gridDim: nat, blockDim: nat) {
    forall v: (nat, nat, nat), w: (nat, nat, nat) ::
      v.0 < gridDim && v.1 < blockDim && w.0 < gridDim && w.1 < blockDim && SameVisit(gridDim, blockDim, v, w)
      ==> v == w
  }

  lemma WrappedVisitExact(gridDim: nat, blockDim: nat, block: nat, thread: nat, m: nat)
    requires block < gridDim && thread < blockDim && blockDim * gridDim < 0x1_0000_0000
    ensures WrappedVisit(gridDim, blockDim, block, thread, m) == VisitedIndex(gridDim, blockDim, block, thread, m)
  {
    RowMajorInBounds(gridDim, blockDim, block, thread);
    ProductIsNat(block, blockDim);
    var stride := blockDim * gridDim;
    assert WrappedStride(gridDim, blockDim) == stride;
  }

  // Beyond 2^32 threads, the thread of that number starts at index 0 as well.
  lemma SecondThreadAtZero(gridDim: nat, blockDim: nat) returns (block: nat, thread: nat)
    requires 0x1_0000_0000 < blockDim * gridDim
    ensures block < gridDim && thread < blockDim && (block != 0 || thread != 0)
    ensures WrappedStart(blockDim, block, thread) == 0
  {
    var number := 0x1_0000_0000;
    assert blockDim * gridDim == gridDim * blockDim;
    RowMajorPosition(gridDim, blockDim, number);
    block, thread := number / blockDim, number % blockDim;
    var base := block * blockDim;
    assert base + thread == number;
    ProductIsNat(block, blockDim);
    assert U32(number) == 0;
  }

  // The indices are distributed without repetition exactly if the number of threads
  // fits into an unsigned int; then they are distributed as GridStridePartition says.
  lemma WrappedPartition(gridDim: nat, blockDim: nat)
    requires 0 < gridDim && 0 < blockDim
    ensures VisitsAreDistinct(gridDim, blockDim) <==> blockDim * gridDim < 0x1_0000_0000
  {
    if blockDim * gridDim < 0x1_0000_0000 {
      forall v: (nat, nat, nat), w: (nat, nat, nat)
        | v.0 < gridDim && v.1 < blockDim && w.0 < gridDim && w.1 < blockDim && SameVisit(gridDim, blockDim, v, w)
        ensures v == w
      {
        WrappedVisitExact(gridDim, blockDim, v.0, v.1, v.2);
        WrappedVisitExact(gridDim, blockDim, w.0, w.1, w.2);
        var i := VisitedIndex(gridDim, blockDim, v.0, v.1, v.2);
        GridStridePartition(gridDim, blockDim, v.0, v.1, v.2, i);
        GridStridePartition(gridDim, blockDim, w.0, w.1, w.2, i);
      }
    } else {
      TooManyThreads(gridDim, blockDim);
    }
  }

  lemma TooManyThreads(gridDim: nat, blockDim: nat)
    requires 0 < gridDim && 0 < blockDim && 0x1_0000_0000 <= blockDim * gridDim
    ensures !VisitsAreDistinct(gridDim, blockDim)
  {
    var v: (nat, nat, nat) := (0, 0, 0);
    assert 0 * blockDim == 0;
    assert WrappedStart(blockDim, 0, 0) == 0;
    var w: (nat, nat, nat) := (0, 0, 1);
    if blockDim * gridDim == 0x1_0000_0000 {
      assert WrappedStride(gridDim, blockDim) == 0;
    } else {
      var block, thread := SecondThreadAtZero(gridDim, blockDim);
      w := (block, thread, 0);
    }
    assert WrappedVisit(gridDim, blockDim, v.0, v.1, v.2) == 0;
    assert WrappedVisit(gridDim, blockDim, w.0, w.1, w.2) == 0;
    assert SameVisit(gridDim, blockDim, v, w) && v != w;
  }

  // ----- Remaining work

  // An upper bound on the number of steps a thread can still take.
  function Left<T>(th: Thread<T>, n: nat): nat {
    match th.pc
    case Done => 0
    case Test => if th.i < n then 3 * (n - th.i) + 1 else 1
    case LoadedA(_) => if th.i < n then 3 * (n - th.i) else 1
    case LoadedB(_, _) => if th.i < n then 3 * (n - th.i) - 1 else 1
  }

  function Remaining<T>(n: nat): (nat, Thread<T>) -> nat {
    (t, th) => Left(th, n)
  }

  function Work<T>(ths: seq<Thread<T>>, n: nat): nat {
    Sum(Remaining(n), ths)
  }

  // ----- The launch

  // out may be the same array as a or b; the addition is arbitrary.
  class Launch<T> {
    const out: array<T>
    const a: array<T>
    const b: array<T>
    const n: nat
    const gridDim: nat
    const blockDim: nat
    const plus: (T, T) -> T
    var threads: seq<Thread<T>>
    // The memory at launch, and how often each output element has been written.
    ghost const out0: seq<T>
    ghost const a0: seq<T>
    ghost const b0: seq<T>
    ghost var writes: seq<nat>

    ghost predicate Shape()
      reads this
    {
      && n <= out.Length && n <= a.Length && n <= b.Length
      && |out0| == out.Length && |a0| == a.Length && |b0| == b.Length && |writes| == out.Length
      && 0 < gridDim && 0 < blockDim && |threads| == blockDim * gridDim
      && 0 < |threads|
    }

    // The owner of index j has moved past it.
    ghost predicate Passed(j: nat)
      requires Shape()
      reads this
    {
      j < threads[j % |threads|].i
    }

    ghost predicate ThreadOk(t: nat)
      requires Shape() && t < |threads|
      reads this
    {
      var th := threads[t];
      && th.i % |threads| == t
      && match th.pc
         case Test => true
         case LoadedA(x) => th.i < n && x == a0[th.i]
         case LoadedB(x, y) => th.i < n && x == a0[th.i] && y == b0[th.i]
         case Done => n <= th.i
    }

    ghost predicate ElementOk(j: nat)
      requires Shape() && j < n
      reads this, out, a, b
    {
      if Passed(j) then out[j] == plus(a0[j], b0[j]) && writes[j] == 1
      else out[j] == out0[j] && a[j] == a0[j] && b[j] == b0[j] && writes[j] == 0
    }

    ghost predicate Valid()
      reads this, out, a, b
    {
      && Shape()
      && (forall t :: 0 <= t < |threads| ==> ThreadOk(t))
      && (forall j :: 0 <= j < n ==> ElementOk(j))
      && (forall j :: n <= j < out.Length ==> out[j] == out0[j] && writes[j] == 0)
    }

    constructor (out: array<T>, a: array<T>, b: array<T>, n: nat, gridDim: nat, blockDim: nat, plus: (T, T) -> T)
      requires n <= out.Length && n <= a.Length && n <= b.Length
      requires 0 < gridDim && 0 < blockDim
      ensures Valid()
      ensures this.out == out && this.a == a && this.b == b && this.n == n && this.plus == plus
      ensures this.gridDim == gridDim && this.blockDim == blockDim
      ensures forall t :: 0 <= t < |threads| ==> threads[t] == Thread(t, Test)
      ensures out0 == old(out[..]) && a0 == old(a[..]) && b0 == old(b[..])
    {
      this.out := out;
      this.a := a;
      this.b := b;
      this.n := n;
      this.gridDim := gridDim;
      this.blockDim := blockDim;
      this.plus := plus;
      GridStridePartition(gridDim, blockDim, 0, 0, 0, 0);
      this.threads := seq(blockDim * gridDim, t requires 0 <= t => Thread(t, Test));
      this.out0 := out[..];
      this.a0 := a[..];
      this.b0 := b[..];
      this.writes := seq(out.Length, _ => 0);
      new;
      forall t | 0 <= t < |threads|
        ensures ThreadOk(t)
      {
        DivModUnique(t, |threads|, 0, t);
      }
      forall j | 0 <= j < n
        ensures ElementOk(j)
      {
        assert threads[j % |threads|].i == j % |threads|;
        assert j == j / |threads| * |threads| + j % |threads|;
        QuotientIsNat(j, |threads|);
        assert !Passed(j);
      }
    }

    ghost predicate AllDone()
      reads this
    {
      forall t :: 0 <= t < |threads| ==> threads[t].pc.Done?
    }

    // One step of one thread: the loop test with the load of a[i], the load of
    // b[i], or the store to out[i] with the advance by the stride.
    method Step(blockIdx: nat, threadIdx: nat)
      requires Valid() && blockIdx < gridDim && threadIdx < blockDim
      modifies this, out
      ensures Valid()
      ensures |threads| == old(|threads|)
      ensures old(blockIdx * blockDim + threadIdx < |threads|)
      ensures if old(threads[blockIdx * blockDim + threadIdx].pc.Done?)
              then threads == old(threads) && out[..] == old(out[..])
              else Work(threads, n) < old(Work(threads, n))
      ensures var i, pc, th := old(threads[blockIdx * blockDim + threadIdx].i),
                               old(threads[blockIdx * blockDim + threadIdx].pc),
                               threads[blockIdx * blockDim + threadIdx];
              && (pc.Test? && i < n ==> th == Thread(i, LoadedA(old(a[i]))))
              && (pc.Test? && n <= i ==> th == Thread(i, Done))
              && (pc.LoadedA? ==> i < n && th == Thread(i, LoadedB(pc.x, old(b[i]))))
              && (pc.LoadedB? ==> i < n && th == Thread(i + blockDim * gridDim, Test) && out[i] == plus(pc.x, pc.y))
      ensures forall j :: 0 <= j < out.Length && !old(threads[blockIdx * blockDim + threadIdx].pc.LoadedB?) ==>
                out[j] == old(out[j])
      ensures forall t :: 0 <= t < |threads| && t != blockIdx * blockDim + threadIdx ==> threads[t] == old(threads[t])
      ensures forall j :: 0 <= j < out.Length && j != old(threads[blockIdx * blockDim + threadIdx].i) ==>
                out[j] == old(out[j])
    {
      RowMajorInBounds(gridDim, blockDim, blockIdx, threadIdx);
      assert gridDim * blockDim == blockDim * gridDim;
      var t := blockIdx * blockDim + threadIdx;
      var th := threads[t];
      var stride := blockDim * gridDim;
      assert ThreadOk(t);
      match th.pc {
        case Done =>
        case Test =>
          Move(t, if th.i < n then th.(pc := LoadedA(a[th.i])) else th.(pc := Done));
        case LoadedA(x) =>
          Move(t, th.(pc := LoadedB(x, b[th.i])));
        case LoadedB(x, y) =>
          Store(t, plus(x, y), stride);
      }
    }

    // A step that changes only the registers of thread t.
    method Move(t: nat, th: Thread<T>)
      requires Valid() && t < |threads|
      requires th.i == threads[t].i && Left(th, n) < Left(threads[t], n)
      requires match th.pc
               case Test => true
               case LoadedA(x) => th.i < n && x == a[th.i] && threads[t].pc.Test?
               case LoadedB(x, y) => th.i < n && threads[t].pc == LoadedA(x) && y == b[th.i]
               case Done => n <= th.i
      modifies this`threads
      ensures Valid() && threads == old(threads)[t := th]
      ensures Work(threads, n) < old(Work(threads, n))
    {
      assert ThreadOk(t);
      if th.i < n {
        assert ElementOk(th.i);
      }
      SumOfUpdate(Remaining(n), threads, t, th);
      threads := threads[t := th];
      forall j | 0 <= j < n
        ensures ElementOk(j)
      {
        assert old(ElementOk(j));
        assert Passed(j) <==> old(Passed(j));
      }
      forall t' | 0 <= t' < |threads|
        ensures ThreadOk(t')
      {
        assert old(ThreadOk(t'));
      }
    }

    // out[i] = v; i += stride.
    method Store(t: nat, v: T, stride: nat)
      requires Valid() && t < |threads| && stride == |threads|
      requires threads[t].pc.LoadedB? && v == plus(threads[t].pc.x, threads[t].pc.y)
      modifies this, out
      ensures Valid() && threads == old(threads)[t := Thread(old(threads[t].i) + stride, Test)]
      ensures old(threads[t].i < out.Length) && out[..] == old(out[..])[old(threads[t].i) := v]
      ensures Work(threads, n) < old(Work(threads, n))
    {
      var i := threads[t].i;
      assert ThreadOk(t);
      assert ElementOk(i);
      SumOfUpdate(Remaining(n), threads, t, Thread(i + stride, Test));
      out[i] := v;
      writes := writes[i := writes[i] + 1];
      threads := threads[t := Thread(i + stride, Test)];
      StoreKeepsThreads(t);
      StoreKeepsElements(t);
    }

    // What a store changes: the element at the index of thread t, its write count and the thread.
    twostate predicate Stored(t: nat)
      reads this, out, a, b
    {
      && old(Valid()) && Shape() && t < old(|threads|) && old(threads[t].pc.LoadedB?)
      && old(threads[t].i < n)
      && var i := old(threads[t].i);
      && threads == old(threads)[t := Thread(i + |threads|, Test)]
      && writes == old(writes)[i := old(writes)[i] + 1]
      && out[..] == old(out[..])[i := old(plus(threads[t].pc.x, threads[t].pc.y))]
      && (a != out ==> a[..] == old(a[..])) && (b != out ==> b[..] == old(b[..]))
    }

    twostate lemma StoreKeepsThreads(t: nat)
      requires Stored(t)
      ensures forall t' :: 0 <= t' < |threads| ==> ThreadOk(t')
    {
      forall t' | 0 <= t' < |threads|
        ensures ThreadOk(t')
      {
        assert old(ThreadOk(t'));
        NextResidue(|threads|, old(threads[t].i));
      }
    }

    twostate lemma StoreKeepsElements(t: nat)
      requires Stored(t)
      ensures forall j :: 0 <= j < n ==> ElementOk(j)
    {
      var i := old(threads[t].i);
      assert old(ThreadOk(t));
      forall j | 0 <= j < n
        ensures ElementOk(j)
      {
        assert old(ElementOk(j));
        if j % |threads| == t {
          NextOwned(|threads|, i, j);
        }
        assert out[j] == if j == i then old(plus(threads[t].pc.x, threads[t].pc.y)) else old(out[j]);
        assert a[j] == (if a == out then out[j] else old(a[j])) && b[j] == (if b == out then out[j] else old(b[j]));
      }
    }

    // The kernel: until all threads are done, an arbitrary unfinished one takes a step.
    // Whatever the choices, this ends, with the sums in place.
    method RunToCompletion()
      requires Valid()
      modifies this, out
      ensures Valid() && AllDone()
      ensures forall j :: 0 <= j < n ==> out[j] == plus(a0[j], b0[j]) && writes[j] == 1
      ensures forall j :: n <= j < out.Length ==> out[j] == out0[j] && writes[j] == 0
    {
      while exists t :: 0 <= t < |threads| && !threads[t].pc.Done?
        invariant Valid()
        decreases Work(threads, n)
      {
        var t :| 0 <= t < |threads| && !threads[t].pc.Done?;
        RowMajorPosition(gridDim, blockDim, t);
        Step(t / blockDim, t % blockDim);
      }
      forall j | 0 <= j < n
        ensures out[j] == plus(a0[j], b0[j]) && writes[j] == 1
      {
        var t := j % |threads|;
        assert ThreadOk(t) && threads[t].pc.Done?;
        assert ElementOk(j) && Passed(j);
      }
    }
  }

  // vector_add, launched on grid and block dimensions; out may alias a or b.
  method VectorAdd<T>(out: array<T>, a: array<T>, b: array<T>, n: nat, gridDim: nat, blockDim: nat, plus: (T, T) -> T)
    requires n <= out.Length && n <= a.Length && n <= b.Length
    requires 0 < gridDim && 0 < blockDim
    modifies out
    ensures forall j :: 0 <= j < n ==> out[j] == plus(old(a[j]), old(b[j]))
    ensures forall j :: n <= j < out.Length ==> out[j] == old(out[j])
  {
    var launch := new Launch(out, a, b, n, gridDim, blockDim, plus);
    launch.RunToCompletion();
  }
}
