// BabelStream: two implementations of the stream kernels over three stored
// arrays, the driver loops, and the scalar simulation they are checked against.
module BabelStream {
  import opened GeneralizedSum

  // The arithmetic of the element type. No law is assumed, so that the results
  // that need none also hold for float and double.
  datatype Arith<!T> = Arith(zero: T, plus: (T, T) -> T, times: (T, T) -> T)

  // The elements of the three arrays at one index.
  datatype Cell<T> = Cell(a: T, b: T, c: T)

  datatype Kernel = Copy | Mul | Add | Triad | Nstream

  // What each kernel does at one index.
  function Apply<T>(ar: Arith<T>, scalar: T, k: Kernel, e: Cell<T>): Cell<T> {
    match k
    case Copy => e.(c := e.a)
    case Mul => e.(b := ar.times(scalar, e.c))
    case Add => e.(c := ar.plus(e.a, e.b))
    case Triad => e.(a := ar.plus(e.b, ar.times(scalar, e.c)))
    case Nstream => e.(a := ar.plus(ar.plus(e.a, e.b), ar.times(scalar, e.c)))
  }

  function ApplyAll<T>(ar: Arith<T>, scalar: T, ks: seq<Kernel>, e: Cell<T>): Cell<T> {
    if ks == [] then e
    else Apply(ar, scalar, ks[|ks| - 1], ApplyAll(ar, scalar, ks[..|ks| - 1], e))
  }

  // ----- The streams

  function IndexSet(n: nat): (s: set<nat>)
    ensures forall i :: i in s <==> 0 <= i < n
  {
    if n == 0 then {} else IndexSet(n - 1) + {n - 1}
  }

  // std::transform with two inputs; the elements are computed in an arbitrary
  // order, and the output may be the first input.
  method Transform<T>(x: array<T>, y: array<T>, out: array<T>, f: (T, T) -> T)
    requires x.Length == y.Length == out.Length && out != y
    modifies out
    ensures forall i :: 0 <= i < out.Length ==> out[i] == f(old(x[i]), old(y[i]))
  {
    var pending := IndexSet(out.Length);
    while pending != {}
      invariant forall i :: i in pending ==> 0 <= i < out.Length && out[i] == old(out[i])
      invariant forall i :: 0 <= i < out.Length && i !in pending ==> out[i] == f(old(x[i]), old(y[i]))
      invariant forall i :: i in pending ==> x[i] == old(x[i])
      decreases pending
    {
      var i :| i in pending;
      out[i] := f(x[i], y[i]);
      pending := pending - {i};
    }
  }

  method TransformUnary<T>(x: array<T>, out: array<T>, f: T -> T)
    requires x.Length == out.Length && x != out
    modifies out
    ensures forall i :: 0 <= i < out.Length ==> out[i] == f(x[i])
  {
    var pending := IndexSet(out.Length);
    while pending != {}
      invariant forall i :: i in pending ==> 0 <= i < out.Length
      invariant forall i :: 0 <= i < out.Length && i !in pending ==> out[i] == f(x[i])
      decreases pending
    {
      var i :| i in pending;
      out[i] := f(x[i]);
      pending := pending - {i};
    }
  }

  // The data-oriented stream: every kernel transforms whole stored arrays.
  class DataStream<T> {
    const ar: Arith<T>
    const scalar: T
    const n: nat
    const a: array<T>
    const b: array<T>
    const c: array<T>

    ghost predicate Valid() {
      a.Length == b.Length == c.Length == n && a != b && a != c && b != c
    }

    ghost function At(i: nat): Cell<T>
      requires Valid() && i < n
      reads a, b, c
    {
      Cell(a[i], b[i], c[i])
    }

    // Allocation and init_arrays.
    constructor (ar: Arith<T>, scalar: T, n: nat, init: Cell<T>)
      ensures Valid() && fresh(a) && fresh(b) && fresh(c)
      ensures this.ar == ar && this.scalar == scalar && this.n == n
      ensures forall i :: 0 <= i < n ==> a[i] == init.a && b[i] == init.b && c[i] == init.c
    {
      this.ar := ar;
      this.scalar := scalar;
      this.n := n;
      a := new T[n](_ => init.a);
      b := new T[n](_ => init.b);
      c := new T[n](_ => init.c);
    }

    method RunKernel(k: Kernel)
      requires Valid()
      modifies a, b, c
      ensures forall i :: 0 <= i < n ==> At(i) == Apply(ar, scalar, k, old(At(i)))
    {
      match k
      case Copy => TransformUnary(a, c, x => x);
      case Mul => TransformUnary(c, b, ci => ar.times(scalar, ci));
      case Add => Transform(a, b, c, ar.plus);
      case Triad => Transform(b, c, a, (bi, ci) => ar.plus(bi, ar.times(scalar, ci)));
      case Nstream =>
        Transform(a, b, a, (ai, bi) => ar.plus(ai, bi));
        Transform(a, c, a, (ai, ci) => ar.plus(ai, ar.times(scalar, ci)));
    }
  }

  // std::transform_reduce over two arrays, carried out along the given plan: a leaf
  // multiplies one pair of elements, and the products are never stored.
  method Dot<T>(ar: Arith<T>, x: array<T>, y: array<T>, plan: Plan) returns (sum: T)
    requires x.Length == y.Length && InRange(Leaves(plan), x.Length)
    ensures sum == Reduce(ar.plus, ar.zero, Products(ar, x[..], y[..]), plan)
    decreases plan
  {
    match plan
    case Leaf(Init) =>
      sum := ar.zero;
    case Leaf(At(i)) =>
      assert At(i) in Leaves(plan);
      sum := ar.times(x[i], y[i]);
    case Node(l, r) =>
      InRangeNode(l, r, x.Length);
      var left := Dot(ar, x, y, l);
      var right := Dot(ar, x, y, r);
      sum := ar.plus(left, right);
  }

  function Products<T>(ar: Arith<T>, x: seq<T>, y: seq<T>): (ps: seq<T>)
    requires |x| == |y|
    ensures |ps| == |x| && forall i :: 0 <= i < |x| ==> ps[i] == ar.times(x[i], y[i])
  {
    seq(|x|, i requires 0 <= i < |x| => ar.times(x[i], y[i]))
  }

  // The index-oriented stream: every kernel is computed from the index, nstream in one pass.
  class IndicesStream<T> {
    const ar: Arith<T>
    const scalar: T
    const n: nat
    const a: array<T>
    const b: array<T>
    const c: array<T>

    ghost predicate Valid() {
      a.Length == b.Length == c.Length == n && a != b && a != c && b != c
    }

    ghost function At(i: nat): Cell<T>
      requires Valid() && i < n
      reads a, b, c
    {
      Cell(a[i], b[i], c[i])
    }

    constructor (ar: Arith<T>, scalar: T, n: nat, init: Cell<T>)
      ensures Valid() && fresh(a) && fresh(b) && fresh(c)
      ensures this.ar == ar && this.scalar == scalar && this.n == n
      ensures forall i :: 0 <= i < n ==> a[i] == init.a && b[i] == init.b && c[i] == init.c
    {
      this.ar := ar;
      this.scalar := scalar;
      this.n := n;
      a := new T[n](_ => init.a);
      b := new T[n](_ => init.b);
      c := new T[n](_ => init.c);
    }

    // The transform over the index range, in an arbitrary order of the indices.
    method RunKernel(k: Kernel)
      requires Valid()
      modifies a, b, c
      ensures forall i :: 0 <= i < n ==> At(i) == Apply(ar, scalar, k, old(At(i)))
    {
      var pending := IndexSet(n);
      while pending != {}
        invariant forall i :: i in pending ==> 0 <= i < n
        invariant forall i :: 0 <= i < n ==>
                    At(i) == if i in pending then old(At(i)) else Apply(ar, scalar, k, old(At(i)))
        decreases pending
      {
        var i :| i in pending;
        match k {
          case Copy => c[i] := a[i];
          case Mul => b[i] := ar.times(scalar, c[i]);
          case Add => c[i] := ar.plus(a[i], b[i]);
          case Triad => a[i] := ar.plus(b[i], ar.times(scalar, c[i]));
          case Nstream => a[i] := ar.plus(ar.plus(a[i], b[i]), ar.times(scalar, c[i]));
        }
        pending := pending - {i};
      }
    }
  }

  // The implementation that was selected when the program was built.
  datatype Stream<T> = Data(d: DataStream<T>) | Indices(x: IndicesStream<T>) {
    ghost predicate Valid()
      ensures Valid() ==> A().Length == B().Length == C().Length == Size()
    {
      match this
      case Data(d) => d.Valid()
      case Indices(x) => x.Valid()
    }

    function Size(): nat {
      match this
      case Data(d) => d.n
      case Indices(x) => x.n
    }

    function Ops(): Arith<T> {
      match this
      case Data(d) => d.ar
      case Indices(x) => x.ar
    }

    function Scalar(): T {
      match this
      case Data(d) => d.scalar
      case Indices(x) => x.scalar
    }

    function A(): array<T> {
      match this
      case Data(d) => d.a
      case Indices(x) => x.a
    }

    function B(): array<T> {
      match this
      case Data(d) => d.b
      case Indices(x) => x.b
    }

    function C(): array<T> {
      match this
      case Data(d) => d.c
      case Indices(x) => x.c
    }

    ghost function At(i: nat): Cell<T>
      requires Valid() && i < Size()
      reads A(), B(), C()
    {
      Cell(A()[i], B()[i], C()[i])
    }

    method RunKernel(k: Kernel)
      requires Valid()
      modifies A(), B(), C()
      ensures forall i :: 0 <= i < Size() ==> At(i) == Apply(Ops(), Scalar(), k, old(At(i)))
    {
      match this {
        case Data(d) =>
          d.RunKernel(k);
          assert forall i :: 0 <= i < Size() ==> At(i) == d.At(i);
          assert forall i :: 0 <= i < Size() ==> old(At(i)) == old(d.At(i));
        case Indices(x) =>
          x.RunKernel(k);
          assert forall i :: 0 <= i < Size() ==> At(i) == x.At(i);
          assert forall i :: 0 <= i < Size() ==> old(At(i)) == old(x.At(i));
      }
    }

    // The five kernels, array by array; the result is the same for both implementations.

    method Copy()
      requires Valid()
      modifies A(), B(), C()
      ensures forall i :: 0 <= i < Size() ==>
                && A()[i] == old(A()[i])
                && B()[i] == old(B()[i])
                && C()[i] == old(A()[i])
    {
      RunKernel(Kernel.Copy);
      forall i | 0 <= i < Size()
        ensures && A()[i] == old(A()[i])
                && B()[i] == old(B()[i])
                && C()[i] == old(A()[i])
      {
        assert At(i) == Apply(Ops(), Scalar(), Kernel.Copy, old(At(i)));
      }
    }

    method Mul()
      requires Valid()
      modifies A(), B(), C()
      ensures forall i :: 0 <= i < Size() ==>
                && A()[i] == old(A()[i])
                && B()[i] == Ops().times(Scalar(), old(C()[i]))
                && C()[i] == old(C()[i])
    {
      RunKernel(Kernel.Mul);
      forall i | 0 <= i < Size()
        ensures && A()[i] == old(A()[i])
                && B()[i] == Ops().times(Scalar(), old(C()[i]))
                && C()[i] == old(C()[i])
      {
        assert At(i) == Apply(Ops(), Scalar(), Kernel.Mul, old(At(i)));
      }
    }

    method Add()
      requires Valid()
      modifies A(), B(), C()
      ensures forall i :: 0 <= i < Size() ==>
                && A()[i] == old(A()[i])
                && B()[i] == old(B()[i])
                && C()[i] == Ops().plus(old(A()[i]), old(B()[i]))
    {
      RunKernel(Kernel.Add);
      forall i | 0 <= i < Size()
        ensures && A()[i] == old(A()[i])
                && B()[i] == old(B()[i])
                && C()[i] == Ops().plus(old(A()[i]), old(B()[i]))
      {
        assert At(i) == Apply(Ops(), Scalar(), Kernel.Add, old(At(i)));
      }
    }

    method Triad()
      requires Valid()
      modifies A(), B(), C()
      ensures forall i :: 0 <= i < Size() ==>
                && A()[i] == Ops().plus(old(B()[i]), Ops().times(Scalar(), old(C()[i])))
                && B()[i] == old(B()[i])
                && C()[i] == old(C()[i])
    {
      RunKernel(Kernel.Triad);
      forall i | 0 <= i < Size()
        ensures && A()[i] == Ops().plus(old(B()[i]), Ops().times(Scalar(), old(C()[i])))
                && B()[i] == old(B()[i])
                && C()[i] == old(C()[i])
      {
        assert At(i) == Apply(Ops(), Scalar(), Kernel.Triad, old(At(i)));
      }
    }

    method Nstream()
      requires Valid()
      modifies A(), B(), C()
      ensures forall i :: 0 <= i < Size() ==>
                && A()[i] == Ops().plus(Ops().plus(old(A()[i]), old(B()[i])), Ops().times(Scalar(), old(C()[i])))
                && B()[i] == old(B()[i])
                && C()[i] == old(C()[i])
    {
      RunKernel(Kernel.Nstream);
      forall i | 0 <= i < Size()
        ensures && A()[i] == Ops().plus(Ops().plus(old(A()[i]), old(B()[i])), Ops().times(Scalar(), old(C()[i])))
                && B()[i] == old(B()[i])
                && C()[i] == old(C()[i])
      {
        assert At(i) == Apply(Ops(), Scalar(), Kernel.Nstream, old(At(i)));
      }
    }

    // A sequence of kernel calls has the same effect on either stream, whatever
    // the order in which each call visits the elements.
    method RunKernels(ks: seq<Kernel>)
      requires Valid()
      modifies A(), B(), C()
      ensures forall i :: 0 <= i < Size() ==> At(i) == ApplyAll(Ops(), Scalar(), ks, old(At(i)))
    {
      for k := 0 to |ks|
        invariant forall i :: 0 <= i < Size() ==> At(i) == ApplyAll(Ops(), Scalar(), ks[..k], old(At(i)))
      {
        assert ks[..k + 1][..k] == ks[..k];
        RunKernel(ks[k]);
      }
      assert ks[..|ks|] == ks;
    }
  }

  // Construct the selected implementation and initialise its arrays.
  method NewStream<T>(indices: bool, ar: Arith<T>, scalar: T, n: nat, init: Cell<T>) returns (stream: Stream<T>)
    ensures stream.Valid() && fresh(stream.A()) && fresh(stream.B()) && fresh(stream.C())
    ensures stream.Size() == n && stream.Ops() == ar && stream.Scalar() == scalar
    ensures forall i :: 0 <= i < n ==> stream.At(i) == init
    ensures forall i :: 0 <= i < n ==> stream.A()[i] == init.a && stream.B()[i] == init.b && stream.C()[i] == init.c
  {
    if indices {
      var x := new IndicesStream(ar, scalar, n, init);
      stream := Indices(x);
      assert forall i :: 0 <= i < n ==> stream.At(i) == x.At(i);
    } else {
      var d := new DataStream(ar, scalar, n, init);
      stream := Data(d);
      assert forall i :: 0 <= i < n ==> stream.At(i) == d.At(i);
    }
  }
}
