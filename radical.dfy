/**
 * radical_basis: the base-ring check, the trace form whose kernel is the
 * radical in characteristic 0, and the s := p·s loop of characteristic p.
 */
module Radical {
  import opened Results
  import opened FiniteAlgebra
  import opened Idempotents
  import opened AlgebraElements

  // ---------------------------------------------------------------------
  // The base ring and the branch taken
  // ---------------------------------------------------------------------

  /** The number of elements of the base field, which may be infinite. */
  datatype FieldOrder = Finite(q: nat) | Infinite

  /** What radical_basis asks of the base ring. */
  datatype BaseRing = BaseRing(isField: bool, characteristic: nat, order: FieldOrder)

  datatype RadicalError =
    | BaseRingNotAField   // the NotImplementedError
    | ZeroDimensional     // the IndexError at B[0] when the algebra has no basis

  datatype RadicalMethod = TraceFormKernel | PowerLoop(p: nat)

  /** The branch radical_basis takes, or the error it raises. */
  function RadicalBranch(R: BaseRing): (r: Result<RadicalMethod, RadicalError>)
    ensures r == Err(BaseRingNotAField) <==> !R.isField
    ensures r == Ok(TraceFormKernel) <==> R.isField && R.characteristic == 0
    ensures r.Ok? && r.value.PowerLoop? ==> r.value.p == R.characteristic > 0
  {
    if !R.isField then Err(BaseRingNotAField)
    else if R.characteristic == 0 then Ok(TraceFormKernel)
    else Ok(PowerLoop(R.characteristic))
  }

  // ---------------------------------------------------------------------
  // Characteristic 0: the trace form
  // ---------------------------------------------------------------------

  /** The term c(x, j, i)·c(y, i, j) of the entry at row y, column x. */
  function TraceTerm(A: Algebra, y: nat, x: nat): (nat, nat) -> real
  {
    (i: nat, j: nat) => Const(A, x, j, i) * Const(A, y, i, j)
  }

  /** Row y, column x of the matrix built from the structure constants. */
  function TraceFormEntry(A: Algebra, y: nat, x: nat): real
  {
    Sum(A.n, RowSums(TraceTerm(A, y, x), A.n))
  }

  /** The n×n matrix whose kernel is the radical in characteristic 0. */
  function TraceForm(A: Algebra): (T: Matrix)
    ensures |T| == A.n && forall y :: 0 <= y < A.n ==> |T[y]| == A.n
    ensures forall y, x :: 0 <= y < A.n && 0 <= x < A.n ==> T[y][x] == TraceFormEntry(A, y, x)
  {
    seq(A.n, y requires 0 <= y < A.n => seq(A.n, x requires 0 <= x < A.n => TraceFormEntry(A, y, x)))
  }

  /** The entry (i, j) of M, and 0 outside the matrix. */
  function Entry(M: Matrix, i: int, j: int): real
  {
    if 0 <= i < |M| then At(M[i], j) else 0.0
  }

  /** trace(P·Q) of two n×n matrices: Σ_i Σ_j P[i][j]·Q[j][i]. */
  function TraceOfProduct(n: nat, P: Matrix, Q: Matrix): real
  {
    Sum(n, RowSums(ProductTraceTerm(P, Q), n))
  }

  function ProductTraceTerm(P: Matrix, Q: Matrix): (nat, nat) -> real
  {
    (i: nat, j: nat) => Entry(P, i, j) * Entry(Q, j, i)
  }

  /** The matrix of left multiplication by B[k]: on_left_matrix of the basis element. */
  function LeftMatrix(A: Algebra, k: nat): Matrix
  {
    ToMatrix(A, Basis(A.n, k), Left)
  }

  lemma LeftMatrixEntry(A: Algebra, k: nat, i: nat, j: nat)
    requires k < A.n && i < A.n && j < A.n
    ensures Entry(LeftMatrix(A, k), i, j) == Const(A, k, j, i)
  {
    MulBasis(A, k, j, i);
  }

  /** The entry at row y, column x is the trace of L_x∘L_y. */
  lemma TraceFormIsTrace(A: Algebra, y: nat, x: nat)
    requires y < A.n && x < A.n
    ensures TraceFormEntry(A, y, x) == TraceOfProduct(A.n, LeftMatrix(A, x), LeftMatrix(A, y))
  {
    var n := A.n;
    var f := TraceTerm(A, y, x);
    var g := ProductTraceTerm(LeftMatrix(A, x), LeftMatrix(A, y));
    forall i: nat | i < n
      ensures RowSums(f, n)(i) == RowSums(g, n)(i)
    {
      forall j: nat | j < n
        ensures RowOf(f, i)(j) == RowOf(g, i)(j)
      {
        LeftMatrixEntry(A, x, i, j);
        LeftMatrixEntry(A, y, j, i);
      }
      SumExt(n, RowOf(f, i), RowOf(g, i));
    }
    SumExt(n, RowSums(f, n), RowSums(g, n));
  }

  /** The trace form is symmetric. */
  lemma {:induction false} TraceFormSymmetric(A: Algebra, y: nat, x: nat)
    ensures TraceFormEntry(A, y, x) == TraceFormEntry(A, x, y)
  {
    var n := A.n;
    var f := TraceTerm(A, y, x);
    var g := TraceTerm(A, x, y);
    SumSwap(n, n, f);
    forall j: nat | j < n
      ensures ColSums(f, n)(j) == RowSums(g, n)(j)
    {
      forall i: nat | i < n
        ensures ColumnOf(f, j)(i) == RowOf(g, j)(i)
      {
        assert f(i, j) == Const(A, x, j, i) * Const(A, y, i, j);
        assert g(j, i) == Const(A, y, i, j) * Const(A, x, j, i);
      }
      SumExt(n, ColumnOf(f, j), RowOf(g, j));
    }
    SumExt(n, ColSums(f, n), RowSums(g, n));
  }

  /** The row vector v times the matrix M. */
  function VecMat(v: Vec, M: Matrix, n: nat): (r: Vec)
    ensures |r| == n
  {
    seq(n, x requires 0 <= x < n => Sum(|M|, VecMatTerm(v, M, x)))
  }

  function VecMatTerm(v: Vec, M: Matrix, x: nat): nat -> real
  {
    (y: nat) => At(v, y) * Entry(M, y, x)
  }

  /** The left kernel of the trace form (what Sage's kernel() means) is its right kernel. */
  lemma TraceFormLeftEqualsRight(A: Algebra, v: Vec)
    requires |v| == A.n
    ensures VecMat(v, TraceForm(A), A.n) == MatVec(TraceForm(A), v)
  {
    var n := A.n;
    var T := TraceForm(A);
    forall x | 0 <= x < n
      ensures VecMat(v, T, n)[x] == MatVec(T, v)[x]
    {
      forall y: nat | y < n
        ensures VecMatTerm(v, T, x)(y) == MatVecTerm(T[x], v)(y)
      {
        TraceFormSymmetric(A, y, x);
      }
      SumExt(n, VecMatTerm(v, T, x), MatVecTerm(T[x], v));
    }
  }

  /** kernel returns vectors v with v·M == 0. */
  ghost predicate KernelSound(kernel: Matrix -> seq<Vec>)
  {
    forall M: Matrix {:trigger kernel(M)} :: forall k :: 0 <= k < |kernel(M)| ==>
      |kernel(M)[k]| == |M| && VecMat(kernel(M)[k], M, |M|) == Zero(|M|)
  }

  /** kernel spans the whole kernel: every v with v·M == 0 is a combination of kernel(M). */
  ghost predicate KernelComplete(kernel: Matrix -> seq<Vec>)
  {
    forall M: Matrix, v: Vec {:trigger VecMat(v, M, |M|)} ::
      |v| == |M| && VecMat(v, M, |M|) == Zero(|M|) ==>
        exists a: seq<real> {:trigger Combine(|M|, a, kernel(M))} ::
          |a| == |kernel(M)| && Combine(|M|, a, kernel(M)) == v
  }

  /** The characteristic-0 radical basis: the kernel of the trace form. */
  function RadicalBasisCharZero(A: Algebra, kernel: Matrix -> seq<Vec>): seq<Vec>
  {
    kernel(TraceForm(A))
  }

  /**
   * Every vector returned is orthogonal to the whole algebra under the trace
   * form, on either side.
   */
  lemma RadicalBasisCharZeroOrthogonal(A: Algebra, kernel: Matrix -> seq<Vec>, k: nat)
    requires KernelSound(kernel)
    requires k < |RadicalBasisCharZero(A, kernel)|
    ensures var r := RadicalBasisCharZero(A, kernel)[k];
            |r| == A.n && VecMat(r, TraceForm(A), A.n) == Zero(A.n) && MatVec(TraceForm(A), r) == Zero(A.n)
  {
    var r := RadicalBasisCharZero(A, kernel)[k];
    assert |r| == A.n && VecMat(r, TraceForm(A), A.n) == Zero(A.n);
    TraceFormLeftEqualsRight(A, r);
  }

  /**
   * Conversely, every element x with tr(L_b∘L_x) = 0 for every basis element
   * b is a combination of the vectors returned.
   */
  lemma RadicalBasisCharZeroComplete(A: Algebra, kernel: Matrix -> seq<Vec>, x: Vec)
    requires KernelComplete(kernel)
    requires |x| == A.n && MatVec(TraceForm(A), x) == Zero(A.n)
    ensures exists a: seq<real> :: |a| == |RadicalBasisCharZero(A, kernel)| && Combine(A.n, a, RadicalBasisCharZero(A, kernel)) == x
  {
    var T := TraceForm(A);
    TraceFormLeftEqualsRight(A, x);
    assert VecMat(x, T, |T|) == Zero(|T|);
    var a :| |a| == |kernel(T)| && Combine(|T|, a, kernel(T)) == x;
  }

  // ---------------------------------------------------------------------
  // Characteristic p: the s := p·s loop
  // ---------------------------------------------------------------------

  /**
   * The linear algebra over the base field K that the loop calls, on
   * matrices of type M.
   */
  datatype CharPOps<!K, !M> = CharPOps(
    times: (M, M) -> M,                    // the matrix product
    identity: M,
    charpolyCoeff: (M, nat) -> K,          // coefficient of x^k in the characteristic polynomial
    signed: (nat, K) -> K,                 // (-1)^s · c
    leftKernelBasis: seq<seq<K>> -> seq<seq<K>>,
    root: (nat, K) -> K,                   // root_fcn(s, c): the s-th root of c
    combine: (seq<K>, seq<M>) -> M,        // Σ c_i · b_i over zip(c, B)
    apply: (M, seq<K>) -> seq<K>)          // b * e

  /** Whether s is below the order of the field. */
  predicate BelowOrder(s: nat, order: FieldOrder)
  {
    match order
    case Finite(q) => s < q
    case Infinite => true
  }

  /** Whether the round with exponent s takes coordinatewise roots. */
  predicate TakesRoots(s: nat, order: FieldOrder)
  {
    1 < s && BelowOrder(s, order)
  }

  /** The matrix G of a round: (-1)^s times the coefficient of x^(n-s) in charpoly(b·bb). */
  function Gram<K, M>(ops: CharPOps<K, M>, n: nat, s: nat, B: seq<M>): (G: seq<seq<K>>)
    requires s <= n
    ensures |G| == |B| && forall r :: 0 <= r < |B| ==> |G[r]| == |B| + 1
  {
    var BB := B + [ops.identity];
    seq(|B|, r requires 0 <= r < |B| =>
      seq(|BB|, c requires 0 <= c < |BB| => ops.signed(s, ops.charpolyCoeff(ops.times(B[r], BB[c]), n - s))))
  }

  /** The roots of every coordinate of every vector of C. */
  function RootAll<K, M>(ops: CharPOps<K, M>, s: nat, C: seq<seq<K>>): (D: seq<seq<K>>)
    ensures |D| == |C| && forall k :: 0 <= k < |C| ==> |D[k]| == |C[k]|
  {
    seq(|C|, k requires 0 <= k < |C| => seq(|C[k]|, i requires 0 <= i < |C[k]| => ops.root(s, C[k][i])))
  }

  /** One round: the new list B from the old one. */
  function Round<K, M>(ops: CharPOps<K, M>, order: FieldOrder, n: nat, s: nat, B: seq<M>): (B': seq<M>)
    requires s <= n
  {
    var C := ops.leftKernelBasis(Gram(ops, n, s, B));
    var C' := if TakesRoots(s, order) then RootAll(ops, s, C) else C;
    seq(|C'|, k requires 0 <= k < |C'| => ops.combine(C'[k], B))
  }

  /** The rounds from exponent s on, while s <= n. */
  function Rounds<K, M>(ops: CharPOps<K, M>, p: nat, order: FieldOrder, n: nat, s: nat, B: seq<M>): seq<M>
    requires p >= 2 && s >= 1
    decreases n + 1 - s
  {
    if s > n then B else Rounds(ops, p, order, n, p * s, Round(ops, order, n, s, B))
  }

  /** The characteristic-p radical basis: the final matrices applied to the unit. */
  function RadicalBasisCharPSpec<K, M>(ops: CharPOps<K, M>, p: nat, order: FieldOrder, n: nat, leftMatrices: seq<M>, unit: seq<K>)
    : seq<seq<K>>
    requires p >= 2
  {
    var B := Rounds(ops, p, order, n, 1, leftMatrices);
    seq(|B|, k requires 0 <= k < |B| => ops.apply(B[k], unit))
  }

  /** Each round at least doubles the exponent. */
  lemma ExponentGrows(p: nat, s: nat)
    requires p >= 2 && s >= 1
    ensures p * s >= 2 * s > s
  {
  }

  /**
   * The loop of radical_basis in characteristic p, rebinding B and s each
   * round; leftMatrices holds one matrix per basis element, and reading the
   * identity from the first of them fails on the zero algebra.
   */
  method RadicalBasisCharP<K, M>(ops: CharPOps<K, M>, p: nat, order: FieldOrder, n: nat, leftMatrices: seq<M>, unit: seq<K>)
    returns (r: Result<seq<seq<K>>, RadicalError>)
    requires p >= 2 && |leftMatrices| == n
    ensures r.Err? <==> n == 0
    ensures r.Err? ==> r.error == ZeroDimensional
    ensures r.Ok? ==> r.value == RadicalBasisCharPSpec(ops, p, order, n, leftMatrices, unit)
  {
    if |leftMatrices| == 0 {
      return Err(ZeroDimensional);
    }
    var s := 1;
    var B := leftMatrices;
    while s <= n
      invariant s >= 1
      invariant Rounds(ops, p, order, n, s, B) == Rounds(ops, p, order, n, 1, leftMatrices)
      decreases n + 1 - s
    {
      ghost var previous := B;
      var G := Gram(ops, n, s, B);
      var C := ops.leftKernelBasis(G);
      if 1 < s && BelowOrder(s, order) {
        C := RootAll(ops, s, C);
      }
      B := seq(|C|, k requires 0 <= k < |C| => ops.combine(C[k], B));
      assert B == Round(ops, order, n, s, previous);
      ExponentGrows(p, s);
      s := p * s;
    }
    r := Ok(seq(|B|, k requires 0 <= k < |B| => ops.apply(B[k], unit)));
  }

  /** p^k. */
  function Power(p: nat, k: nat): (r: nat)
    ensures p >= 1 ==> r >= 1
  {
    if k == 0 then 1 else p * Power(p, k - 1)
  }

  /** The exponents of the rounds from s on: s, p·s, p²·s, … while at most n. */
  function Exponents(p: nat, n: nat, s: nat): seq<nat>
    requires p >= 2 && s >= 1
    decreases n + 1 - s
  {
    ExponentGrows(p, s);
    if s > n then [] else [s] + Exponents(p, n, p * s)
  }

  /** s·p^(k+1) == (p·s)·p^k. */
  lemma PowerShift(p: nat, s: nat, k: nat)
    ensures s * Power(p, k + 1) == (p * s) * Power(p, k)
  {
    var x := Power(p, k);
    assert Power(p, k + 1) == p * x;
    assert s * (p * x) == (p * s) * x;
  }

  /**
   * The rounds run with exponents s·p^k, each at most n, and the first
   * exponent left out exceeds n.
   */
  lemma {:induction false} ExponentsArePowers(p: nat, n: nat, s: nat)
    requires p >= 2 && s >= 1
    ensures var E := Exponents(p, n, s);
            && (forall k :: 0 <= k < |E| ==> E[k] == s * Power(p, k) && E[k] <= n)
            && s * Power(p, |E|) > n
    decreases n + 1 - s
  {
    var E := Exponents(p, n, s);
    if s <= n {
      ExponentGrows(p, s);
      var E' := Exponents(p, n, p * s);
      assert E == [s] + E';
      forall k | 0 <= k < |E|
        ensures E[k] == s * Power(p, k) && E[k] <= n
      {
        if k > 0 {
          assert E'[k - 1] == (p * s) * Power(p, k - 1) && E'[k - 1] <= n by {
            ExponentsArePowers(p, n, p * s);
          }
          PowerShift(p, s, k - 1);
        }
      }
      assert (p * s) * Power(p, |E'|) > n by {
        ExponentsArePowers(p, n, p * s);
      }
      PowerShift(p, s, |E'|);
    }
  }

  lemma {:induction false} PowerMonotone(p: nat, j: nat, k: nat)
    requires p >= 2
    ensures j < k ==> Power(p, j) < Power(p, k)
    decreases k
  {
    if j < k {
      PowerMonotone(p, j, k - 1);
      assert Power(p, k) == p * Power(p, k - 1);
    }
  }

  /** Over a field of order p^m, roots are taken exactly at the exponents p^k with 0 < k < m. */
  lemma TakesRootsAt(p: nat, m: nat, k: nat)
    requires p >= 2
    ensures TakesRoots(Power(p, k), Finite(Power(p, m))) <==> 0 < k < m
  {
    PowerMonotone(p, k, m);
    PowerMonotone(p, m, k);
    PowerMonotone(p, 0, k);
  }

  /**
   * Over the prime field (order p) no round takes roots, so the result does
   * not depend on the root function.
   */
  lemma {:induction false} PrimeFieldTakesNoRoots<K, M>(ops: CharPOps<K, M>, root': (nat, K) -> K, p: nat, n: nat, k: nat, B: seq<M>)
    requires p >= 2
    ensures Rounds(ops, p, Finite(p), n, Power(p, k), B) == Rounds(ops.(root := root'), p, Finite(p), n, Power(p, k), B)
    decreases n + 1 - Power(p, k)
  {
    var s := Power(p, k);
    if s <= n {
      TakesRootsAt(p, 1, k);
      assert Power(p, 1) == p;
      assert !TakesRoots(s, Finite(p));
      var ops' := ops.(root := root');
      assert Round(ops, Finite(p), n, s, B) == Round(ops', Finite(p), n, s, B);
      assert p * s == Power(p, k + 1);
      ExponentGrows(p, s);
      PrimeFieldTakesNoRoots(ops, root', p, n, k + 1, Round(ops, Finite(p), n, s, B));
    }
  }

  /** Over the prime field the radical basis does not depend on the root function. */
  lemma PrimeFieldRadicalIgnoresRoots<K, M>(ops: CharPOps<K, M>, root': (nat, K) -> K, p: nat, n: nat, leftMatrices: seq<M>, unit: seq<K>)
    requires p >= 2
    ensures RadicalBasisCharPSpec(ops, p, Finite(p), n, leftMatrices, unit)
         == RadicalBasisCharPSpec(ops.(root := root'), p, Finite(p), n, leftMatrices, unit)
  {
    PrimeFieldTakesNoRoots(ops, root', p, n, 0, leftMatrices);
  }

  /** Round applied once for each exponent of E, in order. */
  function RoundsOver<K, M>(ops: CharPOps<K, M>, order: FieldOrder, n: nat, E: seq<nat>, B: seq<M>): seq<M>
    requires forall k :: 0 <= k < |E| ==> E[k] <= n
  {
    if E == [] then B else RoundsOver(ops, order, n, E[1..], Round(ops, order, n, E[0], B))
  }

  /** The loop runs exactly one round per exponent s, p·s, p²·s, … that is at most n. */
  lemma {:induction false} RoundsFollowExponents<K, M>(ops: CharPOps<K, M>, p: nat, order: FieldOrder, n: nat, s: nat, B: seq<M>)
    requires p >= 2 && s >= 1
    ensures ExponentsBounded(p, n, s)
    ensures Rounds(ops, p, order, n, s, B) == RoundsOver(ops, order, n, Exponents(p, n, s), B)
    decreases n + 1 - s
  {
    ExponentsArePowers(p, n, s);
    if s <= n {
      ExponentGrows(p, s);
      RoundsFollowExponents(ops, p, order, n, p * s, Round(ops, order, n, s, B));
      assert Exponents(p, n, s)[1..] == Exponents(p, n, p * s);
    }
  }

  predicate ExponentsBounded(p: nat, n: nat, s: nat)
    requires p >= 2 && s >= 1
  {
    forall k :: 0 <= k < |Exponents(p, n, s)| ==> Exponents(p, n, s)[k] <= n
  }
}
