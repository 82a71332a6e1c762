/**
 * A finite-dimensional algebra with basis B[0], ..., B[n-1] over an exact
 * field, given by its structure constants: c[i][k][j] is the coefficient of
 * B[j] in the product B[i]·B[k].  Elements are coordinate vectors in that
 * basis.  The field is Dafny's `real`, whose arithmetic is exact.
 */
module FiniteAlgebra {
  import opened Results

  /** Coordinates of an element in the basis. */
  type Vec = seq<real>

  // ---------------------------------------------------------------------
  // Finite sums
  // ---------------------------------------------------------------------

  /** f(0) + f(1) + ... + f(n - 1). */
  function Sum(n: nat, f: nat -> real): real
    decreases n
  {
    if n == 0 then 0.0 else Sum(n - 1, f) + f(n - 1)
  }

  lemma {:induction false} SumExt(n: nat, f: nat -> real, g: nat -> real)
    requires forall i: nat :: i < n ==> f(i) == g(i)
    ensures Sum(n, f) == Sum(n, g)
  {
    if n > 0 {
      SumExt(n - 1, f, g);
    }
  }

  /** A sum of a linear combination is the linear combination of the sums. */
  lemma {:induction false} SumLinear(n: nat, a: real, f: nat -> real, b: real, g: nat -> real, h: nat -> real)
    requires forall i: nat :: i < n ==> h(i) == a * f(i) + b * g(i)
    ensures Sum(n, h) == a * Sum(n, f) + b * Sum(n, g)
  {
    if n > 0 {
      SumLinear(n - 1, a, f, b, g, h);
      calc {
        Sum(n, h);
        Sum(n - 1, h) + h(n - 1);
        a * Sum(n - 1, f) + b * Sum(n - 1, g) + (a * f(n - 1) + b * g(n - 1));
        a * (Sum(n - 1, f) + f(n - 1)) + b * (Sum(n - 1, g) + g(n - 1));
      }
    }
  }

  lemma {:induction false} SumZero(n: nat, f: nat -> real)
    requires forall i: nat :: i < n ==> f(i) == 0.0
    ensures Sum(n, f) == 0.0
  {
    if n > 0 {
      SumZero(n - 1, f);
    }
  }

  /** A sum whose terms vanish everywhere but at k is its k-th term. */
  lemma {:induction false} SumDelta(n: nat, k: nat, f: nat -> real)
    requires k < n
    requires forall i: nat :: i < n && i != k ==> f(i) == 0.0
    ensures Sum(n, f) == f(k)
  {
    if n - 1 == k {
      SumZero(n - 1, f);
    } else {
      SumDelta(n - 1, k, f);
    }
  }

  /** Row i and column j of the array f. */
  function RowOf(f: (nat, nat) -> real, i: nat): nat -> real
  {
    (j: nat) => f(i, j)
  }

  function ColumnOf(f: (nat, nat) -> real, j: nat): nat -> real
  {
    (i: nat) => f(i, j)
  }

  /** The row sums and the column sums of the n×m array f. */
  function RowSums(f: (nat, nat) -> real, m: nat): nat -> real
  {
    (i: nat) => Sum(m, RowOf(f, i))
  }

  function ColSums(f: (nat, nat) -> real, n: nat): nat -> real
  {
    (j: nat) => Sum(n, ColumnOf(f, j))
  }

  /** The order of a double sum can be exchanged. */
  lemma {:induction false} SumSwap(n: nat, m: nat, f: (nat, nat) -> real)
    ensures Sum(n, RowSums(f, m)) == Sum(m, ColSums(f, n))
  {
    if n > 0 {
      SumSwap(n - 1, m, f);
      forall j: nat | j < m
        ensures ColSums(f, n)(j) == 1.0 * ColSums(f, n - 1)(j) + 1.0 * RowOf(f, n - 1)(j)
      {
        assert ColSums(f, n)(j) == Sum(n - 1, ColumnOf(f, j)) + f(n - 1, j);
      }
      SumLinear(m, 1.0, ColSums(f, n - 1), 1.0, RowOf(f, n - 1), ColSums(f, n));
      assert Sum(n, RowSums(f, m)) == Sum(n - 1, RowSums(f, m)) + Sum(m, RowOf(f, n - 1));
    } else {
      SumZero(m, ColSums(f, n));
    }
  }

  // ---------------------------------------------------------------------
  // Vectors
  // ---------------------------------------------------------------------

  /** The i-th coordinate of x, and 0 outside its range. */
  function At(x: Vec, i: int): real
  {
    if 0 <= i < |x| then x[i] else 0.0
  }

  function Zero(n: nat): (z: Vec)
    ensures |z| == n && forall i :: 0 <= i < n ==> z[i] == 0.0
  {
    seq(n, i => 0.0)
  }

  function Add(x: Vec, y: Vec): (r: Vec)
    ensures |r| == |x| && forall i :: 0 <= i < |x| ==> r[i] == x[i] + At(y, i)
  {
    seq(|x|, i requires 0 <= i < |x| => x[i] + At(y, i))
  }

  function Sub(x: Vec, y: Vec): (r: Vec)
    ensures |r| == |x| && forall i :: 0 <= i < |x| ==> r[i] == x[i] - At(y, i)
  {
    seq(|x|, i requires 0 <= i < |x| => x[i] - At(y, i))
  }

  function Scale(a: real, x: Vec): (r: Vec)
    ensures |r| == |x| && forall i :: 0 <= i < |x| ==> r[i] == a * x[i]
  {
    seq(|x|, i requires 0 <= i < |x| => a * x[i])
  }

  /** The basis element B[k] of an n-dimensional algebra. */
  function Basis(n: nat, k: nat): (b: Vec)
    ensures |b| == n && forall i :: 0 <= i < n ==> b[i] == (if i == k then 1.0 else 0.0)
  {
    seq(n, i => if i == k then 1.0 else 0.0)
  }

  /** The whole basis B[0], ..., B[n-1]. */
  function BasisList(n: nat): (bs: seq<Vec>)
    ensures |bs| == n && forall k :: 0 <= k < n ==> bs[k] == Basis(n, k)
  {
    seq(n, k requires 0 <= k < n => Basis(n, k))
  }

  /** Σ a[k]·vs[k], an element of an n-dimensional algebra. */
  function Combine(n: nat, a: seq<real>, vs: seq<Vec>): (r: Vec)
    ensures |r| == n
  {
    seq(n, j => Sum(|vs|, CombineTerm(a, vs, j)))
  }

  function CombineTerm(a: seq<real>, vs: seq<Vec>, j: int): nat -> real
  {
    (k: nat) => At(a, k) * (if k < |vs| then At(vs[k], j) else 0.0)
  }

  /** The sum of the elements of l (Python's sum over a list of elements). */
  function ListSum(n: nat, l: seq<Vec>): (r: Vec)
    ensures |r| == n
  {
    seq(n, j => Sum(|l|, ListSumTerm(l, j)))
  }

  function ListSumTerm(l: seq<Vec>, j: int): nat -> real
  {
    (k: nat) => if k < |l| then At(l[k], j) else 0.0
  }

  /** All elements of vs have n coordinates. */
  predicate AllOfLength(vs: seq<Vec>, n: nat)
  {
    forall k :: 0 <= k < |vs| ==> |vs[k]| == n
  }

  // ---------------------------------------------------------------------
  // The algebra and its product
  // ---------------------------------------------------------------------

  /**
   * n is the dimension, c the structure constants, one the unit element and
   * oneBasis the index k with B[k] == one when the algebra names one.
   */
  datatype Algebra = Algebra(n: nat, c: seq<seq<seq<real>>>, one: Vec, oneBasis: Option<nat>)

  /** c(i, k, j): the coefficient of B[j] in B[i]·B[k], and 0 outside the table. */
  function Const(A: Algebra, i: int, k: int, j: int): real
  {
    if 0 <= i < |A.c| && 0 <= k < |A.c[i]| && 0 <= j < |A.c[i][k]| then A.c[i][k][j] else 0.0
  }

  /** The table is n×n×n, the unit has n coordinates and one_basis, when present, names it. */
  predicate WellFormed(A: Algebra)
  {
    && |A.c| == A.n
    && (forall i :: 0 <= i < A.n ==> |A.c[i]| == A.n)
    && (forall i, k :: 0 <= i < A.n && 0 <= k < A.n ==> |A.c[i][k]| == A.n)
    && |A.one| == A.n
    && (A.oneBasis.Some? ==> A.oneBasis.value < A.n && A.one == Basis(A.n, A.oneBasis.value))
  }

  /** Coefficient of B[j] in B[i]·y. */
  function Row(A: Algebra, y: Vec, i: int, j: int): real
  {
    Sum(A.n, RowTerm(A, y, i, j))
  }

  function RowTerm(A: Algebra, y: Vec, i: int, j: int): nat -> real
  {
    (k: nat) => At(y, k) * Const(A, i, k, j)
  }

  /** The product x·y: the coefficient of B[j] is Σ_i Σ_k x[i]·y[k]·c(i, k, j). */
  function Mul(A: Algebra, x: Vec, y: Vec): (r: Vec)
    ensures |r| == A.n
  {
    seq(A.n, j => Sum(A.n, MulTerm(A, x, y, j)))
  }

  function MulTerm(A: Algebra, x: Vec, y: Vec, j: int): nat -> real
  {
    (i: nat) => At(x, i) * Row(A, y, i, j)
  }

  /** The unit law for every element of the algebra. */
  ghost predicate Unital(A: Algebra)
  {
    && |A.one| == A.n
    && forall x: Vec {:trigger Mul(A, A.one, x)} {:trigger Mul(A, x, A.one)} ::
         |x| == A.n ==> Mul(A, A.one, x) == x && Mul(A, x, A.one) == x
  }

  // ---------------------------------------------------------------------
  // Bilinearity of the product
  // ---------------------------------------------------------------------

  lemma MulZeroLeft(A: Algebra, y: Vec)
    ensures Mul(A, Zero(A.n), y) == Zero(A.n)
  {
    forall j | 0 <= j < A.n
      ensures Mul(A, Zero(A.n), y)[j] == 0.0
    {
      SumZero(A.n, MulTerm(A, Zero(A.n), y, j));
    }
  }

  lemma MulZeroRight(A: Algebra, x: Vec)
    ensures Mul(A, x, Zero(A.n)) == Zero(A.n)
  {
    forall j | 0 <= j < A.n
      ensures Mul(A, x, Zero(A.n))[j] == 0.0
    {
      forall i: nat | i < A.n
        ensures MulTerm(A, x, Zero(A.n), j)(i) == 0.0
      {
        SumZero(A.n, RowTerm(A, Zero(A.n), i, j));
      }
      SumZero(A.n, MulTerm(A, x, Zero(A.n), j));
    }
  }

  /** The element a·x + b·y, of the length of x. */
  function Lin(a: real, x: Vec, b: real, y: Vec): (r: Vec)
    ensures |r| == |x| && forall i :: 0 <= i < |x| ==> r[i] == a * x[i] + b * At(y, i)
  {
    seq(|x|, i requires 0 <= i < |x| => a * x[i] + b * At(y, i))
  }

  lemma DistributeRight(a: real, p: real, b: real, q: real, r: real)
    ensures (a * p + b * q) * r == a * (p * r) + b * (q * r)
  {
  }

  lemma DistributeLeft(r: real, a: real, p: real, b: real, q: real)
    ensures r * (a * p + b * q) == a * (r * p) + b * (r * q)
  {
  }

  lemma LinAt(a: real, x: Vec, b: real, y: Vec, i: int)
    requires |x| == |y|
    ensures At(Lin(a, x, b, y), i) == a * At(x, i) + b * At(y, i)
  {
    if 0 <= i < |x| {
    } else {
      assert At(x, i) == 0.0 && At(y, i) == 0.0;
      calc {
        a * At(x, i) + b * At(y, i);
        a * 0.0 + b * 0.0;
        0.0;
      }
    }
  }

  /** Term i of coordinate j of the left-linearity of the product. */
  lemma MulTermLinearLeft(A: Algebra, a: real, x: Vec, b: real, x': Vec, y: Vec, j: int, i: nat)
    requires |x| == |x'|
    ensures MulTerm(A, Lin(a, x, b, x'), y, j)(i) == a * MulTerm(A, x, y, j)(i) + b * MulTerm(A, x', y, j)(i)
  {
    var r := Row(A, y, i, j);
    LinAt(a, x, b, x', i);
    DistributeRight(a, At(x, i), b, At(x', i), r);
  }

  /** Coordinate j of the left-linearity of the product. */
  lemma MulLinearLeftAt(A: Algebra, a: real, x: Vec, b: real, x': Vec, y: Vec, j: int)
    requires |x| == |x'|
    ensures Sum(A.n, MulTerm(A, Lin(a, x, b, x'), y, j))
         == a * Sum(A.n, MulTerm(A, x, y, j)) + b * Sum(A.n, MulTerm(A, x', y, j))
  {
    forall i: nat | i < A.n
      ensures MulTerm(A, Lin(a, x, b, x'), y, j)(i) == a * MulTerm(A, x, y, j)(i) + b * MulTerm(A, x', y, j)(i)
    {
      MulTermLinearLeft(A, a, x, b, x', y, j, i);
    }
    SumLinear(A.n, a, MulTerm(A, x, y, j), b, MulTerm(A, x', y, j), MulTerm(A, Lin(a, x, b, x'), y, j));
  }

  lemma MulLinearLeft(A: Algebra, a: real, x: Vec, b: real, x': Vec, y: Vec)
    requires |x| == |x'|
    ensures Mul(A, Lin(a, x, b, x'), y) == Lin(a, Mul(A, x, y), b, Mul(A, x', y))
  {
    var lhs, rhs := Mul(A, Lin(a, x, b, x'), y), Lin(a, Mul(A, x, y), b, Mul(A, x', y));
    forall j | 0 <= j < A.n
      ensures lhs[j] == rhs[j]
    {
      MulLinearLeftAt(A, a, x, b, x', y, j);
    }
  }

  lemma RowTermLinear(A: Algebra, a: real, y: Vec, b: real, y': Vec, i: int, j: int, k: nat)
    requires |y| == |y'|
    ensures RowTerm(A, Lin(a, y, b, y'), i, j)(k) == a * RowTerm(A, y, i, j)(k) + b * RowTerm(A, y', i, j)(k)
  {
    LinAt(a, y, b, y', k);
    DistributeRight(a, At(y, k), b, At(y', k), Const(A, i, k, j));
  }

  /** Coefficient j of B[i]·(a·y + b·y'). */
  lemma RowLinear(A: Algebra, a: real, y: Vec, b: real, y': Vec, i: int, j: int)
    requires |y| == |y'|
    ensures Row(A, Lin(a, y, b, y'), i, j) == a * Row(A, y, i, j) + b * Row(A, y', i, j)
  {
    forall k: nat | k < A.n
      ensures RowTerm(A, Lin(a, y, b, y'), i, j)(k) == a * RowTerm(A, y, i, j)(k) + b * RowTerm(A, y', i, j)(k)
    {
      RowTermLinear(A, a, y, b, y', i, j, k);
    }
    SumLinear(A.n, a, RowTerm(A, y, i, j), b, RowTerm(A, y', i, j), RowTerm(A, Lin(a, y, b, y'), i, j));
  }

  lemma MulTermLinearRight(A: Algebra, x: Vec, a: real, y: Vec, b: real, y': Vec, j: int, i: nat)
    requires |y| == |y'|
    ensures MulTerm(A, x, Lin(a, y, b, y'), j)(i) == a * MulTerm(A, x, y, j)(i) + b * MulTerm(A, x, y', j)(i)
  {
    RowLinear(A, a, y, b, y', i, j);
    DistributeLeft(At(x, i), a, Row(A, y, i, j), b, Row(A, y', i, j));
  }

  /** Coordinate j of the right-linearity of the product. */
  lemma MulLinearRightAt(A: Algebra, x: Vec, a: real, y: Vec, b: real, y': Vec, j: int)
    requires |y| == |y'|
    ensures Sum(A.n, MulTerm(A, x, Lin(a, y, b, y'), j))
         == a * Sum(A.n, MulTerm(A, x, y, j)) + b * Sum(A.n, MulTerm(A, x, y', j))
  {
    forall i: nat | i < A.n
      ensures MulTerm(A, x, Lin(a, y, b, y'), j)(i) == a * MulTerm(A, x, y, j)(i) + b * MulTerm(A, x, y', j)(i)
    {
      MulTermLinearRight(A, x, a, y, b, y', j, i);
    }
    SumLinear(A.n, a, MulTerm(A, x, y, j), b, MulTerm(A, x, y', j), MulTerm(A, x, Lin(a, y, b, y'), j));
  }

  lemma MulLinearRight(A: Algebra, x: Vec, a: real, y: Vec, b: real, y': Vec)
    requires |y| == |y'|
    ensures Mul(A, x, Lin(a, y, b, y')) == Lin(a, Mul(A, x, y), b, Mul(A, x, y'))
  {
    var lhs, rhs := Mul(A, x, Lin(a, y, b, y')), Lin(a, Mul(A, x, y), b, Mul(A, x, y'));
    forall j | 0 <= j < A.n
      ensures lhs[j] == rhs[j]
    {
      MulLinearRightAt(A, x, a, y, b, y', j);
    }
  }

  lemma AddIsLin(x: Vec, y: Vec)
    ensures Add(x, y) == Lin(1.0, x, 1.0, y)
  {
  }

  lemma SubIsLin(x: Vec, y: Vec)
    ensures Sub(x, y) == Lin(1.0, x, -1.0, y)
  {
  }

  lemma ScaleIsLin(a: real, x: Vec)
    ensures Scale(a, x) == Lin(a, x, 0.0, x)
  {
  }

  lemma MulAddLeft(A: Algebra, x: Vec, x': Vec, y: Vec)
    requires |x| == |x'|
    ensures Mul(A, Add(x, x'), y) == Add(Mul(A, x, y), Mul(A, x', y))
  {
    AddIsLin(x, x');
    MulLinearLeft(A, 1.0, x, 1.0, x', y);
    AddIsLin(Mul(A, x, y), Mul(A, x', y));
  }

  lemma MulAddRight(A: Algebra, x: Vec, y: Vec, y': Vec)
    requires |y| == |y'|
    ensures Mul(A, x, Add(y, y')) == Add(Mul(A, x, y), Mul(A, x, y'))
  {
    AddIsLin(y, y');
    MulLinearRight(A, x, 1.0, y, 1.0, y');
    AddIsLin(Mul(A, x, y), Mul(A, x, y'));
  }

  lemma MulSubLeft(A: Algebra, x: Vec, x': Vec, y: Vec)
    requires |x| == |x'|
    ensures Mul(A, Sub(x, x'), y) == Sub(Mul(A, x, y), Mul(A, x', y))
  {
    SubIsLin(x, x');
    MulLinearLeft(A, 1.0, x, -1.0, x', y);
    SubIsLin(Mul(A, x, y), Mul(A, x', y));
  }

  lemma MulSubRight(A: Algebra, x: Vec, y: Vec, y': Vec)
    requires |y| == |y'|
    ensures Mul(A, x, Sub(y, y')) == Sub(Mul(A, x, y), Mul(A, x, y'))
  {
    SubIsLin(y, y');
    MulLinearRight(A, x, 1.0, y, -1.0, y');
    SubIsLin(Mul(A, x, y), Mul(A, x, y'));
  }

  lemma MulScaleLeft(A: Algebra, a: real, x: Vec, y: Vec)
    ensures Mul(A, Scale(a, x), y) == Scale(a, Mul(A, x, y))
  {
    ScaleIsLin(a, x);
    MulLinearLeft(A, a, x, 0.0, x, y);
    ScaleIsLin(a, Mul(A, x, y));
  }

  lemma MulScaleRight(A: Algebra, x: Vec, a: real, y: Vec)
    ensures Mul(A, x, Scale(a, y)) == Scale(a, Mul(A, x, y))
  {
    ScaleIsLin(a, y);
    MulLinearRight(A, x, a, y, 0.0, y);
    ScaleIsLin(a, Mul(A, x, y));
  }

  /** B[i]·B[k] has coordinates c(i, k, ·). */
  lemma MulBasis(A: Algebra, i: nat, k: nat, j: nat)
    requires i < A.n && k < A.n && j < A.n
    ensures Mul(A, Basis(A.n, i), Basis(A.n, k))[j] == Const(A, i, k, j)
  {
    var bi, bk := Basis(A.n, i), Basis(A.n, k);
    forall i': nat | i' < A.n
      ensures Row(A, bk, i', j) == Const(A, i', k, j)
    {
      SumDelta(A.n, k, RowTerm(A, bk, i', j));
    }
    SumDelta(A.n, i, MulTerm(A, bi, bk, j));
  }

  // ---------------------------------------------------------------------
  // Linear combinations
  // ---------------------------------------------------------------------

  /** Splitting off the last term of a linear combination. */
  lemma CombineSnoc(n: nat, a: seq<real>, vs: seq<Vec>)
    requires |vs| > 0 && AllOfLength(vs, n)
    ensures Combine(n, a, vs) == Add(Combine(n, a, vs[..|vs| - 1]), Scale(At(a, |vs| - 1), vs[|vs| - 1]))
  {
    var m := |vs| - 1;
    var front := vs[..m];
    var lhs := Combine(n, a, vs);
    var rhs := Add(Combine(n, a, front), Scale(At(a, m), vs[m]));
    forall j | 0 <= j < n
      ensures lhs[j] == rhs[j]
    {
      forall k: nat | k < m
        ensures CombineTerm(a, vs, j)(k) == CombineTerm(a, front, j)(k)
      {
        assert vs[k] == front[k];
      }
      SumExt(m, CombineTerm(a, vs, j), CombineTerm(a, front, j));
      assert lhs[j] == Sum(m, CombineTerm(a, vs, j)) + CombineTerm(a, vs, j)(m);
      assert CombineTerm(a, vs, j)(m) == At(a, m) * vs[m][j];
      assert At(Scale(At(a, m), vs[m]), j) == At(a, m) * vs[m][j];
    }
  }

  /** The empty linear combination is zero. */
  lemma CombineEmpty(n: nat, a: seq<real>)
    ensures Combine(n, a, []) == Zero(n)
  {
  }

  /** Σ v[k]·B[k] == v. */
  lemma CombineBasis(n: nat, v: Vec)
    requires |v| == n
    ensures Combine(n, v, BasisList(n)) == v
  {
    forall j | 0 <= j < n
      ensures Combine(n, v, BasisList(n))[j] == v[j]
    {
      SumDelta(n, j, CombineTerm(v, BasisList(n), j));
    }
  }

  /** Left multiplication by x of every element of vs. */
  function MapMulLeft(A: Algebra, x: Vec, vs: seq<Vec>): (r: seq<Vec>)
    ensures |r| == |vs| && AllOfLength(r, A.n)
    ensures forall k :: 0 <= k < |vs| ==> r[k] == Mul(A, x, vs[k])
  {
    seq(|vs|, k requires 0 <= k < |vs| => Mul(A, x, vs[k]))
  }

  /** Right multiplication by y of every element of vs. */
  function MapMulRight(A: Algebra, vs: seq<Vec>, y: Vec): (r: seq<Vec>)
    ensures |r| == |vs| && AllOfLength(r, A.n)
    ensures forall k :: 0 <= k < |vs| ==> r[k] == Mul(A, vs[k], y)
  {
    seq(|vs|, k requires 0 <= k < |vs| => Mul(A, vs[k], y))
  }

  /** x·(Σ a[k]·vs[k]) == Σ a[k]·(x·vs[k]). */
  lemma {:induction false} MulCombineRight(A: Algebra, x: Vec, a: seq<real>, vs: seq<Vec>)
    requires AllOfLength(vs, A.n)
    ensures Mul(A, x, Combine(A.n, a, vs)) == Combine(A.n, a, MapMulLeft(A, x, vs))
    decreases |vs|
  {
    var n := A.n;
    if |vs| == 0 {
      CombineEmpty(n, a);
      MulZeroRight(A, x);
    } else {
      var m := |vs| - 1;
      var front, last := vs[..m], vs[m];
      var mapped := MapMulLeft(A, x, vs);
      assert mapped[..m] == MapMulLeft(A, x, front);
      CombineSnoc(n, a, vs);
      CombineSnoc(n, a, mapped);
      MulCombineRight(A, x, a, front);
      MulAddRight(A, x, Combine(n, a, front), Scale(At(a, m), last));
      MulScaleRight(A, x, At(a, m), last);
    }
  }

  /** (Σ a[k]·vs[k])·y == Σ a[k]·(vs[k]·y). */
  lemma {:induction false} MulCombineLeft(A: Algebra, a: seq<real>, vs: seq<Vec>, y: Vec)
    requires AllOfLength(vs, A.n)
    ensures Mul(A, Combine(A.n, a, vs), y) == Combine(A.n, a, MapMulRight(A, vs, y))
    decreases |vs|
  {
    var n := A.n;
    if |vs| == 0 {
      CombineEmpty(n, a);
      MulZeroLeft(A, y);
    } else {
      var m := |vs| - 1;
      var front, last := vs[..m], vs[m];
      var mapped := MapMulRight(A, vs, y);
      assert mapped[..m] == MapMulRight(A, front, y);
      CombineSnoc(n, a, vs);
      CombineSnoc(n, a, mapped);
      MulCombineLeft(A, a, front, y);
      MulAddLeft(A, Combine(n, a, front), Scale(At(a, m), last), y);
      MulScaleLeft(A, At(a, m), last, y);
    }
  }
}
