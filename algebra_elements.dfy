/**
 * Operations on the algebra and its elements: the commutativity test, the
 * matrix of the action of an element, and the inverse of an element.
 */
module AlgebraElements {
  import opened Results
  import opened FiniteAlgebra
  import opened Idempotents

  // ---------------------------------------------------------------------
  // is_commutative
  // ---------------------------------------------------------------------

  /** Every two elements of the algebra commute. */
  ghost predicate Commutative(A: Algebra)
  {
    forall x: Vec, y: Vec {:trigger Mul(A, x, y)} :: |x| == A.n && |y| == A.n ==> Mul(A, x, y) == Mul(A, y, x)
  }

  /** Every two basis elements commute. */
  predicate BasisCommutes(A: Algebra)
  {
    forall i, k :: 0 <= i < A.n && 0 <= k < A.n ==> Mul(A, Basis(A.n, i), Basis(A.n, k)) == Mul(A, Basis(A.n, k), Basis(A.n, i))
  }

  /** x·y == y·x. */
  predicate Commute(A: Algebra, x: Vec, y: Vec)
  {
    Mul(A, x, y) == Mul(A, y, x)
  }

  /** Every two entries at positions i < j commute. */
  predicate PairwiseCommute(A: Algebra, B: seq<Vec>)
  {
    forall i, j :: 0 <= i < j < |B| ==> Commute(A, B[i], B[j])
  }

  /** The first position of v in B, or |B| when v does not occur. */
  function FirstIndex(B: seq<Vec>, v: Vec): (p: nat)
    ensures p <= |B| && (p < |B| ==> B[p] == v)
    ensures forall k :: 0 <= k < p ==> B[k] != v
  {
    if B == [] then 0 else if B[0] == v then 0 else 1 + FirstIndex(B[1..], v)
  }

  /** Python's list.remove, except that a missing element leaves the list as it is. */
  function RemoveFirst(B: seq<Vec>, v: Vec): (r: seq<Vec>)
    ensures v in B ==> |r| == |B| - 1
    ensures v !in B ==> r == B
    ensures forall k :: 0 <= k < |B| && k != FirstIndex(B, v) ==>
              r[if k < FirstIndex(B, v) then k else k - 1] == B[k]
  {
    var p := FirstIndex(B, v);
    if p < |B| then B[..p] + B[p + 1..] else B
  }

  /**
   * is_commutative: the unit is taken out of the basis when it is a basis
   * element, then the remaining pairs are compared, stopping at the first
   * pair that does not commute.
   */
  method IsCommutative(A: Algebra) returns (b: bool)
    ensures b <==> PairwiseCommute(A, RemoveFirst(BasisList(A.n), A.one))
  {
    var B := RemoveFirst(BasisList(A.n), A.one);
    b := AllPairsCommute(A, B);
  }

  /** The double loop over the pairs i < j of B. */
  method AllPairsCommute(A: Algebra, B: seq<Vec>) returns (b: bool)
    ensures b <==> PairwiseCommute(A, B)
  {
    var i := 0;
    while i < |B|
      invariant i <= |B|
      invariant forall i0, j0 :: 0 <= i0 < i && i0 < j0 < |B| ==> Commute(A, B[i0], B[j0])
    {
      var later := CommutesWithLater(A, B, i);
      if !later {
        return false;
      }
      i := i + 1;
    }
    return true;
  }

  /** The inner loop: B[i] against every later entry. */
  method CommutesWithLater(A: Algebra, B: seq<Vec>, i: nat) returns (b: bool)
    requires i < |B|
    ensures b <==> forall j0 :: i < j0 < |B| ==> Commute(A, B[i], B[j0])
  {
    var j := i + 1;
    while j < |B|
      invariant i + 1 <= j <= |B|
      invariant forall j0 :: i < j0 < j ==> Commute(A, B[i], B[j0])
    {
      if !Commute(A, B[i], B[j]) {
        return false;
      }
      j := j + 1;
    }
    return true;
  }

  /** Leaving the unit out loses nothing: it commutes with every element. */
  lemma PairwiseCommuteGivesBasisCommutes(A: Algebra)
    requires Unital(A)
    requires PairwiseCommute(A, RemoveFirst(BasisList(A.n), A.one))
    ensures BasisCommutes(A)
  {
    var n := A.n;
    var BL := BasisList(n);
    var p := FirstIndex(BL, A.one);
    var r := RemoveFirst(BL, A.one);
    forall i, k | 0 <= i < n && 0 <= k < n
      ensures Mul(A, Basis(n, i), Basis(n, k)) == Mul(A, Basis(n, k), Basis(n, i))
    {
      if i == p {
        assert Mul(A, A.one, Basis(n, k)) == Basis(n, k) == Mul(A, Basis(n, k), A.one);
      } else if k == p {
        assert Mul(A, A.one, Basis(n, i)) == Basis(n, i) == Mul(A, Basis(n, i), A.one);
      } else if i != k {
        var i', k' := if i < p then i else i - 1, if k < p then k else k - 1;
        assert r[i'] == Basis(n, i) && r[k'] == Basis(n, k);
        assert Commute(A, r[i'], r[k']) || Commute(A, r[k'], r[i']);
      }
    }
  }

  /** A basis element that commutes with every basis element commutes with every element. */
  lemma BasisElementCommutesWithAll(A: Algebra, i: nat, y: Vec)
    requires BasisCommutes(A) && i < A.n && |y| == A.n
    ensures Mul(A, Basis(A.n, i), y) == Mul(A, y, Basis(A.n, i))
  {
    var n := A.n;
    var BL := BasisList(n);
    var bi := Basis(n, i);
    CombineBasis(n, y);
    MulCombineRight(A, bi, y, BL);
    MulCombineLeft(A, y, BL, bi);
    assert MapMulLeft(A, bi, BL) == MapMulRight(A, BL, bi);
  }

  /** Commuting basis elements make a commutative algebra (bilinearity of the product). */
  lemma BasisCommutesGivesCommutative(A: Algebra)
    requires BasisCommutes(A)
    ensures Commutative(A)
  {
    var n := A.n;
    var BL := BasisList(n);
    forall x: Vec, y: Vec | |x| == n && |y| == n
      ensures Mul(A, x, y) == Mul(A, y, x)
    {
      CombineBasis(n, x);
      MulCombineLeft(A, x, BL, y);
      MulCombineRight(A, y, x, BL);
      forall k | 0 <= k < n
        ensures MapMulRight(A, BL, y)[k] == MapMulLeft(A, y, BL)[k]
      {
        BasisElementCommutesWithAll(A, k, y);
      }
      assert MapMulRight(A, BL, y) == MapMulLeft(A, y, BL);
    }
  }

  /** is_commutative answers true exactly when the algebra is commutative. */
  lemma IsCommutativeCorrect(A: Algebra)
    requires Unital(A)
    ensures PairwiseCommute(A, RemoveFirst(BasisList(A.n), A.one)) <==> Commutative(A)
  {
    var B := RemoveFirst(BasisList(A.n), A.one);
    if PairwiseCommute(A, B) {
      assert Commutative(A) by {
        PairwiseCommuteGivesBasisCommutes(A);
        BasisCommutesGivesCommutative(A);
      }
    }
    if Commutative(A) {
      forall i, j | 0 <= i < j < |B|
        ensures Commute(A, B[i], B[j])
      {
        assert |B[i]| == A.n && |B[j]| == A.n by {
          assert B[i] in BasisList(A.n) && B[j] in BasisList(A.n);
        }
      }
    }
  }

  // ---------------------------------------------------------------------
  // to_matrix
  // ---------------------------------------------------------------------

  type Matrix = seq<seq<real>>

  /**
   * The matrix of the action of x on the algebra: column j holds the
   * coordinates of x·B[j] (left) or B[j]·x (right).
   */
  function ToMatrix(A: Algebra, x: Vec, side: Side): (M: Matrix)
    ensures |M| == A.n && forall i :: 0 <= i < A.n ==> |M[i]| == A.n
  {
    var cols := Actions(A, x, side);
    seq(A.n, i requires 0 <= i < A.n => seq(A.n, j requires 0 <= j < A.n => cols[j][i]))
  }

  /**
   * x·B[j] (left) or B[j]·x (right) for each j: the generators of the
   * principal ideal on the opposite side.
   */
  function Actions(A: Algebra, x: Vec, side: Side): (cols: seq<Vec>)
    ensures |cols| == A.n && AllOfLength(cols, A.n)
  {
    if side == Right then PrincipalIdeal(A, x, Left) else PrincipalIdeal(A, x, Right)
  }

  /** The product of a matrix with a column vector. */
  function MatVec(M: Matrix, v: Vec): (r: Vec)
    ensures |r| == |M|
  {
    seq(|M|, i requires 0 <= i < |M| => Sum(|v|, MatVecTerm(M[i], v)))
  }

  function MatVecTerm(row: seq<real>, v: Vec): nat -> real
  {
    (k: nat) => At(row, k) * At(v, k)
  }

  /** The matrix represents the action: applied to v it gives x·v (left) or v·x (right). */
  lemma ToMatrixActs(A: Algebra, x: Vec, side: Side, v: Vec)
    requires |v| == A.n
    ensures MatVec(ToMatrix(A, x, side), v) == if side == Right then Mul(A, v, x) else Mul(A, x, v)
  {
    var n := A.n;
    var M := ToMatrix(A, x, side);
    var cols := Actions(A, x, side);
    PrincipalIdealSpans(A, x, if side == Right then Left else Right, v);
    forall i | 0 <= i < n
      ensures MatVec(M, v)[i] == Combine(n, v, cols)[i]
    {
      forall k: nat | k < n
        ensures MatVecTerm(M[i], v)(k) == CombineTerm(v, cols, i)(k)
      {
        assert M[i][k] == cols[k][i];
      }
      SumExt(n, MatVecTerm(M[i], v), CombineTerm(v, cols, i));
    }
    assert MatVec(M, v) == Combine(n, v, cols);
  }

  // ---------------------------------------------------------------------
  // __invert__
  // ---------------------------------------------------------------------

  datatype InvertError = CannotInvert

  /** x has exactly one nonzero coordinate, at position ob. */
  predicate SupportIsOnly(x: Vec, ob: nat)
  {
    ob < |x| && forall i :: 0 <= i < |x| ==> (x[i] != 0.0 <==> i == ob)
  }

  /**
   * ~x.  inRing tells which field elements lie in the base ring; solve
   * stands for solve_right, answering None where it raises.  When the unit
   * is the basis element B[ob] and x is a multiple c·B[ob], the answer is
   * c⁻¹·B[ob]; otherwise it is the solution of to_matrix(x)·v = 1, which
   * must have its coordinates in the base ring.
   */
  function Invert(A: Algebra, x: Vec, inRing: real -> bool, solve: (Matrix, Vec) -> Option<Vec>): Result<Vec, InvertError>
  {
    if A.oneBasis.Some? && SupportIsOnly(x, A.oneBasis.value) then
      var ob := A.oneBasis.value;
      if inRing(1.0 / x[ob]) then Ok(Scale(1.0 / x[ob], Basis(A.n, ob))) else Err(CannotInvert)
    else
      match solve(ToMatrix(A, x, Left), A.one)
      case None => Err(CannotInvert)
      case Some(v) => if forall i :: 0 <= i < |v| ==> inRing(v[i]) then Ok(v) else Err(CannotInvert)
  }

  /** solve returns only solutions, with one coordinate per column of the square matrix. */
  ghost predicate SolveSound(solve: (Matrix, Vec) -> Option<Vec>)
  {
    forall M: Matrix, b: Vec {:trigger solve(M, b)} ::
      solve(M, b).Some? ==> |solve(M, b).value| == |b| && MatVec(M, solve(M, b).value) == b
  }

  /** solve answers None only when there is no solution. */
  ghost predicate SolveComplete(solve: (Matrix, Vec) -> Option<Vec>)
  {
    forall M: Matrix, b: Vec, v: Vec {:trigger solve(M, b), MatVec(M, v)} ::
      |v| == |b| && MatVec(M, v) == b ==> solve(M, b).Some?
  }

  /** c·1 times c⁻¹·1 is 1. */
  lemma ScaledUnitInverse(A: Algebra, c: real)
    requires Unital(A) && c != 0.0
    ensures Mul(A, Scale(c, A.one), Scale(1.0 / c, A.one)) == A.one
  {
    var d := 1.0 / c;
    MulScaleLeft(A, c, A.one, Scale(d, A.one));
    MulScaleRight(A, A.one, d, A.one);
    assert Mul(A, A.one, A.one) == A.one;
    var r := Scale(c, Scale(d, A.one));
    forall i | 0 <= i < A.n
      ensures r[i] == A.one[i]
    {
      assert r[i] == c * (d * A.one[i]);
      assert c * d == 1.0;
    }
  }

  /** What ~x returns is a right inverse of x, with its coordinates in the base ring. */
  lemma InvertIsRightInverse(A: Algebra, x: Vec, inRing: real -> bool, solve: (Matrix, Vec) -> Option<Vec>)
    requires Unital(A) && WellFormed(A) && |x| == A.n
    requires SolveSound(solve) && inRing(0.0)
    requires Invert(A, x, inRing, solve).Ok?
    ensures var y := Invert(A, x, inRing, solve).value;
            |y| == A.n && Mul(A, x, y) == A.one && forall i :: 0 <= i < |y| ==> inRing(y[i])
  {
    var y := Invert(A, x, inRing, solve).value;
    if A.oneBasis.Some? && SupportIsOnly(x, A.oneBasis.value) {
      var ob := A.oneBasis.value;
      var c := x[ob];
      assert x == Scale(c, A.one);
      ScaledUnitInverse(A, c);
      assert y == Scale(1.0 / c, A.one);
      forall i | 0 <= i < |y|
        ensures inRing(y[i])
      {
        assert y[i] == (if i == ob then 1.0 / c else 0.0);
      }
    } else {
      ToMatrixActs(A, x, Left, y);
    }
  }

  /**
   * Over a field, with an exact solver, ~x succeeds exactly when x has a
   * right inverse.
   */
  lemma InvertOverField(A: Algebra, x: Vec, inRing: real -> bool, solve: (Matrix, Vec) -> Option<Vec>)
    requires Unital(A) && WellFormed(A) && |x| == A.n
    requires SolveSound(solve) && SolveComplete(solve)
    requires forall r :: inRing(r)
    ensures Invert(A, x, inRing, solve).Ok? <==> exists y: Vec :: |y| == A.n && Mul(A, x, y) == A.one
  {
    if Invert(A, x, inRing, solve).Ok? {
      var y := Invert(A, x, inRing, solve).value;
      assert |y| == A.n && Mul(A, x, y) == A.one by {
        InvertIsRightInverse(A, x, inRing, solve);
      }
    }
    if exists y: Vec :: |y| == A.n && Mul(A, x, y) == A.one {
      var y: Vec :| |y| == A.n && Mul(A, x, y) == A.one;
      InvertOfInvertible(A, x, y, inRing, solve);
    }
  }

  /** Over a field, with an exact solver, ~x succeeds on an x with a right inverse y. */
  lemma InvertOfInvertible(A: Algebra, x: Vec, y: Vec, inRing: real -> bool, solve: (Matrix, Vec) -> Option<Vec>)
    requires Unital(A) && WellFormed(A) && |x| == A.n
    requires SolveComplete(solve)
    requires forall r :: inRing(r)
    requires |y| == A.n && Mul(A, x, y) == A.one
    ensures Invert(A, x, inRing, solve).Ok?
  {
    if !(A.oneBasis.Some? && SupportIsOnly(x, A.oneBasis.value)) {
      ToMatrixActs(A, x, Left, y);
      assert MatVec(ToMatrix(A, x, Left), y) == A.one;
      assert solve(ToMatrix(A, x, Left), A.one).Some?;
      var v := solve(ToMatrix(A, x, Left), A.one).value;
      forall i | 0 <= i < |v|
        ensures inRing(v[i])
      {
        var c := v[i];
        assert inRing(c);
      }
    } else {
      assert inRing(1.0 / x[A.oneBasis.value]);
    }
  }
}
