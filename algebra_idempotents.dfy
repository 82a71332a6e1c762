/**
 * Idempotents of a finite-dimensional algebra: the test for a decomposition
 * of the identity into orthogonal idempotents, idempotent lifting from the
 * semisimple quotient, the orthogonal idempotents central modulo the radical,
 * principal ideals, the Peirce decomposition, the isotypic projective modules
 * and the Cartan invariants matrix.
 */
module Idempotents {
  import opened Results
  import opened FiniteAlgebra

  // ---------------------------------------------------------------------
  // Decompositions of the identity
  // ---------------------------------------------------------------------

  /**
   * The list sums to the unit, each entry squares to itself, and each pair of
   * entries at positions j < i multiplies to zero in both orders.
   */
  predicate IsIdentityDecomposition(A: Algebra, l: seq<Vec>)
  {
    && ListSum(A.n, l) == A.one
    && (forall k :: 0 <= k < |l| ==> Mul(A, l[k], l[k]) == l[k])
    && (forall i, j :: 0 <= j < i < |l| ==> Mul(A, l[i], l[j]) == Zero(A.n) && Mul(A, l[j], l[i]) == Zero(A.n))
  }

  /** Every two entries at distinct positions multiply to zero. */
  predicate PairwiseOrthogonal(A: Algebra, l: seq<Vec>)
  {
    forall i, j :: 0 <= i < |l| && 0 <= j < |l| && i != j ==> Mul(A, l[i], l[j]) == Zero(A.n)
  }

  /**
   * Checking the pairs j < i in both orders is the same as checking every
   * ordered pair of distinct positions.
   */
  lemma IdentityDecompositionCharacterized(A: Algebra, l: seq<Vec>)
    ensures IsIdentityDecomposition(A, l) <==>
              && ListSum(A.n, l) == A.one
              && (forall k :: 0 <= k < |l| ==> Mul(A, l[k], l[k]) == l[k])
              && PairwiseOrthogonal(A, l)
  {
    if PairwiseOrthogonal(A, l) {
      forall i, j | 0 <= j < i < |l|
        ensures Mul(A, l[i], l[j]) == Zero(A.n) && Mul(A, l[j], l[i]) == Zero(A.n)
      {
      }
    }
    if IsIdentityDecomposition(A, l) {
      forall i, j | 0 <= i < |l| && 0 <= j < |l| && i != j
        ensures Mul(A, l[i], l[j]) == Zero(A.n)
      {
        if j < i {
        } else {
          assert Mul(A, l[j], l[i]) == Zero(A.n) && Mul(A, l[i], l[j]) == Zero(A.n);
        }
      }
    }
  }

  /** The one-element family [1] decomposes the identity. */
  lemma IdentityDecompositionOfOne(A: Algebra)
    requires Unital(A)
    ensures IsIdentityDecomposition(A, [A.one])
  {
    var s := ListSum(A.n, [A.one]);
    forall j | 0 <= j < A.n
      ensures s[j] == A.one[j]
    {
      assert s[j] == Sum(1, ListSumTerm([A.one], j));
    }
  }

  /** The empty family decomposes the identity exactly when the unit is zero. */
  lemma IdentityDecompositionOfNothing(A: Algebra)
    requires |A.one| == A.n
    ensures IsIdentityDecomposition(A, []) <==> A.one == Zero(A.n)
  {
    assert ListSum(A.n, []) == Zero(A.n);
  }

  /** A nonzero element listed twice is not orthogonal to itself. */
  lemma RepeatedEntryIsNoDecomposition(A: Algebra, l: seq<Vec>, i: nat, j: nat)
    requires i < |l| && j < |l| && i != j
    requires l[i] == l[j] && l[i] != Zero(A.n)
    ensures !IsIdentityDecomposition(A, l)
  {
    IdentityDecompositionCharacterized(A, l);
    if IsIdentityDecomposition(A, l) {
      assert false;
    }
  }

  /** Inserting a zero term at p does not change a sum. */
  lemma {:induction false} SumInsertZero(n: nat, p: nat, f: nat -> real, g: nat -> real)
    requires p <= n
    requires forall k: nat :: k < p ==> g(k) == f(k)
    requires g(p) == 0.0
    requires forall k: nat :: p < k <= n ==> g(k) == f(k - 1)
    ensures Sum(n + 1, g) == Sum(n, f)
  {
    if n == p {
      SumExt(p, g, f);
    } else {
      SumInsertZero(n - 1, p, f, g);
    }
  }

  /** l with the zero element inserted at position p. */
  function InsertZero(A: Algebra, l: seq<Vec>, p: nat): (r: seq<Vec>)
    requires p <= |l|
    ensures |r| == |l| + 1 && r[p] == Zero(A.n)
    ensures forall k :: 0 <= k < p ==> r[k] == l[k]
    ensures forall k :: p < k <= |l| ==> r[k] == l[k - 1]
  {
    l[..p] + [Zero(A.n)] + l[p..]
  }

  /** The position in InsertZero(A, l, p) of entry k of l. */
  function Shifted(p: nat, k: nat): nat
  {
    if k < p then k else k + 1
  }

  lemma InsertZeroListSum(A: Algebra, l: seq<Vec>, p: nat)
    requires p <= |l|
    ensures ListSum(A.n, InsertZero(A, l, p)) == ListSum(A.n, l)
  {
    var r := InsertZero(A, l, p);
    forall j | 0 <= j < A.n
      ensures ListSum(A.n, r)[j] == ListSum(A.n, l)[j]
    {
      SumInsertZero(|l|, p, ListSumTerm(l, j), ListSumTerm(r, j));
    }
  }

  /** The zero element is idempotent and orthogonal to everything. */
  lemma ZeroAnnihilates(A: Algebra, v: Vec)
    ensures Mul(A, Zero(A.n), v) == Zero(A.n) && Mul(A, v, Zero(A.n)) == Zero(A.n)
  {
    MulZeroLeft(A, v);
    MulZeroRight(A, v);
  }

  lemma InsertZeroKeepsDecomposition(A: Algebra, l: seq<Vec>, p: nat)
    requires p <= |l|
    requires IsIdentityDecomposition(A, l)
    ensures IsIdentityDecomposition(A, InsertZero(A, l, p))
  {
    var r := InsertZero(A, l, p);
    var z := Zero(A.n);
    InsertZeroListSum(A, l, p);
    IdentityDecompositionCharacterized(A, l);
    forall i, j | 0 <= i < |r| && 0 <= j < |r| && i != j
      ensures Mul(A, r[i], r[j]) == z
    {
      if i == p {
        ZeroAnnihilates(A, r[j]);
      } else if j == p {
        ZeroAnnihilates(A, r[i]);
      } else {
        var i', j' := if i < p then i else i - 1, if j < p then j else j - 1;
        assert r[i] == l[i'] && r[j] == l[j'];
      }
    }
    forall k | 0 <= k < |r|
      ensures Mul(A, r[k], r[k]) == r[k]
    {
      if k == p {
        ZeroAnnihilates(A, z);
      } else {
        var k' := if k < p then k else k - 1;
        assert r[k] == l[k'];
      }
    }
    IdentityDecompositionCharacterized(A, r);
  }

  lemma RemoveZeroKeepsDecomposition(A: Algebra, l: seq<Vec>, p: nat)
    requires p <= |l|
    requires IsIdentityDecomposition(A, InsertZero(A, l, p))
    ensures IsIdentityDecomposition(A, l)
  {
    var r := InsertZero(A, l, p);
    var z := Zero(A.n);
    InsertZeroListSum(A, l, p);
    IdentityDecompositionCharacterized(A, r);
    forall i, j | 0 <= i < |l| && 0 <= j < |l| && i != j
      ensures Mul(A, l[i], l[j]) == z
    {
      assert r[Shifted(p, i)] == l[i] && r[Shifted(p, j)] == l[j];
    }
    forall k | 0 <= k < |l|
      ensures Mul(A, l[k], l[k]) == l[k]
    {
      assert r[Shifted(p, k)] == l[k];
    }
    IdentityDecompositionCharacterized(A, l);
  }

  /** Zero entries are allowed: adding or removing one does not change the answer. */
  lemma IdentityDecompositionWithZero(A: Algebra, l: seq<Vec>, p: nat)
    requires p <= |l|
    ensures IsIdentityDecomposition(A, InsertZero(A, l, p)) <==> IsIdentityDecomposition(A, l)
  {
    if IsIdentityDecomposition(A, l) {
      InsertZeroKeepsDecomposition(A, l, p);
    }
    if IsIdentityDecomposition(A, InsertZero(A, l, p)) {
      RemoveZeroKeepsDecomposition(A, l, p);
    }
  }

  // ---------------------------------------------------------------------
  // Idempotent lifting
  // ---------------------------------------------------------------------

  /** One round of the lifting iteration: x ↦ 1 − (1 − x²)². */
  function LiftStep(A: Algebra, x: Vec): Vec
  {
    var u := Sub(A.one, Mul(A, x, x));
    Sub(A.one, Mul(A, u, u))
  }

  /** x after k rounds of the lifting iteration. */
  function LiftSteps(A: Algebra, x: Vec, k: nat): Vec
    decreases k
  {
    if k == 0 then x else LiftSteps(A, LiftStep(A, x), k - 1)
  }

  /**
   * The semisimple quotient of the algebra: its own structure constants and
   * the retraction from, and a lift back to, the ambient algebra.
   */
  datatype Quotient = Quotient(algebra: Algebra, retract: Vec -> Vec, lift: Vec -> Vec)

  /**
   * The retraction is the projection π of A onto its semisimple quotient: a
   * unital algebra homomorphism (additive, multiplicative, sending 1 to 1),
   * of which lift is a section (π(lift(x̄)) = x̄).
   */
  ghost predicate IsProjection(A: Algebra, Q: Quotient)
  {
    && Unital(Q.algebra)
    && (forall x: Vec {:trigger Q.retract(x)} :: |x| == A.n ==> |Q.retract(x)| == Q.algebra.n)
    && (forall x: Vec, y: Vec {:trigger Q.retract(Add(x, y))} ::
          |x| == A.n && |y| == A.n ==> Q.retract(Add(x, y)) == Add(Q.retract(x), Q.retract(y)))
    && (forall x: Vec, y: Vec {:trigger Q.retract(Sub(x, y))} ::
          |x| == A.n && |y| == A.n ==> Q.retract(Sub(x, y)) == Sub(Q.retract(x), Q.retract(y)))
    && (forall x: Vec, y: Vec {:trigger Q.retract(Mul(A, x, y))} ::
          |x| == A.n && |y| == A.n ==> Q.retract(Mul(A, x, y)) == Mul(Q.algebra, Q.retract(x), Q.retract(y)))
    && Q.retract(A.one) == Q.algebra.one
    && (forall xbar: Vec {:trigger Q.lift(xbar)} ::
          |xbar| == Q.algebra.n ==> |Q.lift(xbar)| == A.n && Q.retract(Q.lift(xbar)) == xbar)
  }

  /** The argument of idempotent_lift: an element of the algebra, or of its quotient. */
  datatype LiftInput = OfAlgebra(x: Vec) | OfQuotient(xbar: Vec)

  datatype LiftError =
    | NotRetractingToIdempotent(p: Vec)   // the ValueError of idempotent_lift
    | NoFixedPointWithinFuel              // the iteration was cut off (see README)

  /**
   * Iterates LiftStep until an element equals its successor, allowing fuel
   * rounds; the element returned is that successor.
   */
  function LiftIterate(A: Algebra, x: Vec, fuel: nat): Option<Vec>
    decreases fuel
  {
    if fuel == 0 then None
    else
      var y := LiftStep(A, x);
      if y == x then Some(y) else LiftIterate(A, y, fuel - 1)
  }

  /** The element of the algebra the input stands for. */
  function InputElement(Q: Quotient, input: LiftInput): Vec
  {
    match input
    case OfAlgebra(x) => x
    case OfQuotient(xbar) => Q.lift(xbar)
  }

  /** What idempotent_lift computes: the retraction check, then the iteration. */
  function IdempotentLiftSpec(A: Algebra, Q: Quotient, input: LiftInput, fuel: nat): Result<Vec, LiftError>
  {
    var x := InputElement(Q, input);
    var p := Q.retract(x);
    if Mul(Q.algebra, p, p) != p then Err(NotRetractingToIdempotent(p))
    else
      match LiftIterate(A, x, fuel)
      case Some(e) => Ok(e)
      case None => Err(NoFixedPointWithinFuel)
  }

  /** idempotent_lift: the while loop over x and x_prev, with at most fuel rounds. */
  method IdempotentLift(A: Algebra, Q: Quotient, input: LiftInput, fuel: nat) returns (r: Result<Vec, LiftError>)
    ensures r == IdempotentLiftSpec(A, Q, input, fuel)
  {
    var x := InputElement(Q, input);
    var p := Q.retract(x);
    if Mul(Q.algebra, p, p) != p {
      return Err(NotRetractingToIdempotent(p));
    }
    var e := IterateLift(A, x, fuel);
    if e.Some? {
      r := Ok(e.value);
    } else {
      r := Err(NoFixedPointWithinFuel);
    }
  }

  /** The while loop of idempotent_lift, comparing x with x_prev, cut off after fuel rounds. */
  method IterateLift(A: Algebra, x: Vec, fuel: nat) returns (e: Option<Vec>)
    ensures e == LiftIterate(A, x, fuel)
  {
    var y := x;
    var yPrev: Option<Vec> := None;
    var rounds := 0;
    while yPrev != Some(y) && rounds < fuel
      invariant rounds <= fuel
      invariant yPrev == Some(y) ==> LiftIterate(A, x, fuel) == Some(y)
      invariant yPrev != Some(y) ==> LiftIterate(A, x, fuel) == LiftIterate(A, y, fuel - rounds)
      decreases fuel - rounds
    {
      LiftIterateUnfold(A, y, fuel - rounds);
      var tmp := y;
      y := LiftStep(A, y);
      yPrev := Some(tmp);
      rounds := rounds + 1;
    }
    if yPrev == Some(y) {
      e := Some(y);
    } else {
      e := None;
    }
  }

  /** One round of the iteration, unfolded. */
  lemma LiftIterateUnfold(A: Algebra, x: Vec, fuel: nat)
    requires fuel > 0
    ensures var y := LiftStep(A, x);
            LiftIterate(A, x, fuel) == if y == x then Some(y) else LiftIterate(A, y, fuel - 1)
  {
  }

  /** What the iteration returns is a fixed point of the lifting step. */
  lemma {:induction false} LiftIterateFixedPoint(A: Algebra, x: Vec, fuel: nat)
    requires LiftIterate(A, x, fuel).Some?
    ensures LiftStep(A, LiftIterate(A, x, fuel).value) == LiftIterate(A, x, fuel).value
    decreases fuel
  {
    var y := LiftStep(A, x);
    if y != x {
      LiftIterateFixedPoint(A, y, fuel - 1);
    }
  }

  /** What the iteration returns is reached from x by some number k of rounds, 0 < k <= fuel. */
  lemma {:induction false} LiftIterateReached(A: Algebra, x: Vec, fuel: nat)
    requires LiftIterate(A, x, fuel).Some?
    ensures exists k :: 0 < k <= fuel && LiftSteps(A, x, k) == LiftIterate(A, x, fuel).value
    decreases fuel
  {
    var y := LiftStep(A, x);
    if y == x {
      assert LiftSteps(A, x, 1) == y;
    } else {
      LiftIterateReached(A, y, fuel - 1);
      var k :| 0 < k <= fuel - 1 && LiftSteps(A, y, k) == LiftIterate(A, y, fuel - 1).value;
      assert LiftSteps(A, x, k + 1) == LiftSteps(A, y, k);
    }
  }

  /** More rounds do not change an iteration that has already stopped. */
  lemma {:induction false} LiftIterateMoreFuel(A: Algebra, x: Vec, fuel: nat, more: nat)
    requires LiftIterate(A, x, fuel).Some? && fuel <= more
    ensures LiftIterate(A, x, more) == LiftIterate(A, x, fuel)
    decreases fuel
  {
    var y := LiftStep(A, x);
    if y != x {
      LiftIterateMoreFuel(A, y, fuel - 1, more - 1);
    }
  }

  /** An idempotent is a fixed point of the lifting step. */
  lemma IdempotentIsLiftFixedPoint(A: Algebra, e: Vec)
    requires Unital(A) && |e| == A.n
    requires Mul(A, e, e) == e
    ensures LiftStep(A, e) == e
  {
    var n := A.n;
    var w := Sub(A.one, e);
    assert Sub(A.one, Mul(A, e, e)) == w;
    MulSubRight(A, e, A.one, e);
    assert Mul(A, e, A.one) == e;
    assert Sub(e, e) == Zero(n);
    MulSubLeft(A, A.one, e, w);
    assert Mul(A, A.one, w) == w;
    assert Mul(A, w, w) == Sub(w, Zero(n));
    assert Sub(w, Zero(n)) == w;
    assert Sub(A.one, w) == e;
  }

  /** An idempotent is returned unchanged after one round. */
  lemma LiftOfIdempotent(A: Algebra, e: Vec, fuel: nat)
    requires Unital(A) && |e| == A.n && Mul(A, e, e) == e
    requires fuel >= 1
    ensures LiftIterate(A, e, fuel) == Some(e)
  {
    IdempotentIsLiftFixedPoint(A, e);
  }

  /**
   * idempotent_lift rejects exactly the inputs whose retraction is not
   * idempotent; otherwise what it returns is a fixed point of the lifting
   * step reached from the input by the iteration.
   */
  lemma IdempotentLiftContract(A: Algebra, Q: Quotient, input: LiftInput, fuel: nat)
    ensures var p := Q.retract(InputElement(Q, input));
            IdempotentLiftSpec(A, Q, input, fuel) == Err(NotRetractingToIdempotent(p))
            <==> Mul(Q.algebra, p, p) != p
    ensures var r := IdempotentLiftSpec(A, Q, input, fuel);
            r.Ok? ==> && LiftStep(A, r.value) == r.value
                      && exists k :: 0 < k <= fuel && LiftSteps(A, InputElement(Q, input), k) == r.value
  {
    var x := InputElement(Q, input);
    var r := IdempotentLiftSpec(A, Q, input, fuel);
    if r.Ok? {
      LiftIterateFixedPoint(A, x, fuel);
      LiftIterateReached(A, x, fuel);
    }
  }

  /**
   * When x retracts to an idempotent p, so does one round of the lifting
   * step: π(1 − (1 − x²)²) = 1 − (1 − p²)² = p.
   */
  lemma LiftStepRetracts(A: Algebra, Q: Quotient, x: Vec)
    requires Unital(A) && IsProjection(A, Q) && |x| == A.n
    requires Mul(Q.algebra, Q.retract(x), Q.retract(x)) == Q.retract(x)
    ensures |LiftStep(A, x)| == A.n && Q.retract(LiftStep(A, x)) == Q.retract(x)
  {
    var B, p := Q.algebra, Q.retract(x);
    var u := Sub(A.one, Mul(A, x, x));
    var ubar := Sub(B.one, p);
    assert Q.retract(Mul(A, x, x)) == p;
    assert Q.retract(u) == ubar;
    assert Q.retract(Mul(A, u, u)) == Mul(B, ubar, ubar);
    assert Q.retract(LiftStep(A, x)) == Sub(B.one, Mul(B, ubar, ubar));
    IdempotentIsLiftFixedPoint(B, p);
  }

  /** Every round keeps the retraction, so the iteration's result retracts to π(x). */
  lemma {:induction false} LiftIterateRetracts(A: Algebra, Q: Quotient, x: Vec, fuel: nat)
    requires Unital(A) && IsProjection(A, Q) && |x| == A.n
    requires Mul(Q.algebra, Q.retract(x), Q.retract(x)) == Q.retract(x)
    requires LiftIterate(A, x, fuel).Some?
    ensures |LiftIterate(A, x, fuel).value| == A.n
    ensures Q.retract(LiftIterate(A, x, fuel).value) == Q.retract(x)
    decreases fuel
  {
    LiftStepRetracts(A, Q, x);
    var y := LiftStep(A, x);
    if y != x {
      LiftIterateRetracts(A, Q, y, fuel - 1);
    }
  }

  /** The input has the dimension of the algebra it is taken from. */
  predicate InputFits(A: Algebra, Q: Quotient, input: LiftInput)
  {
    match input
    case OfAlgebra(x) => |x| == A.n
    case OfQuotient(xbar) => |xbar| == Q.algebra.n
  }

  /**
   * The idempotent returned has the same image under the projection as the
   * input: π(e) = π(x), and π(e) = x̄ when the input is x̄ itself.
   */
  lemma IdempotentLiftRetracts(A: Algebra, Q: Quotient, input: LiftInput, fuel: nat)
    requires Unital(A) && IsProjection(A, Q) && InputFits(A, Q, input)
    ensures var r := IdempotentLiftSpec(A, Q, input, fuel);
            r.Ok? ==> && |r.value| == A.n
                      && Q.retract(r.value) == Q.retract(InputElement(Q, input))
                      && (input.OfQuotient? ==> Q.retract(r.value) == input.xbar)
  {
    var x := InputElement(Q, input);
    var r := IdempotentLiftSpec(A, Q, input, fuel);
    if r.Ok? {
      assert |x| == A.n;
      LiftIterateRetracts(A, Q, x, fuel);
    }
  }

  // ---------------------------------------------------------------------
  // Orthogonal idempotents central modulo the radical
  // ---------------------------------------------------------------------

  /** (1 − f)·g·(1 − f): the element lifted for the next central idempotent. */
  function Sandwich(A: Algebra, f: Vec, g: Vec): Vec
  {
    var u := Sub(A.one, f);
    Mul(A, Mul(A, u, g), u)
  }

  /**
   * The idempotents built from the central idempotents gs of the quotient,
   * the sum of those already built being f.
   */
  function OrthogonalIdempotentsFrom(A: Algebra, Q: Quotient, gs: seq<Vec>, f: Vec, fuel: nat): Result<seq<Vec>, LiftError>
    decreases |gs|
  {
    if gs == [] then Ok([])
    else
      match IdempotentLiftSpec(A, Q, OfAlgebra(Sandwich(A, f, Q.lift(gs[0]))), fuel)
      case Err(e) => Err(e)
      case Ok(fi) =>
        match OrthogonalIdempotentsFrom(A, Q, gs[1..], Add(f, fi), fuel)
        case Err(e) => Err(e)
        case Ok(rest) => Ok([fi] + rest)
  }

  /** orthogonal_idempotents_central_mod_radical, starting from f = 0. */
  function OrthogonalIdempotents(A: Algebra, Q: Quotient, gs: seq<Vec>, fuel: nat): Result<seq<Vec>, LiftError>
  {
    OrthogonalIdempotentsFrom(A, Q, gs, Zero(A.n), fuel)
  }

  /** acc followed by what r holds, or r's error. */
  function Prepend(acc: seq<Vec>, r: Result<seq<Vec>, LiftError>): Result<seq<Vec>, LiftError>
  {
    match r
    case Ok(rest) => Ok(acc + rest)
    case Err(e) => Err(e)
  }

  lemma PrependNothing(r: Result<seq<Vec>, LiftError>)
    ensures Prepend([], r) == r
  {
    if r.Ok? {
      assert [] + r.value == r.value;
    }
  }

  /** The accumulating loop over the central idempotents of the quotient. */
  method OrthogonalIdempotentsCentralModRadical(A: Algebra, Q: Quotient, gs: seq<Vec>, fuel: nat)
    returns (r: Result<seq<Vec>, LiftError>)
    ensures r == OrthogonalIdempotents(A, Q, gs, fuel)
  {
    var idempotents: seq<Vec> := [];
    var f := Zero(A.n);
    var k := 0;
    assert gs[0..] == gs;
    PrependNothing(OrthogonalIdempotents(A, Q, gs, fuel));
    while k < |gs|
      invariant k <= |gs|
      invariant OrthogonalIdempotents(A, Q, gs, fuel) == Prepend(idempotents, OrthogonalIdempotentsFrom(A, Q, gs[k..], f, fuel))
    {
      assert gs[k..][0] == gs[k] && gs[k..][1..] == gs[k + 1..];
      var x := Sandwich(A, f, Q.lift(gs[k]));
      var fi := IdempotentLift(A, Q, OfAlgebra(x), fuel);
      if fi.Err? {
        return Err(fi.error);
      }
      ghost var tail := OrthogonalIdempotentsFrom(A, Q, gs[k + 1..], Add(f, fi.value), fuel);
      if tail.Ok? {
        assert idempotents + ([fi.value] + tail.value) == (idempotents + [fi.value]) + tail.value;
      }
      idempotents := idempotents + [fi.value];
      f := Add(f, fi.value);
      k := k + 1;
    }
    assert gs[k..] == [];
    assert idempotents + [] == idempotents;
    r := Ok(idempotents);
  }

  lemma ListSumSnoc(n: nat, l: seq<Vec>, v: Vec)
    ensures ListSum(n, l + [v]) == Add(ListSum(n, l), v)
  {
    var l' := l + [v];
    forall j | 0 <= j < n
      ensures ListSum(n, l')[j] == ListSum(n, l)[j] + At(v, j)
    {
      forall k: nat | k < |l|
        ensures ListSumTerm(l', j)(k) == ListSumTerm(l, j)(k)
      {
        assert l'[k] == l[k];
      }
      SumExt(|l|, ListSumTerm(l', j), ListSumTerm(l, j));
    }
  }

  /**
   * Each returned idempotent is the lift of (1 − f)·g·(1 − f) for its own
   * central idempotent g, f being the sum of the ones before it; there is
   * one per central idempotent, in the same order, and each is a fixed point
   * of the lifting step.
   */
  lemma {:induction false} OrthogonalIdempotentsFromShape(A: Algebra, Q: Quotient, gs: seq<Vec>, f: Vec, fuel: nat)
    requires |f| == A.n
    requires OrthogonalIdempotentsFrom(A, Q, gs, f, fuel).Ok?
    ensures var r := OrthogonalIdempotentsFrom(A, Q, gs, f, fuel).value;
            && |r| == |gs|
            && forall k :: 0 <= k < |gs| ==>
                 && IdempotentLiftSpec(A, Q, OfAlgebra(Sandwich(A, Add(f, ListSum(A.n, r[..k])), Q.lift(gs[k]))), fuel) == Ok(r[k])
                 && LiftStep(A, r[k]) == r[k]
    decreases |gs|
  {
    var r := OrthogonalIdempotentsFrom(A, Q, gs, f, fuel).value;
    if gs != [] {
      var fi := IdempotentLiftSpec(A, Q, OfAlgebra(Sandwich(A, f, Q.lift(gs[0]))), fuel).value;
      var f' := Add(f, fi);
      OrthogonalIdempotentsFromShape(A, Q, gs[1..], f', fuel);
      var rest := OrthogonalIdempotentsFrom(A, Q, gs[1..], f', fuel).value;
      assert r == [fi] + rest;
      IdempotentLiftContract(A, Q, OfAlgebra(Sandwich(A, f, Q.lift(gs[0]))), fuel);
      forall k | 0 <= k < |gs|
        ensures IdempotentLiftSpec(A, Q, OfAlgebra(Sandwich(A, Add(f, ListSum(A.n, r[..k])), Q.lift(gs[k]))), fuel) == Ok(r[k])
        ensures LiftStep(A, r[k]) == r[k]
      {
        if k == 0 {
          assert r[..0] == [];
          assert Add(f, ListSum(A.n, [])) == f;
        } else {
          ShapeShift(A, gs, f, fi, rest, k);
        }
      }
    }
  }

  /** Each entry of l squares to itself and each two at distinct positions multiply to zero. */
  predicate OrthogonalIdempotentList(B: Algebra, l: seq<Vec>)
  {
    && (forall k :: 0 <= k < |l| ==> Mul(B, l[k], l[k]) == l[k])
    && (forall i, j :: 0 <= j < i < |l| ==> Mul(B, l[i], l[j]) == Zero(B.n) && Mul(B, l[j], l[i]) == Zero(B.n))
  }

  /** v multiplies to zero with every entry of l, on both sides. */
  predicate OrthogonalToAll(B: Algebra, v: Vec, l: seq<Vec>)
  {
    forall k :: 0 <= k < |l| ==> Mul(B, v, l[k]) == Zero(B.n) && Mul(B, l[k], v) == Zero(B.n)
  }

  /** Adding the first entry to v keeps v orthogonal to the rest of the list. */
  lemma OrthogonalStep(B: Algebra, v: Vec, l: seq<Vec>)
    requires |l| > 0 && |v| == |l[0]|
    requires OrthogonalIdempotentList(B, l) && OrthogonalToAll(B, v, l)
    ensures OrthogonalIdempotentList(B, l[1..]) && OrthogonalToAll(B, Add(v, l[0]), l[1..])
  {
    var tail := l[1..];
    forall k | 0 <= k < |tail|
      ensures Mul(B, Add(v, l[0]), tail[k]) == Zero(B.n) && Mul(B, tail[k], Add(v, l[0])) == Zero(B.n)
    {
      assert tail[k] == l[k + 1];
      MulAddLeft(B, v, l[0], tail[k]);
      MulAddRight(B, tail[k], v, l[0]);
      assert Add(Zero(B.n), Zero(B.n)) == Zero(B.n);
    }
    forall i, j | 0 <= j < i < |tail|
      ensures Mul(B, tail[i], tail[j]) == Zero(B.n) && Mul(B, tail[j], tail[i]) == Zero(B.n)
    {
      assert tail[i] == l[i + 1] && tail[j] == l[j + 1];
    }
  }

  /**
   * When π(f) is orthogonal on both sides to the element g of the quotient,
   * the element (1 − f)·lift(g)·(1 − f) handed to the lifting retracts to g.
   */
  lemma SandwichRetracts(A: Algebra, Q: Quotient, f: Vec, g: Vec)
    requires Unital(A) && IsProjection(A, Q) && |f| == A.n && |g| == Q.algebra.n
    requires Mul(Q.algebra, Q.retract(f), g) == Zero(Q.algebra.n)
    requires Mul(Q.algebra, g, Q.retract(f)) == Zero(Q.algebra.n)
    ensures |Sandwich(A, f, Q.lift(g))| == A.n && Q.retract(Sandwich(A, f, Q.lift(g))) == g
  {
    var B, fbar := Q.algebra, Q.retract(f);
    var u := Sub(A.one, f);
    var ubar := Sub(B.one, fbar);
    assert Q.retract(u) == ubar;
    assert Q.retract(Mul(A, u, Q.lift(g))) == Mul(B, ubar, g);
    assert Q.retract(Sandwich(A, f, Q.lift(g))) == Mul(B, Mul(B, ubar, g), ubar);
    MulSubLeft(B, B.one, fbar, g);
    assert Sub(g, Zero(B.n)) == g;
    MulSubRight(B, g, B.one, fbar);
  }

  /** π(0) = 0. */
  lemma RetractZero(A: Algebra, Q: Quotient)
    requires IsProjection(A, Q)
    ensures Q.retract(Zero(A.n)) == Zero(Q.algebra.n)
  {
    var z := Zero(A.n);
    assert Sub(z, z) == z;
    assert Q.retract(Sub(z, z)) == Sub(Q.retract(z), Q.retract(z));
  }

  /**
   * Lifting from central orthogonal idempotents gs of the quotient, with the
   * running sum f retracting to an element orthogonal to all of them: the
   * lifting never meets an element that fails to retract to an idempotent,
   * and the k-th idempotent returned retracts to gs[k].
   */
  lemma {:induction false} OrthogonalIdempotentsFromRetract(A: Algebra, Q: Quotient, gs: seq<Vec>, f: Vec, fuel: nat)
    requires Unital(A) && IsProjection(A, Q) && |f| == A.n
    requires OrthogonalIdempotentList(Q.algebra, gs) && OrthogonalToAll(Q.algebra, Q.retract(f), gs)
    ensures var r := OrthogonalIdempotentsFrom(A, Q, gs, f, fuel);
            && (r.Err? ==> r.error == NoFixedPointWithinFuel)
            && (r.Ok? ==> && |r.value| == |gs|
                          && forall k :: 0 <= k < |gs| ==> |r.value[k]| == A.n && Q.retract(r.value[k]) == gs[k])
    decreases |gs|
  {
    if gs != [] {
      var B, g := Q.algebra, gs[0];
      var x := Sandwich(A, f, Q.lift(g));
      assert |g| == B.n;
      SandwichRetracts(A, Q, f, g);
      IdempotentLiftRetracts(A, Q, OfAlgebra(x), fuel);
      var s := IdempotentLiftSpec(A, Q, OfAlgebra(x), fuel);
      if s.Ok? {
        var fi := s.value;
        var f' := Add(f, fi);
        var tail := gs[1..];
        assert Q.retract(f') == Add(Q.retract(f), g);
        OrthogonalStep(Q.algebra, Q.retract(f), gs);
        OrthogonalIdempotentsFromRetract(A, Q, tail, f', fuel);
        var r := OrthogonalIdempotentsFrom(A, Q, gs, f, fuel);
        if r.Ok? {
          var rest := OrthogonalIdempotentsFrom(A, Q, tail, f', fuel).value;
          assert r.value == [fi] + rest;
          forall k | 0 <= k < |gs|
            ensures |r.value[k]| == A.n && Q.retract(r.value[k]) == gs[k]
          {
            if k > 0 {
              assert r.value[k] == rest[k - 1] && gs[k] == tail[k - 1];
            }
          }
        }
      }
    }
  }

  /** The running sum of the idempotents retracts to the running sum of gs. */
  lemma {:induction false} OrthogonalIdempotentsFromSum(A: Algebra, Q: Quotient, gs: seq<Vec>, f: Vec, fuel: nat)
    requires Unital(A) && IsProjection(A, Q) && |f| == A.n
    requires OrthogonalIdempotentList(Q.algebra, gs) && OrthogonalToAll(Q.algebra, Q.retract(f), gs)
    requires OrthogonalIdempotentsFrom(A, Q, gs, f, fuel).Ok?
    ensures var r := OrthogonalIdempotentsFrom(A, Q, gs, f, fuel).value;
            Q.retract(Add(f, ListSum(A.n, r))) == Add(Q.retract(f), ListSum(Q.algebra.n, gs))
    decreases |gs|
  {
    var B := Q.algebra;
    var r := OrthogonalIdempotentsFrom(A, Q, gs, f, fuel).value;
    OrthogonalIdempotentsFromRetract(A, Q, gs, f, fuel);
    if gs == [] {
      assert Add(f, ListSum(A.n, r)) == f;
      assert Add(Q.retract(f), ListSum(B.n, gs)) == Q.retract(f);
    } else {
      var g, tail := gs[0], gs[1..];
      var fi := r[0];
      var f' := Add(f, fi);
      var rest := OrthogonalIdempotentsFrom(A, Q, tail, f', fuel).value;
      assert r == [fi] + rest;
      assert Q.retract(f') == Add(Q.retract(f), g);
      OrthogonalStep(Q.algebra, Q.retract(f), gs);
      OrthogonalIdempotentsFromSum(A, Q, tail, f', fuel);
      assert rest[..|rest|] == rest && tail[..|tail|] == tail && gs == [g] + tail;
      PrefixSumShift(A.n, f, fi, rest, |rest|);
      PrefixSumShift(B.n, Q.retract(f), g, tail, |tail|);
    }
  }

  /**
   * The idempotents built from an identity decomposition gs of the quotient
   * into orthogonal idempotents: the lifting never fails its retraction
   * check, the k-th idempotent retracts to gs[k], and their sum retracts
   * to 1.
   */
  lemma OrthogonalIdempotentsRetract(A: Algebra, Q: Quotient, gs: seq<Vec>, fuel: nat)
    requires Unital(A) && IsProjection(A, Q) && IsIdentityDecomposition(Q.algebra, gs)
    ensures var r := OrthogonalIdempotents(A, Q, gs, fuel);
            && (r.Err? ==> r.error == NoFixedPointWithinFuel)
            && (r.Ok? ==> && |r.value| == |gs|
                          && (forall k :: 0 <= k < |gs| ==> |r.value[k]| == A.n && Q.retract(r.value[k]) == gs[k])
                          && Q.retract(ListSum(A.n, r.value)) == Q.algebra.one)
  {
    var B := Q.algebra;
    RetractZero(A, Q);
    forall k | 0 <= k < |gs|
      ensures Mul(B, Q.retract(Zero(A.n)), gs[k]) == Zero(B.n) && Mul(B, gs[k], Q.retract(Zero(A.n))) == Zero(B.n)
    {
      MulZeroLeft(B, gs[k]);
      MulZeroRight(B, gs[k]);
    }
    assert OrthogonalIdempotentList(B, gs) && OrthogonalToAll(B, Q.retract(Zero(A.n)), gs);
    OrthogonalIdempotentsFromRetract(A, Q, gs, Zero(A.n), fuel);
    var r := OrthogonalIdempotents(A, Q, gs, fuel);
    if r.Ok? {
      OrthogonalIdempotentsFromSum(A, Q, gs, Zero(A.n), fuel);
      assert Add(Zero(A.n), ListSum(A.n, r.value)) == ListSum(A.n, r.value);
      assert Add(Zero(B.n), ListSum(B.n, gs)) == ListSum(B.n, gs);
    }
  }

  /** The k-th entry of [fi] + rest, with its central idempotent and the sum before it. */
  lemma ShapeShift(A: Algebra, gs: seq<Vec>, f: Vec, fi: Vec, rest: seq<Vec>, k: nat)
    requires |f| == A.n && 0 < k < |gs| && |rest| == |gs| - 1
    ensures var r := [fi] + rest;
            && r[k] == rest[k - 1] && gs[k] == gs[1..][k - 1]
            && Add(f, ListSum(A.n, r[..k])) == Add(Add(f, fi), ListSum(A.n, rest[..k - 1]))
  {
    var r := [fi] + rest;
    assert r[..k] == [fi] + rest[..k - 1];
    PrefixSumShift(A.n, f, fi, rest, k - 1);
  }

  /** Add(f, Σ([fi] + rest[..m])) == Add(Add(f, fi), Σ rest[..m]). */
  lemma PrefixSumShift(n: nat, f: Vec, fi: Vec, rest: seq<Vec>, m: nat)
    requires |f| == n && m <= |rest|
    ensures Add(f, ListSum(n, [fi] + rest[..m])) == Add(Add(f, fi), ListSum(n, rest[..m]))
  {
    var l := [fi] + rest[..m];
    forall j | 0 <= j < n
      ensures ListSum(n, l)[j] == At(fi, j) + ListSum(n, rest[..m])[j]
    {
      ListSumFront(n, fi, rest[..m], j);
    }
  }

  lemma {:induction false} ListSumFront(n: nat, v: Vec, l: seq<Vec>, j: int)
    requires 0 <= j < n
    ensures ListSum(n, [v] + l)[j] == At(v, j) + ListSum(n, l)[j]
    decreases |l|
  {
    if l == [] {
      assert ListSum(n, [v])[j] == Sum(1, ListSumTerm([v], j));
    } else {
      var m := |l| - 1;
      var front := l[..m];
      assert [v] + l == ([v] + front) + [l[m]];
      ListSumFront(n, v, front, j);
      ListSumSnoc(n, [v] + front, l[m]);
      ListSumSnoc(n, front, l[m]);
      assert l == front + [l[m]];
    }
  }

  /** The orthogonal idempotents: one per central idempotent, each a lifting fixed point. */
  lemma OrthogonalIdempotentsShape(A: Algebra, Q: Quotient, gs: seq<Vec>, fuel: nat)
    requires OrthogonalIdempotents(A, Q, gs, fuel).Ok?
    ensures var r := OrthogonalIdempotents(A, Q, gs, fuel).value;
            && |r| == |gs|
            && forall k :: 0 <= k < |gs| ==>
                 && IdempotentLiftSpec(A, Q, OfAlgebra(Sandwich(A, ListSum(A.n, r[..k]), Q.lift(gs[k]))), fuel) == Ok(r[k])
                 && LiftStep(A, r[k]) == r[k]
  {
    var r := OrthogonalIdempotents(A, Q, gs, fuel).value;
    OrthogonalIdempotentsFromShape(A, Q, gs, Zero(A.n), fuel);
    forall k | 0 <= k < |gs|
      ensures Add(Zero(A.n), ListSum(A.n, r[..k])) == ListSum(A.n, r[..k])
    {
    }
  }

  // ---------------------------------------------------------------------
  // Principal ideals, Peirce summands and the Peirce decomposition
  // ---------------------------------------------------------------------

  datatype Side = Left | Right

  /** Spanning set of the principal ideal: a·B[k] (right) or B[k]·a (left). */
  function PrincipalIdeal(A: Algebra, a: Vec, side: Side): (gens: seq<Vec>)
    ensures |gens| == A.n && AllOfLength(gens, A.n)
  {
    seq(A.n, k requires 0 <= k < A.n =>
      if side == Right then Mul(A, a, Basis(A.n, k)) else Mul(A, Basis(A.n, k), a))
  }

  /**
   * The span of the spanning set is the ideal: the combination of the
   * generators with the coordinates of x is a·x (right) or x·a (left).
   */
  lemma PrincipalIdealSpans(A: Algebra, a: Vec, side: Side, x: Vec)
    requires |x| == A.n
    ensures Combine(A.n, x, PrincipalIdeal(A, a, side)) == if side == Right then Mul(A, a, x) else Mul(A, x, a)
  {
    var n := A.n;
    CombineBasis(n, x);
    if side == Right {
      assert PrincipalIdeal(A, a, side) == MapMulLeft(A, a, BasisList(n));
      MulCombineRight(A, a, x, BasisList(n));
    } else {
      assert PrincipalIdeal(A, a, side) == MapMulRight(A, BasisList(n), a);
      MulCombineLeft(A, x, BasisList(n), a);
    }
  }

  /** The generator a itself lies in its principal ideal, on either side. */
  lemma GeneratorInPrincipalIdeal(A: Algebra, a: Vec, side: Side)
    requires Unital(A) && |a| == A.n
    ensures Combine(A.n, A.one, PrincipalIdeal(A, a, side)) == a
  {
    PrincipalIdealSpans(A, a, side, A.one);
  }

  /** Spanning set of the Peirce summand e_i A e_j: the elements e_i·B[k]·e_j. */
  function PeirceSummand(A: Algebra, ei: Vec, ej: Vec): (gens: seq<Vec>)
    ensures |gens| == A.n && AllOfLength(gens, A.n)
  {
    seq(A.n, k requires 0 <= k < A.n => Mul(A, Mul(A, ei, Basis(A.n, k)), ej))
  }

  /** The span of the spanning set is e_i A e_j: combining with x's coordinates gives e_i·x·e_j. */
  lemma PeirceSummandSpans(A: Algebra, ei: Vec, ej: Vec, x: Vec)
    requires |x| == A.n
    ensures Combine(A.n, x, PeirceSummand(A, ei, ej)) == Mul(A, Mul(A, ei, x), ej)
  {
    var n := A.n;
    var left := MapMulLeft(A, ei, BasisList(n));
    assert PeirceSummand(A, ei, ej) == MapMulRight(A, left, ej);
    MulCombineLeft(A, x, left, ej);
    MulCombineRight(A, ei, x, BasisList(n));
    CombineBasis(n, x);
  }

  /** An idempotent lies in its own Peirce summand e A e. */
  lemma IdempotentInOwnPeirceSummand(A: Algebra, e: Vec)
    requires Unital(A) && |e| == A.n && Mul(A, e, e) == e
    ensures Combine(A.n, A.one, PeirceSummand(A, e, e)) == e
  {
    PeirceSummandSpans(A, e, e, A.one);
  }

  datatype PeirceError = NotIdentityDecomposition | IdempotentsFailed(e: LiftError)

  /** The family used: the given one, or the orthogonal idempotents by default. */
  function IdempotentFamily(A: Algebra, Q: Quotient, gs: seq<Vec>, idempotents: Option<seq<Vec>>, fuel: nat): Result<seq<Vec>, LiftError>
  {
    match idempotents
    case Some(l) => Ok(l)
    case None => OrthogonalIdempotents(A, Q, gs, fuel)
  }

  /** The grid whose entry [i][j] is the Peirce summand of l[i] and l[j]. */
  function PeirceGrid(A: Algebra, l: seq<Vec>): seq<seq<seq<Vec>>>
  {
    seq(|l|, i requires 0 <= i < |l| => seq(|l|, j requires 0 <= j < |l| => PeirceSummand(A, l[i], l[j])))
  }

  /** peirce_decomposition(idempotents, check). */
  function PeirceDecomposition(A: Algebra, Q: Quotient, gs: seq<Vec>, idempotents: Option<seq<Vec>>, check: bool, fuel: nat)
    : Result<seq<seq<seq<Vec>>>, PeirceError>
  {
    match IdempotentFamily(A, Q, gs, idempotents, fuel)
    case Err(e) => Err(IdempotentsFailed(e))
    case Ok(l) =>
      if check && !IsIdentityDecomposition(A, l) then Err(NotIdentityDecomposition)
      else Ok(PeirceGrid(A, l))
  }

  /**
   * With check, a family that is not a decomposition of the identity is
   * rejected; otherwise the result is the |l|×|l| grid of Peirce summands.
   */
  lemma PeirceDecompositionContract(A: Algebra, Q: Quotient, gs: seq<Vec>, l: seq<Vec>, check: bool, fuel: nat)
    ensures var r := PeirceDecomposition(A, Q, gs, Some(l), check, fuel);
            && (r == Err(NotIdentityDecomposition) <==> check && !IsIdentityDecomposition(A, l))
            && (r.Ok? ==> && |r.value| == |l|
                          && forall i :: 0 <= i < |l| ==>
                               && |r.value[i]| == |l|
                               && forall j :: 0 <= j < |l| ==> r.value[i][j] == PeirceSummand(A, l[i], l[j]))
  {
  }

  /**
   * With the default family (the orthogonal idempotents): the decomposition
   * fails with the lifting's error exactly when the lifting fails; otherwise,
   * unless check rejects it, it is the grid of that family.  When gs is an
   * identity decomposition of the quotient into orthogonal idempotents, the
   * only lifting error left is running out of rounds, and the grid has one
   * row per gs[i], built from an idempotent retracting to gs[i].
   */
  lemma PeirceDecompositionDefault(A: Algebra, Q: Quotient, gs: seq<Vec>, check: bool, fuel: nat)
    ensures var r := PeirceDecomposition(A, Q, gs, None, check, fuel);
            var o := OrthogonalIdempotents(A, Q, gs, fuel);
            && (o.Err? <==> r.Err? && r.error.IdempotentsFailed?)
            && (o.Err? ==> r.error.e == o.error)
            && (o.Ok? ==> (r == Err(NotIdentityDecomposition) <==> check && !IsIdentityDecomposition(A, o.value)))
            && (r.Ok? ==> r.value == PeirceGrid(A, o.value))
    ensures var r := PeirceDecomposition(A, Q, gs, None, check, fuel);
            var o := OrthogonalIdempotents(A, Q, gs, fuel);
            Unital(A) && IsProjection(A, Q) && IsIdentityDecomposition(Q.algebra, gs) ==>
              && (r.Err? && r.error.IdempotentsFailed? ==> r.error.e == NoFixedPointWithinFuel)
              && (r.Ok? ==> && |r.value| == |gs|
                            && forall i :: 0 <= i < |gs| ==>
                                 && Q.retract(o.value[i]) == gs[i]
                                 && |r.value[i]| == |gs|
                                 && forall j :: 0 <= j < |gs| ==> r.value[i][j] == PeirceSummand(A, o.value[i], o.value[j]))
  {
    if Unital(A) && IsProjection(A, Q) && IsIdentityDecomposition(Q.algebra, gs) {
      OrthogonalIdempotentsRetract(A, Q, gs, fuel);
    }
  }

  /**
   * With a family given, the grid's diagonal summand e_i A e_i contains e_i
   * whenever e_i is idempotent.
   */
  lemma PeirceDiagonalContainsIdempotent(A: Algebra, Q: Quotient, gs: seq<Vec>, l: seq<Vec>, check: bool, fuel: nat, i: nat)
    requires Unital(A)
    requires PeirceDecomposition(A, Q, gs, Some(l), check, fuel).Ok?
    requires i < |l| && |l[i]| == A.n && Mul(A, l[i], l[i]) == l[i]
    ensures Combine(A.n, A.one, PeirceDecomposition(A, Q, gs, Some(l), check, fuel).value[i][i]) == l[i]
  {
    IdempotentInOwnPeirceSummand(A, l[i]);
  }

  // ---------------------------------------------------------------------
  // Isotypic projective modules
  // ---------------------------------------------------------------------

  /** isotypic_projective_modules(side): the principal ideals of the orthogonal idempotents. */
  function IsotypicProjectiveModules(A: Algebra, Q: Quotient, gs: seq<Vec>, side: Side, fuel: nat)
    : Result<seq<seq<Vec>>, LiftError>
  {
    match OrthogonalIdempotents(A, Q, gs, fuel)
    case Err(e) => Err(e)
    case Ok(l) => Ok(seq(|l|, k requires 0 <= k < |l| => PrincipalIdeal(A, l[k], side)))
  }

  /** One module per central idempotent of the quotient, each containing its idempotent. */
  lemma IsotypicProjectiveModulesShape(A: Algebra, Q: Quotient, gs: seq<Vec>, side: Side, fuel: nat)
    requires Unital(A) && WellFormed(A)
    requires IsotypicProjectiveModules(A, Q, gs, side, fuel).Ok?
    ensures var ms := IsotypicProjectiveModules(A, Q, gs, side, fuel).value;
            var l := OrthogonalIdempotents(A, Q, gs, fuel).value;
            && |ms| == |gs| == |l|
            && forall k :: 0 <= k < |ms| ==> Combine(A.n, A.one, ms[k]) == l[k]
  {
    var l := OrthogonalIdempotents(A, Q, gs, fuel).value;
    OrthogonalIdempotentsShape(A, Q, gs, fuel);
    forall k | 0 <= k < |l|
      ensures Combine(A.n, A.one, PrincipalIdeal(A, l[k], side)) == l[k]
    {
      FixedPointLength(A, l[k]);
      GeneratorInPrincipalIdeal(A, l[k], side);
    }
  }

  /** A fixed point of the lifting step is an element of the algebra: it has A.n coordinates. */
  lemma FixedPointLength(A: Algebra, x: Vec)
    requires Unital(A) && LiftStep(A, x) == x
    ensures |x| == A.n
  {
  }

  // ---------------------------------------------------------------------
  // Cartan invariants matrix
  // ---------------------------------------------------------------------

  datatype CartanError =
    | CartanIdempotentsFailed(e: LiftError)
    | NonSquareDimension(k: nat)    // dimension of a simple module is not an integer
    | DivisionByZero
    | NotIntegral(i: nat, j: nat)   // Matrix(ZZ, ...) refuses a non-integral entry

  /** The integer square root of q, when q is a perfect square. */
  function ExactSqrt(q: nat): (r: Option<nat>)
    ensures r.Some? <==> exists d: nat :: d <= q && d * d == q
    ensures r.Some? ==> r.value * r.value == q
  {
    SqrtSearch(q, 0)
  }

  function SqrtSearch(q: nat, d: nat): (r: Option<nat>)
    requires forall e: nat :: e < d ==> e * e != q
    ensures r.Some? <==> exists e: nat :: e <= q && e * e == q
    ensures r.Some? ==> r.value * r.value == q
    decreases q + 1 - d
  {
    if d > q then
      assert forall e: nat :: e <= q ==> e * e != q;
      None
    else if d * d == q then Some(d)
    else SqrtSearch(q, d + 1)
  }

  /** The square roots of the dimensions qs, or the first that is not a square. */
  function SimpleDimensions(qs: seq<nat>): (r: Result<seq<nat>, CartanError>)
    ensures r.Ok? ==> |r.value| == |qs| && forall k :: 0 <= k < |qs| ==> r.value[k] * r.value[k] == qs[k]
    ensures r.Err? ==> && r.error.NonSquareDimension? && r.error.k < |qs|
                       && ExactSqrt(qs[r.error.k]).None?
                       && forall k :: 0 <= k < r.error.k ==> ExactSqrt(qs[k]).Some?
  {
    if qs == [] then Ok([])
    else
      match ExactSqrt(qs[0])
      case None => Err(NonSquareDimension(0))
      case Some(d) =>
        match SimpleDimensions(qs[1..])
        case Err(e) =>
          var k := e.k;
          assert qs[k + 1] == qs[1..][k];
          assert forall j :: 0 < j <= k ==> qs[j] == qs[1..][j - 1];
          Err(NonSquareDimension(k + 1))
        case Ok(ds) => Ok([d] + ds)
  }

  /** Entry (i, j): dim(e_i A e_j) / (d_i·d_j), when that is an integer. */
  function CartanEntry(p: nat, di: nat, dj: nat, i: nat, j: nat): Result<int, CartanError>
  {
    if di * dj == 0 then Err(DivisionByZero)
    else if p % (di * dj) != 0 then Err(NotIntegral(i, j))
    else Ok(p / (di * dj))
  }

  /** The first error among the entries, row by row, or the matrix. */
  function CartanRows(ps: seq<seq<nat>>, ds: seq<nat>, i: nat): Result<seq<seq<int>>, CartanError>
    requires |ps| == |ds| && forall r :: 0 <= r < |ps| ==> |ps[r]| == |ds|
    requires i <= |ds|
    decreases |ds| - i
  {
    if i == |ds| then Ok([])
    else
      match CartanRow(ps, ds, i, 0)
      case Err(e) => Err(e)
      case Ok(row) =>
        match CartanRows(ps, ds, i + 1)
        case Err(e) => Err(e)
        case Ok(rows) => Ok([row] + rows)
  }

  function CartanRow(ps: seq<seq<nat>>, ds: seq<nat>, i: nat, j: nat): Result<seq<int>, CartanError>
    requires |ps| == |ds| && forall r :: 0 <= r < |ps| ==> |ps[r]| == |ds|
    requires i < |ds| && j <= |ds|
    decreases |ds| - j
  {
    if j == |ds| then Ok([])
    else
      match CartanEntry(ps[i][j], ds[i], ds[j], i, j)
      case Err(e) => Err(e)
      case Ok(c) =>
        match CartanRow(ps, ds, i, j + 1)
        case Err(e) => Err(e)
        case Ok(row) => Ok([c] + row)
  }

  /** The dimension of the span of vs, as the oracle rank reports it. */
  function Dim(rank: seq<Vec> -> nat, vs: seq<Vec>): nat
  {
    rank(vs)
  }

  /** The dimensions of the principal left ideals of the central idempotents in the quotient. */
  function SimpleModuleSquares(Q: Quotient, gs: seq<Vec>, rank: seq<Vec> -> nat): (qs: seq<nat>)
    ensures |qs| == |gs|
  {
    seq(|gs|, k requires 0 <= k < |gs| => Dim(rank, PrincipalIdeal(Q.algebra, gs[k], Left)))
  }

  /** The dimensions of the Peirce summands e_i A e_j. */
  function PeirceDimensions(A: Algebra, l: seq<Vec>, rank: seq<Vec> -> nat): (ps: seq<seq<nat>>)
    ensures |ps| == |l| && forall r :: 0 <= r < |ps| ==> |ps[r]| == |l|
  {
    seq(|l|, i requires 0 <= i < |l| => PeirceDimensionRow(A, l[i], l, rank))
  }

  function PeirceDimensionRow(A: Algebra, ei: Vec, l: seq<Vec>, rank: seq<Vec> -> nat): (row: seq<nat>)
    ensures |row| == |l|
  {
    seq(|l|, j requires 0 <= j < |l| => Dim(rank, PeirceSummand(A, ei, l[j])))
  }

  /**
   * cartan_invariants_matrix: rank gives the dimension of a spanned subspace
   * (the linear algebra of the source, not modelled), gs the central
   * orthogonal idempotents of the quotient.
   */
  function CartanInvariantsMatrix(A: Algebra, Q: Quotient, gs: seq<Vec>, rank: seq<Vec> -> nat, fuel: nat)
    : Result<seq<seq<int>>, CartanError>
  {
    match SimpleDimensions(SimpleModuleSquares(Q, gs, rank))
    case Err(e) => Err(e)
    case Ok(ds) =>
      match OrthogonalIdempotents(A, Q, gs, fuel)
      case Err(e) => Err(CartanIdempotentsFailed(e))
      case Ok(l) =>
        OrthogonalIdempotentsShape(A, Q, gs, fuel);
        CartanRows(PeirceDimensions(A, l, rank), ds, 0)
  }

  /** An exact quotient times its divisor is the dividend. */
  lemma ExactDivision(p: nat, q: nat)
    requires q > 0 && p % q == 0
    ensures p / q >= 0 && (p / q) * q == p
  {
  }

  lemma {:induction false} CartanRowShape(ps: seq<seq<nat>>, ds: seq<nat>, i: nat, j: nat)
    requires |ps| == |ds| && forall r :: 0 <= r < |ps| ==> |ps[r]| == |ds|
    requires i < |ds| && j <= |ds|
    requires CartanRow(ps, ds, i, j).Ok?
    ensures var row := CartanRow(ps, ds, i, j).value;
            && |row| == |ds| - j
            && forall c :: j <= c < |ds| ==> EntryFits(row[c - j], ds[i], ds[c], ps[i][c])
    decreases |ds| - j
  {
    if j < |ds| {
      CartanRowShape(ps, ds, i, j + 1);
      var q := ds[i] * ds[j];
      ExactDivision(ps[i][j], q);
      var e := ps[i][j] / q;
      var row := CartanRow(ps, ds, i, j).value;
      var rest := CartanRow(ps, ds, i, j + 1).value;
      assert row == [e] + rest;
      forall c | j <= c < |ds|
        ensures EntryFits(row[c - j], ds[i], ds[c], ps[i][c])
      {
        if c > j {
          assert row[c - j] == rest[c - (j + 1)];
        } else {
          assert row[c - j] == e;
        }
      }
    }
  }

  /** e is the Cartan invariant for a summand of dimension dim between simple modules of dimensions di and dj. */
  predicate EntryFits(e: int, di: nat, dj: nat, dim: nat)
  {
    e >= 0 && e * (di * dj) == dim
  }

  /** row is a row of Cartan invariants for the dimensions prow of the summands e_i A e_c. */
  predicate RowFits(row: seq<int>, prow: seq<nat>, di: nat, ds: seq<nat>)
    requires |prow| == |ds|
  {
    |row| == |ds| && forall c :: 0 <= c < |ds| ==> EntryFits(row[c], di, ds[c], prow[c])
  }

  lemma CartanRowFits(ps: seq<seq<nat>>, ds: seq<nat>, i: nat)
    requires |ps| == |ds| && forall r :: 0 <= r < |ps| ==> |ps[r]| == |ds|
    requires i < |ds|
    requires CartanRow(ps, ds, i, 0).Ok?
    ensures RowFits(CartanRow(ps, ds, i, 0).value, ps[i], ds[i], ds)
  {
    CartanRowShape(ps, ds, i, 0);
    var row := CartanRow(ps, ds, i, 0).value;
    forall c | 0 <= c < |ds|
      ensures EntryFits(row[c], ds[i], ds[c], ps[i][c])
    {
      assert row[c - 0] == row[c];
    }
  }

  lemma {:induction false} CartanRowsShape(ps: seq<seq<nat>>, ds: seq<nat>, i: nat)
    requires |ps| == |ds| && forall r :: 0 <= r < |ps| ==> |ps[r]| == |ds|
    requires i <= |ds|
    requires CartanRows(ps, ds, i).Ok?
    ensures var m := CartanRows(ps, ds, i).value;
            && |m| == |ds| - i
            && forall r :: i <= r < |ds| ==> RowFits(m[r - i], ps[r], ds[r], ds)
    decreases |ds| - i
  {
    if i < |ds| {
      CartanRowFits(ps, ds, i);
      CartanRowsShape(ps, ds, i + 1);
      var m := CartanRows(ps, ds, i).value;
      var row := CartanRow(ps, ds, i, 0).value;
      var rest := CartanRows(ps, ds, i + 1).value;
      assert m == [row] + rest;
      forall r | i <= r < |ds|
        ensures RowFits(m[r - i], ps[r], ds[r], ds)
      {
        if r > i {
          assert m[r - i] == rest[r - (i + 1)];
        }
      }
    }
  }

  /**
   * The Cartan matrix is square, one row and column per central idempotent,
   * with nonnegative integer entries C[i][j] such that
   * C[i][j]·d_i·d_j == dim(e_i A e_j), d_i the dimension of the i-th simple
   * module (d_i·d_i == dim(A_quo·g_i)).
   */
  lemma CartanInvariantsMatrixShape(A: Algebra, Q: Quotient, gs: seq<Vec>, rank: seq<Vec> -> nat, fuel: nat)
    requires CartanInvariantsMatrix(A, Q, gs, rank, fuel).Ok?
    ensures var m := CartanInvariantsMatrix(A, Q, gs, rank, fuel).value;
            var l := OrthogonalIdempotents(A, Q, gs, fuel).value;
            var ds := SimpleDimensions(SimpleModuleSquares(Q, gs, rank)).value;
            && |m| == |gs| == |l| == |ds|
            && (forall k :: 0 <= k < |gs| ==> ds[k] * ds[k] == rank(PrincipalIdeal(Q.algebra, gs[k], Left)))
            && forall i, j :: 0 <= i < |gs| && 0 <= j < |gs| ==>
                 && |m[i]| == |gs|
                 && EntryFits(m[i][j], ds[i], ds[j], rank(PeirceSummand(A, l[i], l[j])))
  {
    var l := OrthogonalIdempotents(A, Q, gs, fuel).value;
    assert |l| == |gs| by {
      OrthogonalIdempotentsShape(A, Q, gs, fuel);
    }
    var qs := SimpleModuleSquares(Q, gs, rank);
    var ds := SimpleDimensions(qs).value;
    forall k | 0 <= k < |gs|
      ensures ds[k] * ds[k] == rank(PrincipalIdeal(Q.algebra, gs[k], Left))
    {
      assert ds[k] * ds[k] == qs[k];
      assert qs[k] == Dim(rank, PrincipalIdeal(Q.algebra, gs[k], Left));
    }
    var ps := PeirceDimensions(A, l, rank);
    var m := CartanInvariantsMatrix(A, Q, gs, rank, fuel).value;
    assert m == CartanRows(ps, ds, 0).value;
    CartanMatrixFits(ps, ds);
    forall i, j | 0 <= i < |gs| && 0 <= j < |gs|
      ensures |m[i]| == |gs| && EntryFits(m[i][j], ds[i], ds[j], rank(PeirceSummand(A, l[i], l[j])))
    {
      assert EntryFits(m[i][j], ds[i], ds[j], ps[i][j]);
      assert ps[i] == PeirceDimensionRow(A, l[i], l, rank);
    }
  }

  /** The rows computed from the summand dimensions ps and simple dimensions ds, entry by entry. */
  lemma CartanMatrixFits(ps: seq<seq<nat>>, ds: seq<nat>)
    requires |ps| == |ds| && forall r :: 0 <= r < |ps| ==> |ps[r]| == |ds|
    requires CartanRows(ps, ds, 0).Ok?
    ensures var m := CartanRows(ps, ds, 0).value;
            && |m| == |ds|
            && forall i, j :: 0 <= i < |ds| && 0 <= j < |ds| ==>
                 |m[i]| == |ds| && EntryFits(m[i][j], ds[i], ds[j], ps[i][j])
  {
    CartanRowsShape(ps, ds, 0);
    var m := CartanRows(ps, ds, 0).value;
    forall i | 0 <= i < |ds|
      ensures RowFits(m[i], ps[i], ds[i], ds)
    {
      assert m[i - 0] == m[i];
    }
  }
}
