# Finite-dimensional algebras, simplicial covers and the mod-5 family

This project models three pieces of Sage's mathematics library and proves properties of the models.

**Finite-dimensional algebras with a basis.**
- The algebra is given by its structure constants: `c[i][k][j]` is the coefficient of `B[j]` in `B[i]·B[k]`. Elements are coordinate vectors over Dafny's exact `real`.
- Modules `FiniteAlgebra`, `Idempotents`, `AlgebraElements`, `Radical` and `Cellular` model the following:
  - the radical basis (the trace-form kernel in characteristic 0, and the `s := p·s` loop in characteristic p);
  - the test for a decomposition of the identity into orthogonal idempotents;
  - idempotent lifting and the orthogonal idempotents that are central modulo the radical;
  - principal ideals, Peirce summands, the Peirce decomposition, the isotypic projective modules and the Cartan invariants matrix;
  - `is_commutative`, `to_matrix` and `__invert__`;
  - the cellular involution and the index conversion for tensor products of cellular algebras.
- Linear-algebra routines the library calls are parameters of the model, each with the contract the model relies on. These are kernel, rank, `solve_right`, characteristic polynomials, roots, and the semisimple quotient with its retraction and lift.

**Pointed simplicial sets.**
- A set is its face data: each nondegenerate simplex lists its faces, each face a nondegenerate simplex with degeneracies applied.
- Modules `SimplicialSets`, `Covers` and `UniversalCover` model:
  - `set_base_point`, `base_point_map`, `fat_wedge` and `connectivity`;
  - the covering space attached to a character with values in a finite group, given by its multiplication table;
  - the presentation and character that `_universal_cover_dict` builds from a spanning tree.

**The mod-5 family of elliptic curves.**
- Module `Mod5Family` models the following:
  - J = 4a³/(4a³+27b²);
  - the 21 coefficients alpha(J) and the 31 coefficients beta(J);
  - the polynomials c2 = a·Σ alpha[k]·t^k and c3 = b·Σ beta[k]·t^k;
  - the curve [c2·d⁴, c3·d⁶], where d is the lcm of the denominators.
- Module `Mod5Properties` proves its properties.
- Each coefficient is stored factored as scale·(J−1)^power·Π(polynomials in J). This is the form in which the source writes it.

Module `Results` holds the `Option` and `Result` types used for every error path.

## Model

| member | source | states |
|---|---|---|
| Radical.RadicalBranch | src/sage/categories/finite_dimensional_algebras_with_basis.py:155-164 | a base ring that is not a field is refused; otherwise characteristic 0 takes the trace-form kernel, and characteristic p > 0 takes the power loop with that p |
| Radical.TraceForm | src/sage/categories/finite_dimensional_algebras_with_basis.py:164-175 | the characteristic-0 matrix is n×n with entry (y, x) the sum over (i, j) of c(x, j→i)·c(y, i→j) |
| Radical.TraceFormIsTrace | src/sage/categories/finite_dimensional_algebras_with_basis.py:166-172 | that entry is the trace of L_x·L_y, the product of the left-multiplication matrices |
| Radical.TraceFormSymmetric | src/sage/categories/finite_dimensional_algebras_with_basis.py:166-172 | the trace-form matrix is symmetric |
| Radical.TraceFormLeftEqualsRight | src/sage/categories/finite_dimensional_algebras_with_basis.py:174-175 | v·T = T·v for every v, so the left kernel taken by the source is also the right kernel |
| Radical.RadicalBasisCharZeroOrthogonal | src/sage/categories/finite_dimensional_algebras_with_basis.py:164-175 | every characteristic-0 radical basis vector has n coordinates and is orthogonal to the whole algebra under the trace form, on both sides |
| Radical.RadicalBasisCharZeroComplete | src/sage/categories/finite_dimensional_algebras_with_basis.py:164-175 | when the kernel routine returns a spanning set, every element orthogonal to the whole algebra under the trace form is a combination of the vectors returned |
| Radical.RadicalBasisCharP | src/sage/categories/finite_dimensional_algebras_with_basis.py:188-201 | the zero algebra fails (there is no first matrix to read the identity from); otherwise the loop over s = 1, p, p², … while s ≤ n rebinds B to the kernel combinations, taking roots only when 1 < s < \|F\|, and ends with each B applied to the unit, exactly as the recursive specification |
| Radical.ExponentsArePowers | src/sage/categories/finite_dimensional_algebras_with_basis.py:188-200 | the rounds run with exponents s·p^k, all at most n, and the next power exceeds n |
| Radical.RoundsFollowExponents | src/sage/categories/finite_dimensional_algebras_with_basis.py:188-200 | the loop performs exactly one round for each of those exponents, in order |
| Radical.TakesRootsAt | src/sage/categories/finite_dimensional_algebras_with_basis.py:196-197 | over a field with p^m elements, the round with exponent p^k takes roots iff 0 < k < m |
| Radical.PrimeFieldRadicalIgnoresRoots | src/sage/categories/finite_dimensional_algebras_with_basis.py:181-197 | over the prime field GF(p) the result does not depend on the root function |
| Idempotents.IdentityDecompositionCharacterized | src/sage/categories/finite_dimensional_algebras_with_basis.py:1012-1015 | the test holds iff the list sums to 1, every entry is idempotent and every pair of entries multiplies to zero in both orders |
| Idempotents.IdentityDecompositionOfOne | src/sage/categories/finite_dimensional_algebras_with_basis.py:1012-1015 | [1] is a decomposition of the identity |
| Idempotents.IdentityDecompositionOfNothing | src/sage/categories/finite_dimensional_algebras_with_basis.py:1012-1015 | the empty list is one iff 1 = 0 |
| Idempotents.RepeatedEntryIsNoDecomposition | src/sage/categories/finite_dimensional_algebras_with_basis.py:1012-1015 | a list with a nonzero entry repeated is never one |
| Idempotents.IdentityDecompositionWithZero | src/sage/categories/finite_dimensional_algebras_with_basis.py:1012-1015 | inserting a zero anywhere does not change the answer |
| Idempotents.IdempotentLift | src/sage/categories/finite_dimensional_algebras_with_basis.py:569-580 | returns the retraction error when p·p ≠ p, otherwise the outcome of the lifting iteration with the same round bound (IdempotentLiftSpec) |
| Idempotents.IterateLift | src/sage/categories/finite_dimensional_algebras_with_basis.py:574-580 | the while loop comparing x with x_prev stops exactly where the recursive iteration LiftIterate stops, with the same element |
| Idempotents.IdempotentLiftContract | src/sage/categories/finite_dimensional_algebras_with_basis.py:569-580 | an error is raised iff the retraction p has p·p ≠ p; a result is a fixed point of x ↦ 1 − (1 − x²)², reached after some rounds from the input |
| Idempotents.LiftOfIdempotent | src/sage/categories/finite_dimensional_algebras_with_basis.py:576-580 | an idempotent is returned unchanged after one round |
| Idempotents.LiftIterateMoreFuel | src/sage/categories/finite_dimensional_algebras_with_basis.py:576-580 | once the iteration has stopped, a larger round bound gives the same result |
| Idempotents.LiftStepRetracts | src/sage/categories/finite_dimensional_algebras_with_basis.py:576-579 | when the projection π onto the semisimple quotient sends x to an idempotent, one round 1 − (1 − x²)² has the same image under π as x |
| Idempotents.LiftIterateRetracts | src/sage/categories/finite_dimensional_algebras_with_basis.py:574-580 | the element the loop stops at has the same image under π as the input |
| Idempotents.IdempotentLiftRetracts | src/sage/categories/finite_dimensional_algebras_with_basis.py:533-537 | the element e returned satisfies π(e) = π(x), and π(e) = x̄ when the input is the idempotent x̄ of the quotient |
| Idempotents.OrthogonalIdempotentsCentralModRadical | src/sage/categories/finite_dimensional_algebras_with_basis.py:518-526 | the loop that appends to idempotents and accumulates f computes the recursive specification |
| Idempotents.OrthogonalIdempotentsShape | src/sage/categories/finite_dimensional_algebras_with_basis.py:518-526 | there is one result per central idempotent g_k of the quotient, and the k-th is the lift of (1−f)·lift(g_k)·(1−f), with f the sum of the earlier results; each is a fixed point of the lifting step |
| Idempotents.SandwichRetracts | src/sage/categories/finite_dimensional_algebras_with_basis.py:522 | when π(f) multiplies to zero with g on both sides, the element (1 − f)·lift(g)·(1 − f) handed to the lifting has image g under π |
| Idempotents.OrthogonalIdempotentsFromRetract | src/sage/categories/finite_dimensional_algebras_with_basis.py:518-526 | from orthogonal idempotents g_k of the quotient and a running sum orthogonal to them, the lifting never fails its retraction check and the k-th result has image g_k |
| Idempotents.OrthogonalIdempotentsFromSum | src/sage/categories/finite_dimensional_algebras_with_basis.py:518-526 | the running sum plus the results has image π(f) + Σ g_k |
| Idempotents.OrthogonalIdempotentsRetract | src/sage/categories/finite_dimensional_algebras_with_basis.py:496-506 | when the g_k decompose the identity of the quotient into orthogonal idempotents, the lifting never fails its retraction check, π(e_k) = g_k, and π(Σ e_k) = 1 |
| Idempotents.PrincipalIdealSpans | src/sage/categories/finite_dimensional_algebras_with_basis.py:436-437 | the generators of the principal ideal, combined with coefficients x, give a·x (right) or x·a (left) |
| Idempotents.GeneratorInPrincipalIdeal | src/sage/categories/finite_dimensional_algebras_with_basis.py:436-437 | a lies in its own principal ideal |
| Idempotents.PeirceSummandSpans | src/sage/categories/finite_dimensional_algebras_with_basis.py:815-821 | the generators of e_i·A·e_j, combined with coefficients x, give e_i·x·e_j |
| Idempotents.IdempotentInOwnPeirceSummand | src/sage/categories/finite_dimensional_algebras_with_basis.py:815-821 | an idempotent e lies in e·A·e |
| Idempotents.PeirceDecompositionContract | src/sage/categories/finite_dimensional_algebras_with_basis.py:902-908 | the check fails iff check is set and the family is not a decomposition of the identity; otherwise the result is the len×len grid of Peirce summands e_i·A·e_j |
| Idempotents.PeirceDecompositionDefault | src/sage/categories/finite_dimensional_algebras_with_basis.py:902-908 | with no family given: the lifting's error exactly when the orthogonal idempotents fail, otherwise the check's verdict on them or their grid; for an identity decomposition of the quotient, the only lifting error left is running out of rounds and row i belongs to an idempotent with image g_i |
| Idempotents.PeirceDiagonalContainsIdempotent | src/sage/categories/finite_dimensional_algebras_with_basis.py:902-908 | each idempotent lies in its diagonal summand |
| Idempotents.IsotypicProjectiveModulesShape | src/sage/categories/finite_dimensional_algebras_with_basis.py:763-764 | there is one principal ideal per orthogonal idempotent, and each contains its idempotent |
| Idempotents.SimpleDimensions | src/sage/categories/finite_dimensional_algebras_with_basis.py:699-700 | the square roots of the simple-module dimensions, or the first index whose dimension is not a perfect square (every earlier one is a square) |
| Idempotents.CartanInvariantsMatrixShape | src/sage/categories/finite_dimensional_algebras_with_basis.py:694-709 | the matrix is k×k, entry (i, j) is a nonnegative integer, and times d_i·d_j it equals dim e_i·A·e_j, where d_k² is the dimension of the principal ideal of the k-th central idempotent |
| AlgebraElements.IsCommutative | src/sage/categories/finite_dimensional_algebras_with_basis.py:1031-1036 | the loop answers whether the basis, with the unit removed once, commutes pairwise |
| AlgebraElements.RemoveFirst | src/sage/categories/finite_dimensional_algebras_with_basis.py:1031-1035 | list.remove: the first occurrence is dropped and the order kept; a missing element leaves the list unchanged |
| AlgebraElements.IsCommutativeCorrect | src/sage/categories/finite_dimensional_algebras_with_basis.py:1031-1036 | in a unital algebra that answer is true iff x·y = y·x for all elements x, y |
| AlgebraElements.ToMatrixActs | src/sage/categories/finite_dimensional_algebras_with_basis.py:1078-1085 | the matrix of x applied to v gives x·v (left) or v·x (right) |
| AlgebraElements.InvertIsRightInverse | src/sage/categories/finite_dimensional_algebras_with_basis.py:1159-1181 | on both paths, a result y satisfies x·y = 1 and has its coordinates in the base ring |
| AlgebraElements.InvertOverField | src/sage/categories/finite_dimensional_algebras_with_basis.py:1159-1181 | over a field with an exact solver, inversion succeeds iff x has a right inverse |
| Cellular.CellularInvolution | src/sage/categories/finite_dimensional_algebras_with_basis.py:1346-1350 | the key (mu, s, t) becomes (mu, t, s) with the same coefficient, zero or not |
| Cellular.CellularInvolutionIsInvolution | src/sage/categories/finite_dimensional_algebras_with_basis.py:1346-1350 | applying it twice gives back the element |
| Cellular.CellularInvolutionKeepsSize | src/sage/categories/finite_dimensional_algebras_with_basis.py:1346-1350 | it keeps the number of monomials |
| Cellular.ConvertIndex | src/sage/categories/finite_dimensional_algebras_with_basis.py:1566-1575 | the appending loop gives (mu, C(s), C(t)), with mu, s and t the component lists of the triples |
| Cellular.UnzipZip | src/sage/categories/finite_dimensional_algebras_with_basis.py:1566-1575 | the three component lists determine the list of triples |
| Cellular.ConvertIndexCommutesWithSwap | src/sage/categories/finite_dimensional_algebras_with_basis.py:1566-1575 | converting the swapped triples swaps the converted s and t |
| SimplicialSets.SetBasePoint | src/sage/categories/simplicial_sets.py:140-146 | a point of nonzero dimension is refused, then a point not in the set; otherwise the result has the same cells and faces and the new base point |
| SimplicialSets.SetBasePointAccepts | src/sage/categories/simplicial_sets.py:140-146 | it succeeds exactly on the vertices of the set, the result is pointed at a vertex, and a later choice replaces an earlier one |
| SimplicialSets.BasePointMap | src/sage/categories/simplicial_sets.py:254-261 | a domain with more than one simplex is refused; otherwise the result is the constant map to the base point from the given domain or from the standard point |
| SimplicialSets.BasePointMapDefaultDomain | src/sage/categories/simplicial_sets.py:254-261 | passing the standard point explicitly gives the same map as the default |
| SimplicialSets.FatWedge | src/sage/categories/simplicial_sets.py:731-736 | n = 0 gives the point, n = 1 gives the set itself, and n ≥ 2 gives the fat-wedge subset of the n-th power |
| SimplicialSets.Connectivity | src/sage/categories/simplicial_sets.py:661-680 | the scan over 2..max_dim with its early return computes the specification |
| SimplicialSets.ConnectivityMeaning | src/sage/categories/simplicial_sets.py:661-680 | −1 iff not connected; 0 iff connected and not simply connected; an error iff simply connected, not finite and max_dim omitted; c ≥ 1 means H_{c+1} is the first nontrivial group from H_2; +Infinity means H_2..H_max_dim are all trivial |
| Covers.Character | src/sage/categories/simplicial_sets.py:466-482 | a vertex gets 1, a named simplex keeps its value, and any other simplex takes the value of its last face |
| Covers.CoveringMap | src/sage/categories/simplicial_sets.py:457-501 | an empty character is refused (the source has no value to read the group from), then an infinite group; otherwise the construction fails exactly when some simplex has no character, and any result is the cover the construction describes |
| Covers.CoveringMapIsSimplicial | src/sage/categories/simplicial_sets.py:489-500 | the map sends (s, g) to s and the i-th face of (s, g) to the i-th face of s, degeneracies included; the base point (base_point, 1) goes to the base point |
| Covers.CoverOfEdge | src/sage/categories/simplicial_sets.py:489-498 | face 0 of an edge cell (s, g) lies over g·char(s) and face 1 over g |
| Covers.CoverIsWellFormed | src/sage/categories/simplicial_sets.py:457-501 | the cover is again a pointed simplicial set whose faces fit their dimensions |
| Covers.CoverCellCount | src/sage/categories/simplicial_sets.py:466-487 | the cover has \|G\| times as many nondegenerate simplices as the base |
| Covers.DeckTransformation | src/sage/categories/simplicial_sets.py:489-498 | translating the cells by a group element commutes with taking faces |
| UniversalCover.NonTreeEdges | src/sage/categories/simplicial_sets.py:361-363 | the generators are exactly the edges not in the spanning tree, without repeats |
| UniversalCover.FaceWord | src/sage/categories/simplicial_sets.py:370-380 | a face contributes a letter iff it is a nondegenerate edge outside the tree |
| UniversalCover.UniversalCoverDict | src/sage/categories/simplicial_sets.py:356-386 | there is one generator per non-tree edge and one relation per 2-simplex; the character sends the i-th generator edge to the i-th generator and every tree edge to 1 |
| UniversalCover.RelationsReadCharacter | src/sage/categories/simplicial_sets.py:368-385 | each relation is z0·z1⁻¹·z2 read through the returned character |
| UniversalCover.RelationsUseGenerators | src/sage/categories/simplicial_sets.py:368-381 | relations use only the generators of the presentation |
| UniversalCover.TreeThroughEveryEdge | src/sage/categories/simplicial_sets.py:363-381 | when the tree holds every edge, there are no generators and every relation is empty |
| UniversalCover.InverseWordInvolutive | src/sage/categories/simplicial_sets.py:381 | inverting a word twice gives it back |
| Mod5Family.J | src/sage/schemes/elliptic_curves/mod5family.py:34 | division by zero iff 4a³+27b² = 0; otherwise J·(4a³+27b²) = 4a³ |
| Mod5Family.Alpha | src/sage/schemes/elliptic_curves/mod5family.py:36-57 | 21 coefficients, alpha[0] = 1 and alpha[1] = 0 |
| Mod5Family.Beta | src/sage/schemes/elliptic_curves/mod5family.py:59-97 | 31 coefficients, beta[0] = 1 and beta[1] = 30 |
| Mod5Family.C2C3 | src/sage/schemes/elliptic_curves/mod5family.py:99-101 | division by zero iff 4a³+27b² = 0; otherwise c2 = a·alpha(J) and c3 = b·beta(J) |
| Mod5Family.Lcm | src/sage/schemes/elliptic_curves/mod5family.py:102 | a common multiple of both denominators |
| Mod5Family.LcmLeast | src/sage/schemes/elliptic_curves/mod5family.py:102 | the lcm divides every common multiple of its arguments |
| Mod5Family.PolyDenominator | src/sage/schemes/elliptic_curves/mod5family.py:102 | every coefficient's denominator divides the polynomial's denominator |
| Mod5Family.PolyDenominatorLeast | src/sage/schemes/elliptic_curves/mod5family.py:102 | the polynomial's denominator divides every common multiple of its coefficients' denominators |
| Mod5Family.CommonDenominator | src/sage/schemes/elliptic_curves/mod5family.py:102 | every coefficient denominator of c2 and of c3 divides d |
| Mod5Family.CommonDenominatorLeast | src/sage/schemes/elliptic_curves/mod5family.py:102 | d divides every common multiple of the coefficient denominators of c2 and c3 |
| Mod5Family.Mod5FamilyCurve | src/sage/schemes/elliptic_curves/mod5family.py:34-104 | division by zero iff 4a³+27b² = 0; otherwise the curve [c2·d⁴, c3·d⁶] with d the common denominator |
| Mod5Properties.AlphaHasJMinusOneFactor | src/sage/schemes/elliptic_curves/mod5family.py:39-57 | every alpha[k] with k ≥ 2 has a factor (J−1) |
| Mod5Properties.BetaHasJMinusOneFactor | src/sage/schemes/elliptic_curves/mod5family.py:62-96 | every beta[k] with k ≥ 2 has a factor (J−1) |
| Mod5Properties.AlphaAtJOne | src/sage/schemes/elliptic_curves/mod5family.py:36-57 | alpha(1) = [1, 0, …, 0] |
| Mod5Properties.BetaAtJOne | src/sage/schemes/elliptic_curves/mod5family.py:59-97 | beta(1) = [1, 30, 0, …, 0] |
| Mod5Properties.CoefficientsAtBZero | src/sage/schemes/elliptic_curves/mod5family.py:34-101 | for b = 0 and a ≠ 0: J = 1, c2 = a and c3 = 0 |
| Mod5Properties.CoefficientsAtAZero | src/sage/schemes/elliptic_curves/mod5family.py:34-101 | for a = 0 and b ≠ 0: J = 0, c2 = 0 and c3 = b·beta(0) |
| Mod5Properties.BetaTableRecurrence | src/sage/schemes/elliptic_curves/mod5family.py:62-96 | at J = 0 the beta table satisfies k·beta[k] = (31 − k)·beta[k−1] |
| Mod5Properties.BetaAtJZero | src/sage/schemes/elliptic_curves/mod5family.py:59-97 | beta(0)[k] = C(30, k) for every k |
| Mod5Properties.Mod5FamilyIsIntegral | src/sage/schemes/elliptic_curves/mod5family.py:99-104 | when the denominators clear the coefficients of c2 and c3, every coefficient of c2·d⁴ and c3·d⁶ is an integer |
| Mod5Properties.Mod5FamilyAtZeroOne | src/sage/schemes/elliptic_curves/mod5family.py:31-32 | mod5family(0, 1) is the curve [0, (t+1)^30], i.e. a6 has coefficients C(30, k) |

## Left out

- Linear algebra over the base field is not modelled: matrix kernels and images, `solve_right`, rank, characteristic polynomials, `nth_root`, and the echelon forms of `submodule`. Each is a function parameter, and the lemmas state what they assume of it (`KernelSound`, `KernelComplete`, `SolveSound`, `SolveComplete`).
- The semisimple quotient is not computed. Its central orthogonal idempotents, `retract` and `lift` are parameters; the lemmas about them assume `IsProjection` (π is a unital algebra homomorphism and lift a section of it) and that the idempotents decompose the identity of the quotient.
- `radical`, `semisimple_quotient`, `center_basis` and `center` are left out: they only wrap the linear algebra above.
- The base field is Dafny's `real` in characteristic 0. In characteristic p the field and matrix types are generic and their operations are parameters.
- Idempotents.IdempotentLift: the source loops until a fixed point with no bound, so the model takes a round bound `fuel` and reports `NoFixedPointWithinFuel` when it is exhausted.
- Idempotents.IdempotentLiftContract: that the result e satisfies e·e = e in the algebra is not proved; the model proves that e is a fixed point of 1 − (1 − x²)² and that π(e) = π(x) (IdempotentLiftRetracts). Idempotence in the algebra needs the radical (the kernel of π) to be nilpotent and the product to be associative, and the iteration to reach a fixed point needs the convergence argument of Curtis and Reiner; the model's structure constants and the parameter π carry neither.
- Idempotents.IdempotentLift: the same holds for the method, which computes IdempotentLiftSpec: e·e = e in the algebra is not proved.
- Idempotents.OrthogonalIdempotentsShape: that the results are idempotent, pairwise orthogonal and sum to 1 in the algebra (the decomposition of the identity its docstring checks) is not proved, for the same reason; the model proves it modulo the radical: π(e_k) = g_k and π(Σ e_k) = 1 (OrthogonalIdempotentsRetract).
- Idempotents.OrthogonalIdempotentsCentralModRadical: the same holds for the loop, which computes OrthogonalIdempotents: the decomposition of the identity in the algebra is proved only modulo the radical.
- Idempotents.PeirceDecompositionDefault: that check never rejects the default family is not proved, since it rests on the decomposition of the identity in the algebra above.
- Idempotents.PrincipalIdeal and Idempotents.PeirceSummand return the spanning lists (the images of the basis). They do not return the echelonised subspace object.
- Idempotents.CartanInvariantsMatrix: a dimension that is not a perfect square, or an entry that is not an integer, is reported as an error. Sage would produce a symbolic square root or a failed conversion to ZZ.
- `to_matrix` with another `base_ring` (such as RDF) or another `action` is left out; only multiplication on the left or the right is modelled.
- `_test_cellular`, `cells`, `cellular_basis`, `cell_module`, `cell_poset` and `simple_module_parameterization` are left out. They need a cellular basis that is not given.
- Cellular.CellularInvolution: only the case where the cellular basis is the algebra's own basis is modelled; otherwise the source delegates to another basis.
- Topology and group theory are inputs, not computed: connectedness, simple connectedness, finiteness, homology, the fundamental group (GAP), the spanning tree (`min_spanning_tree`) and the group of a character.
- Covers.CoveringMap: the group is a multiplication table passed next to the character, which must take its values in it; the source takes the parent of the character's first value. Degenerate faces of a nondegenerate cell are handled by reapplying the degeneracies, so the source's branch for degenerate cells does not arise.
- Covers.CoveringMap: every lift (v, g) of a vertex is a cell of the model's cover. The source builds its cover from the faces of the cells of dimension at least 1 and the base point, so there a lift of a vertex that is a face of no edge, other than the base point, is absent.
- UniversalCover.UniversalCoverDict: relations are words in the generators, without free reduction or simplification. The group they present is not built.
- SimplicialSets.FatWedge: for n ≥ 2 the result is the fat-wedge subset of the n-fold product, named, not constructed; `product` and `smash_product` are left out.
- Mod5Family.Mod5FamilyCurve: rational numbers are Dafny reals, so the denominator of a coefficient is a parameter `den`. The integrality lemma assumes `den` clears the coefficients. The `PolynomialRing`, fraction field and `EllipticCurve` constructors are not modelled; the curve is the pair of coefficient lists [a4, a6].
- `@cached_method` memoisation, category and axiom machinery, `rename` and string representations are left out.
