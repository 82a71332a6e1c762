/**
 * Pointed simplicial sets given by their face data: each nondegenerate
 * simplex lists its faces, each face being a nondegenerate simplex with
 * degeneracy operators applied to it.  This module holds the validators
 * and decision rules on them: choosing a base point, the map from a
 * one-point set onto the base point, the first fat wedges, and the
 * connectivity read off from connectedness and homology.
 */
module SimplicialSets {
  import opened Results

  /**
   * An abstract nondegenerate simplex: an atom of a given dimension, or
   * the copy of a simplex over a group element (a cell of a cover).
   */
  datatype Simplex = Atom(id: nat, dimension: nat) | Lift(over: Simplex, g: nat)

  function Dim(s: Simplex): nat
  {
    match s
    case Atom(_, d) => d
    case Lift(t, _) => Dim(t)
  }

  /** s_{i1} ... s_{ik} applied to a nondegenerate simplex. */
  datatype Face = Face(base: Simplex, degeneracies: seq<nat>)

  function FaceDim(f: Face): nat
  {
    Dim(f.base) + |f.degeneracies|
  }

  predicate IsDegenerate(f: Face)
  {
    f.degeneracies != []
  }

  /**
   * A simplicial set: `cells[d]` lists the nondegenerate d-simplices in
   * order, `faces` maps every nondegenerate simplex to its faces (empty
   * for a vertex), and `basePoint` is the chosen vertex, if any.
   */
  datatype SSet = SSet(cells: seq<seq<Simplex>>, faces: map<Simplex, seq<Face>>, basePoint: Option<Simplex>)

  /** The nondegenerate simplices of X. */
  function Simplices(X: SSet): set<Simplex>
  {
    X.faces.Keys
  }

  /**
   * The faces fit the dimensions: a d-simplex with d >= 1 has d + 1 faces,
   * a vertex none, and each face has dimension d - 1 and lies over a
   * nondegenerate simplex of X.
   */
  ghost predicate FacesFit(X: SSet)
  {
    forall s :: s in X.faces ==>
      && |X.faces[s]| == (if Dim(s) == 0 then 0 else Dim(s) + 1)
      && forall i :: 0 <= i < |X.faces[s]| ==>
           FaceDim(X.faces[s][i]) == Dim(s) - 1 && X.faces[s][i].base in X.faces
  }

  /** `cells[d]` lists the d-simplices, and every simplex is listed. */
  ghost predicate Listed(X: SSet)
  {
    && (forall d, k :: 0 <= d < |X.cells| && 0 <= k < |X.cells[d]| ==>
          X.cells[d][k] in X.faces && Dim(X.cells[d][k]) == d)
    && (forall s :: s in X.faces ==> Dim(s) < |X.cells| && s in X.cells[Dim(s)])
  }

  ghost predicate WellFormed(X: SSet)
  {
    FacesFit(X) && Listed(X)
  }

  // ---------------------------------------------------------------------
  // set_base_point
  // ---------------------------------------------------------------------

  datatype BasePointError = NotAZeroSimplex | NotInThisSet

  /**
   * A copy of X with the same face data and base point `point`; the point
   * must be a 0-simplex, and then one of the simplices of X.
   */
  function SetBasePoint(X: SSet, point: Face): (r: Result<SSet, BasePointError>)
    ensures r == Err(NotAZeroSimplex) <==> FaceDim(point) != 0
    ensures r == Err(NotInThisSet) <==> FaceDim(point) == 0 && point.base !in Simplices(X)
    ensures r.Ok? ==> r.value.cells == X.cells && r.value.faces == X.faces
    ensures r.Ok? ==> r.value.basePoint == Some(point.base) && point.degeneracies == []
  {
    if FaceDim(point) != 0 then Err(NotAZeroSimplex)
    else if point.base !in X.faces then Err(NotInThisSet)
    else Ok(SSet(X.cells, X.faces, Some(point.base)))
  }

  /** A pointed simplicial set: the base point is a vertex of it. */
  predicate IsPointedAtVertex(X: SSet)
  {
    X.basePoint.Some? && X.basePoint.value in X.faces && Dim(X.basePoint.value) == 0
  }

  /**
   * Setting a base point succeeds exactly on the vertices of X, leaves a
   * set pointed at a vertex, and a later choice replaces an earlier one.
   */
  lemma SetBasePointAccepts(X: SSet, point: Face, other: Face)
    ensures SetBasePoint(X, point).Ok? <==> (point.degeneracies == [] && Dim(point.base) == 0 && point.base in Simplices(X))
    ensures SetBasePoint(X, point).Ok? ==> IsPointedAtVertex(SetBasePoint(X, point).value)
    ensures SetBasePoint(X, point).Ok? ==> SetBasePoint(SetBasePoint(X, point).value, other) == SetBasePoint(X, other)
  {
  }

  // ---------------------------------------------------------------------
  // base_point_map and the one-point set
  // ---------------------------------------------------------------------

  /** The one-point simplicial set, pointed at its single vertex. */
  const PointVertex: Simplex := Atom(0, 0)

  function Point(): (P: SSet)
    ensures Simplices(P) == {PointVertex} && IsPointedAtVertex(P)
  {
    SSet([[PointVertex]], map[PointVertex := []], Some(PointVertex))
  }

  /** The constant map from `domain` to X at the simplex `target`. */
  datatype ConstantMap = ConstantMap(domain: SSet, codomain: SSet, target: Simplex)

  datatype BasePointMapError = DomainHasMoreThanOneSimplex

  /**
   * The map from a one-point set to the base point of X: the domain is the
   * standard point unless one is given, and a given domain is refused when
   * it has more than one nondegenerate simplex.
   */
  function BasePointMap(X: SSet, domain: Option<SSet>): (r: Result<ConstantMap, BasePointMapError>)
    requires X.basePoint.Some?
    ensures r.Err? <==> domain.Some? && |Simplices(domain.value)| > 1
    ensures r.Ok? ==> r.value.codomain == X && r.value.target == X.basePoint.value
    ensures r.Ok? ==> r.value.domain == (if domain.Some? then domain.value else Point())
  {
    if domain.Some? && |domain.value.faces| > 1 then Err(DomainHasMoreThanOneSimplex)
    else
      var source := if domain.None? then Point() else domain.value;
      Ok(ConstantMap(source, X, X.basePoint.value))
  }

  /**
   * The default domain passes the check a given domain is put through:
   * passing the standard point explicitly gives the same map.
   */
  lemma BasePointMapDefaultDomain(X: SSet)
    requires X.basePoint.Some?
    ensures BasePointMap(X, Some(Point())) == BasePointMap(X, None)
    ensures BasePointMap(X, None).Ok?
  {
    assert |Simplices(Point())| == 1;
  }

  // ---------------------------------------------------------------------
  // fat_wedge
  // ---------------------------------------------------------------------

  /**
   * The result of fat_wedge: a simplicial set at hand, or the fat-wedge
   * subset of the n-fold product of X with itself.
   */
  datatype Space = Given(X: SSet) | FatWedgeOfPower(factor: SSet, n: nat)

  /** The n-th fat wedge: the point for n = 0, X itself for n = 1. */
  function FatWedge(X: SSet, n: nat): (r: Space)
    ensures n == 0 ==> r.Given? && Simplices(r.X) == {PointVertex} && IsPointedAtVertex(r.X)
    ensures n == 1 ==> r == Given(X)
    ensures n >= 2 ==> r == FatWedgeOfPower(X, n)
  {
    if n == 0 then Given(Point())
    else if n == 1 then Given(X)
    else FatWedgeOfPower(X, n)
  }

  // ---------------------------------------------------------------------
  // connectivity
  // ---------------------------------------------------------------------

  /** The connectivity: an integer, or +Infinity for a contractible space. */
  datatype ConnectivityValue = Finite(c: int) | Infinity

  datatype ConnectivityError = MaxDimRequired

  /**
   * The first i in [from, top] whose homology group is nontrivial, where
   * `trivial(i)` says that H_i has order 1.
   */
  function FirstNontrivial(trivial: int -> bool, from: int, top: int): (r: Option<int>)
    decreases top - from + 1
    ensures r.Some? ==> from <= r.value <= top && !trivial(r.value)
    ensures r.Some? ==> forall j :: from <= j < r.value ==> trivial(j)
    ensures r.None? ==> forall j :: from <= j <= top ==> trivial(j)
  {
    if from > top then None
    else if !trivial(from) then Some(from)
    else FirstNontrivial(trivial, from + 1, top)
  }

  /**
   * What connectivity returns, from the answers to "connected?", "simply
   * connected?", "finite?", the dimension, the optional max_dim and the
   * triviality of each homology group.
   */
  function ConnectivitySpec(connected: bool, simplyConnected: bool, finite: bool, dimension: nat,
                            maxDim: Option<int>, trivial: int -> bool): Result<ConnectivityValue, ConnectivityError>
  {
    if !connected then Ok(Finite(-1))
    else if !simplyConnected then Ok(Finite(0))
    else if maxDim.None? && !finite then Err(MaxDimRequired)
    else
      var top := if maxDim.Some? then maxDim.value else dimension;
      match FirstNontrivial(trivial, 2, top)
      case Some(i) => Ok(Finite(i - 1))
      case None => Ok(Infinity)
  }

  /** connectivity: the scan over 2..max_dim, returning at the first nontrivial group. */
  method Connectivity(connected: bool, simplyConnected: bool, finite: bool, dimension: nat,
                      maxDim: Option<int>, trivial: int -> bool)
    returns (r: Result<ConnectivityValue, ConnectivityError>)
    ensures r == ConnectivitySpec(connected, simplyConnected, finite, dimension, maxDim, trivial)
  {
    if !connected {
      return Ok(Finite(-1));
    }
    if !simplyConnected {
      return Ok(Finite(0));
    }
    var top: int;
    if maxDim.None? {
      if !finite {
        return Err(MaxDimRequired);
      }
      top := dimension;
    } else {
      top := maxDim.value;
    }
    var i := 2;
    while i <= top
      invariant 2 <= i <= if top < 2 then 2 else top + 1
      invariant FirstNontrivial(trivial, 2, top) == FirstNontrivial(trivial, i, top)
      decreases top - i
    {
      if !trivial(i) {
        return Ok(Finite(i - 1));
      }
      i := i + 1;
    }
    return Ok(Infinity);
  }

  /**
   * Reading the answer back: -1 exactly when X is not connected, 0 exactly
   * when it is connected but not simply connected, c >= 1 when H_{c+1} is
   * the first nontrivial homology group from H_2 on, and +Infinity when
   * all of H_2 .. H_max_dim are trivial.
   */
  lemma ConnectivityMeaning(connected: bool, simplyConnected: bool, finite: bool, dimension: nat,
                            maxDim: Option<int>, trivial: int -> bool)
    ensures var r := ConnectivitySpec(connected, simplyConnected, finite, dimension, maxDim, trivial);
            && (r == Ok(Finite(-1)) <==> !connected)
            && (r == Ok(Finite(0)) <==> connected && !simplyConnected)
            && (r.Err? <==> connected && simplyConnected && maxDim.None? && !finite)
    ensures var r := ConnectivitySpec(connected, simplyConnected, finite, dimension, maxDim, trivial);
            var top := if maxDim.Some? then maxDim.value else dimension;
            && (r.Ok? && r.value.Finite? && r.value.c >= 1 ==>
                  connected && simplyConnected && !trivial(r.value.c + 1) &&
                  forall j :: 2 <= j <= r.value.c ==> trivial(j))
            && (r == Ok(Infinity) ==> forall j :: 2 <= j <= top ==> trivial(j))
  {
  }
}
