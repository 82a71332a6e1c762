/**
 * The cover of a pointed simplicial set attached to a character: an
 * assignment of elements of a finite group G to the nondegenerate edges.
 * The cover has one cell (s, g) for every nondegenerate simplex s and every
 * g in G.  Face 0 of (s, g) lies over g * char(s), and every other face
 * lies over g.  The covering map sends (s, g) to s.
 */
module Covers {
  import opened Results
  import opened SimplicialSets

  /**
   * The group of a character.  A finite group has elements 0 .. order - 1
   * and a multiplication table.
   */
  datatype Group = FiniteGroup(order: nat, mul: seq<seq<nat>>, one: nat) | InfiniteGroup

  /** A multiplication table that is closed and associative, with unit `one`. */
  ghost predicate IsGroupTable(G: Group)
  {
    && G.FiniteGroup?
    && G.one < G.order
    && |G.mul| == G.order
    && (forall g :: 0 <= g < G.order ==> |G.mul[g]| == G.order)
    && (forall g, h :: 0 <= g < G.order && 0 <= h < G.order ==> G.mul[g][h] < G.order)
    && (forall g :: 0 <= g < G.order ==> G.mul[G.one][g] == g && G.mul[g][G.one] == g)
    && (forall a, b, c :: 0 <= a < G.order && 0 <= b < G.order && 0 <= c < G.order ==> AssociativeAt(G, a, b, c))
  }

  /** (a b) c == a (b c) in the table. */
  predicate AssociativeAt(G: Group, a: nat, b: nat, c: nat)
    requires G.FiniteGroup? && a < |G.mul| && b < |G.mul| && c < |G.mul|
    requires |G.mul[a]| == |G.mul[b]| == |G.mul| && G.mul[a][b] < |G.mul| && G.mul[b][c] < |G.mul|
    requires |G.mul[G.mul[a][b]]| == |G.mul| && c < |G.mul[G.mul[a][b]]|
  {
    G.mul[G.mul[a][b]][c] == G.mul[a][G.mul[b][c]]
  }

  datatype CoverError =
    | EmptyCharacter            // no value to read the group from (the IndexError of covering_map)
    | InfiniteGroupNotSupported
    | MissingCharacter(s: Simplex)

  /**
   * The character a simplex ends up with:
   * - a vertex gets 1;
   * - a simplex the character names keeps its value;
   * - any other simplex takes the character of its last face.
   * A degenerate last face has no character, so the lookup fails.
   */
  function Character(X: SSet, character: map<Simplex, nat>, one: nat, s: Simplex): (r: Result<nat, CoverError>)
    requires FacesFit(X) && s in X.faces
    decreases Dim(s)
    ensures Dim(s) == 0 ==> r == Ok(one)
    ensures Dim(s) >= 1 && s in character ==> r == Ok(character[s])
    ensures Dim(s) == 1 ==> r.Ok?
    ensures r.Ok? ==> r.value == one || r.value in character.Values
  {
    if Dim(s) == 0 then Ok(one)
    else if s in character then Ok(character[s])
    else
      var last := X.faces[s][Dim(s)];
      if IsDegenerate(last) then Err(MissingCharacter(s))
      else Character(X, character, one, last.base)
  }

  /** The copy over g of a face: the degeneracies are reapplied to the lifted simplex. */
  function LiftFace(f: Face, g: nat): (l: Face)
    ensures FaceDim(l) == FaceDim(f) && l.degeneracies == f.degeneracies
  {
    Face(Lift(f.base, g), f.degeneracies)
  }

  /** The faces of (s, g) when s has character c. */
  function CoverFaces(X: SSet, G: Group, c: nat, s: Simplex, g: nat): (fs: seq<Face>)
    requires IsGroupTable(G) && s in X.faces && g < G.order && c < G.order
    ensures |fs| == |X.faces[s]|
    ensures |fs| > 0 ==> fs[0] == LiftFace(X.faces[s][0], G.mul[g][c])
    ensures forall i :: 1 <= i < |fs| ==> fs[i] == LiftFace(X.faces[s][i], g)
  {
    seq(|X.faces[s]|, i requires 0 <= i < |X.faces[s]| => LiftFace(X.faces[s][i], if i == 0 then G.mul[g][c] else g))
  }

  /** The copies of s over 0 .. n - 1. */
  function Fibre(s: Simplex, n: nat): (r: seq<Simplex>)
    ensures |r| == n && forall g :: 0 <= g < n ==> r[g] == Lift(s, g)
  {
    seq(n, g requires 0 <= g < n => Lift(s, g))
  }

  /** The cells over a list of simplices, fibre after fibre. */
  function LiftRow(row: seq<Simplex>, n: nat): (r: seq<Simplex>)
    ensures forall t :: t in r <==> t.Lift? && t.over in row && t.g < n
  {
    if row == [] then []
    else
      var front := LiftRow(row[..|row| - 1], n);
      assert forall s :: s in row <==> s in row[..|row| - 1] || s == row[|row| - 1];
      front + Fibre(row[|row| - 1], n)
  }

  /** A cover with its covering map, as a map on the nondegenerate cells. */
  datatype Cover = Cover(space: SSet, projection: map<Simplex, Simplex>)

  lemma CharacterBelowOrder(X: SSet, character: map<Simplex, nat>, G: Group, s: Simplex)
    requires FacesFit(X) && s in X.faces && IsGroupTable(G)
    requires forall t :: t in character ==> character[t] < G.order
    ensures Character(X, character, G.one, s).Ok? ==> Character(X, character, G.one, s).value < G.order
  {
  }

  // ---------------------------------------------------------------------
  // covering_map
  // ---------------------------------------------------------------------

  /** s has been handled once the loops are at dimension d, cell k. */
  ghost predicate Processed(X: SSet, d: nat, k: nat, s: Simplex)
  {
    s in X.faces && (Dim(s) < d || (d < |X.cells| && Dim(s) == d && k <= |X.cells[d]| && s in X.cells[d][..k]))
  }

  /** The cells made so far: the fibres over the handled simplices. */
  ghost predicate KeysBuilt(X: SSet, G: Group, d: nat, k: nat,
                            faces: map<Simplex, seq<Face>>, proj: map<Simplex, Simplex>)
    requires G.FiniteGroup?
  {
    && (forall t :: t in faces <==> t.Lift? && Processed(X, d, k, t.over) && t.g < G.order)
    && proj.Keys == faces.Keys
  }

  /**
   * The character so far: the handled simplices have their effective
   * character, and the others above dimension 0 still carry what the
   * given character says about them.
   */
  ghost predicate CharsBuilt(X: SSet, character: map<Simplex, nat>, one: nat, d: nat, k: nat,
                             chars: map<Simplex, nat>)
    requires FacesFit(X)
  {
    && (forall s :: Processed(X, d, k, s) ==>
          s in chars && Character(X, character, one, s) == Ok(chars[s]))
    && (forall s :: s in X.faces && Dim(s) >= 1 && !Processed(X, d, k, s) ==>
          (s in chars <==> s in character) && (s in character ==> chars[s] == character[s]))
  }

  /** The cell (s, g) has been made, with its faces and its projection. */
  ghost predicate CellBuilt(X: SSet, character: map<Simplex, nat>, G: Group, s: Simplex, g: nat,
                            faces: map<Simplex, seq<Face>>, proj: map<Simplex, Simplex>)
    requires FacesFit(X) && IsGroupTable(G) && s in X.faces && g < G.order
    requires forall s :: s in character ==> character[s] < G.order
  {
    && Character(X, character, G.one, s).Ok?
    && Lift(s, g) in faces && Lift(s, g) in proj
    && faces[Lift(s, g)] == CoverFaces(X, G, CharOf(X, character, G, s), s, g)
    && proj[Lift(s, g)] == s
  }

  /**
   * C is the cover of X for the character over G:
   * - its cells are the (s, g) with s in X and g in G;
   * - each cell has the faces CoverFaces of the effective character of s,
   *   and projects to s;
   * - its cells are listed dimension by dimension, fibre after fibre;
   * - its base point is (base point, 1).
   */
  ghost predicate IsCoverOf(X: SSet, character: map<Simplex, nat>, G: Group, C: Cover)
    requires FacesFit(X) && X.basePoint.Some? && IsGroupTable(G)
    requires forall s :: s in character ==> character[s] < G.order
  {
    && (forall t :: t in C.space.faces <==> t.Lift? && t.over in X.faces && t.g < G.order)
    && C.projection.Keys == C.space.faces.Keys
    && (forall s, g :: s in X.faces && 0 <= g < G.order ==> CellBuilt(X, character, G, s, g, C.space.faces, C.projection))
    && |C.space.cells| == |X.cells|
    && (forall d :: 0 <= d < |X.cells| ==> C.space.cells[d] == LiftRow(X.cells[d], G.order))
    && C.space.basePoint == Some(Lift(X.basePoint.value, G.one))
  }

  /** The face data and projection of every cell made so far. */
  ghost predicate FacesBuilt(X: SSet, character: map<Simplex, nat>, G: Group, d: nat, k: nat,
                             faces: map<Simplex, seq<Face>>, proj: map<Simplex, Simplex>)
    requires FacesFit(X) && IsGroupTable(G)
    requires forall s :: s in character ==> character[s] < G.order
  {
    forall s, g :: Processed(X, d, k, s) && 0 <= g < G.order ==> CellBuilt(X, character, G, s, g, faces, proj)
  }

  /** The effective character as a group element, once it is known to exist. */
  function CharOf(X: SSet, character: map<Simplex, nat>, G: Group, s: Simplex): (c: nat)
    requires FacesFit(X) && s in X.faces && IsGroupTable(G)
    requires forall t :: t in character ==> character[t] < G.order
    requires Character(X, character, G.one, s).Ok?
    ensures c < G.order && Character(X, character, G.one, s) == Ok(c)
  {
    CharacterBelowOrder(X, character, G, s);
    Character(X, character, G.one, s).value
  }

  /** What the loops of covering_map have built after handling the cells before (d, k). */
  ghost predicate Built(X: SSet, character: map<Simplex, nat>, G: Group, d: nat, k: nat,
                        chars: map<Simplex, nat>, faces: map<Simplex, seq<Face>>, proj: map<Simplex, Simplex>)
    requires WellFormed(X) && IsGroupTable(G)
    requires forall s :: s in character ==> character[s] < G.order
  {
    && KeysBuilt(X, G, d, k, faces, proj)
    && CharsBuilt(X, character, G.one, d, k, chars)
    && FacesBuilt(X, character, G, d, k, faces, proj)
  }

  /** Built depends on (d, k) only through the set of handled simplices. */
  lemma BuiltTransfer(X: SSet, character: map<Simplex, nat>, G: Group, d: nat, k: nat, d': nat, k': nat,
                      chars: map<Simplex, nat>, faces: map<Simplex, seq<Face>>, proj: map<Simplex, Simplex>)
    requires WellFormed(X) && IsGroupTable(G)
    requires forall s :: s in character ==> character[s] < G.order
    requires forall t :: Processed(X, d, k, t) <==> Processed(X, d', k', t)
    requires Built(X, character, G, d, k, chars, faces, proj)
    ensures Built(X, character, G, d', k', chars, faces, proj)
  {
  }

  /** faces' and proj' are faces and proj with the fibre of s, for character c, added. */
  ghost predicate FibreAdded(X: SSet, G: Group, s: Simplex, c: nat,
                             faces: map<Simplex, seq<Face>>, proj: map<Simplex, Simplex>,
                             faces': map<Simplex, seq<Face>>, proj': map<Simplex, Simplex>)
    requires IsGroupTable(G) && s in X.faces && c < G.order
  {
    && (forall t :: t in faces' <==> t in faces || (t.Lift? && t.over == s && t.g < G.order))
    && (forall t :: t in proj' <==> t in proj || (t.Lift? && t.over == s && t.g < G.order))
    && (forall t :: t in faces && !(t.Lift? && t.over == s) ==> faces'[t] == faces[t])
    && (forall t :: t in proj && !(t.Lift? && t.over == s) ==> proj'[t] == proj[t])
    && (forall g :: 0 <= g < G.order ==>
          && Lift(s, g) in faces' && faces'[Lift(s, g)] == CoverFaces(X, G, c, s, g)
          && Lift(s, g) in proj' && proj'[Lift(s, g)] == s)
  }

  /** Handling s with effective character c extends the character. */
  lemma CharsStep(X: SSet, character: map<Simplex, nat>, one: nat, d: nat, k: nat,
                  chars: map<Simplex, nat>, c: nat)
    requires WellFormed(X) && d < |X.cells| && k < |X.cells[d]|
    requires CharsBuilt(X, character, one, d, k, chars)
    requires Character(X, character, one, X.cells[d][k]) == Ok(c)
    ensures CharsBuilt(X, character, one, d, k + 1, chars[X.cells[d][k] := c])
  {
    ProcessedStep(X, d, k);
  }

  /** Adding the fibre of s extends the cells and projections. */
  lemma KeysStep(X: SSet, G: Group, d: nat, k: nat, c: nat,
                 faces: map<Simplex, seq<Face>>, proj: map<Simplex, Simplex>,
                 faces': map<Simplex, seq<Face>>, proj': map<Simplex, Simplex>)
    requires Listed(X) && IsGroupTable(G) && d < |X.cells| && k < |X.cells[d]| && c < G.order
    requires KeysBuilt(X, G, d, k, faces, proj)
    requires X.cells[d][k] in X.faces && FibreAdded(X, G, X.cells[d][k], c, faces, proj, faces', proj')
    ensures KeysBuilt(X, G, d, k + 1, faces', proj')
  {
    ProcessedStep(X, d, k);
    assert proj'.Keys == faces'.Keys;
  }

  /** Adding the fibre of s gives the faces and projections of its cells and keeps the others. */
  lemma FacesStep(X: SSet, character: map<Simplex, nat>, G: Group, d: nat, k: nat, c: nat,
                  faces: map<Simplex, seq<Face>>, proj: map<Simplex, Simplex>,
                  faces': map<Simplex, seq<Face>>, proj': map<Simplex, Simplex>)
    requires WellFormed(X) && IsGroupTable(G) && d < |X.cells| && k < |X.cells[d]|
    requires forall s :: s in character ==> character[s] < G.order
    requires FacesBuilt(X, character, G, d, k, faces, proj)
    requires Character(X, character, G.one, X.cells[d][k]) == Ok(c) && c < G.order
    requires FibreAdded(X, G, X.cells[d][k], c, faces, proj, faces', proj')
    ensures FacesBuilt(X, character, G, d, k + 1, faces', proj')
  {
    var s := X.cells[d][k];
    ProcessedStep(X, d, k);
    forall s', g | Processed(X, d, k + 1, s') && 0 <= g < G.order
      ensures CellBuilt(X, character, G, s', g, faces', proj')
    {
      if s' == s {
        assert CharOf(X, character, G, s') == c;
      } else {
        assert Processed(X, d, k, s');
        assert CellBuilt(X, character, G, s', g, faces, proj);
      }
    }
  }

  /** The inner loop over G: adds the cells (s, g) with their faces and projections. */
  method AddFibre(X: SSet, G: Group, s: Simplex, c: nat,
                  faces: map<Simplex, seq<Face>>, proj: map<Simplex, Simplex>, row: seq<Simplex>)
    returns (faces': map<Simplex, seq<Face>>, proj': map<Simplex, Simplex>, row': seq<Simplex>)
    requires IsGroupTable(G) && s in X.faces && c < G.order
    ensures FibreAdded(X, G, s, c, faces, proj, faces', proj')
    ensures row' == row + Fibre(s, G.order)
  {
    faces', proj', row' := faces, proj, row;
    for g := 0 to G.order
      invariant forall t :: t in faces' <==> t in faces || (t.Lift? && t.over == s && t.g < g)
      invariant forall t :: t in proj' <==> t in proj || (t.Lift? && t.over == s && t.g < g)
      invariant forall t :: t in faces && !(t.Lift? && t.over == s) ==> faces'[t] == faces[t]
      invariant forall t :: t in proj && !(t.Lift? && t.over == s) ==> proj'[t] == proj[t]
      invariant forall h :: 0 <= h < g ==> faces'[Lift(s, h)] == CoverFaces(X, G, c, s, h) && proj'[Lift(s, h)] == s
      invariant row' == row + Fibre(s, g)
    {
      var cell := Lift(s, g);
      proj' := proj'[cell := s];
      faces' := faces'[cell := CoverFaces(X, G, c, s, g)];
      assert Fibre(s, g + 1) == Fibre(s, g) + [cell];
      row' := row' + [cell];
    }
  }

  /** Handling the cell at (d, k) moves it from unhandled to handled. */
  lemma ProcessedStep(X: SSet, d: nat, k: nat)
    requires Listed(X) && d < |X.cells| && k < |X.cells[d]|
    ensures forall t :: Processed(X, d, k + 1, t) <==> Processed(X, d, k, t) || t == X.cells[d][k]
  {
    var row := X.cells[d];
    assert row[..k + 1] == row[..k] + [row[k]];
    assert forall t :: t in row[..k + 1] <==> t in row[..k] || t == row[k];
    assert row[k] in X.faces && Dim(row[k]) == d;
  }

  /** The end of row d is the start of row d + 1. */
  lemma ProcessedNextRow(X: SSet, d: nat)
    requires Listed(X) && d < |X.cells|
    ensures forall t :: Processed(X, d, |X.cells[d]|, t) <==> Processed(X, d + 1, 0, t)
  {
    assert X.cells[d][..|X.cells[d]|] == X.cells[d];
  }

  /** Past the last row every simplex is handled. */
  lemma ProcessedAll(X: SSet)
    requires Listed(X)
    ensures forall t :: Processed(X, |X.cells|, 0, t) <==> t in X.faces
  {
  }

  lemma LiftRowStep(row: seq<Simplex>, k: nat, n: nat)
    requires k < |row|
    ensures LiftRow(row[..k + 1], n) == LiftRow(row[..k], n) + Fibre(row[k], n)
  {
    assert row[..k + 1][..k] == row[..k];
  }

  /**
   * One pass of the loop body of covering_map for the cell s at (d, k):
   * complete its character (or fail on a degenerate last face), then add
   * its fibre.
   */
  method HandleCell(X: SSet, character: map<Simplex, nat>, G: Group, d: nat, k: nat,
                    chars: map<Simplex, nat>, faces: map<Simplex, seq<Face>>, proj: map<Simplex, Simplex>,
                    row: seq<Simplex>)
    returns (ok: bool, chars': map<Simplex, nat>, faces': map<Simplex, seq<Face>>, proj': map<Simplex, Simplex>,
             row': seq<Simplex>)
    requires WellFormed(X) && IsGroupTable(G)
    requires forall s :: s in character ==> character[s] < G.order
    requires d < |X.cells| && k < |X.cells[d]|
    requires Built(X, character, G, d, k, chars, faces, proj)
    ensures ok ==> Built(X, character, G, d, k + 1, chars', faces', proj')
    ensures ok ==> row' == row + Fibre(X.cells[d][k], G.order)
    ensures !ok ==> Character(X, character, G.one, X.cells[d][k]) == Err(MissingCharacter(X.cells[d][k]))
  {
    var s := X.cells[d][k];
    CharacterFromChars(X, character, G.one, d, k, chars);
    var c: nat;
    if d == 0 {
      c := G.one;
    } else if s in chars {
      c := chars[s];
    } else {
      var last := X.faces[s][d];
      if IsDegenerate(last) {
        ok, chars', faces', proj', row' := false, chars, faces, proj, row;
        return;
      }
      c := chars[last.base];
    }
    ok := true;
    chars' := chars[s := c];
    CharacterBelowOrder(X, character, G, s);
    faces', proj', row' := AddFibre(X, G, s, c, faces, proj, row);
    CharsStep(X, character, G.one, d, k, chars, c);
    KeysStep(X, G, d, k, c, faces, proj, faces', proj');
    FacesStep(X, character, G, d, k, c, faces, proj, faces', proj');
  }

  /**
   * The character of the cell at (d, k), read from what the loops have
   * stored: 1 for a vertex, the stored value, or the value of the last face.
   */
  lemma CharacterFromChars(X: SSet, character: map<Simplex, nat>, one: nat, d: nat, k: nat, chars: map<Simplex, nat>)
    requires WellFormed(X) && d < |X.cells| && k < |X.cells[d]|
    requires CharsBuilt(X, character, one, d, k, chars)
    ensures var s := X.cells[d][k];
            && s in X.faces && Dim(s) == d
            && (d == 0 ==> Character(X, character, one, s) == Ok(one))
            && (d > 0 && s in chars ==> Character(X, character, one, s) == Ok(chars[s]))
            && (d > 0 && s !in chars ==>
                  |X.faces[s]| == d + 1 &&
                  var last := X.faces[s][d];
                  && (IsDegenerate(last) ==> Character(X, character, one, s) == Err(MissingCharacter(s)))
                  && (!IsDegenerate(last) ==> last.base in chars && Character(X, character, one, s) == Ok(chars[last.base])))
  {
    var s := X.cells[d][k];
    if d > 0 && s !in chars {
      var last := X.faces[s][d];
      if !IsDegenerate(last) {
        assert Processed(X, d, k, last.base);
      }
    }
  }

  lemma RowsSnoc(X: SSet, n: nat, rows: seq<seq<Simplex>>, row: seq<Simplex>)
    requires |rows| < |X.cells| && forall e :: 0 <= e < |rows| ==> rows[e] == LiftRow(X.cells[e], n)
    requires row == LiftRow(X.cells[|rows|], n)
    ensures forall e :: 0 <= e < |rows| + 1 ==> (rows + [row])[e] == LiftRow(X.cells[e], n)
  {
  }

  /** Once every simplex is handled, what was built is the cover. */
  lemma BuiltIsCover(X: SSet, character: map<Simplex, nat>, G: Group, chars: map<Simplex, nat>,
                     faces: map<Simplex, seq<Face>>, proj: map<Simplex, Simplex>, rows: seq<seq<Simplex>>)
    requires WellFormed(X) && IsPointedAtVertex(X) && IsGroupTable(G)
    requires forall s :: s in character ==> character[s] < G.order
    requires Built(X, character, G, |X.cells|, 0, chars, faces, proj)
    requires |rows| == |X.cells| && forall e :: 0 <= e < |X.cells| ==> rows[e] == LiftRow(X.cells[e], G.order)
    ensures IsCoverOf(X, character, G, Cover(SSet(rows, faces, Some(Lift(X.basePoint.value, G.one))), proj))
    ensures forall s :: s in X.faces ==> Character(X, character, G.one, s).Ok?
  {
    ProcessedAll(X);
    forall s, g | s in X.faces && 0 <= g < G.order
      ensures CellBuilt(X, character, G, s, g, faces, proj)
    {
      assert Processed(X, |X.cells|, 0, s);
    }
    forall s | s in X.faces
      ensures Character(X, character, G.one, s).Ok?
    {
      assert Processed(X, |X.cells|, 0, s);
    }
  }

  /**
   * covering_map: the loop over vertices, then the loop over dimensions
   * 1 .. dim and their nondegenerate cells, completing the character and
   * adding the cells (s, g) for every g in G.
   */
  method CoveringMap(X: SSet, character: map<Simplex, nat>, G: Group) returns (r: Result<Cover, CoverError>)
    requires WellFormed(X) && IsPointedAtVertex(X)
    requires G.FiniteGroup? ==> IsGroupTable(G) && forall s :: s in character ==> character[s] < G.order
    ensures r == Err(EmptyCharacter) <==> |character| == 0
    ensures |character| > 0 ==> (G.InfiniteGroup? <==> r == Err(InfiniteGroupNotSupported))
    ensures |character| > 0 && G.FiniteGroup? ==>
              (r.Err? <==> exists s :: s in X.faces && Character(X, character, G.one, s).Err?)
    ensures |character| > 0 && G.FiniteGroup? && r.Err? ==>
              r.error.MissingCharacter? && r.error.s in X.faces && Character(X, character, G.one, r.error.s).Err?
    ensures r.Ok? ==> G.FiniteGroup? && IsCoverOf(X, character, G, r.value)
  {
    if |character| == 0 {
      return Err(EmptyCharacter);
    }
    if G.InfiniteGroup? {
      return Err(InfiniteGroupNotSupported);
    }
    var chars: map<Simplex, nat> := character;
    var faces: map<Simplex, seq<Face>> := map[];
    var proj: map<Simplex, Simplex> := map[];
    var rows: seq<seq<Simplex>> := [];
    for d := 0 to |X.cells|
      invariant |rows| == d && forall e :: 0 <= e < d ==> rows[e] == LiftRow(X.cells[e], G.order)
      invariant Built(X, character, G, d, 0, chars, faces, proj)
    {
      var row: seq<Simplex> := [];
      for k := 0 to |X.cells[d]|
        invariant row == LiftRow(X.cells[d][..k], G.order)
        invariant Built(X, character, G, d, k, chars, faces, proj)
      {
        LiftRowStep(X.cells[d], k, G.order);
        var ok;
        ok, chars, faces, proj, row := HandleCell(X, character, G, d, k, chars, faces, proj, row);
        if !ok {
          assert X.cells[d][k] in X.faces;
          return Err(MissingCharacter(X.cells[d][k]));
        }
      }
      assert X.cells[d][..|X.cells[d]|] == X.cells[d];
      ProcessedNextRow(X, d);
      BuiltTransfer(X, character, G, d, |X.cells[d]|, d + 1, 0, chars, faces, proj);
      RowsSnoc(X, G.order, rows, row);
      rows := rows + [row];
    }
    BuiltIsCover(X, character, G, chars, faces, proj, rows);
    r := Ok(Cover(SSet(rows, faces, Some(Lift(X.basePoint.value, G.one))), proj));
  }

  // ---------------------------------------------------------------------
  // What the cover is
  // ---------------------------------------------------------------------

  /** The image of a face of the cover under the covering map. */
  function ProjectFace(f: Face): Face
    requires f.base.Lift?
  {
    Face(f.base.over, f.degeneracies)
  }

  /**
   * The covering map is simplicial: it sends the i-th face of (s, g) to the
   * i-th face of s, degeneracies included, and the base point of the cover
   * to the base point of X.
   */
  lemma {:induction false} CoveringMapIsSimplicial(X: SSet, character: map<Simplex, nat>, G: Group, C: Cover,
                                                   s: Simplex, g: nat)
    requires FacesFit(X) && IsPointedAtVertex(X) && IsGroupTable(G)
    requires forall t :: t in character ==> character[t] < G.order
    requires IsCoverOf(X, character, G, C)
    requires s in X.faces && g < G.order
    ensures Lift(s, g) in C.space.faces && C.projection[Lift(s, g)] == s
    ensures |C.space.faces[Lift(s, g)]| == |X.faces[s]|
    ensures forall i :: 0 <= i < |X.faces[s]| ==>
              C.space.faces[Lift(s, g)][i].base.Lift? && ProjectFace(C.space.faces[Lift(s, g)][i]) == X.faces[s][i]
    ensures C.space.basePoint.Some? && C.space.basePoint.value in C.projection
    ensures C.projection[C.space.basePoint.value] == X.basePoint.value
  {
    assert CellBuilt(X, character, G, s, g, C.space.faces, C.projection);
    assert CellBuilt(X, character, G, X.basePoint.value, G.one, C.space.faces, C.projection);
  }

  /**
   * An edge: face 0 of (s, g) lies over g times the character of s (the
   * given value, or 1 for an edge the character does not name), face 1
   * over g.
   */
  lemma CoverOfEdge(X: SSet, character: map<Simplex, nat>, G: Group, C: Cover, s: Simplex, g: nat)
    requires FacesFit(X) && X.basePoint.Some? && IsGroupTable(G)
    requires forall t :: t in character ==> character[t] < G.order
    requires IsCoverOf(X, character, G, C)
    requires s in X.faces && Dim(s) == 1 && g < G.order
    ensures var c := if s in character then character[s] else G.one;
            C.space.faces[Lift(s, g)] == [LiftFace(X.faces[s][0], G.mul[g][c]), LiftFace(X.faces[s][1], g)]
  {
    assert CellBuilt(X, character, G, s, g, C.space.faces, C.projection);
    var c := if s in character then character[s] else G.one;
    var last := X.faces[s][1];
    assert !IsDegenerate(last) && Dim(last.base) == 0;
    assert CharOf(X, character, G, s) == c;
  }

  /** The lifted faces of s fit its dimension and lie over simplices of X. */
  lemma LiftedFacesFit(X: SSet, G: Group, c: nat, s: Simplex, g: nat)
    requires FacesFit(X) && IsGroupTable(G) && s in X.faces && g < G.order && c < G.order
    ensures var fs := CoverFaces(X, G, c, s, g);
            && |fs| == (if Dim(s) == 0 then 0 else Dim(s) + 1)
            && forall i :: 0 <= i < |fs| ==>
                 FaceDim(fs[i]) == Dim(s) - 1 && fs[i].base.Lift? && fs[i].base.over in X.faces && fs[i].base.g < G.order
  {
  }

  /** The faces of each cell of the cover fit its dimension and are cells of the cover. */
  lemma {:induction false} CoverFacesFit(X: SSet, character: map<Simplex, nat>, G: Group, C: Cover, t: Simplex)
    requires FacesFit(X) && X.basePoint.Some? && IsGroupTable(G)
    requires forall t :: t in character ==> character[t] < G.order
    requires IsCoverOf(X, character, G, C)
    requires t in C.space.faces
    ensures |C.space.faces[t]| == (if Dim(t) == 0 then 0 else Dim(t) + 1)
    ensures forall i :: 0 <= i < |C.space.faces[t]| ==>
              FaceDim(C.space.faces[t][i]) == Dim(t) - 1 && C.space.faces[t][i].base in C.space.faces
  {
    assert CellBuilt(X, character, G, t.over, t.g, C.space.faces, C.projection);
    LiftedFacesFit(X, G, CharOf(X, character, G, t.over), t.over, t.g);
  }

  /** The cover is again a pointed simplicial set whose faces fit. */
  lemma {:induction false} CoverIsWellFormed(X: SSet, character: map<Simplex, nat>, G: Group, C: Cover)
    requires WellFormed(X) && IsPointedAtVertex(X) && IsGroupTable(G)
    requires forall t :: t in character ==> character[t] < G.order
    requires IsCoverOf(X, character, G, C)
    ensures WellFormed(C.space) && IsPointedAtVertex(C.space)
  {
    forall t | t in C.space.faces
      ensures |C.space.faces[t]| == (if Dim(t) == 0 then 0 else Dim(t) + 1)
      ensures forall i :: 0 <= i < |C.space.faces[t]| ==>
                FaceDim(C.space.faces[t][i]) == Dim(t) - 1 && C.space.faces[t][i].base in C.space.faces
    {
      CoverFacesFit(X, character, G, C, t);
    }
    CoverListed(X, character, G, C);
    assert CellBuilt(X, character, G, X.basePoint.value, G.one, C.space.faces, C.projection);
  }

  lemma {:induction false} CoverListed(X: SSet, character: map<Simplex, nat>, G: Group, C: Cover)
    requires WellFormed(X) && IsPointedAtVertex(X) && IsGroupTable(G)
    requires forall t :: t in character ==> character[t] < G.order
    requires IsCoverOf(X, character, G, C)
    ensures Listed(C.space)
  {
    forall d, k | 0 <= d < |C.space.cells| && 0 <= k < |C.space.cells[d]|
      ensures C.space.cells[d][k] in C.space.faces && Dim(C.space.cells[d][k]) == d
    {
      var t := C.space.cells[d][k];
      assert t in LiftRow(X.cells[d], G.order);
      assert t.over in X.cells[d];
    }
    forall t | t in C.space.faces
      ensures Dim(t) < |C.space.cells| && t in C.space.cells[Dim(t)]
    {
      assert t.over in X.cells[Dim(t.over)];
    }
  }

  /** The cells over s and the cells over a set of simplices. */
  function FibreSet(s: Simplex, n: nat): set<Simplex>
  {
    set g | 0 <= g < n :: Lift(s, g)
  }

  function LiftSet(S: set<Simplex>, n: nat): set<Simplex>
  {
    set s, g | s in S && 0 <= g < n :: Lift(s, g)
  }

  lemma {:induction false} FibreSetSize(s: Simplex, n: nat)
    ensures |FibreSet(s, n)| == n
  {
    if n > 0 {
      FibreSetSize(s, n - 1);
      assert FibreSet(s, n) == FibreSet(s, n - 1) + {Lift(s, n - 1)};
    }
  }

  lemma {:induction false} LiftSetSize(S: set<Simplex>, n: nat)
    ensures |LiftSet(S, n)| == |S| * n
    decreases |S|
  {
    if S != {} {
      var s :| s in S;
      var rest := S - {s};
      LiftSetSize(rest, n);
      FibreSetSize(s, n);
      assert LiftSet(S, n) == LiftSet(rest, n) + FibreSet(s, n) by {
        forall t | t in LiftSet(S, n)
          ensures t in LiftSet(rest, n) + FibreSet(s, n)
        {
          if t.over != s {
            assert t.over in rest;
          }
        }
      }
      assert LiftSet(rest, n) !! FibreSet(s, n);
      assert |S| == |rest| + 1;
      MulSucc(|rest|, n);
    }
  }

  lemma MulSucc(a: nat, n: nat)
    ensures (a + 1) * n == a * n + n
  {
  }

  /** The cover has |G| cells over each nondegenerate simplex of X, and no others. */
  lemma CoverCellCount(X: SSet, character: map<Simplex, nat>, G: Group, C: Cover)
    requires FacesFit(X) && X.basePoint.Some? && IsGroupTable(G)
    requires forall t :: t in character ==> character[t] < G.order
    requires IsCoverOf(X, character, G, C)
    ensures |Simplices(C.space)| == |Simplices(X)| * G.order
  {
    assert C.space.faces.Keys == LiftSet(X.faces.Keys, G.order);
    LiftSetSize(X.faces.Keys, G.order);
  }

  /** The translate of a cover cell or face by h: (s, g) becomes (s, h g). */
  function Translate(G: Group, h: nat, t: Simplex): Simplex
    requires IsGroupTable(G) && h < G.order && t.Lift? && t.g < G.order
  {
    Lift(t.over, G.mul[h][t.g])
  }

  /** Translating the lifted faces of s over g by h gives those over h g. */
  lemma LiftedFacesTranslate(X: SSet, G: Group, c: nat, s: Simplex, g: nat, h: nat)
    requires FacesFit(X) && IsGroupTable(G) && s in X.faces && g < G.order && c < G.order && h < G.order
    ensures var fs := CoverFaces(X, G, c, s, g);
            var ts := CoverFaces(X, G, c, s, G.mul[h][g]);
            && |ts| == |fs|
            && forall i :: 0 <= i < |fs| ==>
                 fs[i].base.Lift? && fs[i].base.g < G.order &&
                 ts[i] == Face(Translate(G, h, fs[i].base), fs[i].degeneracies)
  {
    assert AssociativeAt(G, h, g, c);
  }

  /**
   * G acts on the cover by deck transformations: translating by h commutes
   * with taking faces, and with the covering map.
   */
  lemma {:induction false} DeckTransformation(X: SSet, character: map<Simplex, nat>, G: Group, C: Cover,
                                              h: nat, s: Simplex, g: nat)
    requires FacesFit(X) && X.basePoint.Some? && IsGroupTable(G)
    requires forall t :: t in character ==> character[t] < G.order
    requires IsCoverOf(X, character, G, C)
    requires s in X.faces && g < G.order && h < G.order
    ensures var fs := C.space.faces[Lift(s, g)];
            var ts := C.space.faces[Translate(G, h, Lift(s, g))];
            && |ts| == |fs|
            && forall i :: 0 <= i < |fs| ==>
                 fs[i].base.Lift? && fs[i].base.g < G.order &&
                 ts[i] == Face(Translate(G, h, fs[i].base), fs[i].degeneracies)
    ensures C.projection[Translate(G, h, Lift(s, g))] == C.projection[Lift(s, g)]
  {
    assert CellBuilt(X, character, G, s, g, C.space.faces, C.projection);
    assert CellBuilt(X, character, G, s, G.mul[h][g], C.space.faces, C.projection);
    LiftedFacesTranslate(X, G, CharOf(X, character, G, s), s, g, h);
  }
}
