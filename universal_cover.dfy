/**
 * The presentation of the fundamental group read off the 2-skeleton of a
 * pointed simplicial set, with a spanning tree of its 1-skeleton graph
 * given.  The generators are the edges outside the tree.  Each 2-simplex
 * contributes the relation z0 * z1^-1 * z2, where z_i is the generator of
 * its i-th face, or 1 for a face in the tree, a degenerate face, or an
 * edge outside the graph.  The character sends each generator edge to its
 * generator and every other edge of the graph to 1.
 */
module UniversalCover {
  import opened SimplicialSets

  /** A letter of a word in the free group: a generator or its inverse. */
  datatype Letter = Gen(i: nat) | Inv(i: nat)

  type Word = seq<Letter>

  function InverseLetter(l: Letter): Letter
  {
    match l
    case Gen(i) => Inv(i)
    case Inv(i) => Gen(i)
  }

  /** The inverse of a word: the letters reversed and inverted. */
  function InverseWord(w: Word): (r: Word)
    ensures |r| == |w|
    ensures forall k :: 0 <= k < |w| ==> r[k] == InverseLetter(w[|w| - 1 - k])
  {
    if w == [] then [] else InverseWord(w[1..]) + [InverseLetter(w[0])]
  }

  lemma InverseWordInvolutive(w: Word)
    ensures InverseWord(InverseWord(w)) == w
  {
    var r := InverseWord(InverseWord(w));
    forall k | 0 <= k < |w|
      ensures r[k] == w[k]
    {
      assert InverseLetter(InverseLetter(w[k])) == w[k];
    }
  }

  /** A finitely presented group: generators e0 .. e(n-1) and relator words. */
  datatype Presentation = Presentation(generators: nat, relations: seq<Word>)

  predicate Distinct(s: seq<Simplex>)
  {
    forall i, j :: 0 <= i < j < |s| ==> s[i] != s[j]
  }

  /** The edges of the graph outside the spanning tree, in the graph's order. */
  function NonTreeEdges(edges: seq<Simplex>, tree: seq<Simplex>): (gens: seq<Simplex>)
    ensures forall e :: e in gens <==> e in edges && e !in tree
    ensures Distinct(edges) ==> Distinct(gens)
    ensures |gens| <= |edges|
  {
    if edges == [] then []
    else
      var rest := NonTreeEdges(edges[1..], tree);
      assert forall e :: e in edges <==> e == edges[0] || e in edges[1..];
      if edges[0] in tree then rest
      else
        assert Distinct(edges) ==> edges[0] !in edges[1..] by {
          forall j | 0 <= j < |edges[1..]|
            ensures Distinct(edges) ==> edges[1..][j] != edges[0]
          {
            assert edges[1..][j] == edges[j + 1];
          }
        }
        [edges[0]] + rest
  }

  /** The position of x in s. */
  function IndexOf(s: seq<Simplex>, x: Simplex): (i: nat)
    requires x in s
    ensures i < |s| && s[i] == x
  {
    if s[0] == x then 0 else 1 + IndexOf(s[1..], x)
  }

  lemma IndexOfDistinct(s: seq<Simplex>, i: nat)
    requires Distinct(s) && i < |s|
    ensures IndexOf(s, s[i]) == i
  {
  }

  /**
   * The word z_i of a face of a 2-simplex: 1 for a face in the tree, a
   * degenerate face, or an edge outside the graph; otherwise its generator.
   */
  function FaceWord(f: Face, edges: seq<Simplex>, tree: seq<Simplex>): (w: Word)
    ensures |w| <= 1
    ensures w != [] <==> !IsDegenerate(f) && f.base in edges && f.base !in tree
  {
    if !IsDegenerate(f) && f.base in tree then []
    else if IsDegenerate(f) then []
    else if f.base in edges then [Gen(IndexOf(NonTreeEdges(edges, tree), f.base))]
    else []
  }

  /** The relation z0 * z1^-1 * z2 of a 2-simplex with faces fs. */
  function Relation(fs: seq<Face>, edges: seq<Simplex>, tree: seq<Simplex>): Word
    requires |fs| == 3
  {
    FaceWord(fs[0], edges, tree) + InverseWord(FaceWord(fs[1], edges, tree)) + FaceWord(fs[2], edges, tree)
  }

  /** The 2-simplices of X (none when X has dimension below 2). */
  function TwoCells(X: SSet): seq<Simplex>
  {
    if |X.cells| > 2 then X.cells[2] else []
  }

  /** Every 2-simplex has its three faces recorded. */
  ghost predicate TrianglesHaveFaces(X: SSet)
  {
    forall k :: 0 <= k < |TwoCells(X)| ==> TwoCells(X)[k] in X.faces && |X.faces[TwoCells(X)[k]]| == 3
  }

  lemma WellFormedTriangles(X: SSet)
    requires WellFormed(X)
    ensures TrianglesHaveFaces(X)
  {
    forall k | 0 <= k < |TwoCells(X)|
      ensures TwoCells(X)[k] in X.faces && |X.faces[TwoCells(X)[k]]| == 3
    {
      assert X.cells[2][k] in X.faces && Dim(X.cells[2][k]) == 2;
    }
  }

  /** The relations contributed by the first k 2-simplices, in their order. */
  function Relations(X: SSet, edges: seq<Simplex>, tree: seq<Simplex>, k: nat): (rels: seq<Word>)
    requires TrianglesHaveFaces(X) && k <= |TwoCells(X)|
    ensures |rels| == k
  {
    seq(k, i requires 0 <= i < k => Relation(X.faces[TwoCells(X)[i]], edges, tree))
  }

  /** The loop over the 2-simplices, appending z0 * z1^-1 * z2 for each. */
  method CollectRelations(X: SSet, edges: seq<Simplex>, tree: seq<Simplex>) returns (rels: seq<Word>)
    requires TrianglesHaveFaces(X)
    ensures rels == Relations(X, edges, tree, |TwoCells(X)|)
  {
    rels := [];
    var twoCells := TwoCells(X);
    for k := 0 to |twoCells|
      invariant rels == Relations(X, edges, tree, k)
    {
      var fs := X.faces[twoCells[k]];
      var z0 := FaceWord(fs[0], edges, tree);
      var z1 := FaceWord(fs[1], edges, tree);
      var z2 := FaceWord(fs[2], edges, tree);
      rels := rels + [z0 + InverseWord(z1) + z2];
      assert rels == Relations(X, edges, tree, k + 1) by {
        forall i | 0 <= i < k + 1
          ensures rels[i] == Relations(X, edges, tree, k + 1)[i]
        {
          if i < k {
            assert rels[i] == Relations(X, edges, tree, k)[i];
          }
        }
      }
    }
  }

  /**
   * The character: each generator edge to its generator, then every other
   * edge of the graph to 1.
   */
  method BuildCharacter(edges: seq<Simplex>, gens: seq<Simplex>) returns (chars: map<Simplex, Word>)
    requires forall e :: e in gens ==> e in edges
    requires Distinct(gens)
    ensures forall e :: e in chars <==> e in edges
    ensures forall i :: 0 <= i < |gens| ==> chars[gens[i]] == [Gen(i)]
    ensures forall e :: e in edges && e !in gens ==> chars[e] == []
  {
    chars := map[];
    for i := 0 to |gens|
      invariant forall e :: e in chars <==> e in gens[..i]
      invariant forall j :: 0 <= j < i ==> chars[gens[j]] == [Gen(j)]
    {
      assert gens[..i + 1] == gens[..i] + [gens[i]];
      chars := chars[gens[i] := [Gen(i)]];
    }
    assert gens[..|gens|] == gens;
    for k := 0 to |edges|
      invariant forall e :: e in chars <==> e in gens || e in edges[..k]
      invariant forall j :: 0 <= j < |gens| ==> chars[gens[j]] == [Gen(j)]
      invariant forall e :: e in edges[..k] && e !in gens ==> chars[e] == []
    {
      assert edges[..k + 1] == edges[..k] + [edges[k]];
      if edges[k] !in gens {
        chars := chars[edges[k] := []];
      }
    }
    assert edges[..|edges|] == edges;
  }

  /**
   * _universal_cover_dict: the generators are the edges outside the tree,
   * the relations come from the 2-simplices, and the character is built on
   * the edges of the graph.
   */
  method UniversalCoverDict(X: SSet, edges: seq<Simplex>, tree: seq<Simplex>)
    returns (P: Presentation, chars: map<Simplex, Word>)
    requires TrianglesHaveFaces(X) && Distinct(edges)
    ensures P.generators == |NonTreeEdges(edges, tree)|
    ensures P.relations == Relations(X, edges, tree, |TwoCells(X)|)
    ensures forall e :: e in chars <==> e in edges
    ensures forall i :: 0 <= i < |NonTreeEdges(edges, tree)| ==>
              chars[NonTreeEdges(edges, tree)[i]] == [Gen(i)]
    ensures forall e :: e in edges && e in tree ==> chars[e] == []
  {
    var gens := NonTreeEdges(edges, tree);
    var rels := CollectRelations(X, edges, tree);
    P := Presentation(|gens|, rels);
    chars := BuildCharacter(edges, gens);
  }

  // ---------------------------------------------------------------------
  // What the presentation says
  // ---------------------------------------------------------------------

  /** The word the character gives a face: its value on a nondegenerate face, 1 otherwise. */
  function CharacterWord(chars: map<Simplex, Word>, f: Face): Word
  {
    if !IsDegenerate(f) && f.base in chars then chars[f.base] else []
  }

  /**
   * Each relation reads the character on the faces of its 2-simplex:
   * z0 * z1^-1 * z2 with z_i the character of face i.
   */
  lemma {:induction false} RelationsReadCharacter(X: SSet, edges: seq<Simplex>, tree: seq<Simplex>,
                                                  P: Presentation, chars: map<Simplex, Word>, k: nat)
    requires TrianglesHaveFaces(X) && Distinct(edges)
    requires P.generators == |NonTreeEdges(edges, tree)|
    requires P.relations == Relations(X, edges, tree, |TwoCells(X)|)
    requires forall e :: e in chars <==> e in edges
    requires forall i :: 0 <= i < |NonTreeEdges(edges, tree)| ==> chars[NonTreeEdges(edges, tree)[i]] == [Gen(i)]
    requires forall e :: e in edges && e in tree ==> chars[e] == []
    requires k < |TwoCells(X)|
    ensures var f := TwoCells(X)[k];
            f in X.faces && |X.faces[f]| == 3 &&
            P.relations[k] == CharacterWord(chars, X.faces[f][0])
                              + InverseWord(CharacterWord(chars, X.faces[f][1]))
                              + CharacterWord(chars, X.faces[f][2])
  {
    var f := TwoCells(X)[k];
    var gens := NonTreeEdges(edges, tree);
    forall i | 0 <= i < 3
      ensures FaceWord(X.faces[f][i], edges, tree) == CharacterWord(chars, X.faces[f][i])
    {
      var face := X.faces[f][i];
      if !IsDegenerate(face) && face.base in edges && face.base !in tree {
        var j := IndexOf(gens, face.base);
        IndexOfDistinct(gens, j);
      }
    }
  }

  /** Every letter of w names one of the generators e0 .. e(m-1). */
  predicate LettersBelow(w: Word, m: nat)
  {
    forall l :: l in w ==> l.i < m
  }

  /** The letters of z and of z^-1, for a face word z, name generators. */
  lemma FaceWordUsesGenerators(f: Face, edges: seq<Simplex>, tree: seq<Simplex>)
    ensures LettersBelow(FaceWord(f, edges, tree), |NonTreeEdges(edges, tree)|)
    ensures LettersBelow(InverseWord(FaceWord(f, edges, tree)), |NonTreeEdges(edges, tree)|)
  {
    var w := FaceWord(f, edges, tree);
    if w != [] {
      assert w == [Gen(IndexOf(NonTreeEdges(edges, tree), f.base))];
      assert InverseWord(w) == [InverseLetter(w[0])];
    }
  }

  /** The letters of one relation name generators. */
  lemma RelationUsesGenerators(fs: seq<Face>, edges: seq<Simplex>, tree: seq<Simplex>)
    requires |fs| == 3
    ensures LettersBelow(Relation(fs, edges, tree), |NonTreeEdges(edges, tree)|)
  {
    FaceWordUsesGenerators(fs[0], edges, tree);
    FaceWordUsesGenerators(fs[1], edges, tree);
    FaceWordUsesGenerators(fs[2], edges, tree);
  }

  /** Every letter of every relation names one of the generators. */
  lemma RelationsUseGenerators(X: SSet, edges: seq<Simplex>, tree: seq<Simplex>, n: nat)
    requires TrianglesHaveFaces(X) && n <= |TwoCells(X)|
    ensures forall k :: 0 <= k < n ==> LettersBelow(Relations(X, edges, tree, n)[k], |NonTreeEdges(edges, tree)|)
  {
    forall k | 0 <= k < n
      ensures LettersBelow(Relations(X, edges, tree, n)[k], |NonTreeEdges(edges, tree)|)
    {
      RelationUsesGenerators(X.faces[TwoCells(X)[k]], edges, tree);
    }
  }

  /** With every edge of the graph in the tree, no edge is left for a generator. */
  lemma {:induction false} NoGeneratorsOutsideTree(edges: seq<Simplex>, tree: seq<Simplex>)
    requires forall e :: e in edges ==> e in tree
    ensures NonTreeEdges(edges, tree) == []
  {
    if edges != [] {
      assert edges[0] in edges;
      NoGeneratorsOutsideTree(edges[1..], tree);
    }
  }

  /**
   * A spanning tree through every edge leaves no generators, and then every
   * relation is the empty word: the presented group is trivial.
   */
  lemma TreeThroughEveryEdge(X: SSet, edges: seq<Simplex>, tree: seq<Simplex>, n: nat)
    requires TrianglesHaveFaces(X) && n <= |TwoCells(X)|
    requires forall e :: e in edges ==> e in tree
    ensures NonTreeEdges(edges, tree) == []
    ensures forall k :: 0 <= k < n ==> Relations(X, edges, tree, n)[k] == []
  {
    NoGeneratorsOutsideTree(edges, tree);
    forall k | 0 <= k < n
      ensures Relations(X, edges, tree, n)[k] == []
    {
      var fs := X.faces[TwoCells(X)[k]];
      assert FaceWord(fs[0], edges, tree) == [] && FaceWord(fs[1], edges, tree) == [] && FaceWord(fs[2], edges, tree) == [];
    }
  }
}
