/**
 * Cellular algebras whose basis is their own cellular basis: basis keys are
 * triples (mu, s, t), elements are their monomial coefficients, and the
 * cellular involution exchanges s and t.  For tensor products, the index
 * of a product of cellular basis elements is transposed from a list of
 * triples to a triple of lists.
 */
module Cellular {

  /** A key (mu, s, t) of the cellular basis. */
  datatype CellIndex<L, T> = CellIndex(mu: L, s: T, t: T)

  /** (mu, s, t) ↦ (mu, t, s). */
  function Swap<L, T>(i: CellIndex<L, T>): (j: CellIndex<L, T>)
    ensures j.mu == i.mu && j.s == i.t && j.t == i.s
  {
    CellIndex(i.mu, i.t, i.s)
  }

  lemma SwapTwice<L, T>(i: CellIndex<L, T>)
    ensures Swap(Swap(i)) == i
  {
  }

  /**
   * The cellular involution on the monomial coefficients of x: the key
   * (mu, s, t) becomes (mu, t, s) and keeps its coefficient, zero or not.
   */
  function CellularInvolution<L(==,!new), T(==,!new)>(x: map<CellIndex<L, T>, real>): (y: map<CellIndex<L, T>, real>)
    ensures forall i :: i in x <==> Swap(i) in y
    ensures forall i :: i in x ==> y[Swap(i)] == x[i]
  {
    var y := map i | i in x :: Swap(i) := x[i];
    assert forall j :: j in y ==> Swap(j) in x && y[j] == x[Swap(j)] by {
      forall j | j in y
        ensures Swap(j) in x && y[j] == x[Swap(j)]
      {
        var i :| i in x && Swap(i) == j;
        SwapTwice(i);
      }
    }
    y
  }

  /** Applying the involution twice gives back the element. */
  lemma CellularInvolutionIsInvolution<L(!new), T(!new)>(x: map<CellIndex<L, T>, real>)
    ensures CellularInvolution(CellularInvolution(x)) == x
  {
    var y := CellularInvolution(x);
    var z := CellularInvolution(y);
    forall i
      ensures i in z <==> i in x
    {
      SwapTwice(i);
      assert i in z <==> Swap(i) in y;
      assert Swap(i) in y <==> Swap(Swap(i)) in x;
    }
    forall i | i in z
      ensures z[i] == x[i]
    {
      SwapTwice(i);
      assert z[Swap(Swap(i))] == y[Swap(i)];
      assert y[Swap(i)] == x[i];
    }
  }

  /** The involution keeps the number of monomials. */
  lemma CellularInvolutionKeepsSize<L(!new), T(!new)>(x: map<CellIndex<L, T>, real>)
    ensures |CellularInvolution(x)| == |x|
  {
    var y := CellularInvolution(x);
    var swapped := set i | i in x.Keys :: Swap(i);
    assert y.Keys == swapped by {
      forall j | j in y.Keys
        ensures j in swapped
      {
        SwapTwice(j);
        assert Swap(Swap(j)) in y;
      }
    }
    SwapInjectiveImage(x.Keys);
  }

  lemma {:induction false} SwapInjectiveImage<L, T>(keys: set<CellIndex<L, T>>)
    ensures |set i | i in keys :: Swap(i)| == |keys|
    decreases |keys|
  {
    if keys != {} {
      var k :| k in keys;
      var rest := keys - {k};
      SwapInjectiveImage(rest);
      var image := set i | i in keys :: Swap(i);
      var imageRest := set i | i in rest :: Swap(i);
      assert image == imageRest + {Swap(k)};
      forall i | i in rest
        ensures Swap(i) != Swap(k)
      {
        SwapTwice(i);
        SwapTwice(k);
      }
      assert Swap(k) !in imageRest;
    }
  }

  // ---------------------------------------------------------------------
  // convert_index
  // ---------------------------------------------------------------------

  /** The first, second and third components of a list of triples. */
  function Shapes<L, T>(i: seq<CellIndex<L, T>>): (mu: seq<L>)
    ensures |mu| == |i| && forall k :: 0 <= k < |i| ==> mu[k] == i[k].mu
  {
    seq(|i|, k requires 0 <= k < |i| => i[k].mu)
  }

  function Firsts<L, T>(i: seq<CellIndex<L, T>>): (s: seq<T>)
    ensures |s| == |i| && forall k :: 0 <= k < |i| ==> s[k] == i[k].s
  {
    seq(|i|, k requires 0 <= k < |i| => i[k].s)
  }

  function Seconds<L, T>(i: seq<CellIndex<L, T>>): (t: seq<T>)
    ensures |t| == |i| && forall k :: 0 <= k < |i| ==> t[k] == i[k].t
  {
    seq(|i|, k requires 0 <= k < |i| => i[k].t)
  }

  /** The list of triples from three lists of the same length. */
  function Zip3<L, T>(mu: seq<L>, s: seq<T>, t: seq<T>): (i: seq<CellIndex<L, T>>)
    requires |mu| == |s| == |t|
    ensures |i| == |mu|
  {
    seq(|mu|, k requires 0 <= k < |mu| => CellIndex(mu[k], s[k], t[k]))
  }

  /** Transposing and transposing back gives the index list again. */
  lemma UnzipZip<L, T>(i: seq<CellIndex<L, T>>)
    ensures Zip3(Shapes(i), Firsts(i), Seconds(i)) == i
  {
  }

  /**
   * convert_index: the loop appending to mu, s and t, then the triple
   * (mu, C(s), C(t)), where toCell(mu, ·) stands for the cell module
   * indices C of the shape mu.
   */
  method ConvertIndex<L, T, U>(i: seq<CellIndex<L, T>>, toCell: (seq<L>, seq<T>) -> U)
    returns (r: CellIndex<seq<L>, U>)
    ensures r == CellIndex(Shapes(i), toCell(Shapes(i), Firsts(i)), toCell(Shapes(i), Seconds(i)))
  {
    var mu: seq<L> := [];
    var s: seq<T> := [];
    var t: seq<T> := [];
    for k := 0 to |i|
      invariant mu == Shapes(i[..k]) && s == Firsts(i[..k]) && t == Seconds(i[..k])
    {
      assert i[..k + 1] == i[..k] + [i[k]];
      mu := mu + [i[k].mu];
      s := s + [i[k].s];
      t := t + [i[k].t];
    }
    assert i[..|i|] == i;
    r := CellIndex(mu, toCell(mu, s), toCell(mu, t));
  }

  /** Converting the swapped triples swaps the converted s and t. */
  lemma ConvertIndexCommutesWithSwap<L, T, U>(i: seq<CellIndex<L, T>>, toCell: (seq<L>, seq<T>) -> U)
    ensures var swapped := seq(|i|, k requires 0 <= k < |i| => Swap(i[k]));
            CellIndex(Shapes(swapped), toCell(Shapes(swapped), Firsts(swapped)), toCell(Shapes(swapped), Seconds(swapped)))
            == Swap(CellIndex(Shapes(i), toCell(Shapes(i), Firsts(i)), toCell(Shapes(i), Seconds(i))))
  {
    var swapped := seq(|i|, k requires 0 <= k < |i| => Swap(i[k]));
    assert Shapes(swapped) == Shapes(i);
    assert Firsts(swapped) == Seconds(i);
    assert Seconds(swapped) == Firsts(i);
  }
}
