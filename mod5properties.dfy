/**
 * Properties of the mod-5 family: the (J - 1) factor of the tables and
 * their values at J = 1, the degenerate cases a = 0 and b = 0, the binomial
 * row at J = 0, and the integrality of the scaled coefficients.
 */
module Mod5Properties {
  import opened Results
  import opened Mod5Family
  import FiniteAlgebra

  // ---------------------------------------------------------------------
  // The (J - 1) factor and the values at J = 1
  // ---------------------------------------------------------------------

  lemma {:induction false} PowZero(n: nat)
    requires n >= 1
    ensures Pow(0.0, n) == 0.0
  {
    if n > 1 {
      PowZero(n - 1);
    }
  }

  /** Every alpha[k] with k >= 2 has the factor (J - 1). */
  lemma AlphaHasJMinusOneFactor()
    ensures forall k :: 2 <= k < 21 ==> Lookup(AlphaTable, k).power >= 1
  {
  }

  /** Every beta[k] with k >= 2 has the factor (J - 1). */
  lemma BetaHasJMinusOneFactor()
    ensures forall k :: 2 <= k < 31 ==> Lookup(BetaTable, k).power >= 1
  {
  }

  /** An entry with the factor (J - 1) vanishes at J = 1. */
  lemma EntryAtJOne(e: Entry)
    requires e.power >= 1
    ensures EntryEval(e, 1.0) == 0.0
  {
    PowZero(e.power);
  }

  /** At J = 1, alpha is 1, 0, 0, ..., 0. */
  lemma AlphaAtJOne()
    ensures Alpha(1.0) == [1.0, 0.0] + seq(19, _ => 0.0)
  {
    AlphaHasJMinusOneFactor();
    forall k | 2 <= k < 21
      ensures Alpha(1.0)[k] == 0.0
    {
      EntryAtJOne(Lookup(AlphaTable, k));
    }
  }

  /** At J = 1, beta is 1, 30, 0, ..., 0. */
  lemma BetaAtJOne()
    ensures Beta(1.0) == [1.0, 30.0] + seq(29, _ => 0.0)
  {
    BetaHasJMinusOneFactor();
    forall k | 2 <= k < 31
      ensures Beta(1.0)[k] == 0.0
    {
      EntryAtJOne(Lookup(BetaTable, k));
    }
  }

  // ---------------------------------------------------------------------
  // The cases a = 0 and b = 0
  // ---------------------------------------------------------------------

  lemma PowSmall(x: real)
    ensures Pow(x, 2) == x * x && Pow(x, 3) == x * x * x
  {
    assert Pow(x, 1) == x;
  }

  /** With b = 0 and a != 0, J = 1: c2 is the constant a and c3 vanishes. */
  lemma CoefficientsAtBZero(a: real)
    requires a != 0.0
    ensures J(a, 0.0) == Ok(1.0)
    ensures C2C3(a, 0.0) == Ok(([a] + seq(20, _ => 0.0), seq(31, _ => 0.0)))
  {
    PowSmall(a);
    PowSmall(0.0);
    assert a * a != 0.0;
    assert Pow(a, 3) != 0.0;
    assert JDenominator(a, 0.0) == 4.0 * Pow(a, 3);
    Quotient(1.0, 4.0 * Pow(a, 3), 4.0 * Pow(a, 3));
    AlphaAtJOne();
    BetaAtJOne();
    var c2 := FiniteAlgebra.Scale(a, Alpha(1.0));
    assert c2 == [a] + seq(20, _ => 0.0);
    assert FiniteAlgebra.Scale(0.0, Beta(1.0)) == seq(31, _ => 0.0);
  }

  /** With a = 0 and b != 0, J = 0 and c2 vanishes. */
  lemma CoefficientsAtAZero(b: real)
    requires b != 0.0
    ensures J(0.0, b) == Ok(0.0)
    ensures C2C3(0.0, b) == Ok((seq(21, _ => 0.0), FiniteAlgebra.Scale(b, Beta(0.0))))
  {
    PowSmall(b);
    PowSmall(0.0);
    assert b * b != 0.0;
    assert FiniteAlgebra.Scale(0.0, Alpha(0.0)) == seq(21, _ => 0.0);
  }

  // ---------------------------------------------------------------------
  // J = 0: beta is the row of binomial coefficients C(30, k)
  // ---------------------------------------------------------------------

  /** C(n, k) = n (n - 1) ... (n - k + 1) / k!, one factor at a time. */
  function Binomial(n: nat, k: nat): real
  {
    if k == 0 then 1.0 else Binomial(n, k - 1) * (n - k + 1) as real / k as real
  }

  lemma CastProduct(x: int, y: int)
    ensures (x * y) as real == x as real * y as real
  {
  }

  lemma {:induction false} PowMinusOne(n: nat)
    ensures Pow(-1.0, n) == if n % 2 == 0 then 1.0 else -1.0
  {
    if n > 0 {
      PowMinusOne(n - 1);
    }
  }

  lemma {:induction false} ConstantTermsAtZero(fs: seq<seq<int>>)
    ensures ProductEval(fs, 0.0) == ConstantTerms(fs) as real
  {
    if fs != [] {
      ConstantTermsAtZero(fs[1..]);
      var c := if fs[0] == [] then 0 else fs[0][0];
      assert PolyEval(fs[0], 0.0) == c as real;
      CastProduct(c, ConstantTerms(fs[1..]));
    }
  }

  /** At J = 0 an entry is its scale, the sign of (-1)^power and its constant terms. */
  lemma EntryAtZero(e: Entry)
    ensures EntryEval(e, 0.0) == ValueAtZero(e) as real
  {
    PowMinusOne(e.power);
    ConstantTermsAtZero(e.factors);
    var sign := if e.power % 2 == 0 then 1 else -1;
    CastProduct(e.scale, sign);
    CastProduct(e.scale * sign, ConstantTerms(e.factors));
  }

  lemma Quotient(x: real, y: real, c: real)
    requires c != 0.0 && x * c == y
    ensures x == y / c
  {
  }

  /** The binomial recurrence row[i] i = row[i - 1] (n - i + 1) at position i. */
  predicate RecurrenceAt(row: seq<real>, n: nat, i: nat)
    requires 1 <= i < |row|
  {
    row[i] * i as real == row[i - 1] * (n - i + 1) as real
  }

  /** A row starting at 1 and following the recurrence is the binomial row. */
  lemma {:induction false} BinomialRow(row: seq<real>, n: nat, k: nat)
    requires |row| == n + 1 && k <= n && row[0] == 1.0
    requires forall i :: 1 <= i <= n ==> RecurrenceAt(row, n, i)
    ensures row[k] == Binomial(n, k)
  {
    if k > 0 {
      var previous, factor, kr := row[k - 1], (n - k + 1) as real, k as real;
      assert previous == Binomial(n, k - 1) by {
        BinomialRow(row, n, k - 1);
      }
      assert row[k] * kr == previous * factor by {
        assert RecurrenceAt(row, n, k);
      }
      Quotient(row[k], previous * factor, kr);
    }
  }

  /**
   * A row of entries whose values at J = 0 start at 1 and follow the
   * binomial recurrence v[k] k = v[k - 1] (n - k + 1) is the binomial row.
   */
  lemma RowAtZeroIsBinomial(es: seq<Entry>, n: nat)
    requires |es| == n + 1 && ValueAtZero(es[0]) == 1
    requires forall k :: 1 <= k <= n ==> ValueAtZero(es[k]) * k == ValueAtZero(es[k - 1]) * (n - k + 1)
    ensures Evaluate(es, 0.0) == seq(n + 1, k requires 0 <= k <= n => Binomial(n, k))
  {
    var row := Evaluate(es, 0.0);
    forall i | 0 <= i <= n
      ensures row[i] == ValueAtZero(es[i]) as real
    {
      EntryAtZero(es[i]);
    }
    forall i | 1 <= i <= n
      ensures RecurrenceAt(row, n, i)
    {
      CastProduct(ValueAtZero(es[i]), i);
      CastProduct(ValueAtZero(es[i - 1]), n - i + 1);
    }
    forall k | 0 <= k <= n
      ensures row[k] == Binomial(n, k)
    {
      BinomialRow(row, n, k);
    }
  }

  /** At J = 0, beta[k] = C(30, k): beta(t) is (1 + t)^30. */
  lemma BetaAtJZero()
    ensures Beta(0.0) == seq(31, k requires 0 <= k < 31 => Binomial(30, k))
  {
    var es := Entries(BetaTable);
    assert ValueAtZero(es[0]) == 1;
    BetaTableRecurrence();
    RowAtZeroIsBinomial(es, 30);
  }

  /** The values of beta at J = 0 follow the binomial recurrence for n = 30. */
  lemma BetaTableRecurrence()
    ensures forall k :: 1 <= k <= 30 ==>
              ValueAtZero(Lookup(BetaTable, k)) * k == ValueAtZero(Lookup(BetaTable, k - 1)) * (30 - k + 1)
  {
    BetaRecurrenceLow();
    BetaRecurrenceMiddle();
    BetaRecurrenceHigh();
  }

  lemma BetaRecurrenceLow()
    ensures forall k :: 1 <= k <= 10 ==>
              ValueAtZero(Lookup(BetaTable, k)) * k == ValueAtZero(Lookup(BetaTable, k - 1)) * (30 - k + 1)
  {
  }

  lemma BetaRecurrenceMiddle()
    ensures forall k :: 11 <= k <= 20 ==>
              ValueAtZero(Lookup(BetaTable, k)) * k == ValueAtZero(Lookup(BetaTable, k - 1)) * (30 - k + 1)
  {
  }

  lemma BetaRecurrenceHigh()
    ensures forall k :: 21 <= k <= 30 ==>
              ValueAtZero(Lookup(BetaTable, k)) * k == ValueAtZero(Lookup(BetaTable, k - 1)) * (30 - k + 1)
  {
  }

  // ---------------------------------------------------------------------
  // The scaled coefficients are integers
  // ---------------------------------------------------------------------

  lemma IntegerProduct(x: real, y: real)
    requires IsInteger(x) && IsInteger(y)
    ensures IsInteger(x * y)
  {
    var m: int :| x == AsReal(m);
    var n: int :| y == AsReal(n);
    CastProduct(m, n);
    assert x * y == AsReal(m * n);
  }

  lemma SameInteger(x: real, y: real)
    requires IsInteger(x) && x == y
    ensures IsInteger(y)
  {
    var i: int :| x == AsReal(i);
    assert y == AsReal(i);
  }

  lemma CastIsInteger(i: int)
    ensures IsInteger(i as real)
  {
    assert i as real == AsReal(i);
  }

  lemma {:induction false} NatPowIsInteger(d: nat, n: nat)
    ensures IsInteger(Pow(d as real, n))
  {
    var x: real := d as real;
    if n > 0 {
      var p := Pow(x, n - 1);
      NatPowIsInteger(d, n - 1);
      CastIsInteger(d);
      IntegerProduct(x, p);
      assert Pow(x, n) == x * p;
      SameInteger(x * p, Pow(x, n));
    } else {
      CastIsInteger(1);
    }
  }

  /** d^n x = (x e) (d / e) d^(n - 1) when e divides d. */
  lemma ScaleFactor(x: real, e: Positive, d: Positive, n: nat)
    requires n >= 1 && Divides(e, d)
    ensures Pow(d as real, n) * x == (x * e as real) * ((d / e) as real * Pow(d as real, n - 1))
  {
    var q := d / e;
    DividesQuotient(e, d);
    CastProduct(q, e);
    var qr: real, er: real, dr: real := q as real, e as real, d as real;
    var rest := Pow(dr, n - 1);
    assert dr == qr * er;
    assert Pow(dr, n) == dr * rest;
  }

  /** If e clears x and e divides d, then d^n clears x for n >= 1. */
  lemma ScaledIsInteger(x: real, e: Positive, d: Positive, n: nat)
    requires n >= 1 && IsInteger(x * e as real) && Divides(e, d)
    ensures IsInteger(Pow(d as real, n) * x)
  {
    var cleared, quotient, rest := x * e as real, (d / e) as real, Pow(d as real, n - 1);
    NatPowIsInteger(d, n - 1);
    CastIsInteger(d / e);
    ScaleFactor(x, e, d, n);
    IntegerTriple(cleared, quotient, rest, Pow(d as real, n) * x);
  }

  /** A product of three integers is an integer. */
  lemma IntegerTriple(a: real, b: real, c: real, y: real)
    requires IsInteger(a) && IsInteger(b) && IsInteger(c) && y == a * (b * c)
    ensures IsInteger(y)
  {
    IntegerProduct(b, c);
    IntegerProduct(a, b * c);
  }

  /**
   * Scaling by d^n, n >= 1, turns a polynomial whose coefficients den
   * clears into one with integer coefficients when every den(c[k])
   * divides d.
   */
  lemma ScaledPolynomialIsIntegral(c: seq<real>, den: real -> Positive, d: Positive, n: nat)
    requires n >= 1
    requires forall k :: 0 <= k < |c| ==> Clears(den, c[k]) && Divides(den(c[k]), d)
    ensures forall k :: 0 <= k < |c| ==> IsInteger(FiniteAlgebra.Scale(Pow(AsReal(d), n), c)[k])
  {
    var scaled := FiniteAlgebra.Scale(Pow(AsReal(d), n), c);
    forall k | 0 <= k < |c|
      ensures IsInteger(scaled[k])
    {
      ScaledIsInteger(c[k], den(c[k]), d, n);
    }
  }

  /**
   * Scaling by d^4 and d^6, d the common denominator, turns polynomials
   * whose coefficients den clears into polynomials with integer
   * coefficients.
   */
  lemma ScaledPolynomialsAreIntegral(c2: seq<real>, c3: seq<real>, den: real -> Positive)
    requires forall k :: 0 <= k < |c2| ==> Clears(den, c2[k])
    requires forall k :: 0 <= k < |c3| ==> Clears(den, c3[k])
    ensures var d := AsReal(CommonDenominator(den, c2, c3));
            && (forall k :: 0 <= k < |c2| ==> IsInteger(FiniteAlgebra.Scale(Pow(d, 4), c2)[k]))
            && (forall k :: 0 <= k < |c3| ==> IsInteger(FiniteAlgebra.Scale(Pow(d, 6), c3)[k]))
  {
    var d := CommonDenominator(den, c2, c3);
    ScaledPolynomialIsIntegral(c2, den, d, 4);
    ScaledPolynomialIsIntegral(c3, den, d, 6);
  }

  /**
   * When den clears every coefficient of c2 and c3, the curve's
   * coefficients c2 d^4 and c3 d^6 are integers.
   */
  lemma Mod5FamilyIsIntegral(a: real, b: real, den: real -> Positive)
    requires C2C3(a, b).Ok?
    requires forall k :: 0 <= k < |C2C3(a, b).value.0| ==> Clears(den, C2C3(a, b).value.0[k])
    requires forall k :: 0 <= k < |C2C3(a, b).value.1| ==> Clears(den, C2C3(a, b).value.1[k])
    ensures Mod5FamilyCurve(a, b, den).Ok?
    ensures forall k :: 0 <= k < 21 ==> IsInteger(Mod5FamilyCurve(a, b, den).value.a4[k])
    ensures forall k :: 0 <= k < 31 ==> IsInteger(Mod5FamilyCurve(a, b, den).value.a6[k])
  {
    var c2, c3 := C2C3(a, b).value.0, C2C3(a, b).value.1;
    ScaledPolynomialsAreIntegral(c2, c3, den);
  }

  // ---------------------------------------------------------------------
  // mod5family(0, 1)
  // ---------------------------------------------------------------------

  lemma {:induction false} PolyDenominatorOfIntegers(den: real -> Positive, p: seq<real>)
    requires forall i :: 0 <= i < |p| ==> den(p[i]) == 1
    ensures PolyDenominator(den, p) == 1
  {
    if p != [] {
      PolyDenominatorOfIntegers(den, p[..|p| - 1]);
      assert Gcd(1, 1) == 1;
    }
  }

  /**
   * mod5family(0, 1): J = 0, c2 vanishes and the a6 coefficient is
   * (1 + t)^30, with d = 1, when the denominator of an integer is 1.
   */
  lemma Mod5FamilyAtZeroOne(den: real -> Positive)
    requires forall x :: IsInteger(x) ==> den(x) == 1
    ensures Mod5FamilyCurve(0.0, 1.0, den) ==
            Ok(Curve(seq(21, _ => 0.0), seq(31, k requires 0 <= k < 31 => Binomial(30, k))))
  {
    CoefficientsAtAZero(1.0);
    var c2, c3 := seq(21, _ => 0.0), FiniteAlgebra.Scale(1.0, Beta(0.0));
    assert c3 == Beta(0.0);
    var es := Entries(BetaTable);
    forall i | 0 <= i < 31
      ensures IsInteger(c3[i])
    {
      EntryAtZero(es[i]);
      CastIsInteger(ValueAtZero(es[i]));
    }
    CastIsInteger(0);
    PolyDenominatorOfIntegers(den, c2);
    PolyDenominatorOfIntegers(den, c3);
    assert Gcd(1, 1) == 1;
    assert CommonDenominator(den, c2, c3) == 1;
    assert Pow(1.0, 4) == 1.0 && Pow(1.0, 6) == 1.0;
    assert FiniteAlgebra.Scale(1.0, c2) == c2;
    assert FiniteAlgebra.Scale(1.0, c3) == c3;
    BetaAtJZero();
  }
}
