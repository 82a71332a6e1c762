/**
 * The family of elliptic curves whose mod-5 Galois representation agrees
 * with that of y^2 = x^3 + a x + b.  The family is parametrised by t, and
 * its coefficients are rational in t.  With J = 4a^3 / (4a^3 + 27b^2), the
 * family is y^2 = x^3 + c2 d^4 x + c3 d^6, where:
 * - c2 = a * (alpha[0] + alpha[1] t + ... + alpha[20] t^20);
 * - c3 = b * (beta[0] + ... + beta[30] t^30);
 * - alpha and beta are fixed polynomials in J;
 * - d is the least common multiple of the denominators of the
 *   coefficients of c2 and c3.
 * Numbers are exact rationals (Dafny `real`).  A polynomial is its list of
 * coefficients, constant term first.
 */
module Mod5Family {
  import opened Results
  import FiniteAlgebra

  function Pow(x: real, n: nat): real
  {
    if n == 0 then 1.0 else x * Pow(x, n - 1)
  }

  datatype Mod5Error = DivisionByZero

  /** 4a^3 + 27b^2, the denominator of J. */
  function JDenominator(a: real, b: real): real
  {
    4.0 * Pow(a, 3) + 27.0 * Pow(b, 2)
  }

  /** J = 4a^3 / (4a^3 + 27b^2); the division fails when the denominator is 0. */
  function J(a: real, b: real): (r: Result<real, Mod5Error>)
    ensures r.Err? <==> JDenominator(a, b) == 0.0
    ensures r.Ok? ==> r.value * JDenominator(a, b) == 4.0 * Pow(a, 3)
  {
    if JDenominator(a, b) == 0.0 then Err(DivisionByZero)
    else Ok(4.0 * Pow(a, 3) / JDenominator(a, b))
  }

  /**
   * A table entry as the formula writes it: scale (J - 1)^power times a
   * product of polynomials in J, each with integer coefficients listed
   * constant term first.  A constant entry has power 0 and no factors.
   */
  datatype Entry = Entry(scale: int, power: nat, factors: seq<seq<int>>)

  /** The value of the polynomial p at x. */
  function PolyEval(p: seq<int>, x: real): real
  {
    if p == [] then 0.0 else p[0] as real + x * PolyEval(p[1..], x)
  }

  function ProductEval(fs: seq<seq<int>>, x: real): real
  {
    if fs == [] then 1.0 else PolyEval(fs[0], x) * ProductEval(fs[1..], x)
  }

  function EntryEval(e: Entry, J: real): real
  {
    e.scale as real * Pow(J - 1.0, e.power) * ProductEval(e.factors, J)
  }

  /** alpha[k], as the formula gives it. */
  function AlphaEntry(k: nat): Entry
    requires k < 21
  {
    match k
    case 0 => Entry(1, 0, [])
    case 1 => Entry(0, 0, [])
    case 2 => Entry(190, 1, [])
    case 3 => Entry(-2280, 2, [])
    case 4 => Entry(855, 2, [[-17, 16]])
    case 5 => Entry(3648, 3, [[17, -9]])
    case 6 => Entry(11400, 3, [[17, -8]])
    case 7 => Entry(-27360, 4, [[17, 26]])
    case 8 => Entry(7410, 4, [[-119, -448, 432]])
    case 9 => Entry(79040, 5, [[17, 145, -108]])
    case 10 => Entry(8892, 5, [[187, 2640, -5104, 1152]])
    case 11 => Entry(98800, 6, [[-17, -388, 864]])
    case 12 => Entry(7410, 6, [[-187, -6160, 24464, -24192]])
    case 13 => Entry(54720, 7, [[17, 795, -3944, 9072]])
    case 14 => Entry(2280, 7, [[221, 13832, -103792, 554112, -373248]])
    case 15 => Entry(1824, 8, [[-119, -9842, 92608, -911520, 373248]])
    case 16 => Entry(4275, 8, [[-17, -1792, 23264, -378368, 338688]])
    case 17 => Entry(18240, 9, [[1, 133, -2132, 54000, -15552]])
    case 18 => Entry(190, 9, [[17, 2784, -58080, 2116864, -946944, 2985984]])
    case 19 => Entry(360, 10, [[-1, 28, -1152], [1, 228, 176, 1728]])
    case _  => Entry(1, 10, [[-19, -4560, 144096, -9859328, -8798976, -226934784, 429981696]])
  }

  /** beta[k], as the formula gives it. */
  function BetaEntry(k: nat): Entry
    requires k < 31
  {
    match k
    case 0 => Entry(1, 0, [])
    case 1 => Entry(30, 0, [])
    case 2 => Entry(-435, 1, [])
    case 3 => Entry(580, 1, [[-7, 9]])
    case 4 => Entry(3915, 2, [[7, -8]])
    case 5 => Entry(1566, 2, [[91, -78, 48]])
    case 6 => Entry(-84825, 3, [[7, 16]])
    case 7 => Entry(156600, 3, [[-13, -91, 92]])
    case 8 => Entry(450225, 4, [[13, 208, -144]])
    case 9 => Entry(100050, 4, [[143, 4004, -5632, 1728]])
    case 10 => Entry(30015, 5, [[-1001, -45760, 44880, -6912]])
    case 11 => Entry(600300, 5, [[-91, -6175, 9272, -2736]])
    case 12 => Entry(950475, 6, [[91, 8840, -7824]])
    case 13 => Entry(17108550, 6, [[7, 926, -1072, 544]])
    case 14 => Entry(145422675, 7, [[-1, -176, 48, -384]])
    case 15 => Entry(155117520, 8, [[1, 228, 176, 1728]])
    case 16 => Entry(145422675, 8, [[1, 288, 288, 5120, -6912]])
    case 17 => Entry(17108550, 8, [[7, 2504, 3584, 93184, -283392, 165888]])
    case 18 => Entry(950475, 9, [[-91, -39936, -122976, -2960384, 11577600, -5971968]])
    case 19 => Entry(600300, 9, [[-91, -48243, -191568, -6310304, 40515072, -46455552, 11943936]])
    case 20 => Entry(30015, 10, [[1001, 634920, 3880800, 142879744, -1168475904, 1188919296, -143327232]])
    case 21 => Entry(100050, 10, [[143, 107250, 808368, 38518336, -451953408, 757651968, -367276032]])
    case 22 => Entry(450225, 11, [[-13, -11440, -117216, -6444800, 94192384, -142000128, 95551488]])
    case 23 => Entry(156600, 11, [[-13, -13299, -163284, -11171552, 217203840, -474406656, 747740160, -429981696]])
    case 24 => Entry(6525, 12, [[91, 107536, 1680624, 132912128, -3147511552, 6260502528, -21054173184, 10319560704]])
    case 25 => Entry(1566, 12, [[91, 123292, 2261248, 216211904, -6487793920, 17369596928, -97854234624, 96136740864, -20639121408]])
    case 26 => Entry(3915, 13, [[-7, -10816, -242352, -26620160, 953885440, -2350596096, 26796552192, -13329432576]])
    case 27 => Entry(580, 13, [[-7, -12259, -317176, -41205008, 1808220160, -5714806016, 93590857728, -70131806208, -36118462464]])
    case 28 => Entry(435, 14, [[1, 1976, 60720, 8987648, -463120640, 1359157248, -40644882432, -5016453120, 61917364224]])
    case 29 => Entry(30, 14, [[1, 2218, 77680, 13365152, -822366976, 2990693888, -118286217216, -24514928640, 509958291456, -743008370688]])
    case _  => Entry(1, 15, [[-1, -2480, -101040, -19642496, 1399023872, -4759216128, 315623485440, 471904911360, -2600529297408, 8916100448256]])
  }

  datatype Table = AlphaTable | BetaTable

  function Size(t: Table): nat
  {
    match t
    case AlphaTable => 21
    case BetaTable => 31
  }

  function Lookup(t: Table, k: nat): Entry
    requires k < Size(t)
  {
    match t
    case AlphaTable => AlphaEntry(k)
    case BetaTable => BetaEntry(k)
  }

  /** The entries of a table, in order. */
  function Entries(t: Table): (es: seq<Entry>)
    ensures |es| == Size(t) && forall k :: 0 <= k < Size(t) ==> es[k] == Lookup(t, k)
  {
    seq(Size(t), k requires 0 <= k < Size(t) => Lookup(t, k))
  }

  /** The entries evaluated at J. */
  function Evaluate(es: seq<Entry>, J: real): (v: seq<real>)
    ensures |v| == |es| && forall k :: 0 <= k < |es| ==> v[k] == EntryEval(es[k], J)
  {
    seq(|es|, k requires 0 <= k < |es| => EntryEval(es[k], J))
  }

  /** The 21 coefficients alpha[0..20] at J: alpha[0] = 1 and alpha[1] = 0. */
  function Alpha(J: real): (alpha: seq<real>)
    ensures |alpha| == 21 && alpha[0] == 1.0 && alpha[1] == 0.0
  {
    Evaluate(Entries(AlphaTable), J)
  }

  /** The 31 coefficients beta[0..30] at J: beta[0] = 1 and beta[1] = 30. */
  function Beta(J: real): (beta: seq<real>)
    ensures |beta| == 31 && beta[0] == 1.0 && beta[1] == 30.0
  {
    Evaluate(Entries(BetaTable), J)
  }

  /** The curve y^2 = x^3 + a4 x + a6, with a4 and a6 polynomials in t. */
  datatype Curve = Curve(a4: seq<real>, a6: seq<real>)

  /** c2 = a alpha(t) and c3 = b beta(t), or the failure of J. */
  function C2C3(a: real, b: real): (r: Result<(seq<real>, seq<real>), Mod5Error>)
    ensures r.Err? <==> JDenominator(a, b) == 0.0
    ensures r.Ok? ==> r.value.0 == FiniteAlgebra.Scale(a, Alpha(J(a, b).value)) && r.value.1 == FiniteAlgebra.Scale(b, Beta(J(a, b).value))
  {
    match J(a, b)
    case Err(e) => Err(e)
    case Ok(j) => Ok((FiniteAlgebra.Scale(a, Alpha(j)), FiniteAlgebra.Scale(b, Beta(j))))
  }

  // ---------------------------------------------------------------------
  // Denominators
  // ---------------------------------------------------------------------

  type Positive = n: nat | n >= 1 witness 1

  function AsReal(i: int): real
  {
    i as real
  }

  /** x is an integer. */
  ghost predicate IsInteger(x: real)
  {
    exists i: int :: x == AsReal(i)
  }

  /** den(x) clears the denominator of x. */
  ghost predicate Clears(den: real -> Positive, x: real)
  {
    IsInteger(x * den(x) as real)
  }

  /** m divides n. */
  predicate Divides(m: Positive, n: nat)
  {
    n % m == 0
  }

  function Gcd(m: nat, n: nat): (g: Positive)
    requires m >= 1 || n >= 1
    decreases n
  {
    if n == 0 then m else Gcd(n, m % n)
  }

  lemma {:induction false} MulAtLeast(a: int, g: nat)
    requires a >= 1 && g >= 1
    ensures a * g >= g
    decreases a
  {
    if a > 1 {
      MulAtLeast(a - 1, g);
      assert a * g == (a - 1) * g + g;
    }
  }

  lemma NegMul(e: int, g: int)
    ensures (-e) * g == -(e * g)
  {
  }

  /** A multiple of g leaves remainder 0. */
  lemma MultipleMod(m: nat, k: nat, g: Positive)
    requires m == k * g
    ensures Divides(g, m)
  {
    var q, r := m / g, m % g;
    assert m == q * g + r && 0 <= r < g;
    var e := k - q;
    assert e * g == r;
    if e >= 1 {
      MulAtLeast(e, g);
      assert false;
    } else if e <= -1 {
      NegMul(e, g);
      MulAtLeast(-e, g);
      assert false;
    }
  }

  /** A divisor leaves an exact quotient. */
  lemma DividesQuotient(m: Positive, n: nat)
    requires Divides(m, n)
    ensures n == (n / m) * m
  {
  }

  lemma DividesTransitive(a: Positive, b: Positive, c: nat)
    requires Divides(a, b) && Divides(b, c)
    ensures Divides(a, c)
  {
    var p, q := b / a, c / b;
    DividesQuotient(a, b);
    DividesQuotient(b, c);
    assert c == (q * p) * a by {
      assert q * (p * a) == (q * p) * a;
    }
    MultipleMod(c, q * p, a);
  }

  /** Euclid's step: a common divisor of n and m % n divides m. */
  lemma DividesThroughRemainder(m: nat, n: Positive, g: Positive)
    requires Divides(g, n) && Divides(g, m % n)
    ensures Divides(g, m)
  {
    var a, b, c := m / n, n / g, (m % n) / g;
    assert n == b * g;
    assert m % n == c * g;
    assert m == a * n + m % n;
    assert a * n == (a * b) * g by {
      assert a * (b * g) == (a * b) * g;
    }
    assert m == (a * b + c) * g by {
      assert (a * b) * g + c * g == (a * b + c) * g;
    }
    MultipleMod(m, a * b + c, g);
  }

  /** Euclid's algorithm computes a common divisor. */
  lemma {:induction false} GcdDivides(m: nat, n: nat)
    requires m >= 1 || n >= 1
    ensures Divides(Gcd(m, n), m) && Divides(Gcd(m, n), n)
    decreases n
  {
    if n == 0 {
      MultipleMod(m, 1, m);
    } else {
      GcdDivides(n, m % n);
      DividesThroughRemainder(m, n, Gcd(m, n));
    }
  }

  /** Bézout's identity for Euclid's algorithm: gcd(m, n) = s m + t n for some integers s, t. */
  lemma {:induction false} GcdBezout(m: nat, n: nat) returns (s: int, t: int)
    requires m >= 1 || n >= 1
    ensures s * m + t * n == Gcd(m, n)
    decreases n
  {
    if n == 0 {
      s, t := 1, 0;
    } else {
      var s', t' := GcdBezout(n, m % n);
      var q := m / n;
      assert m % n == m - q * n;
      s, t := t', s' - t' * q;
      calc {
        s * m + t * n;
        t' * m + s' * n - t' * (q * n);
        s' * n + t' * (m - q * n);
        s' * n + t' * (m % n);
      }
    }
  }

  /** c g == k g with g positive gives c == k. */
  lemma CancelFactor(c: int, k: int, g: Positive)
    requires c * g == k * g
    ensures c == k
  {
    assert (c - k) * g == 0;
    if c - k > 0 {
      MulAtLeast(c - k, g);
    } else if c - k < 0 {
      NegMul(c - k, g);
      MulAtLeast(k - c, g);
    }
  }

  /** The least common multiple of two positive integers: m n / gcd(m, n). */
  function Lcm(m: Positive, n: Positive): (l: Positive)
    ensures Divides(m, l) && Divides(n, l)
  {
    var g := Gcd(m, n);
    GcdDivides(m, n);
    var p, q := m / g, n / g;
    assert m == p * g && n == q * g;
    assert p >= 1;
    assert p * n == q * m by {
      calc {
        p * n;
        p * (q * g);
        q * (p * g);
        q * m;
      }
    }
    MulAtLeast(p, n);
    MultipleMod(p * n, p, n);
    MultipleMod(p * n, q, m);
    p * n
  }

  /** The lcm divides every common multiple of m and n. */
  lemma LcmLeast(m: Positive, n: Positive, c: nat)
    requires Divides(m, c) && Divides(n, c)
    ensures Divides(Lcm(m, n), c)
  {
    var g := Gcd(m, n);
    GcdDivides(m, n);
    var p := m / g;
    assert m == p * g;
    var L := Lcm(m, n);
    assert L == p * n;
    var a, b := c / m, c / n;
    DividesQuotient(m, c);
    DividesQuotient(n, c);
    var s, t := GcdBezout(m, n);
    var k := s * b + t * a;
    BezoutMultiple(c, m, n, g, p, a, b, s, t);
    CancelFactor(c, k * L, g);
    if k < 0 {
      NegMul(k, L);
      MulAtLeast(-k, L);
    }
    MultipleMod(c, k, L);
  }

  /** With c = a m = b n, g = s m + t n and m = p g: c g = (s b + t a)(p n) g. */
  lemma BezoutMultiple(c: int, m: int, n: int, g: int, p: int, a: int, b: int, s: int, t: int)
    requires c == a * m && c == b * n && g == s * m + t * n && m == p * g
    ensures c * g == (s * b + t * a) * (p * n) * g
  {
    var mn := m * n;
    assert c * m == b * mn by { MulAssoc(b, n, m); }
    assert c * n == a * mn by { MulAssoc(a, m, n); }
    assert c * g == s * (c * m) + t * (c * n) by { MulSpread(c, s, m, t, n); }
    assert mn == (p * n) * g by { MulAssoc(p, g, n); MulAssoc(p, n, g); }
  }

  /** (x y) z == x (z y) == (x z) y in every arrangement needed here. */
  lemma MulAssoc(x: int, y: int, z: int)
    ensures (x * y) * z == x * (z * y) == (x * z) * y
  {
  }

  /** c (s m + t n) == s (c m) + t (c n). */
  lemma MulSpread(c: int, s: int, m: int, t: int, n: int)
    ensures c * (s * m + t * n) == s * (c * m) + t * (c * n)
  {
  }


  /**
   * The denominator of a polynomial: the lcm of the denominators den(x) of
   * its coefficients, each of which divides it.
   */
  function PolyDenominator(den: real -> Positive, p: seq<real>): (d: Positive)
    ensures forall i :: 0 <= i < |p| ==> Divides(den(p[i]), d)
  {
    if p == [] then 1
    else
      var init, last := p[..|p| - 1], p[|p| - 1];
      var d := Lcm(PolyDenominator(den, init), den(last));
      forall i | 0 <= i < |p|
        ensures Divides(den(p[i]), d)
      {
        if i < |p| - 1 {
          assert p[i] == init[i];
          DividesTransitive(den(p[i]), PolyDenominator(den, init), d);
        }
      }
      d
  }

  /** d = lcm(denominator(c2), denominator(c3)): every coefficient's denominator divides it. */
  function CommonDenominator(den: real -> Positive, c2: seq<real>, c3: seq<real>): (d: Positive)
    ensures forall i :: 0 <= i < |c2| ==> Divides(den(c2[i]), d)
    ensures forall i :: 0 <= i < |c3| ==> Divides(den(c3[i]), d)
  {
    var d2, d3 := PolyDenominator(den, c2), PolyDenominator(den, c3);
    var d := Lcm(d2, d3);
    forall i | 0 <= i < |c2|
      ensures Divides(den(c2[i]), d)
    {
      DividesTransitive(den(c2[i]), d2, d);
    }
    forall i | 0 <= i < |c3|
      ensures Divides(den(c3[i]), d)
    {
      DividesTransitive(den(c3[i]), d3, d);
    }
    d
  }

  /** The polynomial's denominator divides every common multiple of its coefficients' denominators. */
  lemma {:induction false} PolyDenominatorLeast(den: real -> Positive, p: seq<real>, D: nat)
    requires forall i :: 0 <= i < |p| ==> Divides(den(p[i]), D)
    ensures Divides(PolyDenominator(den, p), D)
    decreases |p|
  {
    if p != [] {
      var init := p[..|p| - 1];
      assert forall i :: 0 <= i < |init| ==> init[i] == p[i];
      PolyDenominatorLeast(den, init, D);
      LcmLeast(PolyDenominator(den, init), den(p[|p| - 1]), D);
    }
  }

  /** d divides every common multiple of the denominators of c2's and c3's coefficients. */
  lemma CommonDenominatorLeast(den: real -> Positive, c2: seq<real>, c3: seq<real>, D: nat)
    requires forall i :: 0 <= i < |c2| ==> Divides(den(c2[i]), D)
    requires forall i :: 0 <= i < |c3| ==> Divides(den(c3[i]), D)
    ensures Divides(CommonDenominator(den, c2, c3), D)
  {
    PolyDenominatorLeast(den, c2, D);
    PolyDenominatorLeast(den, c3, D);
    LcmLeast(PolyDenominator(den, c2), PolyDenominator(den, c3), D);
  }

  /**
   * mod5family: the curve with coefficients [c2 d^4, c3 d^6], where d is the
   * lcm of the denominators of c2 and c3.  `den` gives the denominator of a
   * rational number.
   */
  function Mod5FamilyCurve(a: real, b: real, den: real -> Positive): (r: Result<Curve, Mod5Error>)
    ensures r.Err? <==> JDenominator(a, b) == 0.0
    ensures r.Ok? ==>
              var c2, c3 := FiniteAlgebra.Scale(a, Alpha(J(a, b).value)), FiniteAlgebra.Scale(b, Beta(J(a, b).value));
              var d := AsReal(CommonDenominator(den, c2, c3));
              r.value == Curve(FiniteAlgebra.Scale(Pow(d, 4), c2), FiniteAlgebra.Scale(Pow(d, 6), c3))
  {
    var cs := C2C3(a, b);
    if cs.Err? then Err(cs.error)
    else
      var c2, c3 := cs.value.0, cs.value.1;
      var d := CommonDenominator(den, c2, c3);
      Ok(Curve(FiniteAlgebra.Scale(Pow(AsReal(d), 4), c2), FiniteAlgebra.Scale(Pow(AsReal(d), 6), c3)))
  }

  // ---------------------------------------------------------------------
  // Checks over the tables
  // ---------------------------------------------------------------------

  /** The value of an entry at J = 0, computed in integers from the constant terms. */
  function ValueAtZero(e: Entry): int
  {
    e.scale * (if e.power % 2 == 0 then 1 else -1) * ConstantTerms(e.factors)
  }

  function ConstantTerms(fs: seq<seq<int>>): int
  {
    if fs == [] then 1 else (if fs[0] == [] then 0 else fs[0][0]) * ConstantTerms(fs[1..])
  }


}
