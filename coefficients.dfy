/** The null-space step and the integer normaliser of balance_equation.

    sympy's Matrix.nullspace is not modelled; it enters as an oracle whose
    contract (NullspaceContract) is all the rest of the pipeline relies on:
    every basis vector is a non-zero rational vector that the matrix sends
    to zero, and an empty basis means only the zero vector does.

    The normaliser takes one such vector, multiplies it by the lcm of its
    denominators, takes absolute values and divides by the gcd of the
    results. */
module Coefficients {
  import opened Numbers
  import opened Stoichiometry

  /** A sympy Rational, num / den with den > 0 (sympy keeps it in lowest
      terms; nothing below depends on that). */
  datatype Rat = Rat(num: int, den: int)

  predicate ValidRats(v: seq<Rat>) {
    forall i :: 0 <= i < |v| ==> v[i].den > 0
  }

  ghost function Value(q: Rat): real
    requires q.den > 0
  {
    q.num as real / q.den as real
  }

  predicate NonZero(v: seq<Rat>) {
    exists i :: 0 <= i < |v| && v[i].num != 0
  }

  /** Sum of row[i] * v[i] over the columns, exactly. */
  ghost function DotR(row: seq<int>, v: seq<Rat>): real
    requires |row| == |v| && ValidRats(v)
    decreases |row|
  {
    if row == [] then 0.0
    else DotR(row[..|row| - 1], v[..|v| - 1]) + row[|row| - 1] as real * Value(v[|v| - 1])
  }

  /** The column count sympy gives a matrix built from a list of rows: the
      length of the first row, and 0 when there is no row at all. */
  function Cols(m: seq<seq<int>>): nat {
    if m == [] then 0 else |m[0]|
  }

  predicate Rectangular(m: seq<seq<int>>) {
    forall x :: 0 <= x < |m| ==> |m[x]| == Cols(m)
  }

  /** v solves m . v = 0 over the rationals. */
  ghost predicate IsNullVector(m: seq<seq<int>>, v: seq<Rat>) {
    && Rectangular(m) && |v| == Cols(m) && ValidRats(v)
    && forall x :: 0 <= x < |m| ==> DotR(m[x], v) == 0.0
  }

  /** What Matrix(m).nullspace() is relied on to return: non-zero solutions
      of m . v = 0, and none at all only when the zero vector is the only
      solution. */
  ghost predicate NullspaceContract(m: seq<seq<int>>, basis: seq<seq<Rat>>) {
    && (forall k :: 0 <= k < |basis| ==> IsNullVector(m, basis[k]) && NonZero(basis[k]))
    && (basis == [] ==> forall v :: IsNullVector(m, v) ==> !NonZero(v))
  }

  // ---------------------------------------------------------------------
  // The normaliser, step by step

  /** The denominator of each entry of the solution (app.py:53). */
  function Denominators(v: seq<Rat>): (ds: seq<nat>)
    requires ValidRats(v)
    ensures |ds| == |v| && forall i :: 0 <= i < |v| ==> ds[i] == v[i].den && ds[i] > 0
  {
    seq(|v|, i requires 0 <= i < |v| => v[i].den as nat)
  }

  /** The lcm of the denominators (app.py:54): a positive multiple of every
      denominator that divides every other common multiple. */
  function Multiple(v: seq<Rat>): (l: nat)
    requires ValidRats(v)
    ensures l > 0 && forall i :: 0 <= i < |v| ==> Divides(v[i].den, l)
    ensures forall n: nat :: (forall i :: 0 <= i < |v| ==> Divides(v[i].den, n)) ==> Divides(l, n)
  {
    var ds := Denominators(v);
    forall n: nat | forall i :: 0 <= i < |v| ==> Divides(v[i].den, n) ensures Divides(LcmAll(ds), n) {
      assert forall i :: 0 <= i < |ds| ==> Divides(ds[i], n);
    }
    LcmAll(ds)
  }

  /** int(multiple * val) for each entry: exact, as the multiple is a
      multiple of the entry's denominator. */
  function Scale(v: seq<Rat>, l: nat): seq<int>
    requires ValidRats(v)
  {
    seq(|v|, i requires 0 <= i < |v| => v[i].num * (l / v[i].den))
  }

  function AbsAll(w: seq<int>): seq<nat> {
    seq(|w|, i requires 0 <= i < |w| => if w[i] < 0 then -w[i] else w[i])
  }

  /** Each entry times the multiple, made non-negative (app.py:55). */
  function Scaled(v: seq<Rat>): seq<nat>
    requires ValidRats(v)
  {
    AbsAll(Scale(v, Multiple(v)))
  }

  /** The gcd of the scaled coefficients (app.py:57): a common divisor
      that every other common divisor divides, and at least 1 because the
      vector is not zero. */
  function Factor(v: seq<Rat>): (g: nat)
    requires ValidRats(v) && NonZero(v)
    ensures g >= 1
    ensures forall i :: 0 <= i < |v| ==> Divides(g, Scaled(v)[i])
    ensures forall d :: (forall i :: 0 <= i < |v| ==> Divides(d, Scaled(v)[i])) ==> Divides(d, g)
  {
    var i :| 0 <= i < |v| && v[i].num != 0;
    ScaledNonZero(v, i);
    forall d | forall i :: 0 <= i < |v| ==> Divides(d, Scaled(v)[i]) ensures Divides(d, GcdAll(Scaled(v))) {
      GcdAllGreatest(d, Scaled(v));
    }
    GcdAll(Scaled(v))
  }

  lemma ScaledNonZero(v: seq<Rat>, i: nat)
    requires ValidRats(v) && i < |v| && v[i].num != 0
    ensures Scaled(v)[i] > 0
  {
    var l := Multiple(v);
    var t := l / v[i].den;
    assert l == v[i].den * t;
    DivisorBound(v[i].den, l);
    assert t >= 1;
    if v[i].num > 0 {
      MulAtLeast(t, v[i].num);
      assert v[i].num * t >= t;
    } else {
      MulAtLeast(t, -v[i].num);
      assert (-v[i].num) * t >= t;
    }
  }

  /** Each scaled coefficient divided by the factor (app.py:58): the
      smallest non-negative integers proportional to the solution. */
  function Normalize(v: seq<Rat>): (coeffs: seq<nat>)
    requires ValidRats(v) && NonZero(v)
    ensures |coeffs| == |v|
    ensures GcdAll(coeffs) == 1
    ensures forall i :: 0 <= i < |v| ==> coeffs[i] * Factor(v) == Scaled(v)[i]
  {
    var cs := Scaled(v);
    var g := Factor(v);
    var coeffs := DivideAll(cs, g);
    DividedGcdIsOne(cs, g, coeffs);
    coeffs
  }

  /** Each entry divided by a common divisor g; nothing is lost. */
  function DivideAll(cs: seq<nat>, g: nat): (ds: seq<nat>)
    requires g >= 1 && forall i :: 0 <= i < |cs| ==> Divides(g, cs[i])
    ensures |ds| == |cs| && forall i :: 0 <= i < |cs| ==> ds[i] * g == cs[i]
  {
    var ds := seq(|cs|, i requires 0 <= i < |cs| => cs[i] / g);
    forall i | 0 <= i < |cs| ensures ds[i] * g == cs[i] {
      ExactQuotient(cs[i], g);
    }
    ds
  }

  lemma ExactQuotient(c: int, g: int)
    requires Divides(g, c)
    ensures (c / g) * g == c
  {
  }

  /** Dividing a list by its gcd leaves a list whose gcd is 1. */
  lemma DividedGcdIsOne(cs: seq<nat>, g: nat, ds: seq<nat>)
    requires |cs| == |ds| > 0 && g >= 1 && g == GcdAll(cs)
    requires forall i :: 0 <= i < |cs| ==> ds[i] * g == cs[i]
    ensures GcdAll(ds) == 1
  {
    var i :| 0 <= i < |cs| && cs[i] > 0;
    assert ds[i] > 0;
    var h := GcdAll(ds);
    forall j | 0 <= j < |cs| ensures Divides(g * h, cs[j]) {
      ScaledDivisor(g, h, ds[j], cs[j]);
    }
    MulAtLeast(g, h);
    GcdAllGreatest(g * h, cs);
    DivisorBound(g * h, g);
    FactorOfItself(g, h);
  }

  lemma ScaledDivisor(g: int, h: int, d: int, c: int)
    requires g >= 1 && Divides(h, d) && c == d * g
    ensures Divides(g * h, c)
  {
    var q := d / h;
    assert d == h * q;
    assert c == (g * h) * q;
    MulAtLeast(g, h);
    DividesProduct(g * h, q);
  }

  lemma FactorOfItself(g: int, h: int)
    requires g >= 1 && h >= 1 && g * h <= g
    ensures h == 1
  {
    if h > 1 {
      MulAtLeast(g, h - 1);
    }
  }

  /** The normalised vector is the only list with gcd 1 that is a positive
      multiple of the scaled absolute values: any other such list is it. */
  lemma NormalizeUnique(v: seq<Rat>, p: seq<nat>, a: nat, b: nat)
    requires ValidRats(v) && NonZero(v) && |p| == |v|
    requires GcdAll(p) == 1 && a >= 1 && b >= 1
    requires forall i :: 0 <= i < |v| ==> a * p[i] == b * Scaled(v)[i]
    ensures p == Normalize(v)
  {
    var c, g := Normalize(v), Factor(v);
    var i :| 0 <= i < |v| && v[i].num != 0;
    MulAtLeast(b, g);
    forall j | 0 <= j < |v| ensures a * p[j] == (b * g) * c[j] {
      ProportionalStep(a * p[j], b, g, c[j], Scaled(v)[j]);
    }
    PrimitiveUnique(p, c, a, b * g);
  }

  lemma ProportionalStep(x: int, b: int, g: int, c: int, s: int)
    requires x == b * s && c * g == s
    ensures x == (b * g) * c
  {
  }

  /** sympy may return any non-zero integer multiple of a solution; the
      printed coefficients are the same for all of them. */
  lemma NormalizeMultiple(v: seq<Rat>, k: int)
    requires ValidRats(v) && NonZero(v) && k != 0
    ensures ValidRats(Times(v, k)) && NonZero(Times(v, k))
    ensures Normalize(Times(v, k)) == Normalize(v)
  {
    var w := Times(v, k);
    var i :| 0 <= i < |v| && v[i].num != 0;
    assert w[i].num != 0 by {
      MulNonZero(v[i].num, k);
    }
    var ak: nat := if k < 0 then -k else k;
    assert Denominators(w) == Denominators(v);
    forall j | 0 <= j < |v| ensures Scaled(w)[j] == ak * Scaled(v)[j] {
      ScaledTimes(v, k, ak, j);
    }
    var c, g := Normalize(v), Factor(v);
    forall j | 0 <= j < |v| ensures (ak * g) * c[j] == 1 * Scaled(w)[j] {
      ProportionalStep(Scaled(w)[j], ak, g, c[j], Scaled(v)[j]);
    }
    MulAtLeast(ak, g);
    NormalizeUnique(w, c, ak * g, 1);
  }

  /** Every numerator multiplied by k. */
  function Times(v: seq<Rat>, k: int): (w: seq<Rat>)
    ensures |w| == |v| && forall i :: 0 <= i < |v| ==> w[i] == Rat(v[i].num * k, v[i].den)
  {
    seq(|v|, i requires 0 <= i < |v| => Rat(v[i].num * k, v[i].den))
  }

  lemma MulNonZero(x: int, k: int)
    requires x != 0 && k != 0
    ensures x * k != 0
  {
  }

  lemma ScaledTimes(v: seq<Rat>, k: int, ak: nat, j: nat)
    requires ValidRats(v) && j < |v| && ak == (if k < 0 then -k else k)
    requires ValidRats(Times(v, k)) && Multiple(Times(v, k)) == Multiple(v)
    ensures Scaled(Times(v, k))[j] == ak * Scaled(v)[j]
  {
    var l := Multiple(v);
    var a, t := v[j].num, l / v[j].den;
    assert Scale(Times(v, k), l)[j] == (a * k) * t;
    assert Scale(v, l)[j] == a * t;
    Reassociate(a, k, t);
    AbsProduct(k, a * t, ak);
  }

  lemma Reassociate(a: int, k: int, t: int)
    ensures (a * k) * t == k * (a * t)
  {
  }

  lemma AbsProduct(k: int, x: int, ak: nat)
    requires ak == (if k < 0 then -k else k)
    ensures (if k * x < 0 then -(k * x) else k * x) == ak * (if x < 0 then -x else x)
  {
    if k >= 0 && x >= 0 {
      assert k * x >= 0;
    } else if k >= 0 {
      assert k * (-x) >= 0;
    } else if x >= 0 {
      assert (-k) * x >= 0;
    } else {
      assert (-k) * (-x) >= 0;
    }
  }

  // ---------------------------------------------------------------------
  // What the normaliser keeps

  /** Multiplying by the lcm of the denominators gives, entry by entry, the
      integer the source computes, so the conversion to int truncates nothing. */
  lemma ScaleIsExact(v: seq<Rat>, l: nat, i: nat)
    requires ValidRats(v) && i < |v| && Divides(v[i].den, l)
    ensures Scale(v, l)[i] as real == l as real * Value(v[i])
  {
    var q := v[i];
    var t := l / q.den;
    assert l == q.den * t;
    var d := q.den as real;
    assert Value(q) * d == q.num as real;
    assert (l as real) == d * (t as real);
    calc {
      l as real * Value(q);
      d * (t as real) * Value(q);
      (t as real) * (Value(q) * d);
      (t as real) * (q.num as real);
      (q.num * t) as real;
    }
  }

  /** An integer vector that is l times v, entry by entry, is sent by each
      row to l times what v is sent to. */
  lemma {:induction false} DotScaled(row: seq<int>, v: seq<Rat>, w: seq<int>, l: nat)
    requires |row| == |v| == |w| && ValidRats(v)
    requires forall i :: 0 <= i < |v| ==> w[i] as real == l as real * Value(v[i])
    ensures Dot(row, w) as real == l as real * DotR(row, v)
    decreases |row|
  {
    if row != [] {
      var n := |row| - 1;
      DotScaled(row[..n], v[..n], w[..n], l);
      assert (row[n] * w[n]) as real == row[n] as real * (l as real * Value(v[n]));
    }
  }

  /** Entrywise w = k * u gives Dot(row, w) = k * Dot(row, u). */
  lemma {:induction false} DotProportional(row: seq<int>, w: seq<int>, u: seq<int>, k: int)
    requires |row| == |w| == |u|
    requires forall i :: 0 <= i < |u| ==> w[i] == k * u[i]
    ensures Dot(row, w) == k * Dot(row, u)
    decreases |row|
  {
    if row != [] {
      var n := |row| - 1;
      DotProportional(row[..n], w[..n], u[..n], k);
      assert row[n] * w[n] == k * (row[n] * u[n]);
    }
  }

  /** All entries of the solution have one sign (zero allowed). */
  predicate SameSign(v: seq<Rat>) {
    (forall i :: 0 <= i < |v| ==> v[i].num >= 0) || (forall i :: 0 <= i < |v| ==> v[i].num <= 0)
  }

  /** A null vector whose entries share a sign normalises to integer
      coefficients that the matrix still sends to zero: scaling and the
      final division keep m . v = 0, and abs keeps it because it flips
      either no entry or all of them. */
  lemma NormalizeKeepsNull(m: seq<seq<int>>, v: seq<Rat>)
    requires IsNullVector(m, v) && NonZero(v) && SameSign(v)
    ensures forall x :: 0 <= x < |m| ==> Dot(m[x], Normalize(v)) == 0
  {
    var l, c, g := Multiple(v), Normalize(v), Factor(v);
    var w, s := Scale(v, l), Scaled(v);
    var sign := if forall i :: 0 <= i < |v| ==> v[i].num >= 0 then 1 else -1;
    forall i | 0 <= i < |v| ensures w[i] as real == l as real * Value(v[i]) && s[i] == sign * w[i] {
      ScaleIsExact(v, l, i);
      AbsOfSameSign(v, l, i, sign);
    }
    forall x | 0 <= x < |m| ensures Dot(m[x], c) == 0 {
      RowKeepsNull(m[x], v, w, s, c, l, sign, g);
    }
  }

  lemma AbsOfSameSign(v: seq<Rat>, l: nat, i: nat, sign: int)
    requires ValidRats(v) && i < |v|
    requires sign == 1 ==> v[i].num >= 0
    requires sign == -1 ==> v[i].num <= 0
    requires sign == 1 || sign == -1
    ensures AbsAll(Scale(v, l))[i] == sign * Scale(v, l)[i]
  {
    var t := l / v[i].den;
    assert t >= 0;
    if sign == 1 {
      assert v[i].num * t >= 0;
    } else {
      assert (-v[i].num) * t >= 0;
    }
  }

  /** One row: l * v is the integer vector w, the absolute values s are
      sign * w, and c is s divided by g; each step keeps the row's dot
      product at zero. */
  lemma RowKeepsNull(row: seq<int>, v: seq<Rat>, w: seq<int>, s: seq<nat>, c: seq<nat>, l: nat, sign: int, g: int)
    requires ValidRats(v) && |row| == |v| == |w| == |s| == |c| && g >= 1
    requires DotR(row, v) == 0.0
    requires forall i :: 0 <= i < |v| ==> w[i] as real == l as real * Value(v[i])
    requires forall i :: 0 <= i < |v| ==> s[i] == sign * w[i]
    requires forall i :: 0 <= i < |v| ==> c[i] * g == s[i]
    ensures Dot(row, c) == 0
  {
    IntegerDotZero(row, v, w, l);
    DotProportional(row, s, w, sign);
    ZeroDotDivided(row, s, c, g);
  }

  /** An integer vector l * v is, like v, sent to zero by the row. */
  lemma IntegerDotZero(row: seq<int>, v: seq<Rat>, w: seq<int>, l: nat)
    requires |row| == |v| == |w| && ValidRats(v) && DotR(row, v) == 0.0
    requires forall i :: 0 <= i < |v| ==> w[i] as real == l as real * Value(v[i])
    ensures Dot(row, w) == 0
  {
    DotScaled(row, v, w, l);
  }

  /** Dividing every entry by a common factor keeps a zero dot product. */
  lemma ZeroDotDivided(row: seq<int>, s: seq<nat>, coeffs: seq<nat>, g: int)
    requires g >= 1 && |row| == |s| == |coeffs|
    requires forall i :: 0 <= i < |s| ==> coeffs[i] * g == s[i]
    requires Dot(row, s) == 0
    ensures Dot(row, coeffs) == 0
  {
    forall i | 0 <= i < |s| ensures s[i] == g * coeffs[i] {
    }
    DotProportional(row, s, coeffs, g);
    ZeroFactor(g, Dot(row, coeffs));
  }

  lemma ZeroFactor(g: int, x: int)
    requires g >= 1 && g * x == 0
    ensures x == 0
  {
    if x > 0 {
      MulAtLeast(g, x);
    } else if x < 0 {
      MulAtLeast(g, -x);
    }
  }

  /** Integers as rationals with denominator 1. */
  function Integers(c: seq<int>): (v: seq<Rat>)
    ensures |v| == |c| && ValidRats(v)
    ensures forall i :: 0 <= i < |c| ==> v[i] == Rat(c[i], 1)
  {
    seq(|c|, i requires 0 <= i < |c| => Rat(c[i], 1))
  }

  /** A vector that is already normalised, read back as rationals with
      denominator 1, normalises to itself. */
  lemma NormalizeIdempotent(c: seq<nat>)
    requires |c| > 0 && GcdAll(c) == 1
    ensures NonZero(Integers(c)) && Normalize(Integers(c)) == c
  {
    var v := Integers(c);
    IntegersNonZero(c);
    ScaledOfIntegers(c);
    FactorIsGcd(v);
    DivideByOne(Normalize(v), Scaled(v), Factor(v));
  }

  lemma IntegersNonZero(c: seq<nat>)
    requires |c| > 0 && GcdAll(c) == 1
    ensures NonZero(Integers(c))
  {
    assert !forall i :: 0 <= i < |c| ==> c[i] == 0;
    var i :| 0 <= i < |c| && c[i] != 0;
    assert Integers(c)[i].num != 0;
  }

  lemma FactorIsGcd(v: seq<Rat>)
    requires ValidRats(v) && NonZero(v)
    ensures Factor(v) == GcdAll(Scaled(v))
  {
  }

  lemma DivideByOne(q: seq<nat>, s: seq<nat>, g: int)
    requires g == 1 && |q| == |s|
    requires forall i :: 0 <= i < |s| ==> q[i] * g == s[i]
    ensures q == s
  {
  }

  lemma ScaledOfIntegers(c: seq<nat>)
    ensures Scaled(Integers(c)) == c
  {
    var v := Integers(c);
    LcmOfOnes(Denominators(v));
    assert Scale(v, 1) == c;
  }

  lemma {:induction false} LcmOfOnes(ds: seq<nat>)
    requires forall i :: 0 <= i < |ds| ==> ds[i] == 1
    ensures LcmAll(ds) == 1
  {
    if ds != [] {
      LcmOfOnes(ds[..|ds| - 1]);
      assert Gcd(1, 1) == 1;
    }
  }
}
