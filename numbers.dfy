/** Integer helpers of the balancer: Euclid's gcd and an lcm built on it
    (standing in for sympy's gcd and lcm), the folds of both over a list,
    and the decimal conversions behind Python's int(str) and str(int);
    also a few facts about cutting sequences that the other modules share. */
module Numbers {

  /** d is a positive divisor of n. */
  predicate Divides(d: int, n: int) {
    d > 0 && n % d == 0
  }

  /** An ASCII decimal digit (the model's reading of str.isdigit). */
  predicate IsDigit(c: char) {
    '0' <= c <= '9'
  }

  predicate AllDigits(s: string) {
    forall i :: 0 <= i < |s| ==> IsDigit(s[i])
  }

  lemma MulAtLeast(d: int, x: int)
    requires d > 0 && x >= 1
    ensures d * x >= d
  {
  }

  lemma DividesProduct(d: int, k: int)
    requires d > 0
    ensures Divides(d, d * k) && (d * k) / d == k
  {
    var n := d * k;
    var q, r := n / d, n % d;
    assert n == d * q + r && 0 <= r < d;
    assert d * (k - q) == r;
    if k - q >= 1 {
      MulAtLeast(d, k - q);
    } else if k - q <= -1 {
      MulAtLeast(d, q - k);
    }
  }

  lemma DividesCombination(d: int, x: int, y: int, p: int, q: int)
    requires Divides(d, x) && Divides(d, y)
    ensures Divides(d, p * x + q * y)
  {
    var a, b := x / d, y / d;
    assert x == d * a && y == d * b;
    assert p * x + q * y == d * (p * a + q * b) by {
      calc {
        p * x + q * y;
        p * (d * a) + q * (d * b);
        d * (p * a) + d * (q * b);
        d * (p * a + q * b);
      }
    }
    DividesProduct(d, p * a + q * b);
  }

  /** A divisor of a divisor divides. */
  lemma DividesTransitive(d: int, e: int, n: int)
    requires Divides(d, e) && Divides(e, n)
    ensures Divides(d, n)
  {
    var a, b := e / d, n / e;
    assert e == d * a && n == e * b;
    assert n == d * (a * b);
    DividesProduct(d, a * b);
  }

  /** A positive divisor of a positive number is no larger than it. */
  lemma DivisorBound(d: int, n: int)
    requires Divides(d, n) && n > 0
    ensures d <= n
  {
    var k := n / d;
    assert n == d * k;
    MulAtLeast(d, k);
  }

  /** The quotient and remainder of a by b, as combinations of a and b. */
  lemma Division(a: int, b: int)
    requires b > 0
    ensures a == (a / b) * b + 1 * (a % b)
    ensures a % b == 1 * a + -(a / b) * b
  {
  }

  /** Euclid's algorithm: gcd(a, 0) = a, gcd(0, 0) = 0. */
  function Gcd(a: nat, b: nat): (g: nat)
    ensures g == 0 <==> a == 0 && b == 0
    ensures g > 0 ==> Divides(g, a) && Divides(g, b)
    decreases b
  {
    if b == 0 then
      a
    else
      var g := Gcd(b, a % b);
      Division(a, b);
      DividesCombination(g, b, a % b, a / b, 1);
      g
  }

  /** Every common divisor of a and b divides Gcd(a, b). */
  lemma {:induction false} GcdGreatest(d: int, a: nat, b: nat)
    requires Divides(d, a) && Divides(d, b)
    ensures a + b > 0 ==> Divides(d, Gcd(a, b))
    decreases b
  {
    if b > 0 {
      Division(a, b);
      DividesCombination(d, a, b, 1, -(a / b));
      GcdGreatest(d, b, a % b);
    }
  }

  /** The gcd of a non-empty list (app.py:57): a left fold of Gcd. */
  function GcdAll(cs: seq<nat>): (g: nat)
    requires |cs| > 0
    ensures g == 0 <==> forall i :: 0 <= i < |cs| ==> cs[i] == 0
    ensures g > 0 ==> forall i :: 0 <= i < |cs| ==> Divides(g, cs[i])
  {
    if |cs| == 1 then
      cs[0]
    else
      var h := GcdAll(cs[..|cs| - 1]);
      var g := Gcd(h, cs[|cs| - 1]);
      assert g > 0 ==> forall i :: 0 <= i < |cs| - 1 ==> Divides(g, cs[i]) by {
        if g > 0 && h > 0 {
          forall i | 0 <= i < |cs| - 1 ensures Divides(g, cs[i]) {
            assert cs[..|cs| - 1][i] == cs[i];
            DividesTransitive(g, h, cs[i]);
          }
        } else if g > 0 {
          forall i | 0 <= i < |cs| - 1 ensures Divides(g, cs[i]) {
            assert cs[..|cs| - 1][i] == cs[i];
          }
        }
      }
      assert h == 0 ==> forall i :: 0 <= i < |cs| - 1 ==> cs[i] == 0 by {
        if h == 0 {
          forall i | 0 <= i < |cs| - 1 ensures cs[i] == 0 {
            assert cs[..|cs| - 1][i] == cs[i];
          }
        }
      }
      g
  }

  /** Every common divisor of the list divides its gcd. */
  lemma {:induction false} GcdAllGreatest(d: int, cs: seq<nat>)
    requires |cs| > 0
    requires forall i :: 0 <= i < |cs| ==> Divides(d, cs[i])
    ensures Divides(d, GcdAll(cs))
  {
    if |cs| > 1 {
      var init := cs[..|cs| - 1];
      forall i | 0 <= i < |init| ensures Divides(d, init[i]) {
        assert init[i] == cs[i];
      }
      GcdAllGreatest(d, init);
      GcdGreatest(d, GcdAll(init), cs[|cs| - 1]);
    }
  }

  /** Euclidean division is determined by its equation and the range of
      the remainder. */
  lemma DivModUnique(n: int, d: int, q: int, r: int)
    requires d > 0 && n == d * q + r && 0 <= r < d
    ensures n / d == q && n % d == r
  {
    var q', r' := n / d, n % d;
    assert d * (q - q') == r' - r;
    if q - q' >= 1 {
      MulAtLeast(d, q - q');
    } else if q - q' <= -1 {
      MulAtLeast(d, q' - q);
    }
  }

  lemma ModScale(k: nat, a: nat, b: nat)
    requires k >= 1 && b >= 1
    ensures k * b >= 1 && (k * a) % (k * b) == k * (a % b)
  {
    var q, r := a / b, a % b;
    MulAtLeast(k, b);
    assert k * a == (k * b) * q + k * r by {
      assert a == b * q + r;
    }
    assert k * r < k * b by {
      MulAtLeast(k, b - r);
    }
    DivModUnique(k * a, k * b, q, k * r);
  }

  /** gcd(k a, k b) = k gcd(a, b). */
  lemma {:induction false} GcdScale(k: nat, a: nat, b: nat)
    requires k >= 1
    ensures Gcd(k * a, k * b) == k * Gcd(a, b)
    decreases b
  {
    if b > 0 {
      ModScale(k, a, b);
      GcdScale(k, b, a % b);
    }
  }

  /** Every entry multiplied by k. */
  function ScaleAll(k: nat, cs: seq<nat>): (ks: seq<nat>)
    ensures |ks| == |cs| && forall i :: 0 <= i < |cs| ==> ks[i] == k * cs[i]
  {
    seq(|cs|, i requires 0 <= i < |cs| => k * cs[i])
  }

  /** The gcd of a list multiplied by k is k times its gcd. */
  lemma {:induction false} GcdAllScale(k: nat, cs: seq<nat>)
    requires k >= 1 && |cs| > 0
    ensures GcdAll(ScaleAll(k, cs)) == k * GcdAll(cs)
  {
    var ks := ScaleAll(k, cs);
    if |cs| > 1 {
      var n := |cs| - 1;
      assert ks[..n] == ScaleAll(k, cs[..n]);
      GcdAllScale(k, cs[..n]);
      GcdScale(k, GcdAll(cs[..n]), cs[n]);
    }
  }

  /** Two lists with gcd 1 that are proportional (a p = b q entrywise, a
      and b positive) are equal: a list has only one primitive form. */
  lemma PrimitiveUnique(p: seq<nat>, q: seq<nat>, a: nat, b: nat)
    requires |p| == |q| > 0 && GcdAll(p) == 1 && GcdAll(q) == 1 && a >= 1 && b >= 1
    requires forall i :: 0 <= i < |p| ==> a * p[i] == b * q[i]
    ensures p == q
  {
    assert ScaleAll(a, p) == ScaleAll(b, q);
    GcdAllScale(a, p);
    GcdAllScale(b, q);
    forall i | 0 <= i < |p| ensures p[i] == q[i] {
      MulCancel(a, p[i], q[i]);
    }
  }

  lemma MulCancel(a: int, x: int, y: int)
    requires a >= 1 && a * x == a * y
    ensures x == y
  {
    if x > y {
      MulAtLeast(a, x - y);
    } else if x < y {
      MulAtLeast(a, y - x);
    }
  }

  /** lcm(a, b) for positive a and b, written as a * (b / gcd(a, b)): a
      common multiple that divides every other, hence the least one. */
  function Lcm(a: nat, b: nat): (m: nat)
    requires a > 0 && b > 0
    ensures m > 0 && Divides(a, m) && Divides(b, m)
    ensures forall n: nat :: Divides(a, n) && Divides(b, n) ==> Divides(m, n)
  {
    var g := Gcd(a, b);
    LcmFacts(a, b, g);
    LcmLeast(a, b, g);
    a * (b / g)
  }

  lemma LcmLeast(a: nat, b: nat, g: nat)
    requires a > 0 && b > 0 && g == Gcd(a, b)
    ensures forall n: nat :: Divides(a, n) && Divides(b, n) ==> Divides(a * (b / g), n)
  {
    forall n: nat | Divides(a, n) && Divides(b, n) ensures Divides(a * (b / g), n) {
      LcmDivides(a, b, g, n);
    }
  }

  /** A common multiple n of a and b: with a = g x and b = g y, y divides
      x (n / a) and shares no factor with x, so a y divides n. */
  lemma LcmDivides(a: nat, b: nat, g: nat, n: nat)
    requires a > 0 && b > 0 && g == Gcd(a, b) && Divides(a, n) && Divides(b, n)
    ensures Divides(a * (b / g), n)
  {
    var x, y := a / g, b / g;
    Quotient(g, a);
    Quotient(g, b);
    LcmFacts(a, b, g);
    if n == 0 {
      assert Divides(a * y, 0);
    } else {
      CoprimeQuotients(g, x, y);
      var s, k := n / a, n / b;
      Quotient(a, n);
      Quotient(b, n);
      QuotientsMatch(g, x, y, s, k);
      DividesProduct(y, k);
      CoprimeDivides(x, y, s);
      MultipleOfProduct(a, y, s, n);
    }
  }

  /** A positive divisor d of n leaves the exact quotient n / d, which is
      at least 1 when n is positive. */
  lemma Quotient(d: int, n: int)
    requires Divides(d, n)
    ensures n == d * (n / d)
    ensures n > 0 ==> n / d >= 1
  {
  }

  lemma MultipleOfProduct(a: int, y: int, s: int, n: int)
    requires a >= 1 && Divides(y, s) && n == a * s
    ensures Divides(a * y, n)
  {
    var t := s / y;
    assert s == y * t;
    Reassociate3(a, y, t);
    MulAtLeast(a, y);
    DividesProduct(a * y, t);
  }

  lemma QuotientsMatch(g: int, x: int, y: int, s: int, k: int)
    requires g >= 1 && (g * x) * s == (g * y) * k
    ensures x * s == y * k
  {
    assert g * (x * s) == g * (y * k);
    MulCancel(g, x * s, y * k);
  }

  lemma Reassociate3(a: int, y: int, t: int)
    ensures a * (y * t) == (a * y) * t
  {
  }

  /** Dividing a and b by their gcd leaves numbers whose gcd is 1. */
  lemma CoprimeQuotients(g: nat, x: nat, y: nat)
    requires g >= 1 && Gcd(g * x, g * y) == g
    ensures Gcd(x, y) == 1
  {
    GcdScale(g, x, y);
    MulCancel(g, Gcd(x, y), 1);
  }

  /** y divides x s and shares no factor with x, so y divides s. */
  lemma CoprimeDivides(x: nat, y: nat, s: nat)
    requires Gcd(x, y) == 1 && s >= 1 && Divides(y, x * s)
    ensures Divides(y, s)
  {
    DividesProduct(y, s);
    assert s * x == x * s && s * y == y * s;
    MulAtLeast(y, s);
    GcdGreatest(y, s * x, s * y);
    GcdScale(s, x, y);
  }

  lemma LcmFacts(a: nat, b: nat, g: nat)
    requires a > 0 && b > 0 && Divides(g, a) && Divides(g, b)
    ensures a * (b / g) > 0 && Divides(a, a * (b / g)) && Divides(b, a * (b / g))
  {
    var x, y := a / g, b / g;
    assert a == g * x && b == g * y;
    assert y >= 1;
    MulAtLeast(a, y);
    DividesProduct(a, y);
    assert a * y == b * x by {
      calc {
        a * y;
        (g * x) * y;
        (g * y) * x;
        b * x;
      }
    }
    DividesProduct(b, x);
  }

  /** sympy's lcm over a list of positive denominators: a left fold of Lcm
      starting from 1. */
  function LcmAll(ds: seq<nat>): (m: nat)
    requires forall i :: 0 <= i < |ds| ==> ds[i] > 0
    ensures m > 0 && forall i :: 0 <= i < |ds| ==> Divides(ds[i], m)
    ensures forall n: nat :: (forall i :: 0 <= i < |ds| ==> Divides(ds[i], n)) ==> Divides(m, n)
  {
    if ds == [] then
      1
    else
      var init := ds[..|ds| - 1];
      var l := LcmAll(init);
      var m := Lcm(l, ds[|ds| - 1]);
      forall i | 0 <= i < |ds| - 1 ensures Divides(ds[i], m) {
        assert init[i] == ds[i];
        DividesTransitive(ds[i], l, m);
      }
      forall n: nat | forall i :: 0 <= i < |ds| ==> Divides(ds[i], n) ensures Divides(m, n) {
        forall i | 0 <= i < |init| ensures Divides(init[i], n) {
          assert init[i] == ds[i];
        }
      }
      m
  }

  function DigitValue(c: char): (v: nat)
    requires IsDigit(c)
    ensures v < 10
  {
    (c as int - '0' as int) as nat
  }

  function DigitChar(v: nat): (c: char)
    requires v < 10
    ensures IsDigit(c) && DigitValue(c) == v
  {
    ('0' as int + v) as char
  }

  /** Python's int(s) on a string of ASCII digits, leading zeros allowed. */
  function DecimalValue(s: string): (n: nat)
    requires AllDigits(s)
  {
    if s == [] then 0 else DecimalValue(s[..|s| - 1]) * 10 + DigitValue(s[|s| - 1])
  }

  /** A digit string as str(int) writes it: non-empty, no leading zero
      unless it is "0" itself. */
  predicate IsCanonicalDecimal(s: string) {
    |s| > 0 && AllDigits(s) && (|s| > 1 ==> s[0] != '0')
  }

  /** Python's str(n) for a non-negative integer; it reads back as n. */
  function NatToString(n: nat): (s: string)
    ensures IsCanonicalDecimal(s)
    ensures DecimalValue(s) == n
  {
    if n < 10 then
      [DigitChar(n)]
    else
      var s := NatToString(n / 10) + [DigitChar(n % 10)];
      assert s[..|s| - 1] == NatToString(n / 10);
      s
  }

  /** The other direction of the round trip: a canonical digit string is
      what str() prints for its value. */
  lemma {:induction false} CanonicalDecimalRoundTrip(s: string)
    requires IsCanonicalDecimal(s)
    ensures NatToString(DecimalValue(s)) == s
    decreases |s|
  {
    var init := s[..|s| - 1];
    var last := DigitValue(s[|s| - 1]);
    if |s| == 1 {
      assert init == [];
    } else {
      assert init[0] == s[0];
      CanonicalDecimalRoundTrip(init);
      if |init| > 1 {
        assert DecimalValue(init) > 0 by {
          LeadingDigitPositive(init);
        }
      } else {
        assert DecimalValue(init) == DigitValue(init[0]) by {
          assert init[..0] == [];
        }
      }
      var n := DecimalValue(s);
      assert n / 10 == DecimalValue(init) && n % 10 == last;
      assert NatToString(n) == NatToString(DecimalValue(init)) + [DigitChar(last)];
    }
  }

  lemma {:induction false} LeadingDigitPositive(s: string)
    requires AllDigits(s) && |s| > 0 && s[0] != '0'
    ensures DecimalValue(s) > 0
    decreases |s|
  {
    if |s| > 1 {
      var init := s[..|s| - 1];
      assert init[0] == s[0];
      LeadingDigitPositive(init);
    } else {
      assert s[..0] == [];
    }
  }

  // ---------------------------------------------------------------------
  // Cutting sequences

  lemma Halves<T>(s: seq<T>, k: nat)
    requires k <= |s|
    ensures s[..k] + s[k..] == s
  {
  }

  lemma Thirds<T>(s: seq<T>, j: nat, k: nat)
    requires j <= k <= |s|
    ensures s == s[..j] + s[j..k] + s[k..]
  {
  }

  lemma PrefixOfPrefix<T>(s: seq<T>, j: nat, k: nat)
    requires j <= k <= |s|
    ensures s[..k][..j] == s[..j]
  {
  }

  lemma TailOfCons<T>(x: T, s: seq<T>)
    ensures ([x] + s)[1..] == s
  {
  }

  lemma HeadTail<T>(s: seq<T>)
    requires s != []
    ensures [s[0]] + s[1..] == s
  {
  }
}
