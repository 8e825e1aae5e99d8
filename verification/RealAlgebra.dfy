/**
 * Real arithmetic for the least-squares proofs. Products, quotients and polynomials are functions here,
 * so that the proofs can hide them, substitute equals for equals, and call for one identity at a time.
 */
module RealAlgebra {

  function Mul(x: real, y: real): real { x * y }

  function Square(x: real): real { x * x }

  /** The squared residuals of the line `a * x + b`, written in the moments of the samples. */
  function Quad(syy: real, sxy: real, sy: real, sxx: real, sx: real, n: real, a: real, b: real): real {
    syy - 2.0 * a * sxy - 2.0 * b * sy + a * a * sxx + 2.0 * a * b * sx + b * b * n
  }

  lemma SquareSign(x: real)
    ensures Square(x) >= 0.0
    ensures Square(x) == 0.0 <==> x == 0.0
  {
    if Square(x) == 0.0 { assert Mul(x, x) == 0.0; ZeroProduct(x, x); }
  }

  lemma ZeroProduct(x: real, y: real)
    ensures Mul(x, y) == 0.0 <==> x == 0.0 || y == 0.0
  {}

  lemma Distribute(c: real, x: real, y: real)
    ensures Mul(c, x + y) == Mul(c, x) + Mul(c, y)
    ensures Mul(c, x - y) == Mul(c, x) - Mul(c, y)
    ensures Mul(c, x) == Mul(x, c)
    ensures Mul(1.0, x) == x
  {}

  lemma Reassociate(x: real, y: real, z: real)
    ensures Mul(Mul(x, y), z) == Mul(x, Mul(y, z))
  {}

  lemma MulSign(x: real, y: real)
    ensures x >= 0.0 && y >= 0.0 ==> Mul(x, y) >= 0.0
    ensures x > 0.0 && y > 0.0 ==> Mul(x, y) > 0.0
    ensures x >= 0.0 && y <= 0.0 ==> Mul(x, y) <= 0.0
    ensures x > 0.0 && y < 0.0 ==> Mul(x, y) < 0.0
  {}

  lemma MulMonotone(c: real, x: real, y: real)
    ensures c >= 0.0 && x <= y ==> Mul(c, x) <= Mul(c, y)
    ensures c > 0.0 && x < y ==> Mul(c, x) < Mul(c, y)
  {
    hide Mul;
    MulSign(c, y - x);
    Distribute(c, y, x);
  }

  /** A quotient is the one number that gives the numerator back. */
  lemma Quotient(num: real, den: real, q: real)
    requires den != 0.0
    ensures Mul(num / den, den) == num
    ensures Mul(q, den) == num ==> q == num / den
  {
    if Mul(q, den) == num {
      assert Mul(q - num / den, den) == Mul(q, den) - Mul(num / den, den);
      ZeroProduct(q - num / den, den);
    }
  }

  lemma UnitRatio(part: real, total: real)
    requires 0.0 <= part <= total && total > 0.0
    ensures 0.0 <= part / total <= 1.0
    ensures part / total == 0.0 <==> part == 0.0
    ensures part / total == 1.0 <==> part == total
  {
    Quotient(part, total, 0.0);
    Quotient(part, total, 1.0);
    MulSign(total, part / total);
    MulSign(total, part / total - 1.0);
    Distribute(total, part / total, 1.0);
  }

  lemma QuadStep(x: real, y: real, a: real, b: real,
                 syy: real, sxy: real, sy: real, sxx: real, sx: real, m: real)
    ensures Square(y - (Mul(a, x) + b)) + Quad(syy, sxy, sy, sxx, sx, m, a, b)
         == Quad(Mul(y, y) + syy, Mul(x, y) + sxy, y + sy, Mul(x, x) + sxx, x + sx, m + 1.0, a, b)
  {}

  lemma EnergyStep(x: real, p: real, q: real, sxx: real, sx: real, m: real)
    ensures Square(Mul(p, x) + q) + Quad(0.0, 0.0, 0.0, sxx, sx, m, p, q)
         == Quad(0.0, 0.0, 0.0, Mul(x, x) + sxx, x + sx, m + 1.0, p, q)
  {}

  lemma ZeroQuad(a: real, b: real)
    ensures Quad(0.0, 0.0, 0.0, 0.0, 0.0, 0.0, a, b) == 0.0
  {}

  lemma QuadGap(syy: real, sxx: real, sx: real, n: real, a: real, b: real, p: real, q: real)
    ensures Quad(syy, Mul(a, sxx) + Mul(b, sx), Mul(a, sx) + Mul(b, n), sxx, sx, n, a + p, b + q)
         == Quad(syy, Mul(a, sxx) + Mul(b, sx), Mul(a, sx) + Mul(b, n), sxx, sx, n, a, b)
            + Quad(0.0, 0.0, 0.0, sxx, sx, n, p, q)
  {}

  /** n * sum(x^2) - (sum x)^2 */
  function Det(n: real, sx: real, sxx: real): real { n * sxx - sx * sx }

  function Slope(n: real, sx: real, sy: real, sxx: real, sxy: real): real
    requires Det(n, sx, sxx) != 0.0
  {
    (n * sxy - sx * sy) / Det(n, sx, sxx)
  }

  function Intercept(n: real, sx: real, sy: real, slope: real): real
    requires n != 0.0
  {
    (sy - slope * sx) / n
  }

  /** Cramer's rule: the closed formulas solve the normal equations. */
  lemma Cramer(n: real, sx: real, sy: real, sxx: real, sxy: real)
    requires n != 0.0 && Det(n, sx, sxx) != 0.0
    ensures var a := Slope(n, sx, sy, sxx, sxy);
            var b := Intercept(n, sx, sy, a);
            Mul(a, sxx) + Mul(b, sx) == sxy && Mul(a, sx) + Mul(b, n) == sy
  {
    var a := Slope(n, sx, sy, sxx, sxy);
    var b := Intercept(n, sx, sy, a);
    Quotient(n * sxy - sx * sy, Det(n, sx, sxx), 0.0);
    Quotient(sy - a * sx, n, 0.0);
    CramerIdentity(n, sx, sy, sxx, sxy, a, b);
  }

  lemma CramerIdentity(n: real, sx: real, sy: real, sxx: real, sxy: real, a: real, b: real)
    requires n != 0.0
    requires Mul(a, Det(n, sx, sxx)) == n * sxy - sx * sy
    requires Mul(b, n) == sy - a * sx
    ensures Mul(a, sxx) + Mul(b, sx) == sxy
    ensures Mul(a, sx) + Mul(b, n) == sy
  {
    assert Mul(n, Mul(a, sxx) + Mul(b, sx)) == a * (n * sxx) + Mul(Mul(b, n), sx);
    assert Mul(Mul(b, n), sx) == Mul(sy - a * sx, sx);
    assert a * (n * sxx) + Mul(sy - a * sx, sx) == Mul(a, Det(n, sx, sxx)) + sy * sx;
    Distribute(n, Mul(a, sxx) + Mul(b, sx), sxy);
    ZeroProduct(n, Mul(a, sxx) + Mul(b, sx) - sxy);
  }

  /** n times the energy around the mean is the determinant. */
  lemma SpreadIdentity(n: real, sx: real, sxx: real, mean: real)
    requires Mul(mean, n) == sx
    ensures Mul(n, Quad(0.0, 0.0, 0.0, sxx, sx, n, 1.0, -mean)) == Det(n, sx, sxx)
  {
    assert Mul(n, Quad(0.0, 0.0, 0.0, sxx, Mul(mean, n), n, 1.0, -mean)) == Det(n, Mul(mean, n), sxx);
  }

  lemma TwoPointsFixLine(p: real, q: real, x: real, x': real)
    requires Mul(p, x) + q == 0.0 && Mul(p, x') + q == 0.0 && x != x'
    ensures p == 0.0 && q == 0.0
  {
    hide Mul;
    Distribute(p, x, x');
    ZeroProduct(p, x - x');
    ZeroProduct(p, x);
  }
}
