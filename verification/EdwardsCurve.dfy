/**
 The addition formula of `_ed25519_add` stays on the curve -x^2 + y^2 = 1 + d x^2 y^2
 (scripts/release_policy.py; section 5.1 of RFC 8032).
 */
module EdwardsCurve {
  import opened Results
  import opened Ed25519

  // ---- congruence modulo Q

  /** The `k`-th multiple of Q. */
  ghost function Times(k: int): int
    decreases if k < 0 then -k else k
  {
    if k == 0 then 0 else if k > 0 then Times(k - 1) + Q else Times(k + 1) - Q
  }

  lemma {:induction false} TimesIs(k: int)
    ensures Times(k) == k * Q
    decreases if k < 0 then -k else k
  {
    if k > 0 {
      TimesIs(k - 1);
    } else if k < 0 {
      TimesIs(k + 1);
    }
  }

  ghost predicate Same(a: int, b: int) {
    exists k {:trigger Times(k)} :: a - b == Times(k)
  }

  lemma SameBy(a: int, b: int, k: int)
    requires a - b == k * Q
    ensures Same(a, b)
  {
    TimesIs(k);
    assert a - b == Times(k);
  }

  lemma Factor(a: int, b: int) returns (k: int)
    requires Same(a, b)
    ensures a - b == k * Q
  {
    k :| a - b == Times(k);
    TimesIs(k);
  }

  /** Congruent numbers are those whose difference leaves no remainder. */
  lemma Remainders(a: int, b: int)
    ensures Same(a, b) <==> (a - b) % Q == 0
  {
    if Same(a, b) { var k := Factor(a, b); }
    if (a - b) % Q == 0 { SameBy(a, b, (a - b) / Q); }
  }

  lemma SameTransitive(a: int, b: int, c: int)
    requires Same(a, b) && Same(b, c)
    ensures Same(a, c) && Same(b, a)
  {
    var i := Factor(a, b);
    var j := Factor(b, c);
    assert a - c == (i + j) * Q && b - a == (-i) * Q;
    SameBy(a, c, i + j);
    SameBy(b, a, -i);
  }

  lemma SameSelf(a: int)
    ensures Same(a, a)
  {
    SameBy(a, a, 0);
  }

  lemma SameSum(a: int, b: int, c: int, d: int)
    requires Same(a, b) && Same(c, d)
    ensures Same(a + c, b + d) && Same(a - c, b - d)
  {
    var i := Factor(a, b);
    var j := Factor(c, d);
    assert (a + c) - (b + d) == (i + j) * Q && (a - c) - (b - d) == (i - j) * Q;
    SameBy(a + c, b + d, i + j);
    SameBy(a - c, b - d, i - j);
  }

  lemma Spread(a: int, b: int, c: int)
    ensures (a - b) * c == a * c - b * c
  {
  }

  lemma Pull(k: int, c: int)
    ensures (k * Q) * c == (k * c) * Q
  {
  }

  lemma SameScaled(a: int, b: int, c: int)
    requires Same(a, b)
    ensures Same(a * c, b * c) && Same(c * a, c * b)
  {
    var k := Factor(a, b);
    Spread(a, b, c);
    Pull(k, c);
    SameBy(a * c, b * c, k * c);
    assert c * a == a * c && c * b == b * c;
  }

  lemma SameProduct(a: int, b: int, c: int, d: int)
    requires Same(a, b) && Same(c, d)
    ensures Same(a * c, b * d)
  {
    SameScaled(a, b, c);
    SameScaled(c, d, b);
    SameTransitive(a * c, b * c, b * d);
  }

  lemma SameReduced(a: int)
    ensures Same(a % Q, a)
  {
    assert a % Q - a == (-(a / Q)) * Q;
    SameBy(a % Q, a, -(a / Q));
  }

  // ---- the identity behind the formula, over the integers

  /** The squares of both numerators. */
  lemma Numerators(x1: int, y1: int, x2: int, y2: int, a1: int, b1: int, a2: int, b2: int, p: int)
    requires a1 == x1 * x1 && b1 == y1 * y1 && a2 == x2 * x2 && b2 == y2 * y2 && p == x1 * x2 * y1 * y2
    ensures (x1 * y2 + x2 * y1) * (x1 * y2 + x2 * y1) == a1 * b2 + a2 * b1 + 2 * p
    ensures (y1 * y2 + x1 * x2) * (y1 * y2 + x1 * x2) == b1 * b2 + a1 * a2 + 2 * p
  {
  }

  lemma CrossSquare(x1: int, y1: int, x2: int, y2: int)
    ensures (x1 * x2 * y1 * y2) * (x1 * x2 * y1 * y2) == ((x1 * x1) * (y1 * y1)) * ((x2 * x2) * (y2 * y2))
  {
  }

  lemma SumsAndDifferences(a1: int, b1: int, a2: int, b2: int, p: int)
    ensures (b1 * b2 + a1 * a2 + 2 * p) - (a1 * b2 + a2 * b1 + 2 * p) == (b1 - a1) * (b2 - a2)
    ensures (b1 * b2 + a1 * a2 + 2 * p) + (a1 * b2 + a2 * b1 + 2 * p) == (a1 + b1) * (a2 + b2) + 4 * p
  {
  }

  lemma MixedProduct(a1: int, b1: int, a2: int, b2: int)
    ensures (a1 * b2 + a2 * b1) * (b1 * b2 + a1 * a2) ==
            (a1 * b1) * (a2 * a2 + b2 * b2) + (a2 * b2) * (a1 * a1 + b1 * b1)
  {
  }

  lemma SquareDifference(a: int, b: int)
    ensures a * a + b * b == (b - a) * (b - a) + 2 * (a * b)
  {
  }

  lemma ShiftedProduct(f: int, g: int, p: int)
    ensures (f + 2 * p) * (g + 2 * p) == f * g + 2 * (p * (f + g)) + 4 * (p * p)
  {
  }

  lemma Collected(m1: int, m2: int, s1: int, s2: int, k1: int, k2: int)
    requires s1 == k1 + 2 * m1 && s2 == k2 + 2 * m2
    ensures m1 * s2 + m2 * s1 == m1 * k2 + m2 * k1 + 4 * (m1 * m2)
  {
  }

  lemma ProductOfSquares(a1: int, b1: int, a2: int, b2: int, p: int, m1: int, m2: int, c1: int, c2: int)
    requires m1 == a1 * b1 && m2 == a2 * b2 && c1 == b1 - a1 && c2 == b2 - a2 && p * p == m1 * m2
    ensures (a1 * b2 + a2 * b1 + 2 * p) * (b1 * b2 + a1 * a2 + 2 * p) ==
            m1 * (c2 * c2) + m2 * (c1 * c1) + 2 * (p * ((a1 + b1) * (a2 + b2))) + 8 * (p * p)
  {
    ShiftedProduct(a1 * b2 + a2 * b1, b1 * b2 + a1 * a2, p);
    MixedProduct(a1, b1, a2, b2);
    SquareDifference(a1, b1);
    SquareDifference(a2, b2);
    Collected(m1, m2, a1 * a1 + b1 * b1, a2 * a2 + b2 * b2, c1 * c1, c2 * c2);
    SumsAndDifferences(a1, b1, a2, b2, 0);
  }

  lemma Weighted(xx: int, yy: int, w: int, q: int, c: int, s: int)
    requires yy - xx == c && yy + xx == s
    ensures yy * (w + 2 * q) - xx * (w - 2 * q) == c * w + 2 * (q * s)
  {
  }

  lemma Balanced(e1: int, e2: int, g: int, w: int)
    requires g == e1 * e2 && w == 1 + g
    ensures (1 + e1) * (1 + e2) * w == w * w - 4 * g + e1 * ((1 + e2) * (1 + e2)) + e2 * ((1 + e1) * (1 + e1))
  {
  }

  // ---- the sum, cleared of denominators

  /** The curve equation, as a remainder. */
  predicate OnCurve(d: int, p: (int, int)) {
    (p.1 * p.1 - p.0 * p.0 - (1 + d * ((p.0 * p.0) * (p.1 * p.1)))) % Q == 0
  }

  /** The curve equation, as a congruence. */
  ghost predicate Curve(d: int, x: int, y: int) {
    Same(y * y - x * x, 1 + d * ((x * x) * (y * y)))
  }

  lemma PointSame(d: int, x: int, y: int)
    ensures OnCurve(d, (x, y)) <==> Curve(d, x, y)
  {
    Remainders(y * y - x * x, 1 + d * ((x * x) * (y * y)));
  }

  /** Both curve equations, applied where the balanced form needs them. */
  lemma Substituted(c1: int, c2: int, e1: int, e2: int, w: int)
    requires Same(c1, 1 + e1) && Same(c2, 1 + e2)
    ensures Same(c1 * c2 * w - e1 * (c2 * c2) - e2 * (c1 * c1),
                 (1 + e1) * (1 + e2) * w - e1 * ((1 + e2) * (1 + e2)) - e2 * ((1 + e1) * (1 + e1)))
  {
    SameProduct(c1, 1 + e1, c2, 1 + e2);
    SameScaled(c1 * c2, (1 + e1) * (1 + e2), w);
    SameProduct(c1, 1 + e1, c1, 1 + e1);
    SameProduct(c2, 1 + e2, c2, 1 + e2);
    SameScaled(c1 * c1, (1 + e1) * (1 + e1), e2);
    SameScaled(c2 * c2, (1 + e2) * (1 + e2), e1);
    SameSum(c1 * c2 * w, (1 + e1) * (1 + e2) * w, e1 * (c2 * c2), e1 * ((1 + e2) * (1 + e2)));
    SameSum(c1 * c2 * w - e1 * (c2 * c2), (1 + e1) * (1 + e2) * w - e1 * ((1 + e2) * (1 + e2)),
            e2 * (c1 * c1), e2 * ((1 + e1) * (1 + e1)));
  }

  lemma Moved(a: int, r1: int, r2: int, b: int, c: int, s1: int, s2: int)
    requires Same(a - r1 - r2, c - s1 - s2) && c == b + s1 + s2
    ensures Same(a, b + r1 + r2)
  {
    SameSelf(r1 + r2);
    SameSum(a - r1 - r2, b, r1 + r2, r1 + r2);
  }

  lemma BalancedModulo(c1: int, c2: int, e1: int, e2: int, g: int, w: int)
    requires Same(c1, 1 + e1) && Same(c2, 1 + e2) && g == e1 * e2 && w == 1 + g
    ensures Same(c1 * c2 * w, w * w - 4 * g + e1 * (c2 * c2) + e2 * (c1 * c1))
  {
    var a, b, r1, r2 := c1 * c2 * w, w * w - 4 * g, e1 * (c2 * c2), e2 * (c1 * c1);
    Substituted(c1, c2, e1, e2, w);
    Balanced(e1, e2, g, w);
    Moved(a, r1, r2, b, (1 + e1) * (1 + e2) * w, e1 * ((1 + e2) * (1 + e2)), e2 * ((1 + e1) * (1 + e1)));
  }

  lemma Denominators(q: int, w: int, u: int, v: int)
    requires w == 1 + q * q && u == 1 + q && v == 1 - q
    ensures u * u == w + 2 * q && v * v == w - 2 * q && (u * u) * (v * v) == w * w - 4 * (q * q)
  {
  }

  lemma ScaledProduct(d: int, m1: int, m2: int, c1: int, c2: int, p: int, s: int, q: int, e1: int, e2: int)
    requires q == d * p && e1 == d * m1 && e2 == d * m2
    ensures d * (m1 * (c2 * c2) + m2 * (c1 * c1) + 2 * (p * s) + 8 * (p * p)) ==
            e1 * (c2 * c2) + e2 * (c1 * c1) + 2 * (q * s) + 8 * (q * p)
  {
  }

  lemma SquareOfCross(d: int, m1: int, m2: int, p: int, q: int, e1: int, e2: int)
    requires q == d * p && e1 == d * m1 && e2 == d * m2 && p * p == m1 * m2
    ensures q * q == e1 * e2
  {
    assert q * q == (d * d) * (p * p) && e1 * e2 == (d * d) * (m1 * m2);
  }

  /** The curve equation of the sum, multiplied by both squared denominators. */
  lemma Cleared(d: int, m1: int, m2: int, c1: int, c2: int, p: int, s: int, xx: int, yy: int, u: int, v: int)
    requires p * p == m1 * m2 && Same(c1, 1 + d * m1) && Same(c2, 1 + d * m2)
    requires yy - xx == c1 * c2 && yy + xx == s + 4 * p && u == 1 + d * p && v == 1 - d * p
    requires xx * yy == m1 * (c2 * c2) + m2 * (c1 * c1) + 2 * (p * s) + 8 * (p * p)
    ensures Same(yy * (u * u) - xx * (v * v), (u * u) * (v * v) + d * (xx * yy))
  {
    var q, e1, e2 := d * p, d * m1, d * m2;
    var g := q * q;
    var w := 1 + g;
    SquareOfCross(d, m1, m2, p, q, e1, e2);
    Denominators(q, w, u, v);
    Weighted(xx, yy, w, q, c1 * c2, s + 4 * p);
    ScaledProduct(d, m1, m2, c1, c2, p, s, q, e1, e2);
    BalancedModulo(c1, c2, e1, e2, g, w);
    var extra := 2 * (q * s) + 8 * (q * p);
    assert 2 * (q * (s + 4 * p)) == extra;
    SameSelf(extra);
    SameSum(c1 * c2 * w, w * w - 4 * g + e1 * (c2 * c2) + e2 * (c1 * c1), extra, extra);
  }

  /** ... for the coordinates of two points on the curve. */
  lemma ClearedPoints(d: int, x1: int, y1: int, x2: int, y2: int, p: int, xx: int, yy: int)
    requires Curve(d, x1, y1) && Curve(d, x2, y2) && p == x1 * x2 * y1 * y2
    requires xx == (x1 * y2 + x2 * y1) * (x1 * y2 + x2 * y1) && yy == (y1 * y2 + x1 * x2) * (y1 * y2 + x1 * x2)
    ensures var u, v := 1 + d * p, 1 - d * p;
            Same(yy * (u * u) - xx * (v * v), (u * u) * (v * v) + d * (xx * yy))
  {
    var a1, b1, a2, b2 := x1 * x1, y1 * y1, x2 * x2, y2 * y2;
    Numerators(x1, y1, x2, y2, a1, b1, a2, b2, p);
    CrossSquare(x1, y1, x2, y2);
    SumsAndDifferences(a1, b1, a2, b2, p);
    ProductOfSquares(a1, b1, a2, b2, p, a1 * b1, a2 * b2, b1 - a1, b2 - a2);
    Cleared(d, a1 * b1, a2 * b2, b1 - a1, b2 - a2, p, (a1 + b1) * (a2 + b2), xx, yy, 1 + d * p, 1 - d * p);
  }

  // ---- dividing again

  lemma SquareInverse(u: int, i: int)
    requires Same(u * i, 1)
    ensures Same((u * u) * (i * i), 1)
  {
    SameProduct(u * i, 1, u * i, 1);
    FactorSquare(u, i);
  }

  lemma LeftExpanded(yy: int, uu: int, xx: int, vv: int, ii: int, jj: int)
    ensures (yy * uu - xx * vv) * (ii * jj) == (yy * jj) * (uu * ii) - (xx * ii) * (vv * jj)
  {
  }

  lemma RightExpanded(d: int, uu: int, vv: int, xx: int, yy: int, ii: int, jj: int)
    ensures (uu * vv + d * (xx * yy)) * (ii * jj) == (uu * ii) * (vv * jj) + d * ((xx * ii) * (yy * jj))
  {
  }

  lemma UnitsDropped(a: int, b: int, x: int, y: int, rest: int)
    requires Same(a, 1) && Same(b, 1) && Same(y * a - x * b, a * b + rest)
    ensures Same(y - x, 1 + rest)
  {
    SameScaled(a, 1, y);
    SameScaled(b, 1, x);
    SameSum(y * a, y * 1, x * b, x * 1);
    SameProduct(a, 1, b, 1);
    SameSelf(rest);
    SameSum(a * b, 1 * 1, rest, rest);
    SameSelf(y - x);
    SameTransitive(y * a - x * b, y - x, y - x);
    SameTransitive(y - x, y * a - x * b, a * b + rest);
    SameTransitive(y - x, a * b + rest, 1 + rest);
  }

  /** Multiplying with the inverses of both squared denominators. */
  lemma Divided(d: int, xx: int, yy: int, uu: int, vv: int, ii: int, jj: int)
    requires Same(uu * ii, 1) && Same(vv * jj, 1)
    requires Same(yy * uu - xx * vv, uu * vv + d * (xx * yy))
    ensures Same(yy * jj - xx * ii, 1 + d * ((xx * ii) * (yy * jj)))
  {
    SameScaled(yy * uu - xx * vv, uu * vv + d * (xx * yy), ii * jj);
    LeftExpanded(yy, uu, xx, vv, ii, jj);
    RightExpanded(d, uu, vv, xx, yy, ii, jj);
    UnitsDropped(uu * ii, vv * jj, xx * ii, yy * jj, d * ((xx * ii) * (yy * jj)));
  }

  lemma FactorSquare(n: int, i: int)
    ensures (n * i) * (n * i) == (n * n) * (i * i)
  {
  }

  /** A coordinate of the sum, squared. */
  lemma CoordinateSquare(n: int, i: int, c: int)
    requires Same(c, n * i)
    ensures Same(c * c, (n * n) * (i * i))
  {
    SameProduct(c, n * i, c, n * i);
    FactorSquare(n, i);
  }

  /** Replacing both squares of a point by congruent values. */
  lemma OnCurveBy(d: int, x: int, y: int, xs: int, ys: int)
    requires Same(x * x, xs) && Same(y * y, ys) && Same(ys - xs, 1 + d * (xs * ys))
    ensures Curve(d, x, y)
  {
    SameSum(y * y, ys, x * x, xs);
    SameProduct(x * x, xs, y * y, ys);
    SameScaled((x * x) * (y * y), xs * ys, d);
    SameSelf(1);
    SameSum(1, 1, d * ((x * x) * (y * y)), d * (xs * ys));
    SameSelf(1 + d * (xs * ys));
    SameTransitive(1 + d * ((x * x) * (y * y)), 1 + d * (xs * ys), 1 + d * (xs * ys));
    SameTransitive(y * y - x * x, ys - xs, 1 + d * (xs * ys));
    SameTransitive(y * y - x * x, 1 + d * (xs * ys), 1 + d * ((x * x) * (y * y)));
  }

  /** A denominator may be replaced by a congruent one. */
  lemma InverseOf(u: int, v: int, i: int)
    requires Same(u, v) && Same(u * i, 1)
    ensures Same(v * i, 1)
  {
    SameScaled(u, v, i);
    SameSelf(v * i);
    SameTransitive(u * i, v * i, v * i);
    SameTransitive(v * i, u * i, 1);
  }

  /** The reduced denominators of the code, and the true ones. */
  lemma ReducedDenominators(t: int)
    ensures Same(1 + t % Q, 1 + t) && Same(1 - t % Q, 1 - t)
  {
    SameReduced(t);
    SameSelf(1);
    SameSum(1, 1, t % Q, t);
  }

  lemma CrossTerm(d: int, x1: int, y1: int, x2: int, y2: int)
    ensures d * x1 * x2 * y1 * y2 == d * (x1 * x2 * y1 * y2)
  {
  }

  /** Both denominators of the sum are inverted by the power the code computes. */
  ghost predicate Invertible(d: int, p: (int, int), q: (int, int)) {
    var t := d * p.0 * q.0 * p.1 * q.1 % Q;
    Same((1 + t) * PowMod(1 + t, Q - 2), 1) && Same((1 - t) * PowMod(1 - t, Q - 2), 1)
  }

  lemma SumOnCurve(d: int, x1: int, y1: int, x2: int, y2: int, p: int, i: int, j: int, x3: int, y3: int)
    requires Curve(d, x1, y1) && Curve(d, x2, y2) && p == x1 * x2 * y1 * y2
    requires Same((1 + d * p) * i, 1) && Same((1 - d * p) * j, 1)
    requires Same(x3, (x1 * y2 + x2 * y1) * i) && Same(y3, (y1 * y2 + x1 * x2) * j)
    ensures Curve(d, x3, y3)
  {
    var n, m, u, v := x1 * y2 + x2 * y1, y1 * y2 + x1 * x2, 1 + d * p, 1 - d * p;
    ClearedPoints(d, x1, y1, x2, y2, p, n * n, m * m);
    SquareInverse(u, i);
    SquareInverse(v, j);
    Divided(d, n * n, m * m, u * u, v * v, i * i, j * j);
    CoordinateSquare(n, i, x3);
    CoordinateSquare(m, j, y3);
    OnCurveBy(d, x3, y3, (n * n) * (i * i), (m * m) * (j * j));
  }

  /** The sum of two points of the curve lies on the curve. */
  lemma EdwardsCloses(d: int, p: (int, int), q: (int, int))
    requires Curve(d, p.0, p.1) && Curve(d, q.0, q.1) && Invertible(d, p, q)
    ensures Curve(d, EdwardsAdd(d, p, q).0, EdwardsAdd(d, p, q).1)
  {
    var (x1, y1) := p;
    var (x2, y2) := q;
    var t := d * x1 * x2 * y1 * y2;
    var i, j := PowMod(1 + t % Q, Q - 2), PowMod(1 - t % Q, Q - 2);
    ReducedDenominators(t);
    InverseOf(1 + t % Q, 1 + t, i);
    InverseOf(1 - t % Q, 1 - t, j);
    CrossTerm(d, x1, y1, x2, y2);
    var n, m := (x1 * y2 + x2 * y1) * i, (y1 * y2 + x1 * x2) * j;
    SameReduced(n);
    SameReduced(m);
    SumOnCurve(d, x1, y1, x2, y2, x1 * x2 * y1 * y2, i, j, n % Q, m % Q);
  }

  lemma NeutralOnCurve(d: int)
    ensures OnCurve(d, (0, 1))
  {
  }

  // ---- inverses

  /** The point with the opposite first coordinate. */
  function Opposite(p: (int, int)): (int, int) {
    ((-p.0) % Q, p.1)
  }

  lemma OppositeSquare(x: int, x2: int)
    requires Same(x2, -x)
    ensures Same(x2 * x2, x * x) && Same(x * x2, -(x * x))
  {
    SameProduct(x2, -x, x2, -x);
    assert (-x) * (-x) == x * x;
    SameScaled(x2, -x, x);
    assert x * (-x) == -(x * x);
  }

  lemma CancelledNumerator(x: int, y: int, x2: int, i: int)
    requires Same(x2, -x)
    ensures Same((x * y + x2 * y) * i, 0)
  {
    SameScaled(x2, -x, y);
    assert (-x) * y == -(x * y);
    SameSelf(x * y);
    SameSum(x * y, x * y, x2 * y, -(x * y));
    SameScaled(x * y + x2 * y, 0, i);
    assert 0 * i == 0;
  }

  lemma EqualToDenominator(d: int, x: int, y: int, x2: int)
    requires Same(x2, -x) && Curve(d, x, y)
    ensures Same(y * y + x * x2, 1 - d * x * x2 * y * y)
  {
    OppositeSquare(x, x2);
    var xs, ys := x * x, y * y;
    SameSelf(ys);
    SameSelf(1);
    SameSum(ys, ys, x * x2, -xs);
    SameTransitive(ys + x * x2, ys - xs, 1 + d * (xs * ys));
    SameScaled(x * x2, -xs, d * ys);
    assert (d * ys) * (x * x2) == d * x * x2 * y * y by { CrossAgain(d, x, x2, y); }
    assert (d * ys) * (-xs) == -(d * (xs * ys)) by { SignOut(d, xs, ys); }
    SameSum(1, 1, d * x * x2 * y * y, -(d * (xs * ys)));
    SameSelf(1 + d * (xs * ys));
    SameTransitive(1 - d * x * x2 * y * y, 1 + d * (xs * ys), 1 + d * (xs * ys));
    SameTransitive(ys + x * x2, 1 + d * (xs * ys), 1 - d * x * x2 * y * y);
  }

  lemma CrossAgain(d: int, x: int, x2: int, y: int)
    ensures (d * (y * y)) * (x * x2) == d * x * x2 * y * y
  {
  }

  lemma SignOut(d: int, xs: int, ys: int)
    ensures (d * ys) * (-xs) == -(d * (xs * ys))
  {
  }

  lemma UnitQuotient(m: int, v: int, j: int)
    requires Same(m, v) && Same(v * j, 1)
    ensures m * j % Q == 1
  {
    SameScaled(m, v, j);
    SameTransitive(m * j, v * j, 1);
    UnitRemainder(m * j);
  }

  lemma UnitRemainder(n: int)
    requires Same(n, 1)
    ensures n % Q == 1
  {
    var k := Factor(n, 1);
  }

  /** A point and its opposite add up to the neutral element. */
  lemma EdwardsInverse(d: int, p: (int, int), q: (int, int))
    requires Curve(d, p.0, p.1) && Same(q.0, -p.0) && q.1 == p.1 && Invertible(d, p, q)
    ensures EdwardsAdd(d, p, q) == (0, 1)
  {
    var x, y, x2 := p.0, p.1, q.0;
    var t := d * x * x2 * y * y;
    var i, j := PowMod(1 + t % Q, Q - 2), PowMod(1 - t % Q, Q - 2);
    CancelledNumerator(x, y, x2, i);
    Remainders((x * y + x2 * y) * i, 0);
    EqualToDenominator(d, x, y, x2);
    ReducedDenominators(t);
    InverseOf(1 - t % Q, 1 - t, j);
    UnitQuotient(y * y + x * x2, 1 - t, j);
  }

  // ---- the group the verifier computes in

  /** The reduced points of the curve. */
  predicate CurvePoint(d: int, p: (int, int)) {
    0 <= p.0 < Q && 0 <= p.1 < Q && OnCurve(d, p)
  }

  function CurveGroup(d: int): Group<Point> {
    EdwardsGroup(d, p => CurvePoint(d, p), p => Opposite(p))
  }

  /** The number theory that is assumed: no denominator vanishes, and the addition associates. */
  ghost predicate CurveAssumptions(d: int) {
    && (forall p, q {:trigger Invertible(d, p, q)} | CurvePoint(d, p) && CurvePoint(d, q) :: Invertible(d, p, q))
    && (forall p, q, r {:trigger EdwardsAdd(d, EdwardsAdd(d, p, q), r)}
          | CurvePoint(d, p) && CurvePoint(d, q) && CurvePoint(d, r) ::
          EdwardsAdd(d, EdwardsAdd(d, p, q), r) == EdwardsAdd(d, p, EdwardsAdd(d, q, r)))
  }

  lemma SumsClose(d: int, x: Point, y: Point)
    requires CurveAssumptions(d) && CurvePoint(d, x) && CurvePoint(d, y)
    ensures CurvePoint(d, EdwardsAdd(d, x, y))
  {
    assert Invertible(d, x, y);
    PointSame(d, x.0, x.1);
    PointSame(d, y.0, y.1);
    EdwardsCloses(d, x, y);
    PointSame(d, EdwardsAdd(d, x, y).0, EdwardsAdd(d, x, y).1);
  }

  lemma CurveSums(d: int)
    requires CurveAssumptions(d)
    ensures var g := CurveGroup(d);
            && g.on(g.zero)
            && (forall x, y {:trigger Closed(g, x, y)} | g.on(x) && g.on(y) :: Closed(g, x, y))
            && (forall x, y, z {:trigger Associates(g, x, y, z)} | g.on(x) && g.on(y) && g.on(z) ::
                  Associates(g, x, y, z))
  {
    var g := CurveGroup(d);
    NeutralOnCurve(d);
    forall x, y | g.on(x) && g.on(y) ensures Closed(g, x, y) {
      SumsClose(d, x, y);
    }
    forall x, y, z | g.on(x) && g.on(y) && g.on(z) ensures Associates(g, x, y, z) {
      assert EdwardsAdd(d, EdwardsAdd(d, x, y), z) == EdwardsAdd(d, x, EdwardsAdd(d, y, z));
    }
  }

  /** Everything else about the group follows from the code's formula. */
  lemma CurveIsGroup(d: int)
    requires CurveAssumptions(d)
    ensures IsGroup(CurveGroup(d))
  {
    CurveSums(d);
    forall x | CurveGroup(d).on(x) ensures Inverse(CurveGroup(d), x) {
      SameReduced(-x.0);
      PointSame(d, x.0, x.1);
      assert CurvePoint(d, Opposite(x)) by {
        OppositeSquare(x.0, (-x.0) % Q);
        SameSelf(x.1 * x.1);
        OnCurveBy(d, (-x.0) % Q, x.1, x.0 * x.0, x.1 * x.1);
        PointSame(d, (-x.0) % Q, x.1);
      }
      assert Invertible(d, x, Opposite(x));
      EdwardsInverse(d, x, Opposite(x));
    }
    EdwardsIsGroup(d, p => CurvePoint(d, p), p => Opposite(p));
  }

  /** `verify_ed25519_signature` with `_ed25519_add` itself. */
  method VerifyOnCurve(d: int, base: Point, decode: seq<Byte> -> Option<Point>, sha512: seq<Byte> -> nat,
                       publicKey: seq<Byte>, message: seq<Byte>, signature: seq<Byte>)
    returns (ok: bool)
    requires CurveAssumptions(d) && CurvePoint(d, base)
    requires forall s {:trigger decode(s)} :: decode(s).Some? ==> CurvePoint(d, decode(s).value)
    ensures var c := Scheme(CurveGroup(d), base, decode, sha512);
            IsScheme(c) && (ok <==> Accepts(c, publicKey, message, signature))
  {
    CurveIsGroup(d);
    ok := Verify(Scheme(CurveGroup(d), base, decode, sha512), publicKey, message, signature);
  }
}
