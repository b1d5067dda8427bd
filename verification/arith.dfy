module Arith {
  lemma MulLe(a: int, b: int, c: int)
    requires a <= b && c >= 0
    ensures a * c <= b * c
  {
  }
  lemma MulLt(a: int, b: int, c: int)
    requires a < b && c > 0
    ensures a * c < b * c
  {
  }
  lemma MulNonNeg(a: int, b: int)
    requires a >= 0 && b >= 0
    ensures a * b >= 0
  {
  }
  lemma MulCancelLt(a: int, b: int, c: int)
    requires c > 0 && a * c < b * c
    ensures a < b
  {
    if a >= b { MulLe(b, a, c); }
  }

  lemma MulDistAdd(a: int, b: int, c: int)
    ensures a * (b + c) == a * b + a * c
  {
  }

  lemma MulAssoc(a: int, b: int, c: int)
    ensures a * (b * c) == (a * b) * c
  {
  }

  /** v = lo + e*w with lo >= 0 and w >= d gives v >= d*e. */
  lemma AtLeastLimb(v: int, lo: int, e: int, w: int, d: int)
    requires v == lo + e * w && lo >= 0 && w >= d && e >= 0
    ensures v >= d * e
  {
    MulLe(d, w, e);
  }

  /** v = lo + e*t with 0 <= lo < e pins v between t*e and (t+1)*e. */
  lemma BetweenTop(v: int, lo: int, e: int, t: int)
    requires v == lo + e * t && 0 <= lo < e
    ensures t * e <= v < (t + 1) * e
  {
    MulDistAdd(e, t, 1);
  }

  /** The arithmetic of one recursion step of a positional update. */
  lemma ShiftedUpdate(vu: int, vs: int, s0: int, b: int, wu: int, w: int, d: int, e: int)
    requires vu == s0 + b * wu && vs == s0 + b * w && wu == w + d * e
    ensures vu == vs + d * (b * e)
  {
    MulDistAdd(b, w, d * e);
    MulAssoc(b, d, e);
  }

  /** Two numbers written lo + e*w with w = t + b*h, the same high part h
      and lower parts below e are ordered by their limb t. */
  lemma LexStep(va: int, vb: int, la: int, lb: int, e: int, wa: int, wb: int,
                ta: int, tb: int, b: int, h: int)
    requires va == la + e * wa && vb == lb + e * wb
    requires wa == ta + b * h && wb == tb + b * h
    requires 0 <= la < e && 0 <= lb && ta < tb
    ensures va < vb
  {
    MulDistAdd(e, ta, b * h);
    MulDistAdd(e, tb, b * h);
    MulLe(ta + 1, tb, e);
    MulDistAdd(e, ta, 1);
  }

  /** One limb of a digit-wise scaling: prefix values stay d times apart. */
  lemma ScaleStep(vr1: int, vr: int, vd1: int, vd: int, d: int, t: int, e: int)
    requires vr1 == vr + (d * t) * e && vr == d * vd && vd1 == vd + t * e
    ensures vr1 == d * vd1
  {
    MulDistAdd(d, vd, t * e);
    MulAssoc(d, t, e);
  }

  /** One limb of a short division: folding limb t under the running
      remainder r keeps the dividend equal to d * quotient + remainder. */
  lemma DivStep(vd1: int, t: int, b: int, vd: int, d: int, q: int, r: int,
                v: int, qq: int, rr: int, vq1: int)
    requires vd1 == t + b * vd && vd == d * q + r && v == t + b * r
    requires v == d * qq + rr && vq1 == qq + b * q
    ensures vd1 == d * vq1 + rr
  {
    MulDistAdd(b, d * q, r);
    MulDistAdd(d, qq, b * q);
    MulAssoc(b, d, q);
    MulAssoc(d, b, q);
  }

  /** A short-division quotient limb stays below the radix. */
  lemma QuotLimb(v: int, t: int, b: int, r: int, d: int, qq: int, rr: int)
    requires 0 <= t < b && 0 <= r < d && v == t + b * r
    requires v == d * qq + rr && 0 <= rr < d
    ensures 0 <= qq < b
  {
    MulLe(r, d - 1, b);
    assert v < b * d;
    if qq >= b {
      MulLe(b, qq, d);
    }
    if qq < 0 {
      MulLe(qq, -1, d);
    }
  }

  lemma NegTop(v: int, l: int, e: int, t: int)
    requires v == l + e * t && l < e && t < 0 && e > 0
    ensures v < 0
  {
    MulLe(t, -1, e);
  }

  lemma DivMod(v: int, d: int)
    requires d > 0
    ensures v == d * (v / d) + v % d && 0 <= v % d < d
  {
  }

  /** v / d is the largest count of d that fits in v. */
  lemma FloorBounds(v: int, d: int)
    requires d > 0
    ensures (v / d) * d <= v < (v / d + 1) * d
  {
    DivMod(v, d);
  }

  lemma DivNonNeg(v: int, d: int)
    requires v >= 0 && d > 0
    ensures v / d >= 0
  {
  }

  /** v = t + b*w with a limb t in [0, b) and 0 <= w < e gives 0 <= v < b*e. */
  lemma ShiftBounds(v: int, t: int, b: int, w: int, e: int)
    requires v == t + b * w && 0 <= t < b && 0 <= w < e
    ensures 0 <= v < b * e
  {
    MulNonNeg(b, w);
    MulLe(w + 1, e, b);
    MulDistAdd(b, w, 1);
  }

  /** Strict bounds multiply. */
  lemma MulStrict(a: int, a1: int, b: int, b1: int)
    requires 0 <= a < a1 && 0 <= b < b1
    ensures a * b < a1 * b1
  {
    MulLe(b, b1, a);
    MulLt(a, a1, b1);
  }

  /** The Karatsuba recombination: with x = xl + e*xh and y = yl + e*yh,
      x*y = xl*yl + e*(xl*yh + xh*yl) + e*e*(xh*yh). */
  lemma KaratsubaIdentity(x: int, y: int, xl: int, xh: int, yl: int, yh: int, e: int, e2: int)
    requires x == xl + e * xh && y == yl + e * yh && e2 == e * e
    ensures x * y == xl * yl + e * (xl * yh + xh * yl) + e2 * (xh * yh)
  {
    calc {
      x * y;
      (xl + e * xh) * (yl + e * yh);
      xl * yl + xl * (e * yh) + (e * xh) * yl + (e * xh) * (e * yh);
      { MulAssoc(xl, e, yh); MulAssoc(e, xh, yl); }
      xl * yl + e * (xl * yh) + e * (xh * yl) + (e * xh) * (e * yh);
      { assert (e * xh) * (e * yh) == (e * e) * (xh * yh); }
      xl * yl + e * (xl * yh + xh * yl) + e2 * (xh * yh);
    }
  }

  /** One limb product of a schoolbook row stays below B^2. */
  lemma LimbProduct(a: int, b: int, base: int)
    requires 0 <= a < base && 0 <= b < base
    ensures 0 <= a * b <= (base - 1) * (base - 1)
  {
    MulNonNeg(a, b);
    MulLe(a, base - 1, b);
    MulLe(b, base - 1, base - 1);
  }

  /** Row accounting: adding xi*yj at weight ei*ej extends xi*vy*ei to the
      next prefix of y. */
  lemma RowAccum(xi: int, vy1: int, vy: int, yj: int, ej: int, ei: int, eij: int)
    requires vy1 == vy + yj * ej && eij == ei * ej
    ensures xi * vy1 * ei == xi * vy * ei + (xi * yj) * eij
  {
    MulDistAdd(xi, vy, yj * ej);
    assert xi * vy1 * ei == (xi * vy + xi * (yj * ej)) * ei;
  }

  /** Outer-loop accounting of the schoolbook product. */
  lemma ColumnAccum(vx1: int, vx: int, xi: int, ei: int, vy: int)
    requires vx1 == vx + xi * ei
    ensures vx1 * vy == vx * vy + xi * vy * ei
  {
  }

  /** A limb below 2b plus one limb product, split into carry and limb:
      the carry is at most b. */
  lemma ProductCarry(dp: int, t: int, b: int, c: int, m: int)
    requires b >= 2 && 0 <= dp < 2 * b && 0 <= t <= (b - 1) * (b - 1)
    requires dp + t == b * c + m && 0 <= m < b
    ensures 0 <= c <= b && dp + t - c * b == m
  {
    assert (b - 1) * (b - 1) == b * b - 2 * b + 1;
    if c > b {
      MulLe(b + 1, c, b);
    }
    if c < 0 {
      MulLe(c, -1, b);
    }
  }

  /** The middle Karatsuba product dominates the outer two, and what is left
      after removing them is the cross term. */
  lemma KaratsubaMiddle(xl: int, xh: int, yl: int, yh: int)
    requires xl >= 0 && xh >= 0 && yl >= 0 && yh >= 0
    ensures xh * yh <= (xl + xh) * (yl + yh)
    ensures xl * yl <= (xl + xh) * (yl + yh) - xh * yh
    ensures (xl + xh) * (yl + yh) - xh * yh - xl * yl == xl * yh + xh * yl
  {
    MulNonNeg(xl, yh);
    MulNonNeg(xh, yl);
    MulNonNeg(xl, yl);
  }

  /** Room above a split: if v = lo + e*hi and adding e*z (and some rest)
      stays below e*f, then hi + z stays below f. */
  lemma HighRoom(v: int, lo: int, hi: int, e: int, z: int, rest: int, f: int)
    requires v == lo + e * hi && lo >= 0 && rest >= 0 && e > 0
    requires v + e * z + rest < e * f
    ensures hi + z < f
  {
    MulDistAdd(e, hi, z);
    assert (hi + z) * e < f * e;
    MulCancelLt(hi + z, f, e);
  }

  /** With v = xl + e*xh and e >= 1, the sum of the parts is at most v, and
      strictly less once e >= 2 and xh >= 1. */
  lemma PartsSum(v: int, xl: int, xh: int, e: int)
    requires v == xl + e * xh && e >= 1 && xh >= 0
    ensures xl + xh <= v
    ensures e >= 2 && xh >= 1 ==> xl + xh < v
  {
    MulLe(1, e, xh);
    if e >= 2 && xh >= 1 {
      MulLe(2, e, xh);
    }
  }

  /** The Karatsuba cross term of two numbers split at weight el, with high
      parts below eh, stays below b * el * eh for any b >= 2. */
  lemma CrossBound(xl: int, xh: int, yl: int, yh: int, el: int, eh: int, b: int, e: int)
    requires 0 <= xl < el && 0 <= yl < el && 0 <= xh < eh && 0 <= yh < eh
    requires e == el * eh && b >= 2
    ensures xl * yh + xh * yl < b * e
  {
    MulStrict(xl, el, yh, eh);
    MulStrict(xh, eh, yl, el);
    assert eh * el == e;
    MulLe(2, b, e);
  }

  /** Two values below e add up to less than b*e for b >= 2. */
  lemma TwoBelow(a: int, c: int, e: int, b: int)
    requires 0 <= a < e && 0 <= c < e && b >= 2
    ensures a + c < b * e
  {
    MulLe(2, b, e);
  }

  /** Knuth's bound from below. Let v be the partial remainder, whose top
      two limbs read as the number U at weight p, and let the divisor y have
      top limb t at weight p, with 2t >= b. If v < y*b, the trial quotient
      e = U / t overshoots the true quotient by at most two: e - 2 never
      exceeds it. */
  lemma KnuthUnder(v: int, u: int, p: int, y: int, t: int, b: int, e: int, m: int)
    requires p >= 1 && t >= 1 && 2 <= b <= 2 * t && u >= 0 && v >= 0 && y >= 0
    requires u * p <= v && v < y * b && y < (t + 1) * p
    requires u == t * e + m && 0 <= m < t
    ensures (e - 2) * y <= v
  {
    TrialQuotientBound(v, u, p, y, t, b, e, m);
    if e - 2 > 0 {
      assert (e - 2) * (t + 1) <= u - 1;
      MulLe(y, (t + 1) * p, e - 2);
      MulLe((e - 2) * (t + 1), u, p);
      MulAssoc(e - 2, t + 1, p);
    } else {
      MulLe(e - 2, 0, y);
    }
  }

  /** Under the hypotheses of KnuthUnder the trial quotient is at most 2t + 1. */
  lemma TrialQuotientBound(v: int, u: int, p: int, y: int, t: int, b: int, e: int, m: int)
    requires p >= 1 && t >= 1 && 2 <= b <= 2 * t
    requires u * p <= v && v < y * b && y < (t + 1) * p
    requires u == t * e + m && 0 <= m < t
    ensures e <= 2 * t + 1
  {
    MulLt(y, (t + 1) * p, b);
    assert (t + 1) * p * b == ((t + 1) * b) * p;
    MulCancelLt(u, (t + 1) * b, p);
    MulLe(b, 2 * t, t + 1);
    assert e * t < (2 * (t + 1)) * t;
    MulCancelLt(e, 2 * (t + 1), t);
  }

  /** Knuth's bound from above: the trial quotient e = U / t is never below
      the true quotient, since v < (U + 1) * p <= (e + 1) * t * p. */
  lemma KnuthOver(v: int, u: int, p: int, y: int, t: int, e: int, m: int, lo: int)
    requires p >= 1 && t >= 1 && u >= 0
    requires v == lo + p * u && 0 <= lo < p && t * p <= y
    requires u == t * e + m && 0 <= m < t
    ensures e >= 0 && v < (e + 1) * y
  {
    if e < 0 {
      MulLe(e, -1, t);
    }
    assert (e + 1) * t >= u + 1;
    MulLe(u + 1, (e + 1) * t, p);
    MulLe(t * p, y, e + 1);
    MulAssoc(e + 1, t, p);
  }

  /** A value below the weight e of its high part has a zero high part. */
  lemma ZeroHigh(v: int, lo: int, e: int, hi: int)
    requires v == lo + e * hi && lo >= 0 && hi >= 0 && e >= 1 && v < e
    ensures hi == 0
  {
    if hi >= 1 {
      MulLe(1, hi, e);
    }
  }

  /** Moving long division down one limb: the new partial remainder is the
      next dividend limb plus b times the settled one, and stays below y*b. */
  lemma StepDownArith(xv: int, x0: int, rv1: int, rv: int, yv: int, q: int, b: int)
    requires xv == x0 + b * (rv + yv * q) && rv1 == x0 + b * rv
    requires 0 <= x0 < b && 0 <= rv < yv
    ensures xv == rv1 + yv * (b * q)
    ensures rv1 < yv * b
  {
    MulDistAdd(b, rv, yv * q);
    MulAssoc(b, yv, q);
    MulLe(rv + 1, yv, b);
  }

  /** Subtracting c*y from the partial remainder moves c into the quotient
      limb. */
  lemma NextDigitArith(xv: int, uv: int, rv: int, yv: int, c: int, b: int, hq: int)
    requires xv == uv + yv * (b * hq) && rv == uv - c * yv
    ensures xv == rv + yv * (c + b * hq)
  {
    MulDistAdd(yv, c, b * hq);
  }

  /** The quotient limb after correction: the corrections counted are the
      quotient of the partial remainder by y, at most sl when it was below
      (sl + 1) * y, and the limb stays below b. */
  lemma SettleArith(v0: int, v1: int, yv: int, q0: int, d: int, b: int, xv: int, hq: int, sl: int)
    requires yv >= 1 && q0 >= 0 && v0 >= 0 && sl >= 0
    requires v1 + yv * (d - q0) == v0 && 0 <= v1 < yv
    requires v0 < (sl + 1) * yv && v0 + q0 * yv < yv * b
    requires xv == v0 + yv * (q0 + b * hq)
    ensures 0 <= d - q0 <= sl && 0 <= d < b
    ensures xv == v1 + yv * (d + b * hq)
  {
    if d - q0 < 0 {
      MulLe(d - q0, -1, yv);
    }
    if d - q0 > sl {
      MulLe(sl + 1, d - q0, yv);
    }
    if d >= b {
      MulLe(b, d, yv);
    }
    MulDistAdd(yv, q0, b * hq);
    MulDistAdd(yv, d, b * hq);
  }

  /** Quotient and remainder of Euclidean division are unique. */
  lemma DivModUnique(a: int, d: int, q: int, r: int)
    requires d > 0 && 0 <= r < d && a == q * d + r
    ensures q == a / d && r == a % d
  {
    var q', r' := a / d, a % d;
    assert a == q' * d + r';
    if q < q' {
      assert (q' - q) * d == q' * d - q * d;
      MulLe(1, q' - q, d);
    } else if q > q' {
      assert (q - q') * d == q * d - q' * d;
      MulLe(1, q - q', d);
    }
  }

  /** A count k with v + y*k == v0 and 0 <= v < y is the quotient of v0
      by y, and v its remainder. */
  lemma DivModOf(v0: int, yv: int, k: int, v: int)
    requires yv > 0 && 0 <= v < yv && v + yv * k == v0
    ensures k == v0 / yv && v == v0 % yv
  {
    DivModUnique(v0, yv, k, v);
  }

  /** What is left after subtracting the clipped estimate max(e, 0) times y
      from a partial remainder below (e + 3) * y is below 3y. */
  lemma ClippedRest(uv: int, yv: int, e: int, c: int, sl: int)
    requires yv >= 1 && sl >= 0 && uv < (e + sl + 1) * yv && c == (if e <= 0 then 0 else e)
    ensures uv - c * yv < (sl + 1) * yv
  {
    if e <= 0 {
      MulLe(e + sl + 1, sl + 1, yv);
    }
  }

  /** A multiple c*y that fits under v < y*b, with y < e, fits below b*e. */
  lemma ScaledRoom(c: int, yv: int, v: int, b: int, e: int, e1: int)
    requires c >= 0 && b >= 1 && c * yv <= v < yv * b && 0 <= yv < e && e1 == b * e
    ensures yv * c < e1
  {
    MulLe(yv, e, b);
  }

  /** Dividing a positive number by d >= 2 makes it smaller. */
  lemma DivShrinks(n: int, d: int)
    requires n > 0 && d >= 2
    ensures 0 <= n / d < n && n == d * (n / d) + n % d && 0 <= n % d < d
  {
    DivMod(n, d);
    if n / d >= n {
      MulLe(n, n / d, d);
    }
  }

  /** A value whose top limb t at weight p is at least b/2 rounded down is
      at least p, and b*p is at most sl times it: sl is two when 2t >= b and
      three when 2t + 1 == b. */
  lemma HalfTop(t: int, p: int, yv: int, b: int, e: int, sl: int)
    requires t * p <= yv && 2 * t + 1 >= b >= 2 && p >= 1 && e == b * p
    requires sl == (if 2 * t >= b then 2 else 3)
    ensures 1 <= yv && e <= sl * yv && sl <= b
  {
    MulLe(1, t, p);
    if 2 * t >= b {
      MulLe(b, 2 * t, p);
    } else {
      MulLe(b, 3 * t, p);
    }
  }

  /** Knuth's two bounds together, for the trial quotient u / t: it is at
      most sl above the true quotient, where sl is two when 2t >= b and
      three when 2t + 1 == b. */
  lemma KnuthBounds(v: int, u: int, p: int, y: int, t: int, b: int, lo: int, sl: int)
    requires p >= 1 && t >= 1 && 2 <= b <= 2 * t + 1 && u >= 0 && y >= 0
    requires sl == (if b <= 2 * t then 2 else 3)
    requires v == lo + p * u && 0 <= lo < p && u * p <= v
    requires t * p <= y < (t + 1) * p && v < y * b
    ensures (u / t - sl) * y <= v < (u / t + 1) * y
  {
    DivMod(u, t);
    if b <= 2 * t {
      KnuthUnder(v, u, p, y, t, b, u / t, u % t);
    } else {
      KnuthUnderOdd(v, u, p, y, t, b, u / t, u % t);
    }
    KnuthOver(v, u, p, y, t, u / t, u % t, lo);
  }

  /** Knuth's bound from below when the top limb t is only (b - 1) / 2 for an
      odd b: the trial quotient may then overshoot by three, not two. */
  lemma KnuthUnderOdd(v: int, u: int, p: int, y: int, t: int, b: int, e: int, m: int)
    requires p >= 1 && t >= 1 && 2 <= b <= 2 * t + 1 && u >= 0 && v >= 0 && y >= 0
    requires u * p <= v && v < y * b && y < (t + 1) * p
    requires u == t * e + m && 0 <= m < t
    ensures (e - 3) * y <= v
  {
    TrialQuotientBoundOdd(v, u, p, y, t, b, e, m);
    if e - 3 > 0 {
      assert (e - 3) * (t + 1) <= u - 1;
      MulLe(y, (t + 1) * p, e - 3);
      MulLe((e - 3) * (t + 1), u, p);
      MulAssoc(e - 3, t + 1, p);
    } else {
      MulLe(e - 3, 0, y);
    }
  }

  /** Under the hypotheses of KnuthUnderOdd the trial quotient is at most
      2t + 3. */
  lemma TrialQuotientBoundOdd(v: int, u: int, p: int, y: int, t: int, b: int, e: int, m: int)
    requires p >= 1 && t >= 1 && 2 <= b <= 2 * t + 1
    requires u * p <= v && v < y * b && y < (t + 1) * p
    requires u == t * e + m && 0 <= m < t
    ensures e <= 2 * t + 3
  {
    TopTwoBelow(v, u, p, y, t, b);
    MulLe(b, 2 * t + 1, t + 1);
    OddQuotient(u, t, e, m);
  }

  /** The top two limbs u of a partial remainder below y * b, read at the
      weight p of y's top limb t, are below (t + 1) * b. */
  lemma TopTwoBelow(v: int, u: int, p: int, y: int, t: int, b: int)
    requires p >= 1 && b >= 2 && u * p <= v && v < y * b && y < (t + 1) * p
    ensures u < b * (t + 1)
  {
    MulLt(y, (t + 1) * p, b);
    assert (t + 1) * p * b == (b * (t + 1)) * p;
    MulCancelLt(u, b * (t + 1), p);
  }

  lemma OddQuotient(u: int, t: int, e: int, m: int)
    requires t >= 1 && u < (2 * t + 1) * (t + 1) && u == t * e + m && m >= 0
    ensures e <= 2 * t + 3
  {
    assert (2 * t + 1) * (t + 1) == 2 * (t * t) + 3 * t + 1;
    assert (2 * t + 4) * t == 2 * (t * t) + 4 * t;
    MulCancelLt(e, 2 * t + 4, t);
  }

  /** Adding a multiple of d leaves the remainder modulo d unchanged. */
  lemma ModShift(a: int, r: int, m: int, d: int)
    requires d > 0 && a == r + d * m
    ensures a % d == r % d
  {
    DivMod(r, d);
    assert a == (m + r / d) * d + r % d;
    DivModUnique(a, d, m + r / d, r % d);
  }

  /** Multiplying by an odd number keeps the parity. */
  lemma OddFactor(c: int, e: int)
    requires e % 2 == 1
    ensures (c * e) % 2 == c % 2
  {
    DivMod(e, 2);
    var k := e / 2;
    assert c * e == c * (2 * k + 1);
    assert c * e == c + 2 * (c * k);
    ModShift(c * e, c, c * k, 2);
  }

  /** The product of two odd numbers is odd. */
  lemma OddMul(a: int, b: int)
    requires a % 2 == 1 && b % 2 == 1
    ensures (a * b) % 2 == 1
  {
    OddFactor(a, b);
  }

  /** One limb c at an odd weight e changes the parity as c % 2 does. */
  lemma ParityStep(v: int, p: int, c: int, e: int)
    requires v % 2 == p % 2 && e % 2 == 1
    ensures (v + c * e) % 2 == (p + c % 2) % 2
  {
    DivMod(v, 2);
    DivMod(p, 2);
    OddFactor(c, e);
    DivMod(c * e, 2);
    var m := v / 2 - p / 2 + (c * e) / 2;
    assert v + c * e == (p + c % 2) + 2 * m;
    ModShift(v + c * e, p + c % 2, m, 2);
  }

  /** With an even radix only the lowest limb decides the parity. */
  lemma EvenStep(v: int, d: int, b: int, w: int)
    requires b % 2 == 0 && v == d + b * w
    ensures v % 2 == d % 2
  {
    DivMod(b, 2);
    MulAssoc(2, b / 2, w);
    assert b * w == 2 * ((b / 2) * w);
    ModShift(v, d, (b / 2) * w, 2);
  }

  /** Two numbers below e sum to less than b * e. */
  lemma SumRoom(a: int, c: int, e: int, b: int)
    requires 0 <= a < e && 0 <= c < e && b >= 2
    ensures a + c < b * e
  {
    MulLe(2, b, e);
  }

  /** A value below (t + 1) * p, with 2 * (t + 1) <= b, still fits after doubling. */
  lemma DoubleRoom(v: int, t: int, p: int, b: int)
    requires p >= 1 && 0 <= v < (t + 1) * p && 2 * (t + 1) <= b
    ensures v * 2 < b * p
  {
    MulLe(2 * (t + 1), b, p);
  }

  /** A factor that keeps fac * y below b * p, for y >= p, is below b. */
  lemma FactorBound(fac: int, y: int, p: int, b: int)
    requires p >= 1 && y >= p && fac >= 1 && fac * y < b * p
    ensures fac < b
  {
    if fac >= b {
      MulLe(p, y, fac);
      MulLe(b, fac, p);
    }
  }

  /** Undoing the scaling of a division: from x*f = (y*f)*q + s with
      0 <= s < y*f, dividing s by f leaves no remainder and yields x - y*q. */
  lemma Unscale(vx: int, vy: int, vq: int, s: int, vr: int, rem: int, f: int)
    requires f >= 1 && vy >= 1
    requires vx * f == (vy * f) * vq + s && 0 <= s < vy * f
    requires s == f * vr + rem && 0 <= rem < f
    ensures rem == 0 && vr == vx - vy * vq && 0 <= vr < vy
  {
    assert s == (vx - vy * vq) * f + 0;
    DivModUnique(s, f, vx - vy * vq, 0);
    DivModUnique(s, f, vr, rem);
    assert vr * f < vy * f;
    MulCancelLt(vr, vy, f);
  }

  /** d is a positive divisor of n. */
  predicate Divides(d: int, n: int)
  {
    d >= 1 && n % d == 0
  }

  /** Euclid's step keeps the common divisors: those of a and b are those
      of b and a % b. */
  lemma EuclidStep(a: int, b: int)
    requires a >= 0 && b > 0
    ensures forall d :: Divides(d, a) && Divides(d, b) <==> Divides(d, b) && Divides(d, a % b)
  {
    forall d | Divides(d, b)
      ensures Divides(d, a) <==> Divides(d, a % b)
    {
      DivMod(a, b);
      DivMod(b, d);
      MulAssoc(d, b / d, a / b);
      assert a == a % b + d * ((b / d) * (a / b));
      ModShift(a, a % b, (b / d) * (a / b), d);
    }
  }

  /** A divisor of a positive number is at most that number. */
  lemma DividesBound(d: int, n: int)
    requires Divides(d, n) && n > 0
    ensures d <= n
  {
    DivMod(n, d);
    if n / d <= 0 {
      MulLe(n / d, 0, d);
    } else {
      MulLe(1, n / d, d);
    }
  }

  /** A number divided by every positive number is zero. */
  lemma DividedByAll(n: int)
    requires n >= 0 && Divides(n + 1, n)
    ensures n == 0
  {
  }
}
