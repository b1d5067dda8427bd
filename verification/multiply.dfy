/** The two multiplication kernels of posint.cpp: the schoolbook
    `mulArray` and Karatsuba's `fastMulArray`. */
module Multiply {
  import opened Arith
  import opened Limbs
  import opened Carry

  /** dest = x * y by the schoolbook method: for each limb of x, one row of
      limb products is added in, each immediately carried one place up. The
      result has exactly |x| + |y| limbs and may carry leading zeros. */
  method MulArray(B: int, x: seq<int>, y: seq<int>) returns (dest: seq<int>)
    requires B >= 2 && InRange(B, x) && InRange(B, y)
    ensures |dest| == |x| + |y| && InRange(B, dest)
    ensures Value(B, dest) == Value(B, x) * Value(B, y)
  {
    dest := Zeros(|x| + |y|);
    ValueAllZero(B, dest);
    var i := 0;
    while i < |x|
      invariant 0 <= i <= |x| && |dest| == |x| + |y|
      invariant InRange(B, dest)
      invariant forall k :: i + |y| <= k < |dest| ==> dest[k] == 0
      invariant Value(B, dest) == Value(B, x[..i]) * Value(B, y)
    {
      RowRoom(B, x, y, i, Value(B, dest));
      ValuePrefix(B, x, i);
      ColumnAccum(Value(B, x[..i + 1]), Value(B, x[..i]), x[i], Exp(B, i), Value(B, y));
      dest := MulRow(B, dest, x[i], y, i);
      i := i + 1;
    }
    assert x[..i] == x;
  }

  /** The room one more row needs: the partial product through limb i of x
      fits below B^(i + |y| + 1). */
  lemma {:induction false} RowRoom(B: int, x: seq<int>, y: seq<int>, i: nat, v: int)
    requires B >= 2 && InRange(B, x) && InRange(B, y) && i < |x|
    requires v == Value(B, x[..i]) * Value(B, y)
    ensures v + x[i] * Value(B, y) * Exp(B, i) < Exp(B, i + |y| + 1)
  {
    ValuePrefix(B, x, i);
    ColumnAccum(Value(B, x[..i + 1]), Value(B, x[..i]), x[i], Exp(B, i), Value(B, y));
    assert InRange(B, x[..i + 1]);
    ValueBounds(B, x[..i + 1]);
    ValueBounds(B, y);
    MulStrict(Value(B, x[..i + 1]), Exp(B, i + 1), Value(B, y), Exp(B, |y|));
    ExpAdd(B, i + 1, |y|);
  }

  /** One row of the schoolbook product: adds xi * y * B^i into dest, each
      limb product carried at once into the next limb. The caller
      guarantees the row fits below limb i + |y| + 1. */
  method MulRow(B: int, dest: seq<int>, xi: int, y: seq<int>, i: nat) returns (d: seq<int>)
    requires B >= 2 && InRange(B, dest) && InRange(B, y) && 0 <= xi < B
    requires i + |y| < |dest|
    requires forall k :: i + |y| <= k < |dest| ==> dest[k] == 0
    requires Value(B, dest) + xi * Value(B, y) * Exp(B, i) < Exp(B, i + |y| + 1)
    ensures |d| == |dest| && InRange(B, d)
    ensures forall k :: i + |y| < k < |d| ==> d[k] == 0
    ensures Value(B, d) == Value(B, dest) + xi * Value(B, y) * Exp(B, i)
  {
    d := dest;
    var j := 0;
    while j < |y|
      invariant 0 <= j <= |y| && |d| == |dest|
      invariant forall k :: 0 <= k < |d| && k != i + j ==> 0 <= d[k] < B
      invariant 0 <= d[i + j] < 2 * B
      invariant forall k :: i + |y| < k < |d| ==> d[k] == 0
      invariant Value(B, d) == Value(B, dest) + xi * Value(B, y[..j]) * Exp(B, i)
    {
      LimbProduct(xi, y[j], B);
      ValuePrefix(B, y, j);
      ExpAdd(B, i, j);
      RowAccum(xi, Value(B, y[..j + 1]), Value(B, y[..j]), y[j], Exp(B, j), Exp(B, i), Exp(B, i + j));
      d := MulAccStep(B, d, i + j, xi * y[j]);
      j := j + 1;
    }
    assert y[..j] == y;
    RowTop(B, d, i + |y|);
  }

  /** dest[p] += t, then the quotient by B moves one limb up and dest[p]
      keeps the remainder; the value grows by exactly t * B^p. */
  method MulAccStep(B: int, d: seq<int>, p: nat, t: int) returns (d1: seq<int>)
    requires B >= 2 && p + 1 < |d|
    requires forall k :: 0 <= k < |d| && k != p ==> 0 <= d[k] < B
    requires 0 <= d[p] < 2 * B && 0 <= t <= (B - 1) * (B - 1)
    ensures |d1| == |d|
    ensures forall k :: 0 <= k < |d1| && k != p + 1 ==> 0 <= d1[k] < B
    ensures 0 <= d1[p + 1] < 2 * B
    ensures forall k :: 0 <= k < |d1| && k != p && k != p + 1 ==> d1[k] == d[k]
    ensures Value(B, d1) == Value(B, d) + t * Exp(B, p)
  {
    var a := d[p] + t;
    ValueAddAt(B, d, p, t);
    DivMod(a, B);
    var c := a / B;
    ProductCarry(d[p], t, B, c, a % B);
    CarryStep(B, d[p := a], p, c);
    d1 := d[p := a - c * B][p + 1 := d[p + 1] + c];
    assert d[p := a][p := a - c * B] == d[p := a - c * B];
  }

  /** After a row only limb p may reach B; the value bound pulls it back
      into range because every limb above p is zero. */
  lemma {:induction false} RowTop(B: int, d: seq<int>, p: nat)
    requires B >= 2 && p < |d|
    requires forall k :: 0 <= k < |d| && k != p ==> 0 <= d[k] < B
    requires 0 <= d[p]
    requires forall k :: p < k < |d| ==> d[k] == 0
    requires Value(B, d) < Exp(B, p + 1)
    ensures InRange(B, d)
  {
    var lo := d[..p + 1];
    assert d == lo + d[p + 1..];
    assert AllZero(d[p + 1..]);
    ValueZeroTail(B, lo, d[p + 1..]);
    TopFits(B, lo);
    assert forall k :: 0 <= k < |d| ==> 0 <= d[k] < B by {
      forall k | 0 <= k < |d|
        ensures 0 <= d[k] < B
      {
        if k <= p {
          assert d[k] == lo[k];
        }
      }
    }
  }

  /** dest = x * y by Karatsuba's method, for x and y of one length len and
      dest of 2 * len zero limbs. The low halves have len / 2 limbs, the high
      halves the rest; the sums of halves are trimmed of shared leading zero
      limbs before the middle product. The recursion ends at one limb. */
  method FastMulArray(B: int, dest: seq<int>, x: seq<int>, y: seq<int>) returns (r: seq<int>)
    requires B >= 2 && |x| == |y| >= 1 && |dest| == 2 * |x|
    requires InRange(B, x) && InRange(B, y) && AllZero(dest)
    ensures |r| == |dest| && InRange(B, r)
    ensures Value(B, r) == Value(B, x) * Value(B, y)
    decreases |x|, Value(B, x) + Value(B, y)
  {
    var len := |x|;
    if len == 1 {
      r := MulArray(B, x, y);
      return;
    }
    var lenOver2 := len / 2;
    var highLen := lenOver2 + len % 2;
    var xSum := DigitSum(B, x, lenOver2, highLen);
    var ySum := DigitSum(B, y, lenOver2, highLen);
    var sumLen := TrimSums(B, xSum, ySum);
    SumMeasure(B, x, y, lenOver2, highLen, xSum, ySum, sumLen);
    Halves(B, x, lenOver2);
    Halves(B, y, lenOver2);
    var z0 := FastMulArray(B, Zeros(2 * lenOver2), x[..lenOver2], y[..lenOver2]);
    var z1 := FastMulArray(B, Zeros(2 * sumLen), xSum[..sumLen], ySum[..sumLen]);
    var z2 := FastMulArray(B, Zeros(2 * highLen), x[lenOver2..], y[lenOver2..]);
    z1 := MiddleTerm(B, z0, z1, z2, lenOver2, highLen,
                     Value(B, x[..lenOver2]), Value(B, x[lenOver2..]),
                     Value(B, y[..lenOver2]), Value(B, y[lenOver2..]));
    RecombineArgs(B, x, y, lenOver2, highLen, Value(B, z0), Value(B, z1), Value(B, z2));
    r := Recombine(B, dest, z0, z1, z2, lenOver2, highLen);
  }

  /** z1 - z2 - z0 in the middle product's buffer of 2 * (highLen + 1)
      limbs: with z0, z1, z2 the products of the low halves, of the sums of
      halves and of the high halves, what remains is the cross term. */
  method MiddleTerm(B: int, z0: seq<int>, z1: seq<int>, z2: seq<int>, lenOver2: nat, highLen: nat,
                    ghost xl: int, ghost xh: int, ghost yl: int, ghost yh: int) returns (m: seq<int>)
    requires B >= 2 && lenOver2 <= highLen && 1 <= |z1| <= 2 * (highLen + 1)
    requires |z0| == 2 * lenOver2 && |z2| == 2 * highLen
    requires InRange(B, z0) && InRange(B, z1) && InRange(B, z2)
    requires xl >= 0 && xh >= 0 && yl >= 0 && yh >= 0
    requires Value(B, z0) == xl * yl && Value(B, z2) == xh * yh
    requires Value(B, z1) == (xl + xh) * (yl + yh)
    ensures |m| == 2 * (highLen + 1) && InRange(B, m)
    ensures Value(B, m) == xl * yh + xh * yl
  {
    ValueZeroTail(B, z1, Zeros(2 * (highLen + 1) - |z1|));
    m := z1 + Zeros(2 * (highLen + 1) - |z1|);
    assert InRange(B, m);
    KaratsubaMiddle(xl, xh, yl, yh);
    assert z2[..2 * highLen] == z2 && z0[..2 * lenOver2] == z0;
    m := SubArray(B, m, z2, 2 * highLen);
    m := SubArray(B, m, z0, 2 * lenOver2);
  }

  /** Both halves of a limb sequence are in range and non-negative. */
  lemma {:induction false} Halves(B: int, x: seq<int>, l: nat)
    requires B >= 2 && InRange(B, x) && l <= |x|
    ensures InRange(B, x[..l]) && InRange(B, x[l..])
    ensures 0 <= Value(B, x[..l]) < Exp(B, l) && 0 <= Value(B, x[l..]) < Exp(B, |x| - l)
  {
    assert InRange(B, x[..l]) && InRange(B, x[l..]);
    ValueBounds(B, x[..l]);
    ValueBounds(B, x[l..]);
  }

  /** The sum of the low and high halves of x in highLen + 1 limbs: the high
      half is copied into the buffer, its top limb zeroed, and the low half
      added in. */
  method DigitSum(B: int, x: seq<int>, lenOver2: nat, highLen: nat) returns (s: seq<int>)
    requires B >= 2 && InRange(B, x) && lenOver2 <= highLen && |x| == lenOver2 + highLen
    ensures |s| == highLen + 1 && InRange(B, s)
    ensures Value(B, s) == Value(B, x[..lenOver2]) + Value(B, x[lenOver2..])
  {
    s := x[lenOver2..] + [0];
    assert InRange(B, s);
    ValueZeroTail(B, x[lenOver2..], [0]);
    Halves(B, x, lenOver2);
    ExpMonotoneLe(B, lenOver2, highLen);
    assert Exp(B, highLen + 1) == B * Exp(B, highLen);
    TwoBelow(Value(B, x[lenOver2..]), Value(B, x[..lenOver2]), Exp(B, highLen), B);
    s := AddArray(B, s, x, lenOver2);
  }

  /** The shared length of the two sums of halves once the top limbs that
      are zero in both are dropped, keeping at least one limb. */
  method TrimSums(B: int, xSum: seq<int>, ySum: seq<int>) returns (n: nat)
    requires |xSum| == |ySum| >= 1
    ensures 1 <= n <= |xSum|
    ensures n > 1 ==> xSum[n - 1] != 0 || ySum[n - 1] != 0
    ensures AllZero(xSum[n..]) && AllZero(ySum[n..])
    ensures Value(B, xSum[..n]) == Value(B, xSum) && Value(B, ySum[..n]) == Value(B, ySum)
  {
    n := |xSum|;
    while xSum[n - 1] == 0 && ySum[n - 1] == 0 && n > 1
      invariant 1 <= n <= |xSum|
      invariant AllZero(xSum[n..]) && AllZero(ySum[n..])
    {
      n := n - 1;
    }
    ValueTrim(B, xSum, n);
    ValueTrim(B, ySum, n);
  }

  /** Dropping zero limbs from the top keeps the value. */
  lemma {:induction false} ValueTrim(B: int, s: seq<int>, n: nat)
    requires n <= |s| && AllZero(s[n..])
    ensures Value(B, s[..n]) == Value(B, s)
  {
    assert s == s[..n] + s[n..];
    ValueZeroTail(B, s[..n], s[n..]);
  }

  /** The sum of the halves never exceeds the whole, and falls strictly
      below it when the sum reaches its top limb. */
  lemma {:induction false} HalvesSum(B: int, x: seq<int>, l: nat, s: seq<int>)
    requires B >= 2 && InRange(B, x) && 1 <= l <= |x| - l && |s| == |x| - l + 1
    requires InRange(B, s) && Value(B, s) == Value(B, x[..l]) + Value(B, x[l..])
    ensures Value(B, s) <= Value(B, x)
    ensures s[|s| - 1] != 0 ==> Value(B, s) < Value(B, x)
  {
    var h := |x| - l;
    Halves(B, x, l);
    ValueSplit(B, x, l);
    ExpMonotoneLe(B, 1, l);
    assert Exp(B, 1) == B * Exp(B, 0);
    if s[h] != 0 {
      ValueGeLimb(B, s, h);
      MulLe(1, s[h], Exp(B, h));
      ExpMonotoneLe(B, l, h);
    }
    PartsSum(Value(B, x), Value(B, x[..l]), Value(B, x[l..]), Exp(B, l));
  }

  /** The measure of the middle recursive call is below that of the caller:
      either the trimmed length is shorter than len, or (when no limb was
      trimmed and len is 2 or 3) the sums are smaller than the operands. */
  lemma {:induction false} SumMeasure(B: int, x: seq<int>, y: seq<int>, l: nat, h: nat,
                   xs: seq<int>, ys: seq<int>, n: nat)
    requires B >= 2 && InRange(B, x) && InRange(B, y) && |x| == |y| == l + h
    requires 1 <= l <= h <= l + 1
    requires |xs| == |ys| == h + 1 && InRange(B, xs) && InRange(B, ys)
    requires Value(B, xs) == Value(B, x[..l]) + Value(B, x[l..])
    requires Value(B, ys) == Value(B, y[..l]) + Value(B, y[l..])
    requires 1 <= n <= h + 1
    requires n == h + 1 ==> xs[h] != 0 || ys[h] != 0
    requires Value(B, xs[..n]) == Value(B, xs) && Value(B, ys[..n]) == Value(B, ys)
    ensures InRange(B, xs[..n]) && InRange(B, ys[..n])
    ensures 0 <= Value(B, xs[..n]) && 0 <= Value(B, ys[..n])
    ensures n < l + h || (n == l + h && Value(B, xs[..n]) + Value(B, ys[..n]) < Value(B, x) + Value(B, y))
  {
    assert InRange(B, xs[..n]) && InRange(B, ys[..n]);
    ValueBounds(B, xs);
    ValueBounds(B, ys);
    HalvesSum(B, x, l, xs);
    HalvesSum(B, y, l, ys);
  }

  /** The arithmetic behind the recombination, stated on the values v0, v1,
      v2 of the three partial products: they recombine to x * y, the cross
      term v1 fits in l + 2h limbs (so it can be copied in at limb l), and
      the product fits in 2(l + h) limbs. */
  lemma {:induction false} RecombineArgs(B: int, x: seq<int>, y: seq<int>, l: nat, h: nat, v0: int, v1: int, v2: int)
    requires B >= 2 && InRange(B, x) && InRange(B, y) && |x| == |y| == l + h
    requires 1 <= l <= h
    requires v0 == Value(B, x[..l]) * Value(B, y[..l])
    requires v1 == Value(B, x[..l]) * Value(B, y[l..]) + Value(B, x[l..]) * Value(B, y[..l])
    requires v2 == Value(B, x[l..]) * Value(B, y[l..])
    ensures v0 + Exp(B, l) * v1 + Exp(B, 2 * l) * v2 == Value(B, x) * Value(B, y)
    ensures v1 < Exp(B, l + 2 * h)
    ensures Value(B, x) * Value(B, y) < Exp(B, 2 * (l + h))
  {
    ProductSplit(B, x, y, l);
    CrossFits(B, x, y, l, h);
    ProductRoom(B, x, y);
    ExpAdd(B, l + h, l + h);
  }

  /** Karatsuba's identity on the values of the halves. */
  lemma {:induction false} ProductSplit(B: int, x: seq<int>, y: seq<int>, l: nat)
    requires l <= |x| && l <= |y|
    ensures Value(B, x) * Value(B, y)
            == Value(B, x[..l]) * Value(B, y[..l])
               + Exp(B, l) * (Value(B, x[..l]) * Value(B, y[l..]) + Value(B, x[l..]) * Value(B, y[..l]))
               + Exp(B, 2 * l) * (Value(B, x[l..]) * Value(B, y[l..]))
  {
    ValueSplit(B, x, l);
    ValueSplit(B, y, l);
    ExpDouble(B, l);
    KaratsubaIdentity(Value(B, x), Value(B, y), Value(B, x[..l]), Value(B, x[l..]),
                      Value(B, y[..l]), Value(B, y[l..]), Exp(B, l), Exp(B, 2 * l));
  }

  /** The cross term of the halves fits in l + 2h limbs. */
  lemma {:induction false} CrossFits(B: int, x: seq<int>, y: seq<int>, l: nat, h: nat)
    requires B >= 2 && InRange(B, x) && InRange(B, y) && |x| == |y| == l + h && 1 <= h
    ensures Value(B, x[..l]) * Value(B, y[l..]) + Value(B, x[l..]) * Value(B, y[..l])
            < Exp(B, l + 2 * h)
  {
    Halves(B, x, l);
    Halves(B, y, l);
    ExpAdd(B, l, h);
    CrossBound(Value(B, x[..l]), Value(B, x[l..]), Value(B, y[..l]), Value(B, y[l..]),
               Exp(B, l), Exp(B, h), B, Exp(B, l + h));
    assert Exp(B, l + h + 1) == B * Exp(B, l + h);
    ExpMonotoneLe(B, l + h + 1, l + 2 * h);
  }

  /** A product of two n-limb values fits in 2n limbs. */
  lemma {:induction false} ProductRoom(B: int, x: seq<int>, y: seq<int>)
    requires B >= 2 && InRange(B, x) && InRange(B, y) && |x| == |y|
    ensures 0 <= Value(B, x) * Value(B, y) < Exp(B, |x|) * Exp(B, |x|)
  {
    ValueBounds(B, x);
    ValueBounds(B, y);
    MulNonNeg(Value(B, x), Value(B, y));
    MulStrict(Value(B, x), Exp(B, |x|), Value(B, y), Exp(B, |x|));
  }

  /** The tail of fastMulArray: z1 trimmed of leading zero limbs and copied
      into the zeroed dest at limb lenOver2, z2 added in at limb
      2 * lenOver2, then z0 added at limb 0. */
  method Recombine(B: int, dest: seq<int>, z0: seq<int>, z1: seq<int>, z2: seq<int>,
                   lenOver2: nat, highLen: nat) returns (r: seq<int>)
    requires B >= 2 && 1 <= lenOver2 && 1 <= highLen
    requires |dest| == 2 * (lenOver2 + highLen) && AllZero(dest)
    requires |z0| == 2 * lenOver2 && |z2| == 2 * highLen && |z1| >= 1
    requires InRange(B, z0) && InRange(B, z1) && InRange(B, z2)
    requires Value(B, z1) < Exp(B, lenOver2 + 2 * highLen)
    requires Value(B, z0) + Exp(B, lenOver2) * Value(B, z1) + Exp(B, 2 * lenOver2) * Value(B, z2)
             < Exp(B, 2 * (lenOver2 + highLen))
    ensures |r| == |dest| && InRange(B, r)
    ensures Value(B, r)
            == Value(B, z0) + Exp(B, lenOver2) * Value(B, z1) + Exp(B, 2 * lenOver2) * Value(B, z2)
  {
    var l := lenOver2;
    var z1Len := TrimmedLength(B, z1, l + 2 * highLen);
    r := dest[..l] + z1[..z1Len] + dest[l + z1Len..];
    Placed(B, dest, z1[..z1Len], l);
    assert InRange(B, r) by {
      assert InRange(B, z1[..z1Len]);
    }
    ghost var v1 := Value(B, r);
    ValueSplit(B, r, 2 * l);
    ValueNonNeg(B, r[..2 * l]);
    ValueBounds(B, z0);
    ExpAdd(B, 2 * l, 2 * highLen);
    assert 2 * (l + highLen) == 2 * l + 2 * highLen;
    HighRoom(v1, Value(B, r[..2 * l]), Value(B, r[2 * l..]), Exp(B, 2 * l),
             Value(B, z2), Value(B, z0), Exp(B, 2 * highLen));
    assert z2[..2 * highLen] == z2 && z0[..2 * l] == z0;
    var hi := AddArray(B, r[2 * l..], z2, 2 * highLen);
    ValueAppend(B, r[..2 * l], hi);
    MulDistAdd(Exp(B, 2 * l), Value(B, r[2 * l..]), Value(B, z2));
    r := r[..2 * l] + hi;
    r := AddArray(B, r, z0, 2 * l);
  }

  /** The length of z1 once its leading zero limbs are dropped (keeping at
      least one limb); its value bound keeps it within bound limbs. */
  method TrimmedLength(B: int, z1: seq<int>, bound: nat) returns (n: nat)
    requires B >= 2 && |z1| >= 1 && InRange(B, z1) && bound >= 1
    requires Value(B, z1) < Exp(B, bound)
    ensures 1 <= n <= |z1| && n <= bound
    ensures n > 1 ==> z1[n - 1] != 0
    ensures AllZero(z1[n..])
    ensures Value(B, z1[..n]) == Value(B, z1)
  {
    n := |z1|;
    while z1[n - 1] == 0 && n > 1
      invariant 1 <= n <= |z1| && AllZero(z1[n..])
    {
      n := n - 1;
    }
    ValueTrim(B, z1, n);
    if n > 1 {
      assert IsPosInt(B, z1[..n]);
      LengthBound(B, z1[..n], bound);
    }
  }

  /** w copied into zeroed limbs at offset l is worth w * B^l. */
  lemma {:induction false} Placed(B: int, dest: seq<int>, w: seq<int>, l: nat)
    requires AllZero(dest) && l + |w| <= |dest|
    ensures Value(B, dest[..l] + w + dest[l + |w|..]) == Exp(B, l) * Value(B, w)
  {
    var lo, tail := dest[..l], dest[l + |w|..];
    assert AllZero(lo) && AllZero(tail);
    assert lo + w + tail == lo + (w + tail);
    ValueAppend(B, lo, w + tail);
    ValueAllZero(B, lo);
    ValueZeroTail(B, w, tail);
  }
}
