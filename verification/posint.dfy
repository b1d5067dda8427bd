/** The PosInt operations (posint.cpp): each takes canonical limb sequences
    (every limb in [0, B), no most-significant zero limb) and returns a
    canonical sequence, built from the limb-array routines of Compare,
    Carry, Multiply and Divide. The radix B is a parameter; the mutable
    receiver of the source becomes a returned value. */
module PosInt {
  import opened Arith
  import opened Limbs
  import opened Compare
  import opened Carry
  import opened Multiply
  import opened Divide

  /** The conditions under which a PosInt operation throws. */
  datatype Error = NegativeValue | Underflow | DivideByZero

  datatype Result<T> = Success(value: T) | Failure(error: Error)

  /** Quotient and remainder of a division. */
  datatype Division = Division(quot: seq<int>, rem: seq<int>)

  /* ---------------------------------------------------------------- set */

  /** set(int): the limbs of x, least significant first, by repeated
      division by B; a negative x is refused. */
  method SetInt(B: int, x: int) returns (r: Result<seq<int>>)
    requires B >= 2
    ensures r.Failure? <==> x < 0
    ensures r.Failure? ==> r.error == NegativeValue
    ensures r.Success? ==> IsPosInt(B, r.value) && Value(B, r.value) == x
  {
    if x < 0 {
      return Failure(NegativeValue);
    }
    var digits: seq<int> := [];
    var n := x;
    while n > 0
      invariant n >= 0 && InRange(B, digits)
      invariant n == 0 ==> Normalized(digits)
      invariant Value(B, digits) + Exp(B, |digits|) * n == x
      decreases n
    {
      SetDigit(B, digits, n, x);
      digits := digits + [n % B];
      n := n / B;
    }
    return Success(digits);
  }

  /** One step of set(int): the limb n % B moves into the sequence and
      n / B stays to be converted; the last limb pushed is not zero. */
  lemma {:induction false} SetDigit(B: int, digits: seq<int>, n: int, x: int)
    requires B >= 2 && n > 0 && InRange(B, digits)
    requires Value(B, digits) + Exp(B, |digits|) * n == x
    ensures InRange(B, digits + [n % B]) && 0 <= n / B < n
    ensures n / B == 0 ==> Normalized(digits + [n % B])
    ensures Value(B, digits + [n % B]) + Exp(B, |digits + [n % B]|) * (n / B) == x
  {
    DivShrinks(n, B);
    ValueAppend(B, digits, [n % B]);
    ValueSingle(B, n % B);
    assert Exp(B, |digits| + 1) == B * Exp(B, |digits|);
    SetStep(Value(B, digits), Exp(B, |digits|), n, B, n % B, n / B);
  }

  lemma {:induction false} SetStep(v: int, e: int, n: int, b: int, d: int, m: int)
    requires n == b * m + d
    ensures v + e * d + (b * e) * m == v + e * n
  {
    MulAssoc(e, b, m);
    MulDistAdd(e, b * m, d);
  }

  /* ------------------------------------------------------------ convert */

  /** convert: the value as a machine integer, accumulating limb times
      the running power of B. */
  method Convert(B: int, s: seq<int>) returns (v: int)
    ensures v == Value(B, s)
  {
    v := 0;
    var pow := 1;
    var i := 0;
    while i < |s|
      invariant 0 <= i <= |s|
      invariant v == Value(B, s[..i]) && pow == Exp(B, i)
    {
      ValuePrefix(B, s, i);
      v := v + pow * s[i];
      pow := pow * B;
      i := i + 1;
    }
    assert s[..|s|] == s;
  }

  /* ------------------------------------------------------------- isEven */

  /** The number of odd limbs among s, counted from the top down. */
  function OddLimbs(s: seq<int>): int
  {
    if |s| == 0 then 0 else OddLimbs(s[..|s| - 1]) + s[|s| - 1] % 2
  }

  /** With an odd radix every power of B is odd, so the parity of the value
      is the parity of the number of odd limbs. */
  lemma {:induction false} OddRadixParity(B: int, s: seq<int>)
    requires B % 2 == 1
    ensures Value(B, s) % 2 == OddLimbs(s) % 2
    decreases |s|
  {
    if |s| > 0 {
      var n := |s| - 1;
      OddRadixParity(B, s[..n]);
      ValuePrefix(B, s, n);
      assert s[..n + 1] == s;
      OddPower(B, n);
      ParityStep(Value(B, s[..n]), OddLimbs(s[..n]), s[n], Exp(B, n));
    }
  }

  lemma {:induction false} OddPower(b: int, n: nat)
    requires b % 2 == 1
    ensures Exp(b, n) % 2 == 1
  {
    if n > 0 {
      OddPower(b, n - 1);
      OddMul(b, Exp(b, n - 1));
    }
  }

  /** With an even radix the parity of the value is that of limb 0. */
  lemma {:induction false} EvenRadixParity(B: int, s: seq<int>)
    requires B % 2 == 0 && |s| >= 1
    ensures Value(B, s) % 2 == s[0] % 2
  {
    EvenStep(Value(B, s), s[0], B, Value(B, s[1..]));
  }

  /** isEven: for an even radix look at limb 0, for an odd radix count the
      odd limbs. */
  method IsEven(B: int, s: seq<int>) returns (even: bool)
    requires B >= 2 && InRange(B, s)
    ensures even <==> Value(B, s) % 2 == 0
  {
    if B % 2 == 0 {
      if |s| > 0 {
        EvenRadixParity(B, s);
      }
      return |s| == 0 || s[0] % 2 == 0;
    }
    var sum := 0;
    var i := 0;
    while i < |s|
      invariant 0 <= i <= |s| && sum == OddLimbs(s[..i])
    {
      assert s[..i + 1][..i] == s[..i];
      sum := sum + s[i] % 2;
      i := i + 1;
    }
    assert s[..|s|] == s;
    OddRadixParity(B, s);
    return sum % 2 == 0;
  }

  /* ---------------------------------------------------------------- add */

  /** add: a grown to one limb more than the longer operand, x added in
      with addArray, then normalized. */
  method Add(B: int, a: seq<int>, x: seq<int>) returns (r: seq<int>)
    requires B >= 2 && IsPosInt(B, a) && IsPosInt(B, x)
    ensures IsPosInt(B, r) && Value(B, r) == Value(B, a) + Value(B, x)
  {
    var m := Max(|a|, |x|);
    var dest := a + Zeros(m + 1 - |a|);
    ValueZeroTail(B, a, Zeros(m + 1 - |a|));
    assert x[..|x|] == x;
    AddRoom(B, a, x, m);
    var sum := AddArray(B, dest, x, |x|);
    NormalizeValue(B, sum);
    r := Normalize(sum);
  }

  /** Two operands of at most m limbs sum to less than B^(m+1). */
  lemma {:induction false} AddRoom(B: int, a: seq<int>, x: seq<int>, m: nat)
    requires B >= 2 && InRange(B, a) && InRange(B, x) && |a| <= m && |x| <= m
    ensures Value(B, a) + Value(B, x) < Exp(B, m + 1)
  {
    ValueBounds(B, a);
    ValueBounds(B, x);
    ExpMonotoneLe(B, |a|, m);
    ExpMonotoneLe(B, |x|, m);
    SumRoom(Value(B, a), Value(B, x), Exp(B, m), B);
  }

  /* ---------------------------------------------------------------- sub */

  /** sub: refused when x exceeds a; otherwise subArray over x's limbs,
      then normalized. Subtracting zero leaves a as it is. */
  method Sub(B: int, a: seq<int>, x: seq<int>) returns (r: Result<seq<int>>)
    requires B >= 2 && IsPosInt(B, a) && IsPosInt(B, x)
    ensures r.Failure? <==> Value(B, a) < Value(B, x)
    ensures r.Failure? ==> r.error == Underflow
    ensures r.Success? ==> IsPosInt(B, r.value) && Value(B, r.value) == Value(B, a) - Value(B, x)
  {
    var c := Compare.Compare(B, a, x);
    if c < 0 {
      return Failure(Underflow);
    }
    if |x| == 0 {
      return Success(a);
    }
    ValueBounds(B, a);
    LengthBound(B, x, |a|);
    assert x[..|x|] == x;
    var diff := SubArray(B, a, x, |x|);
    NormalizeValue(B, diff);
    return Success(Normalize(diff));
  }

  /* ---------------------------------------------------------------- mul */

  /** mul: zero when either operand is empty; otherwise mulArray into
      |a| + |x| limbs, then normalized. */
  method Mul(B: int, a: seq<int>, x: seq<int>) returns (r: seq<int>)
    requires B >= 2 && IsPosInt(B, a) && IsPosInt(B, x)
    ensures IsPosInt(B, r) && Value(B, r) == Value(B, a) * Value(B, x)
  {
    if |a| == 0 || |x| == 0 {
      return [];
    }
    var prod := MulArray(B, a, x);
    NormalizeValue(B, prod);
    r := Normalize(prod);
  }

  /** fastMul: zero when either operand is empty; otherwise both are padded
      with zero limbs to the longer length n, multiplied by Karatsuba into
      2n zero limbs, then normalized. */
  method FastMul(B: int, a: seq<int>, x: seq<int>) returns (r: seq<int>)
    requires B >= 2 && IsPosInt(B, a) && IsPosInt(B, x)
    ensures IsPosInt(B, r) && Value(B, r) == Value(B, a) * Value(B, x)
  {
    if |a| == 0 || |x| == 0 {
      return [];
    }
    var n := Max(|a|, |x|);
    var pa := a + Zeros(n - |a|);
    var px := x + Zeros(n - |x|);
    ValueZeroTail(B, a, Zeros(n - |a|));
    ValueZeroTail(B, x, Zeros(n - |x|));
    var prod := FastMulArray(B, Zeros(2 * n), pa, px);
    NormalizeValue(B, prod);
    r := Normalize(prod);
  }

  /** Canonical sequences of equal value are equal, so mul and fastMul,
      whose results have the same value, return the same limbs. */
  lemma {:induction false} MulAgree(B: int, r1: seq<int>, r2: seq<int>, a: seq<int>, x: seq<int>)
    requires B >= 2 && IsPosInt(B, r1) && IsPosInt(B, r2)
    requires Value(B, r1) == Value(B, a) * Value(B, x) && Value(B, r2) == Value(B, a) * Value(B, x)
    ensures r1 == r2
  {
    CanonicalUnique(B, r1, r2);
  }

  /* ------------------------------------------------------------- divrem */

  /** q and r are canonical and are the quotient and remainder of x by y. */
  predicate Euclid(B: int, x: seq<int>, y: seq<int>, q: seq<int>, r: seq<int>)
  {
    && IsPosInt(B, q) && IsPosInt(B, r)
    && Value(B, x) == Value(B, y) * Value(B, q) + Value(B, r)
    && 0 <= Value(B, r) < Value(B, y)
  }

  /** divrem: refused for a zero divisor; a dividend below the divisor is
      the remainder; a one-limb divisor goes through divDigit; a divisor
      whose top limb is below B/2 is scaled up first; any other goes to
      divremArray directly. Both results are normalized. */
  method DivRem(B: int, x: seq<int>, y: seq<int>) returns (d: Result<Division>)
    requires B >= 2 && IsPosInt(B, x) && IsPosInt(B, y)
    ensures d.Failure? <==> Value(B, y) == 0
    ensures d.Failure? ==> d.error == DivideByZero
    ensures d.Success? ==> Euclid(B, x, y, d.value.quot, d.value.rem)
    ensures d.Success? ==> Value(B, d.value.quot) == Value(B, x) / Value(B, y)
    ensures d.Success? ==> Value(B, d.value.rem) == Value(B, x) % Value(B, y)
    ensures d.Success? && Value(B, x) < Value(B, y) ==> d.value == Division([], x)
  {
    if |y| == 0 {
      return Failure(DivideByZero);
    }
    NormalizedLowerBound(B, y);
    ExpPositive(B, |y| - 1);
    var q, r;
    var c := Compare.Compare(B, x, y);
    if c < 0 {
      q, r := [], x;
      ValueBounds(B, x);
    } else if |y| == 1 {
      q, r := DivSingle(B, x, y);
    } else if 2 * y[|y| - 1] < B {
      q, r := DivScaled(B, x, y);
    } else {
      ValueBounds(B, x);
      LengthBound(B, y, |x|);
      var q0, r0 := DivRemArray(B, x, y);
      NormalizeValue(B, q0);
      NormalizeValue(B, r0);
      q, r := Normalize(q0), Normalize(r0);
    }
    DivModOf(Value(B, x), Value(B, y), Value(B, q), Value(B, r));
    return Success(Division(q, r));
  }

  /** divrem for a one-limb divisor: q is x after divDigit, r is set from
      the returned remainder. */
  method DivSingle(B: int, x: seq<int>, y: seq<int>) returns (q: seq<int>, r: seq<int>)
    requires B >= 2 && IsPosInt(B, x) && IsPosInt(B, y) && |y| == 1
    ensures Euclid(B, x, y, q, r)
  {
    assert y == [y[0]];
    ValueSingle(B, y[0]);
    var q0, rem := DivDigit(B, x, y[0]);
    var rr := SetInt(B, rem);
    NormalizeValue(B, q0);
    q := Normalize(q0);
    r := Normalize(rr.value);
  }

  /** divrem for a divisor whose top limb is below B/2: y is doubled while
      its top limb stays below B/2 rounded down, so that every doubling fits
      in |y| limbs; x, with one more limb, is multiplied by the same factor;
      after divremArray the remainder is divided back by the factor, which
      leaves nothing over. */
  method DivScaled(B: int, x: seq<int>, y: seq<int>) returns (q: seq<int>, r: seq<int>)
    requires B >= 2 && IsPosInt(B, x) && IsPosInt(B, y) && |y| >= 2
    requires Value(B, y) <= Value(B, x)
    ensures Euclid(B, x, y, q, r)
  {
    var scaley, fac := ScaleDivisor(B, y);
    var scalex := ScaleDividend(B, x, y, fac);
    ValueBounds(B, x);
    LengthBound(B, y, |x|);
    var q0, r0 := DivRemArray(B, scalex, scaley);
    var r1, rem := DivDigit(B, r0, fac);
    Unscale(Value(B, x), Value(B, y), Value(B, q0), Value(B, r0), Value(B, r1), rem, fac);
    NormalizeValue(B, q0);
    NormalizeValue(B, r1);
    q, r := Normalize(q0), Normalize(r1);
  }

  /** The doubling loop of divrem, stopping once the top limb reaches B/2
      rounded down; each doubling fits because twice the top limb plus one
      is below B. The factor stays below B. */
  method ScaleDivisor(B: int, y: seq<int>) returns (scaley: seq<int>, fac: int)
    requires B >= 2 && IsPosInt(B, y) && |y| >= 1
    ensures Divisor(B, scaley) && |scaley| == |y|
    ensures 1 <= fac < B && Value(B, scaley) == Value(B, y) * fac
  {
    var n := |y|;
    NormalizedLowerBound(B, y);
    ExpPositive(B, n - 1);
    scaley, fac := y, 1;
    ValueBounds(B, scaley);
    while 2 * (scaley[n - 1] + 1) <= B
      invariant |scaley| == n && InRange(B, scaley) && fac >= 1
      invariant Value(B, scaley) == Value(B, y) * fac
      invariant Value(B, y) <= Value(B, scaley) < Exp(B, n)
      decreases Exp(B, n) - Value(B, scaley)
    {
      DoublingRoom(B, scaley);
      ghost var v := Value(B, scaley);
      scaley := MulDigit(B, scaley, 2);
      DoubleStep(v, Value(B, y), fac);
      fac := fac * 2;
      ValueBounds(B, scaley);
    }
    ScaledTop(B, y, scaley, fac);
  }

  lemma {:induction false} DoubleStep(v: int, yv: int, fac: int)
    requires yv >= 1 && fac >= 1 && v == yv * fac
    ensures v * 2 == yv * (fac * 2) && v < v * 2 && fac * 2 >= 1
  {
    MulAssoc(yv, fac, 2);
    MulLe(1, yv, fac);
  }

  /** Once the doubling stops, the top limb is at least B/2 rounded down,
      and the factor is below B since y * fac still has |y| limbs. */
  lemma {:induction false} ScaledTop(B: int, y: seq<int>, scaley: seq<int>, fac: int)
    requires B >= 2 && IsPosInt(B, y) && |y| >= 1 && |scaley| == |y| && InRange(B, scaley)
    requires fac >= 1 && Value(B, scaley) == Value(B, y) * fac && Value(B, scaley) < Exp(B, |y|)
    requires 2 * (scaley[|y| - 1] + 1) > B
    ensures Divisor(B, scaley) && fac < B
  {
    var n := |y|;
    NormalizedLowerBound(B, y);
    ExpPositive(B, n - 1);
    assert Exp(B, n) == B * Exp(B, n - 1);
    assert fac * Value(B, y) < B * Exp(B, n - 1);
    FactorBound(fac, Value(B, y), Exp(B, n - 1), B);
  }

  /** A sequence whose top limb t has 2 * (t + 1) <= B can be doubled in
      place. */
  lemma {:induction false} DoublingRoom(B: int, s: seq<int>)
    requires B >= 2 && InRange(B, s) && |s| >= 1 && 2 * (s[|s| - 1] + 1) <= B
    ensures Value(B, s) * 2 < Exp(B, |s|)
  {
    TopBounds(B, s);
    ExpPositive(B, |s| - 1);
    ValueBounds(B, s);
    assert Exp(B, |s|) == B * Exp(B, |s| - 1);
    DoubleRoom(Value(B, s), s[|s| - 1], Exp(B, |s| - 1), B);
  }

  /** x with a zero limb on top, multiplied by the scaling factor. */
  method ScaleDividend(B: int, x: seq<int>, y: seq<int>, fac: int) returns (scalex: seq<int>)
    requires B >= 2 && IsPosInt(B, x) && 1 <= fac < B
    ensures |scalex| == |x| + 1 && InRange(B, scalex)
    ensures Value(B, scalex) == Value(B, x) * fac
  {
    ValueZeroTail(B, x, [0]);
    ValueBounds(B, x);
    assert Exp(B, |x| + 1) == Exp(B, |x|) * B;
    MulStrict(Value(B, x), Exp(B, |x|), fac, B);
    scalex := MulDigit(B, x + [0], fac);
  }

  /** mod: the remainder of divrem. */
  method Mod(B: int, x: seq<int>, y: seq<int>) returns (m: Result<seq<int>>)
    requires B >= 2 && IsPosInt(B, x) && IsPosInt(B, y)
    ensures m.Failure? <==> Value(B, y) == 0
    ensures m.Failure? ==> m.error == DivideByZero
    ensures m.Success? ==> IsPosInt(B, m.value) && Value(B, m.value) == Value(B, x) % Value(B, y)
  {
    var d := DivRem(B, x, y);
    if d.Failure? {
      return Failure(d.error);
    }
    return Success(d.value.rem);
  }

  /* ---------------------------------------------------------------- pow */

  /** pow: starting from one, multiply by a once for every count from zero
      up to x, the counter itself a PosInt advanced by add. */
  method Pow(B: int, a: seq<int>, x: seq<int>) returns (r: seq<int>)
    requires B >= 2 && IsPosInt(B, a) && IsPosInt(B, x)
    ensures Value(B, x) >= 0
    ensures IsPosInt(B, r) && Value(B, r) == Exp(Value(B, a), Value(B, x))
  {
    var one := FromNat(B, 1);
    r := one;
    var i: seq<int> := [];
    ValueBounds(B, x);
    var c := Compare.Compare(B, i, x);
    while c < 0
      invariant IsPosInt(B, i) && IsPosInt(B, r)
      invariant 0 <= Value(B, i) <= Value(B, x)
      invariant c < 0 <==> Value(B, i) < Value(B, x)
      invariant Value(B, r) == Exp(Value(B, a), Value(B, i))
      decreases Value(B, x) - Value(B, i)
    {
      ghost var k := Value(B, i);
      ghost var p := Exp(Value(B, a), k);
      r := Mul(B, r, a);
      PowStep(Value(B, r), p, Value(B, a), k);
      i := Add(B, i, one);
      c := Compare.Compare(B, i, x);
    }
  }

  /** One more factor a turns a^k into a^(k+1). */
  lemma {:induction false} PowStep(v: int, p: int, a: int, k: nat)
    requires p == Exp(a, k) && v == p * a
    ensures v == Exp(a, k + 1)
  {
    assert Exp(a, k + 1) == a * Exp(a, k);
  }

  /* ---------------------------------------------------------------- gcd */

  /** gcd: Euclid's algorithm, replacing (g, b) by (b, g mod b) until b is
      zero. The result has exactly the common divisors of x and y, so it is
      their greatest common divisor (zero only when both are zero). */
  method Gcd(B: int, x: seq<int>, y: seq<int>) returns (g: seq<int>)
    requires B >= 2 && IsPosInt(B, x) && IsPosInt(B, y)
    ensures IsPosInt(B, g)
    ensures |y| == 0 ==> g == x
    ensures forall d :: Divides(d, Value(B, g)) <==> Divides(d, Value(B, x)) && Divides(d, Value(B, y))
    ensures Value(B, g) > 0 ==> Divides(Value(B, g), Value(B, x)) && Divides(Value(B, g), Value(B, y))
    ensures Value(B, g) > 0 ==> forall d :: Divides(d, Value(B, x)) && Divides(d, Value(B, y)) ==> d <= Value(B, g)
    ensures Value(B, g) == 0 <==> Value(B, x) == 0 && Value(B, y) == 0
  {
    var b := y;
    g := x;
    ValueBounds(B, b);
    while |b| != 0
      invariant IsPosInt(B, g) && IsPosInt(B, b) && 0 <= Value(B, b)
      invariant |y| == 0 ==> g == x && b == y
      invariant forall d :: Divides(d, Value(B, g)) && Divides(d, Value(B, b))
                        <==> Divides(d, Value(B, x)) && Divides(d, Value(B, y))
      decreases Value(B, b)
    {
      var m := Mod(B, g, b);
      ValueBounds(B, g);
      NormalizedLowerBound(B, b);
      ExpPositive(B, |b| - 1);
      EuclidStep(Value(B, g), Value(B, b));
      g, b := b, m.value;
      ValueBounds(B, b);
    }
    GcdDivisors(B, x, y, g);
  }

  /** The consequences of having exactly the common divisors of x and y. */
  lemma {:induction false} GcdDivisors(B: int, x: seq<int>, y: seq<int>, g: seq<int>)
    requires B >= 2 && InRange(B, x) && InRange(B, y) && InRange(B, g)
    requires forall d :: Divides(d, Value(B, g)) <==> Divides(d, Value(B, x)) && Divides(d, Value(B, y))
    ensures Value(B, g) > 0 ==> Divides(Value(B, g), Value(B, x)) && Divides(Value(B, g), Value(B, y))
    ensures Value(B, g) > 0 ==> forall d :: Divides(d, Value(B, x)) && Divides(d, Value(B, y)) ==> d <= Value(B, g)
    ensures Value(B, g) == 0 <==> Value(B, x) == 0 && Value(B, y) == 0
  {
    var gv, xv, yv := Value(B, g), Value(B, x), Value(B, y);
    ValueBounds(B, g);
    ValueBounds(B, x);
    ValueBounds(B, y);
    if gv > 0 {
      assert Divides(gv, gv);
      forall d | Divides(d, xv) && Divides(d, yv)
        ensures d <= gv
      {
        DividesBound(d, gv);
      }
    }
    if gv == 0 {
      assert Divides(xv + 1, gv) && Divides(yv + 1, gv);
      DividedByAll(xv);
      DividedByAll(yv);
    }
    if xv == 0 && yv == 0 {
      assert Divides(gv + 1, xv) && Divides(gv + 1, yv);
      DividedByAll(gv);
    }
  }

  /* ------------------------------------------------------------- driver */

  /** The driver's example in radix 10 (one decimal digit per limb): any
      canonical product of 320 and 1428, as mul and fastMul both return,
      is the limb sequence of 456960, printed as "456960". */
  lemma {:induction false} DriverProduct(r: seq<int>)
    requires IsPosInt(10, r) && Value(10, r) == Value(10, [0, 2, 3]) * Value(10, [8, 2, 4, 1])
    ensures r == [0, 6, 9, 6, 5, 4]
  {
    assert Value(10, [0, 2, 3]) == 320 by {
      assert [0, 2, 3][1..] == [2, 3] && [2, 3][1..] == [3] && [3][1..] == [];
    }
    assert Value(10, [8, 2, 4, 1]) == 1428 by {
      assert [8, 2, 4, 1][1..] == [2, 4, 1] && [2, 4, 1][1..] == [4, 1];
      assert [4, 1][1..] == [1] && [1][1..] == [];
    }
    var p := [0, 6, 9, 6, 5, 4];
    assert Value(10, p) == 456960 by {
      assert p[1..] == [6, 9, 6, 5, 4] && [6, 9, 6, 5, 4][1..] == [9, 6, 5, 4];
      assert [9, 6, 5, 4][1..] == [6, 5, 4] && [6, 5, 4][1..] == [5, 4];
      assert [5, 4][1..] == [4] && [4][1..] == [];
    }
    CanonicalUnique(10, r, p);
  }

  /* ------------------------------------------------------------ finding */

  /** The scaling test of divrem as posint.cpp writes it, at the loop
      entry and after each doubling: the top limb doubled is below B. */
  predicate ScalesAsWritten(B: int, y: seq<int>)
    requires |y| >= 1
  {
    2 * y[|y| - 1] < B
  }

  /** For the odd radix 3 and y = [2, 1] (5) the test asks for a doubling,
      but 10 needs three limbs: mulDigit's room requirement fails and its
      carry is written past the two-limb buffer. */
  lemma DoublingOverflows()
    ensures ScalesAsWritten(3, [2, 1]) && IsPosInt(3, [2, 1])
    ensures Value(3, [2, 1]) * 2 >= Exp(3, |[2, 1]|)
  {
    assert Value(3, [2, 1]) == 5 by {
      assert [2, 1][1..] == [1] && [1][1..] == [];
    }
  }
}
