/** Limb sequences: the representation of a PosInt.

    A PosInt is a little-endian sequence of limbs in radix B; its value is
    the sum of limb[i] * B^i. The externally visible form has every limb in
    [0, B) and no most-significant zero limb (the empty sequence is zero).
    Intermediate buffers may hold limbs outside [0, B), so `Value` is defined
    for every sequence of integers. */
module Limbs {

  import opened Arith

  /** B^n */
  function Exp(b: int, n: nat): int
  {
    if n == 0 then 1 else b * Exp(b, n - 1)
  }

  /** The number a limb sequence denotes, least-significant limb first. */
  function Value(B: int, s: seq<int>): int
  {
    if |s| == 0 then 0 else s[0] + B * Value(B, s[1..])
  }

  /** Every limb lies in [0, B). */
  predicate InRange(B: int, s: seq<int>)
  {
    forall i :: 0 <= i < |s| ==> 0 <= s[i] < B
  }

  /** Every limb is non-negative (limbs may still exceed B). */
  predicate NonNeg(s: seq<int>)
  {
    forall i :: 0 <= i < |s| ==> 0 <= s[i]
  }

  /** No most-significant zero limb. */
  predicate Normalized(s: seq<int>)
  {
    |s| == 0 || s[|s| - 1] != 0
  }

  /** The invariant of every PosInt visible outside an operation. */
  predicate IsPosInt(B: int, s: seq<int>)
  {
    InRange(B, s) && Normalized(s)
  }

  predicate AllZero(s: seq<int>)
  {
    forall i :: 0 <= i < |s| ==> s[i] == 0
  }

  function Zeros(n: nat): (r: seq<int>)
    ensures |r| == n && AllZero(r)
  {
    seq(n, _ => 0)
  }

  /** Drops most-significant zero limbs (posint.cpp `normalize`): the result
      is the longest normalized prefix, and only zeros are dropped. */
  function Normalize(s: seq<int>): (r: seq<int>)
    ensures Normalized(r)
    ensures |r| <= |s| && r == s[..|r|]
    ensures AllZero(s[|r|..])
  {
    if |s| == 0 then s
    else if s[|s| - 1] == 0 then
      var r := Normalize(s[..|s| - 1]);
      assert s[|r|..] == s[..|s| - 1][|r|..] + [0];
      r
    else s
  }

  /** The canonical limb sequence of a natural number, built limb by limb
      with `% B` and `/ B` as `set(int)` does. */
  function FromNat(B: int, n: nat): (r: seq<int>)
    requires B >= 2
    ensures IsPosInt(B, r)
    ensures Value(B, r) == n
    decreases n
  {
    if n == 0 then []
    else
      DivShrinks(n, B);
      [n % B] + FromNat(B, n / B)
  }

  // ---------------------------------------------------------------- powers

  lemma {:induction false} ExpPositive(b: int, n: nat)
    requires b >= 1
    ensures Exp(b, n) >= 1
  {
    if n > 0 {
      ExpPositive(b, n - 1);
      assert Exp(b, n) == b * Exp(b, n - 1);
    }
  }

  lemma {:induction false} ExpAdd(b: int, m: nat, n: nat)
    ensures Exp(b, m + n) == Exp(b, m) * Exp(b, n)
  {
    if m > 0 {
      ExpAdd(b, m - 1, n);
      assert Exp(b, m + n) == b * Exp(b, m - 1 + n);
    }
  }

  lemma {:induction false} ExpDouble(b: int, n: nat)
    ensures Exp(b, 2 * n) == Exp(b, n) * Exp(b, n)
  {
    var m: nat := 2 * n;
    ExpAdd(b, n, n);
    assert m == n + n;
  }

  lemma {:induction false} ExpMonotone(b: int, m: nat, n: nat)
    requires b >= 2 && m < n
    ensures Exp(b, m) < Exp(b, n)
  {
    ExpPositive(b, n - 1);
    if m < n - 1 {
      ExpMonotone(b, m, n - 1);
    }
    assert Exp(b, n) == b * Exp(b, n - 1);
  }

  lemma {:induction false} ExpMonotoneLe(b: int, m: nat, n: nat)
    requires b >= 2 && m <= n
    ensures Exp(b, m) <= Exp(b, n)
  {
    if m < n {
      ExpMonotone(b, m, n);
    }
  }

  // ----------------------------------------------------------- value facts

  lemma {:induction false} ValueAppend(B: int, s: seq<int>, t: seq<int>)
    ensures Value(B, s + t) == Value(B, s) + Exp(B, |s|) * Value(B, t)
  {
    if |s| > 0 {
      assert (s + t)[1..] == s[1..] + t;
      ValueAppend(B, s[1..], t);
      assert Exp(B, |s|) == B * Exp(B, |s| - 1);
      calc {
        Value(B, s + t);
        s[0] + B * Value(B, s[1..] + t);
        s[0] + B * (Value(B, s[1..]) + Exp(B, |s| - 1) * Value(B, t));
        s[0] + B * Value(B, s[1..]) + (B * Exp(B, |s| - 1)) * Value(B, t);
      }
    } else {
      assert s + t == t;
    }
  }

  /** Splitting a sequence at k splits its value. */
  lemma {:induction false} ValueSplit(B: int, s: seq<int>, k: nat)
    requires k <= |s|
    ensures Value(B, s) == Value(B, s[..k]) + Exp(B, k) * Value(B, s[k..])
  {
    assert s == s[..k] + s[k..];
    ValueAppend(B, s[..k], s[k..]);
  }

  /** One more limb on the prefix adds limb * B^j. */
  lemma {:induction false} ValuePrefix(B: int, s: seq<int>, j: nat)
    requires j < |s|
    ensures Value(B, s[..j + 1]) == Value(B, s[..j]) + s[j] * Exp(B, j)
  {
    assert s[..j + 1] == s[..j] + [s[j]];
    ValueAppend(B, s[..j], [s[j]]);
    assert Value(B, [s[j]]) == s[j] + B * Value(B, []);
  }

  lemma {:induction false} ValueSingle(B: int, d: int)
    ensures Value(B, [d]) == d
  {
    assert Value(B, [d]) == d + B * Value(B, [d][1..]);
  }

  lemma {:induction false} ValueAllZero(B: int, s: seq<int>)
    requires AllZero(s)
    ensures Value(B, s) == 0
  {
    if |s| > 0 {
      ValueAllZero(B, s[1..]);
    }
  }

  /** Zero limbs on the most-significant end do not change the value. */
  lemma {:induction false} ValueZeroTail(B: int, s: seq<int>, t: seq<int>)
    requires AllZero(t)
    ensures Value(B, s + t) == Value(B, s)
  {
    ValueAppend(B, s, t);
    ValueAllZero(B, t);
  }

  lemma {:induction false} NormalizeValue(B: int, s: seq<int>)
    ensures Value(B, Normalize(s)) == Value(B, s)
    ensures InRange(B, s) ==> IsPosInt(B, Normalize(s))
  {
    var r := Normalize(s);
    assert s == r + s[|r|..];
    ValueZeroTail(B, r, s[|r|..]);
  }

  /** Replacing limb k by v changes the value by (v - s[k]) * B^k. */
  lemma {:induction false} ValueUpdate(B: int, s: seq<int>, k: nat, v: int)
    requires k < |s|
    ensures Value(B, s[k := v]) == Value(B, s) + (v - s[k]) * Exp(B, k)
  {
    if k > 0 {
      var t, d, e := s[1..], v - s[k], Exp(B, k - 1);
      assert s[k := v][1..] == t[k - 1 := v];
      ValueUpdate(B, t, k - 1, v);
      var u := s[k := v];
      assert u[0] == s[0] && u[1..] == t[k - 1 := v];
      ShiftedUpdate(Value(B, u), Value(B, s), s[0], B, Value(B, u[1..]), Value(B, t), d, e);
      assert Exp(B, k) == B * e;
    }
  }

  /** Moving c units of B^(i+1) from limb i to limb i+1 keeps the value:
      the single step of every carry and borrow pass. */
  lemma {:induction false} CarryStep(B: int, s: seq<int>, i: nat, c: int)
    requires i + 1 < |s|
    ensures Value(B, s[i := s[i] - c * B][i + 1 := s[i + 1] + c]) == Value(B, s)
  {
    var t := s[i := s[i] - c * B];
    ValueUpdate(B, s, i, s[i] - c * B);
    ValueUpdate(B, t, i + 1, s[i + 1] + c);
    assert Exp(B, i + 1) == B * Exp(B, i);
  }

  lemma {:induction false} ValueNonNeg(B: int, s: seq<int>)
    requires B >= 0 && NonNeg(s)
    ensures Value(B, s) >= 0
  {
    if |s| > 0 {
      ValueNonNeg(B, s[1..]);
      MulNonNeg(B, Value(B, s[1..]));
    }
  }

  /** With limbs in [0, B), the value fits in |s| limbs. */
  lemma {:induction false} ValueBounds(B: int, s: seq<int>)
    requires B >= 2 && InRange(B, s)
    ensures 0 <= Value(B, s) < Exp(B, |s|)
  {
    if |s| > 0 {
      ValueBounds(B, s[1..]);
      assert Exp(B, |s|) == B * Exp(B, |s| - 1);
      ShiftBounds(Value(B, s), s[0], B, Value(B, s[1..]), Exp(B, |s| - 1));
    }
  }

  /** A non-negative limb sequence is at least any one of its limbs' worth. */
  lemma {:induction false} ValueGeLimb(B: int, s: seq<int>, k: nat)
    requires B >= 2 && NonNeg(s) && k < |s|
    ensures Value(B, s) >= s[k] * Exp(B, k)
  {
    var lo, hi, rest := s[..k], s[k..], s[k + 1..];
    assert NonNeg(lo) && NonNeg(rest);
    ValueSplit(B, s, k);
    ValueNonNeg(B, lo);
    ValueNonNeg(B, rest);
    assert hi[1..] == rest;
    MulNonNeg(B, Value(B, rest));
    ExpPositive(B, k);
    AtLeastLimb(Value(B, s), Value(B, lo), Exp(B, k), Value(B, hi), s[k]);
  }

  /** The top limb t of an in-range sequence of length n pins its value
      between t * B^(n-1) and (t+1) * B^(n-1). */
  lemma {:induction false} TopBounds(B: int, s: seq<int>)
    requires B >= 2 && InRange(B, s) && |s| >= 1
    ensures s[|s| - 1] * Exp(B, |s| - 1) <= Value(B, s) < (s[|s| - 1] + 1) * Exp(B, |s| - 1)
  {
    var n := |s| - 1;
    ValueSplit(B, s, n);
    ValueBounds(B, s[..n]);
    assert s[n..] == [s[n]];
    ValueSingle(B, s[n]);
    BetweenTop(Value(B, s), Value(B, s[..n]), Exp(B, n), s[n]);
  }

  /** A nonempty normalized sequence has value at least B^(n-1). */
  lemma {:induction false} NormalizedLowerBound(B: int, s: seq<int>)
    requires B >= 2 && IsPosInt(B, s) && |s| >= 1
    ensures Value(B, s) >= Exp(B, |s| - 1)
  {
    TopBounds(B, s);
    ExpPositive(B, |s| - 1);
  }

  /** The length of a normalized sequence is the number of limbs its value needs. */
  lemma {:induction false} LengthBound(B: int, s: seq<int>, k: nat)
    requires B >= 2 && IsPosInt(B, s) && Value(B, s) < Exp(B, k)
    ensures |s| <= k
  {
    if |s| > k {
      NormalizedLowerBound(B, s);
      ExpMonotoneLe(B, k, |s| - 1);
    }
  }

  /** Shorter normalized sequences denote smaller numbers. */
  lemma {:induction false} LengthOrder(B: int, a: seq<int>, b: seq<int>)
    requires B >= 2 && IsPosInt(B, a) && IsPosInt(B, b) && |a| < |b|
    ensures Value(B, a) < Value(B, b)
  {
    ValueBounds(B, a);
    NormalizedLowerBound(B, b);
    ExpMonotoneLe(B, |a|, |b| - 1);
  }

  /** The first limb of an in-range sequence is its value mod B, the rest
      its value div B. */
  lemma {:induction false} HeadTail(B: int, s: seq<int>)
    requires B >= 2 && InRange(B, s) && |s| >= 1
    ensures s[0] == Value(B, s) % B && Value(B, s[1..]) == Value(B, s) / B
    ensures InRange(B, s[1..])
    ensures Normalized(s) ==> Normalized(s[1..])
  {
    var t := s[1..];
    assert InRange(B, t);
    assert Value(B, s) == Value(B, t) * B + s[0];
    DivModUnique(Value(B, s), B, Value(B, t), s[0]);
    assert |s| >= 2 ==> t[|t| - 1] == s[|s| - 1];
  }

  /** Two normalized in-range sequences with the same value are equal:
      the representation is canonical. */
  lemma {:induction false} CanonicalUnique(B: int, s: seq<int>, t: seq<int>)
    requires B >= 2 && IsPosInt(B, s) && IsPosInt(B, t)
    requires Value(B, s) == Value(B, t)
    ensures s == t
  {
    if |s| == 0 || |t| == 0 {
      if |s| > 0 { NormalizedLowerBound(B, s); ExpPositive(B, |s| - 1); }
      if |t| > 0 { NormalizedLowerBound(B, t); ExpPositive(B, |t| - 1); }
    } else {
      HeadTail(B, s);
      HeadTail(B, t);
      CanonicalUnique(B, s[1..], t[1..]);
      assert s == [s[0]] + s[1..];
      assert t == [t[0]] + t[1..];
    }
  }

  /** The canonical sequence of a value is the FromNat sequence. */
  lemma {:induction false} CanonicalIsFromNat(B: int, s: seq<int>)
    requires B >= 2 && IsPosInt(B, s)
    ensures Value(B, s) >= 0 && s == FromNat(B, Value(B, s))
  {
    ValueBounds(B, s);
    CanonicalUnique(B, s, FromNat(B, Value(B, s)));
  }

  // ------------------------------------------------- carry and borrow steps

  lemma {:induction false} ValueAddAt(B: int, s: seq<int>, k: nat, d: int)
    requires k < |s|
    ensures Value(B, s[k := s[k] + d]) == Value(B, s) + d * Exp(B, k)
  {
    ValueUpdate(B, s, k, s[k] + d);
  }

  /** A carry of one from limb i into limb i+1 keeps the value. */
  lemma {:induction false} CarryOne(B: int, s: seq<int>, i: nat)
    requires i + 1 < |s|
    ensures Value(B, s[i := s[i] - B][i + 1 := s[i + 1] + 1]) == Value(B, s)
  {
    CarryStep(B, s, i, 1);
    assert s[i := s[i] - B][i + 1 := s[i + 1] + 1] == s[i := s[i] - 1 * B][i + 1 := s[i + 1] + 1];
  }

  /** A borrow of one from limb i+1 into limb i keeps the value. */
  lemma {:induction false} BorrowOne(B: int, s: seq<int>, i: nat)
    requires i + 1 < |s|
    ensures Value(B, s[i := s[i] + B][i + 1 := s[i + 1] - 1]) == Value(B, s)
  {
    CarryStep(B, s, i, -1);
    assert s[i := s[i] + B][i + 1 := s[i + 1] - 1] == s[i := s[i] - (-1) * B][i + 1 := s[i + 1] + -1];
  }

  lemma {:induction false} ExpLtIndex(b: int, m: nat, n: nat)
    requires b >= 2 && Exp(b, m) < Exp(b, n)
    ensures m < n
  {
    if m >= n {
      ExpMonotoneLe(b, n, m);
    }
  }

  /** A limb at or above B in a sequence whose value fits in |s| limbs is
      not the top limb: the carry out of it has somewhere to go. */
  lemma {:induction false} CarryRoom(B: int, s: seq<int>, i: nat)
    requires B >= 2 && NonNeg(s) && i < |s| && s[i] >= B
    requires Value(B, s) < Exp(B, |s|)
    ensures i + 1 < |s|
  {
    ValueGeLimb(B, s, i);
    ExpPositive(B, i);
    MulLe(B, s[i], Exp(B, i));
    assert Exp(B, i + 1) == B * Exp(B, i);
    ExpLtIndex(B, i + 1, |s|);
  }

  /** A sequence whose top limb is negative and whose other limbs are in
      range denotes a negative number. */
  lemma {:induction false} NegativeTop(B: int, s: seq<int>)
    requires B >= 2 && |s| >= 1 && InRange(B, s[..|s| - 1]) && s[|s| - 1] < 0
    ensures Value(B, s) < 0
  {
    var n := |s| - 1;
    ValueSplit(B, s, n);
    ValueBounds(B, s[..n]);
    assert s[n..] == [s[n]];
    ValueSingle(B, s[n]);
    ExpPositive(B, n);
    NegTop(Value(B, s), Value(B, s[..n]), Exp(B, n), s[n]);
  }

  /** A negative limb in a sequence of non-negative value, with every lower
      limb in range, is not the top limb: the borrow has somewhere to come from. */
  lemma {:induction false} BorrowRoom(B: int, s: seq<int>, i: nat)
    requires B >= 2 && i < |s| && s[i] < 0 && Value(B, s) >= 0
    requires forall k :: 0 <= k < i ==> 0 <= s[k] < B
    ensures i + 1 < |s|
  {
    if i + 1 == |s| {
      assert InRange(B, s[..i]);
      NegativeTop(B, s);
    }
  }

  /** The top limb of a non-negative sequence whose value fits in its
      length is below B. */
  lemma {:induction false} TopFits(B: int, s: seq<int>)
    requires B >= 2 && |s| >= 1 && NonNeg(s)
    requires forall k :: 0 <= k < |s| - 1 ==> 0 <= s[k] < B
    requires Value(B, s) < Exp(B, |s|)
    ensures InRange(B, s)
  {
    var n := |s| - 1;
    ValueGeLimb(B, s, n);
    ExpPositive(B, n);
    assert Exp(B, |s|) == B * Exp(B, n);
    MulCancelLt(s[n], B, Exp(B, n));
  }

  /** Adding limb x[i] at position i advances the value by what x[i] adds
      to the prefix x[..i]. */
  lemma {:induction false} AddAtPrefix(B: int, r: seq<int>, x: seq<int>, i: nat)
    requires i < |r| && i < |x|
    ensures Value(B, r[i := r[i] + x[i]]) - Value(B, r) == Value(B, x[..i + 1]) - Value(B, x[..i])
  {
    ValueAddAt(B, r, i, x[i]);
    ValuePrefix(B, x, i);
  }

  /** Subtracting limb x[i] at position i takes away what x[i] adds to the
      prefix x[..i]. */
  lemma {:induction false} SubAtPrefix(B: int, r: seq<int>, x: seq<int>, i: nat)
    requires i < |r| && i < |x|
    ensures Value(B, r) - Value(B, r[i := r[i] - x[i]]) == Value(B, x[..i + 1]) - Value(B, x[..i])
  {
    ValueAddAt(B, r, i, -x[i]);
    assert r[i := r[i] + -x[i]] == r[i := r[i] - x[i]];
    ValuePrefix(B, x, i);
  }

  /** The suffix from limb k is limb k plus B times the suffix from k + 1. */
  lemma {:induction false} ValueAt(B: int, s: seq<int>, k: nat)
    requires k < |s|
    ensures Value(B, s[k..]) == s[k] + B * Value(B, s[k + 1..])
  {
    assert s[k..][1..] == s[k + 1..];
  }

  /** A value below B^k lives entirely in its first k limbs. */
  lemma {:induction false} ValueFits(B: int, s: seq<int>, k: nat)
    requires B >= 2 && InRange(B, s) && k <= |s| && Value(B, s) < Exp(B, k)
    ensures Value(B, s[..k]) == Value(B, s)
  {
    assert InRange(B, s[..k]) && InRange(B, s[k..]);
    ValueSplit(B, s, k);
    ValueBounds(B, s[..k]);
    ValueBounds(B, s[k..]);
    ExpPositive(B, k);
    ZeroHigh(Value(B, s), Value(B, s[..k]), Exp(B, k), Value(B, s[k..]));
  }
}
