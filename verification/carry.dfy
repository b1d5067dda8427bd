/** The carry and borrow array primitives of posint.cpp: `addArray`,
    `subArray`, `mulDigit` and `divDigit`. Each works on a raw limb buffer
    whose caller guarantees the room the result needs; here the buffer is a
    sequence passed in and returned. */
module Carry {
  import opened Arith
  import opened Limbs

  /** dest += x[..len], limb-wise, then one carry pass over the shared
      prefix and a closing pass that runs into dest's higher limbs until no
      carry is left. The caller guarantees dest can hold the sum. */
  method AddArray(B: int, dest: seq<int>, x: seq<int>, len: nat) returns (r: seq<int>)
    requires B >= 2 && |dest| >= 1 && len <= |dest| && len <= |x|
    requires InRange(B, dest) && InRange(B, x[..len])
    requires Value(B, dest) + Value(B, x[..len]) < Exp(B, |dest|)
    ensures |r| == |dest| && InRange(B, r)
    ensures Value(B, r) == Value(B, dest) + Value(B, x[..len])
  {
    r := AddLimbwise(B, dest, x, len);
    var i;
    r, i := CarryPass(B, r, len);
    r := CarryOut(B, r, i);
  }

  /** The limb-wise sum, before any carry. */
  method AddLimbwise(B: int, dest: seq<int>, x: seq<int>, len: nat) returns (r: seq<int>)
    requires B >= 2 && len <= |dest| && len <= |x|
    requires InRange(B, dest) && InRange(B, x[..len])
    ensures |r| == |dest|
    ensures forall k :: 0 <= k < len ==> 0 <= r[k] <= 2 * B - 2
    ensures forall k :: len <= k < |r| ==> r[k] == dest[k]
    ensures Value(B, r) == Value(B, dest) + Value(B, x[..len])
  {
    r := dest;
    var i := 0;
    while i < len
      invariant 0 <= i <= len && |r| == |dest|
      invariant forall k :: 0 <= k < i ==> 0 <= r[k] <= 2 * B - 2
      invariant forall k :: i <= k < |r| ==> r[k] == dest[k]
      invariant Value(B, r) == Value(B, dest) + Value(B, x[..i])
    {
      assert x[..len][i] == x[i];
      AddAtPrefix(B, r, x, i);
      r := r[i := r[i] + x[i]];
      i := i + 1;
    }
    assert x[..len] == x[..i];
  }

  /** The carry pass over the first len limbs: afterwards only limb i, the
      last one visited, may still be at or above B. */
  method CarryPass(B: int, s: seq<int>, len: nat) returns (r: seq<int>, i: nat)
    requires B >= 2 && |s| >= 1 && len <= |s|
    requires forall k :: 0 <= k < len ==> 0 <= s[k] <= 2 * B - 2
    requires forall k :: len <= k < |s| ==> 0 <= s[k] < B
    ensures |r| == |s| && i < |r| && i == (if len == 0 then 0 else len - 1)
    ensures forall k :: 0 <= k < i ==> 0 <= r[k] < B
    ensures 0 <= r[i] <= 2 * B - 1
    ensures forall k :: i < k < |r| ==> 0 <= r[k] < B
    ensures Value(B, r) == Value(B, s)
  {
    r := s;
    i := 0;
    while i + 1 < len
      invariant 0 <= i && (len == 0 ==> i == 0) && (len > 0 ==> i <= len - 1)
      invariant |r| == |s|
      invariant forall k :: 0 <= k < i ==> 0 <= r[k] < B
      invariant 0 <= r[i] <= 2 * B - 1
      invariant forall k :: i < k < len ==> 0 <= r[k] <= 2 * B - 2
      invariant forall k :: len <= k < |r| ==> 0 <= r[k] < B
      invariant Value(B, r) == Value(B, s)
    {
      if r[i] >= B {
        CarryOne(B, r, i);
        r := r[i := r[i] - B][i + 1 := r[i + 1] + 1];
      }
      i := i + 1;
    }
  }

  /** The closing carry loop: carries out of limb i until none is left.
      The sum fitting in |s| limbs keeps every carry inside the buffer. */
  method CarryOut(B: int, s: seq<int>, i0: nat) returns (r: seq<int>)
    requires B >= 2 && i0 < |s|
    requires forall k :: 0 <= k < i0 ==> 0 <= s[k] < B
    requires 0 <= s[i0] <= 2 * B - 1
    requires forall k :: i0 < k < |s| ==> 0 <= s[k] < B
    requires Value(B, s) < Exp(B, |s|)
    ensures |r| == |s| && InRange(B, r)
    ensures Value(B, r) == Value(B, s)
  {
    r := s;
    var i := i0;
    while r[i] >= B
      invariant 0 <= i < |r| && |r| == |s|
      invariant forall k :: 0 <= k < i ==> 0 <= r[k] < B
      invariant 0 <= r[i] <= 2 * B - 1
      invariant forall k :: i < k < |r| ==> 0 <= r[k] < B
      invariant Value(B, r) == Value(B, s)
      decreases |r| - i
    {
      assert NonNeg(r);
      CarryRoom(B, r, i);
      CarryOne(B, r, i);
      r := r[i := r[i] - B][i + 1 := r[i + 1] + 1];
      i := i + 1;
    }
  }

  /** dest -= x[..len], limb-wise, then one borrow pass over the shared
      prefix and a closing pass into dest's higher limbs. The caller
      guarantees dest >= x, so no borrow leaves the top. */
  method SubArray(B: int, dest: seq<int>, x: seq<int>, len: nat) returns (r: seq<int>)
    requires B >= 2 && |dest| >= 1 && len <= |dest| && len <= |x|
    requires InRange(B, dest) && InRange(B, x[..len])
    requires Value(B, x[..len]) <= Value(B, dest)
    ensures |r| == |dest| && InRange(B, r)
    ensures Value(B, r) == Value(B, dest) - Value(B, x[..len])
  {
    r := SubLimbwise(B, dest, x, len);
    var i;
    r, i := BorrowPass(B, r, len);
    r := BorrowOut(B, r, i);
  }

  /** The limb-wise difference, before any borrow. */
  method SubLimbwise(B: int, dest: seq<int>, x: seq<int>, len: nat) returns (r: seq<int>)
    requires B >= 2 && len <= |dest| && len <= |x|
    requires InRange(B, dest) && InRange(B, x[..len])
    ensures |r| == |dest|
    ensures forall k :: 0 <= k < len ==> -B < r[k] < B
    ensures forall k :: len <= k < |r| ==> r[k] == dest[k]
    ensures Value(B, r) == Value(B, dest) - Value(B, x[..len])
  {
    r := dest;
    var i := 0;
    while i < len
      invariant 0 <= i <= len && |r| == |dest|
      invariant forall k :: 0 <= k < i ==> -B < r[k] < B
      invariant forall k :: i <= k < |r| ==> r[k] == dest[k]
      invariant Value(B, r) == Value(B, dest) - Value(B, x[..i])
    {
      assert x[..len][i] == x[i];
      SubAtPrefix(B, r, x, i);
      r := r[i := r[i] - x[i]];
      i := i + 1;
    }
    assert x[..len] == x[..i];
  }

  /** The borrow pass over the first len limbs: afterwards only limb i, the
      last one visited, may still be negative. */
  method BorrowPass(B: int, s: seq<int>, len: nat) returns (r: seq<int>, i: nat)
    requires B >= 2 && |s| >= 1 && len <= |s|
    requires forall k :: 0 <= k < len ==> -B < s[k] < B
    requires forall k :: len <= k < |s| ==> 0 <= s[k] < B
    ensures |r| == |s| && i < |r| && i == (if len == 0 then 0 else len - 1)
    ensures forall k :: 0 <= k < i ==> 0 <= r[k] < B
    ensures -B <= r[i] < B
    ensures forall k :: i < k < |r| ==> 0 <= r[k] < B
    ensures Value(B, r) == Value(B, s)
  {
    r := s;
    i := 0;
    while i + 1 < len
      invariant 0 <= i && (len == 0 ==> i == 0) && (len > 0 ==> i <= len - 1)
      invariant |r| == |s|
      invariant forall k :: 0 <= k < i ==> 0 <= r[k] < B
      invariant -B <= r[i] < B
      invariant forall k :: i < k < len ==> -B < r[k] < B
      invariant forall k :: len <= k < |r| ==> 0 <= r[k] < B
      invariant Value(B, r) == Value(B, s)
    {
      if r[i] < 0 {
        BorrowOne(B, r, i);
        r := r[i := r[i] + B][i + 1 := r[i + 1] - 1];
      }
      i := i + 1;
    }
  }

  /** The closing borrow loop: borrows into limb i until it is
      non-negative. The difference being non-negative keeps every borrow
      inside the buffer. */
  method BorrowOut(B: int, s: seq<int>, i0: nat) returns (r: seq<int>)
    requires B >= 2 && i0 < |s|
    requires forall k :: 0 <= k < i0 ==> 0 <= s[k] < B
    requires -B <= s[i0] < B
    requires forall k :: i0 < k < |s| ==> 0 <= s[k] < B
    requires Value(B, s) >= 0
    ensures |r| == |s| && InRange(B, r)
    ensures Value(B, r) == Value(B, s)
  {
    r := s;
    var i := i0;
    while r[i] < 0
      invariant 0 <= i < |r| && |r| == |s|
      invariant forall k :: 0 <= k < i ==> 0 <= r[k] < B
      invariant -B <= r[i] < B
      invariant forall k :: i < k < |r| ==> 0 <= r[k] < B
      invariant Value(B, r) == Value(B, s)
      decreases |r| - i
    {
      BorrowRoom(B, r, i);
      BorrowOne(B, r, i);
      r := r[i := r[i] + B][i + 1 := r[i + 1] - 1];
      i := i + 1;
    }
  }

  /** dest *= d, limb-wise, then one carry pass. The caller guarantees the
      product fits in dest, so the closing carry loop of posint.cpp never
      takes a step; it is not repeated here. */
  method MulDigit(B: int, dest: seq<int>, d: int) returns (r: seq<int>)
    requires B >= 2 && |dest| >= 1 && InRange(B, dest) && d >= 0
    requires Value(B, dest) * d < Exp(B, |dest|)
    ensures |r| == |dest| && InRange(B, r)
    ensures Value(B, r) == Value(B, dest) * d
  {
    r := ScaleLimbs(B, dest, d);
    ghost var product := Value(B, r);
    var i := 0;
    while i + 1 < |r|
      invariant 0 <= i < |r| == |dest|
      invariant forall k :: 0 <= k < i ==> 0 <= r[k] < B
      invariant forall k :: i <= k < |r| ==> 0 <= r[k]
      invariant Value(B, r) == product
    {
      var c := r[i] / B;
      DivCarry(B, r, i, c);
      r := r[i := r[i] - c * B][i + 1 := r[i + 1] + c];
      i := i + 1;
    }
    TopFits(B, r);
  }

  /** One step of the `mulDigit` carry pass: limb i keeps its remainder mod
      B and passes the quotient up. */
  lemma {:induction false} DivCarry(B: int, r: seq<int>, i: nat, c: int)
    requires B >= 2 && i + 1 < |r| && c == r[i] / B
    requires forall k :: 0 <= k < i ==> 0 <= r[k] < B
    requires forall k :: i <= k < |r| ==> 0 <= r[k]
    ensures var r1 := r[i := r[i] - c * B][i + 1 := r[i + 1] + c];
      && (forall k :: 0 <= k < i + 1 ==> 0 <= r1[k] < B)
      && (forall k :: i + 1 <= k < |r1| ==> 0 <= r1[k])
      && Value(B, r1) == Value(B, r)
  {
    DivMod(r[i], B);
    DivNonNeg(r[i], B);
    CarryStep(B, r, i, c);
  }

  /** Every limb multiplied by d, before any carry. */
  method ScaleLimbs(B: int, dest: seq<int>, d: int) returns (r: seq<int>)
    requires B >= 2 && InRange(B, dest) && d >= 0
    ensures |r| == |dest| && NonNeg(r)
    ensures Value(B, r) == Value(B, dest) * d
  {
    r := dest;
    var i := 0;
    while i < |r|
      invariant 0 <= i <= |r| == |dest|
      invariant forall k :: 0 <= k < i ==> r[k] == dest[k] * d
      invariant forall k :: i <= k < |r| ==> r[k] == dest[k]
      invariant Value(B, r[..i]) == d * Value(B, dest[..i])
    {
      var r1 := r[i := dest[i] * d];
      ValuePrefix(B, r1, i);
      ValuePrefix(B, dest, i);
      assert r1[..i] == r[..i];
      ScaleStep(Value(B, r1[..i + 1]), Value(B, r[..i]),
                Value(B, dest[..i + 1]), Value(B, dest[..i]), d, dest[i], Exp(B, i));
      r := r1;
      i := i + 1;
    }
    assert r[..i] == r && dest[..i] == dest;
    forall k | 0 <= k < |r|
      ensures 0 <= r[k]
    {
      MulNonNeg(dest[k], d);
    }
  }

  /** dest /= d, limb-wise from the top, returning the remainder. */
  method DivDigit(B: int, dest: seq<int>, d: int) returns (q: seq<int>, rem: int)
    requires B >= 2 && InRange(B, dest) && d >= 1
    ensures |q| == |dest| && InRange(B, q)
    ensures Value(B, dest) == d * Value(B, q) + rem && 0 <= rem < d
  {
    q := dest;
    rem := 0;
    var i := |dest|;
    while i > 0
      invariant 0 <= i <= |dest| == |q|
      invariant forall k :: 0 <= k < i ==> q[k] == dest[k]
      invariant InRange(B, q[i..])
      invariant Value(B, dest[i..]) == d * Value(B, q[i..]) + rem
      invariant 0 <= rem < d
    {
      i := i - 1;
      var v := q[i] + B * rem;
      DivMod(v, d);
      ShortDivisionStep(B, dest, q, i, d, rem, v / d, v % d);
      q, rem := q[i := v / d], v % d;
    }
    assert dest[0..] == dest && q[0..] == q;
  }

  /** One step of `divDigit`: folding limb i under the running remainder
      and replacing it by its quotient limb qq keeps dest[i..] = d*q[i..] + rem. */
  lemma {:induction false} ShortDivisionStep(B: int, dest: seq<int>, q: seq<int>, i: nat, d: int, rem: int,
                          qq: int, rr: int)
    requires B >= 2 && d >= 1 && 0 <= rem < d
    requires i < |dest| == |q| && q[i] == dest[i] && 0 <= dest[i] < B
    requires InRange(B, q[i + 1..])
    requires Value(B, dest[i + 1..]) == d * Value(B, q[i + 1..]) + rem
    requires q[i] + B * rem == d * qq + rr && 0 <= rr < d
    ensures InRange(B, q[i := qq][i..])
    ensures Value(B, dest[i..]) == d * Value(B, q[i := qq][i..]) + rr
  {
    var v := q[i] + B * rem;
    var q1 := q[i := qq];
    assert dest[i..][1..] == dest[i + 1..] && q1[i..][1..] == q[i + 1..];
    assert Value(B, dest[i..]) == dest[i] + B * Value(B, dest[i + 1..]);
    assert Value(B, q1[i..]) == qq + B * Value(B, q[i + 1..]);
    DivStep(Value(B, dest[i..]), dest[i], B, Value(B, dest[i + 1..]), d,
            Value(B, q[i + 1..]), rem, v, qq, rr, Value(B, q1[i..]));
    QuotLimb(v, dest[i], B, rem, d, qq, rr);
  }
}
