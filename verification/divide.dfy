/** Long division of limb sequences (posint.cpp `divremArray`): one
    quotient limb per step from the top, each estimated from the top two
    limbs of the partial remainder and the top limb of a divisor whose top
    limb is at least B/2 (rounded down), then corrected upwards. */
module Divide {
  import opened Arith
  import opened Limbs
  import opened Compare
  import opened Carry

  /** The divisor shape long division needs: its top limb is at least B/2
      rounded down, the requirement posint.cpp states for divremArray. */
  predicate Divisor(B: int, y: seq<int>)
  {
    |y| >= 1 && InRange(B, y) && 2 * y[|y| - 1] + 1 >= B
  }

  /** How far the two-limb trial quotient can overshoot: two when the top
      limb of y is at least B/2 rounded up, three when it is (B - 1)/2 for an
      odd B. Every divisor that reaches divremArray in posint.cpp with an
      even B has slack two. */
  function Slack(B: int, y: seq<int>): int
    requires |y| >= 1
  {
    if 2 * y[|y| - 1] >= B then 2 else 3
  }

  /** The trial quotient limb as posint.cpp computes it: the top two of the
      low |y| + 1 limbs of the partial remainder u divided by the top limb
      of y, minus two: two below the largest count of top limbs of y that
      fits in the top two limbs of u. */
  function EstimateAsWritten(B: int, u: seq<int>, y: seq<int>): (e: int)
    requires |y| >= 1 && |u| >= |y| + 1 && y[|y| - 1] > 0
    ensures (e + 2) * y[|y| - 1] <= u[|y| - 1] + B * u[|y|] < (e + 3) * y[|y| - 1]
  {
    FloorBounds(u[|y| - 1] + B * u[|y|], y[|y| - 1]);
    (u[|y| - 1] + B * u[|y|]) / y[|y| - 1] - 2
  }

  /** For the divisors divrem in posint.cpp passes on (top limb at least B/2
      rounded up), the source's estimate never exceeds the true quotient
      limb and falls short of it by at most two. */
  lemma {:induction false} EstimateAsWrittenBounds(B: int, u: seq<int>, y: seq<int>)
    requires B >= 2 && Divisor(B, y) && 2 * y[|y| - 1] >= B && InRange(B, u) && |u| >= |y| + 1
    requires Value(B, u) < Value(B, y) * B
    ensures EstimateAsWritten(B, u, y) * Value(B, y) <= Value(B, u)
    ensures Value(B, u) < (EstimateAsWritten(B, u, y) + 3) * Value(B, y)
  {
    EstimateBounds(B, u, y);
  }

  /** For B = 3 and y = [1, 2, 1] (16, top limb 1 = B/2 rounded down) the
      estimate for the partial remainder [0, 0, 2, 1] (45, below 3y) is 3,
      above the true quotient limb 2: the subtraction of 3y would go
      negative. */
  lemma EstimateAsWrittenOvershoots()
    ensures Divisor(3, [1, 2, 1]) && Value(3, [0, 0, 2, 1]) < Value(3, [1, 2, 1]) * 3
    ensures EstimateAsWritten(3, [0, 0, 2, 1], [1, 2, 1]) * Value(3, [1, 2, 1]) > Value(3, [0, 0, 2, 1])
  {
    assert Value(3, [1, 2, 1]) == 16 by {
      assert [1, 2, 1][1..] == [2, 1] && [2, 1][1..] == [1] && [1][1..] == [];
    }
    assert Value(3, [0, 0, 2, 1]) == 45 by {
      assert [0, 0, 2, 1][1..] == [0, 2, 1] && [0, 2, 1][1..] == [2, 1];
      assert [2, 1][1..] == [1] && [1][1..] == [];
    }
  }

  /** The trial quotient limb used here: as posint.cpp computes it, but with
      the overshoot allowed for by the divisor's slack. It is the source's
      estimate whenever the slack is two. */
  function Estimate(B: int, u: seq<int>, y: seq<int>): (e: int)
    requires |y| >= 1 && |u| >= |y| + 1 && y[|y| - 1] > 0
    ensures Slack(B, y) == 2 ==> e == EstimateAsWritten(B, u, y)
  {
    (u[|y| - 1] + B * u[|y|]) / y[|y| - 1] - Slack(B, y)
  }

  /** Knuth's estimate: when the partial remainder u is below y * B and the
      divisor's top limb is at least B/2 rounded down, the trial quotient
      never exceeds the true quotient limb, and falls short of it by at most
      the slack. */
  lemma {:induction false} EstimateBounds(B: int, u: seq<int>, y: seq<int>)
    requires B >= 2 && Divisor(B, y) && InRange(B, u) && |u| >= |y| + 1
    requires Value(B, u) < Value(B, y) * B
    ensures Estimate(B, u, y) * Value(B, y) <= Value(B, u)
    ensures Value(B, u) < (Estimate(B, u, y) + Slack(B, y) + 1) * Value(B, y)
  {
    var n := |y|;
    TopBounds(B, y);
    ExpPositive(B, n - 1);
    ValueBounds(B, y);
    ValueTopTwo(B, u, n, Value(B, y));
    KnuthBounds(Value(B, u), u[n - 1] + B * u[n], Exp(B, n - 1), Value(B, y), y[n - 1], B,
                Value(B, u[..n - 1]), Slack(B, y));
  }

  /** When u is below B^(n+1), it is its limbs below n - 1 plus the top two
      limbs n - 1 and n, read at weight B^(n-1). */
  lemma {:induction false} ValueTopTwo(B: int, u: seq<int>, n: nat, yv: int)
    requires B >= 2 && n >= 1 && |u| >= n + 1 && InRange(B, u)
    requires 0 <= yv < Exp(B, n) && Value(B, u) < yv * B
    ensures 0 <= Value(B, u[..n - 1]) < Exp(B, n - 1)
    ensures Value(B, u) == Value(B, u[..n - 1]) + Exp(B, n - 1) * (u[n - 1] + B * u[n])
    ensures (u[n - 1] + B * u[n]) * Exp(B, n - 1) <= Value(B, u)
    ensures u[n - 1] + B * u[n] >= 0
  {
    MulLt(yv, Exp(B, n), B);
    assert Exp(B, n + 1) == B * Exp(B, n);
    ValueFits(B, u, n + 1);
    TwoLimbs(B, u[..n + 1], n);
    assert u[..n + 1][..n - 1] == u[..n - 1];
    assert InRange(B, u[..n - 1]);
    ValueBounds(B, u[..n - 1]);
    MulNonNeg(B, u[n]);
    MulNonNeg(Exp(B, n - 1), u[n - 1] + B * u[n]);
  }

  /** A sequence of n + 1 limbs is its first n - 1 limbs plus its top two
      limbs at weight B^(n-1). */
  lemma {:induction false} TwoLimbs(B: int, w: seq<int>, n: nat)
    requires n >= 1 && |w| == n + 1
    ensures Value(B, w) == Value(B, w[..n - 1]) + Exp(B, n - 1) * (w[n - 1] + B * w[n])
  {
    ValueSplit(B, w, n - 1);
    ValueAt(B, w, n - 1);
    assert w[n..] == [w[n]];
    ValueSingle(B, w[n]);
  }

  /** A divisor is positive, and B^n is at most its slack times it. */
  lemma {:induction false} DivisorBounds(B: int, y: seq<int>)
    requires B >= 2 && Divisor(B, y)
    ensures IsPosInt(B, y) && 1 <= Value(B, y) < Exp(B, |y|) <= Slack(B, y) * Value(B, y)
    ensures Slack(B, y) <= B
  {
    var n := |y|;
    TopBounds(B, y);
    ValueBounds(B, y);
    ExpPositive(B, n - 1);
    assert Exp(B, n) == B * Exp(B, n - 1);
    HalfTop(y[n - 1], Exp(B, n - 1), Value(B, y), B, Exp(B, n), Slack(B, y));
  }

  /** The loop invariant of long division at quotient limb qind, before the
      correction loop: x from limb qind equals the partial remainder r from
      qind plus y times the quotient limbs from qind, where the current limb
      q[qind] is the estimate (not yet corrected); below qind, r is still x.
      The partial remainder is below (slack + 1) * y, so at most slack
      corrections follow. */
  predicate DivInv(B: int, x: seq<int>, y: seq<int>, q: seq<int>, r: seq<int>, qind: nat)
  {
    && |y| >= 1 && qind < |q| && |r| == |x| && qind + |y| <= |x|
    && r[..qind] == x[..qind] && InRange(B, r) && InRange(B, q[qind + 1..]) && 0 <= q[qind]
    && Value(B, x[qind..]) == Value(B, r[qind..]) + Value(B, y) * (q[qind] + B * Value(B, q[qind + 1..]))
    && Value(B, r[qind..]) + q[qind] * Value(B, y) < Value(B, y) * B
    && Value(B, r[qind..]) < (Slack(B, y) + 1) * Value(B, y)
  }

  /** The state after the correction loop at limb qind: the quotient limbs
      from qind are final and the partial remainder is below y. */
  predicate Settled(B: int, x: seq<int>, y: seq<int>, q: seq<int>, r: seq<int>, qind: nat)
  {
    && qind < |q| && |r| == |x| && qind + |y| <= |x|
    && r[..qind] == x[..qind] && InRange(B, r) && InRange(B, q[qind..])
    && Value(B, x[qind..]) == Value(B, r[qind..]) + Value(B, y) * Value(B, q[qind..])
    && Value(B, r[qind..]) < Value(B, y)
  }

  /** q = x / y and r = x % y for a divisor whose top limb is at least
      B/2 rounded down: q has |x| - |y| + 1 limbs, r has |x| limbs. */
  method DivRemArray(B: int, x: seq<int>, y: seq<int>) returns (q: seq<int>, r: seq<int>)
    requires B >= 2 && Divisor(B, y) && |x| >= |y| && InRange(B, x)
    ensures |q| == |x| - |y| + 1 && |r| == |x| && InRange(B, q) && InRange(B, r)
    ensures Value(B, x) == Value(B, y) * Value(B, q) + Value(B, r)
    ensures 0 <= Value(B, r) < Value(B, y)
  {
    r := x;
    q := Zeros(|x| - |y| + 1);
    var qind: nat := |x| - |y|;
    FirstDigit(B, x, y, q, qind);
    while true
      invariant DivInv(B, x, y, q, r, qind) && |q| == |x| - |y| + 1
      decreases qind
    {
      q, r := SettleDigit(B, x, y, q, r, qind);
      if qind == 0 {
        break;
      }
      q, r := NextDigit(B, x, y, q, r, qind);
      qind := qind - 1;
    }
    assert x[0..] == x && r[0..] == r && q[0..] == q;
    ValueBounds(B, r);
  }

  /** The invariant holds at the top limb: r is x, q is zero, and the top
      |y| limbs of x are below B^|y|, at most slack times y. */
  lemma {:induction false} FirstDigit(B: int, x: seq<int>, y: seq<int>, q: seq<int>, qind: nat)
    requires B >= 2 && Divisor(B, y) && |x| >= |y| && InRange(B, x)
    requires q == Zeros(|x| - |y| + 1) && qind == |x| - |y|
    ensures DivInv(B, x, y, q, x, qind)
  {
    DivisorBounds(B, y);
    assert InRange(B, x[qind..]);
    ValueBounds(B, x[qind..]);
    MulLe(Slack(B, y), B, Value(B, y));
    assert q[qind + 1..] == [];
  }

  /** The correction loop: while y is at most the partial remainder from
      limb qind, subtract y there and count one more. It ends with the
      remainder of the partial remainder by y, having counted the quotient. */
  method Correct(B: int, r: seq<int>, y: seq<int>, qind: nat, qd: int) returns (r1: seq<int>, qd1: int)
    requires B >= 2 && |y| >= 1 && InRange(B, y) && Value(B, y) >= 1
    requires InRange(B, r) && qind + |y| <= |r|
    ensures |r1| == |r| && InRange(B, r1) && r1[..qind] == r[..qind]
    ensures 0 <= Value(B, r1[qind..]) < Value(B, y)
    ensures Value(B, r1[qind..]) + Value(B, y) * (qd1 - qd) == Value(B, r[qind..])
    ensures qd1 - qd == Value(B, r[qind..]) / Value(B, y)
    ensures Value(B, r1[qind..]) == Value(B, r[qind..]) % Value(B, y)
  {
    ghost var v0 := Value(B, r[qind..]);
    ghost var yv := Value(B, y);
    r1, qd1 := r, qd;
    assert InRange(B, r1[qind..]);
    ValueBounds(B, r1[qind..]);
    var c := CompareDigits(B, y, r1[qind..]);
    while c <= 0
      invariant |r1| == |r| && InRange(B, r1) && r1[..qind] == r[..qind]
      invariant 0 <= Value(B, r1[qind..])
      invariant Value(B, r1[qind..]) + yv * (qd1 - qd) == v0
      invariant c <= 0 <==> yv <= Value(B, r1[qind..])
      decreases Value(B, r1[qind..])
    {
      ghost var v := Value(B, r1[qind..]);
      assert y[..|y|] == y;
      r1 := SubAt(B, r1, y, qind, |y|);
      CountStep(Value(B, r1[qind..]), v, yv, qd1 - qd, v0);
      qd1 := qd1 + 1;
      assert InRange(B, r1[qind..]);
      c := CompareDigits(B, y, r1[qind..]);
    }
    DivModOf(v0, yv, qd1 - qd, Value(B, r1[qind..]));
  }

  lemma {:induction false} CountStep(v1: int, v: int, yv: int, k: int, v0: int)
    requires v + yv * k == v0 && v1 == v - yv
    ensures v1 + yv * (k + 1) == v0
  {
  }

  /** subArray applied at offset qind of r: r from limb qind loses the
      value of t's first len limbs, and the limbs below qind are kept. */
  method SubAt(B: int, r: seq<int>, t: seq<int>, qind: nat, len: nat) returns (r1: seq<int>)
    requires B >= 2 && InRange(B, r) && qind + len <= |r| && qind < |r| && len <= |t|
    requires InRange(B, t[..len]) && Value(B, t[..len]) <= Value(B, r[qind..])
    ensures |r1| == |r| && InRange(B, r1) && r1[..qind] == r[..qind]
    ensures Value(B, r1[qind..]) == Value(B, r[qind..]) - Value(B, t[..len])
  {
    assert InRange(B, r[qind..]);
    var d := SubArray(B, r[qind..], t, len);
    r1 := r[..qind] + d;
    assert r1[qind..] == d && r1[..qind] == r[..qind];
    assert InRange(B, r1) by {
      forall k | 0 <= k < |r1|
        ensures 0 <= r1[k] < B
      {
        if k >= qind {
          assert r1[k] == d[k - qind];
        }
      }
    }
  }

  /** Runs the correction loop at limb qind and writes the corrected
      quotient limb back; at most slack corrections happen. */
  method SettleDigit(B: int, x: seq<int>, y: seq<int>, q: seq<int>, r: seq<int>, qind: nat)
    returns (q1: seq<int>, r1: seq<int>)
    requires B >= 2 && Divisor(B, y) && DivInv(B, x, y, q, r, qind)
    ensures Settled(B, x, y, q1, r1, qind)
    ensures |q1| == |q| && 0 <= q1[qind] - q[qind] <= Slack(B, y)
  {
    DivisorBounds(B, y);
    assert InRange(B, r[qind..]);
    ValueBounds(B, r[qind..]);
    var d;
    r1, d := Correct(B, r, y, qind, q[qind]);
    q1 := q[qind := d];
    assert q1[qind + 1..] == q[qind + 1..];
    SettleArith(Value(B, r[qind..]), Value(B, r1[qind..]), Value(B, y), q[qind], d, B,
                Value(B, x[qind..]), Value(B, q[qind + 1..]), Slack(B, y));
    ValueAt(B, q1, qind);
    assert InRange(B, q1[qind..]) by {
      assert q1[qind..] == [d] + q[qind + 1..];
    }
  }

  /** Moves to limb qind - 1: the next dividend limb joins the partial
      remainder, the quotient limb is estimated from the top two limbs of
      the partial remainder, and that multiple of y is subtracted. An
      estimate at or below zero leaves the limb zero. */
  method NextDigit(B: int, x: seq<int>, y: seq<int>, q: seq<int>, r: seq<int>, qind: nat)
    returns (q1: seq<int>, r1: seq<int>)
    requires B >= 2 && Divisor(B, y) && Settled(B, x, y, q, r, qind) && qind >= 1
    ensures DivInv(B, x, y, q1, r1, qind - 1)
    ensures |q1| == |q|
  {
    var qi := qind - 1;
    var n := |y|;
    var rind := qi + n - 1;
    StepDown(B, x, y, q, r, qind);
    DivisorBounds(B, y);
    EstimateBounds(B, r[qi..], y);
    var slack := if 2 * y[n - 1] >= B then 2 else 3;
    var quoest := (r[rind] + B * r[rind + 1]) / y[n - 1] - slack;
    assert quoest == Estimate(B, r[qi..], y);
    ClippedRest(Value(B, r[qi..]), Value(B, y), quoest, if quoest <= 0 then 0 else quoest, slack);
    assert r[..qi] == r[..qind][..qi] == x[..qind][..qi] == x[..qi];
    if quoest <= 0 {
      q1 := q[qi := 0];
      r1 := r;
    } else {
      q1 := q[qi := quoest];
      r1 := SubMultiple(B, r, y, qi, quoest);
    }
    assert q1[qi + 1..] == q[qind..];
    NextDigitArith(Value(B, x[qi..]), Value(B, r[qi..]), Value(B, r1[qi..]), Value(B, y),
                   q1[qi], B, Value(B, q[qind..]));
  }

  /** The multiple c * y, built in a buffer of |y| + 1 limbs by mulDigit,
      subtracted from r at limb qi. */
  method SubMultiple(B: int, r: seq<int>, y: seq<int>, qi: nat, c: int) returns (r1: seq<int>)
    requires B >= 2 && Divisor(B, y) && InRange(B, r) && qi + |y| + 1 <= |r| && c >= 0
    requires c * Value(B, y) <= Value(B, r[qi..]) < Value(B, y) * B
    ensures |r1| == |r| && InRange(B, r1) && r1[..qi] == r[..qi]
    ensures Value(B, r1[qi..]) == Value(B, r[qi..]) - c * Value(B, y)
  {
    var temp := Multiple(B, y, c, Value(B, r[qi..]));
    assert temp[..|y| + 1] == temp;
    r1 := SubAt(B, r, temp, qi, |y| + 1);
  }

  /** c * y in a buffer of |y| + 1 limbs: y copied, a zero top limb, then
      mulDigit by c. The bound v (the partial remainder) gives the room. */
  method Multiple(B: int, y: seq<int>, c: int, ghost v: int) returns (temp: seq<int>)
    requires B >= 2 && InRange(B, y) && c >= 0 && c * Value(B, y) <= v < Value(B, y) * B
    ensures |temp| == |y| + 1 && InRange(B, temp)
    ensures Value(B, temp) == c * Value(B, y)
  {
    MultipleRoom(B, y, c, v);
    temp := MulDigit(B, y + [0], c);
  }

  /** The buffer y + [0] holds y and has room for c * y. */
  lemma {:induction false} MultipleRoom(B: int, y: seq<int>, c: int, v: int)
    requires B >= 2 && InRange(B, y) && c >= 0 && c * Value(B, y) <= v < Value(B, y) * B
    ensures InRange(B, y + [0]) && Value(B, y + [0]) == Value(B, y)
    ensures Value(B, y + [0]) * c < Exp(B, |y + [0]|)
  {
    var n := |y|;
    ValueZeroTail(B, y, [0]);
    ValueBounds(B, y);
    assert Exp(B, n + 1) == B * Exp(B, n);
    ScaledRoom(c, Value(B, y), v, B, Exp(B, n), Exp(B, n + 1));
  }

  /** The partial remainder from limb qind - 1 is the settled one shifted up
      a limb plus dividend limb qind - 1, which r still holds. */
  lemma {:induction false} StepDown(B: int, x: seq<int>, y: seq<int>, q: seq<int>, r: seq<int>, qind: nat)
    requires B >= 2 && Divisor(B, y) && Settled(B, x, y, q, r, qind) && qind >= 1
    ensures InRange(B, r[qind - 1..]) && |r[qind - 1..]| >= |y| + 1
    ensures Value(B, x[qind - 1..]) == Value(B, r[qind - 1..]) + Value(B, y) * (B * Value(B, q[qind..]))
    ensures Value(B, r[qind - 1..]) < Value(B, y) * B
  {
    ValueAt(B, x, qind - 1);
    ValueAt(B, r, qind - 1);
    assert x[qind - 1] == x[..qind][qind - 1] == r[qind - 1];
    assert InRange(B, r[qind..]);
    ValueBounds(B, r[qind..]);
    StepDownArith(Value(B, x[qind - 1..]), r[qind - 1], Value(B, r[qind - 1..]), Value(B, r[qind..]),
                  Value(B, y), Value(B, q[qind..]), B);
  }
}
