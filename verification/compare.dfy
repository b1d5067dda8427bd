/** Ordering of limb sequences (posint.cpp `compareDigits`, `compare`). */
module Compare {
  import opened Arith
  import opened Limbs

  /** Limb k of s, reading limbs past the end as zero. */
  function Digit(s: seq<int>, k: nat): int
  {
    if k < |s| then s[k] else 0
  }

  function Max(a: int, b: int): int
  {
    if a < b then b else a
  }

  /** Both sequences padded with zero limbs to the same length. */
  lemma {:induction false} Padded(B: int, a: seq<int>, b: seq<int>) returns (pa: seq<int>, pb: seq<int>)
    requires B >= 2 && InRange(B, a) && InRange(B, b)
    ensures |pa| == |pb| == Max(|a|, |b|)
    ensures InRange(B, pa) && InRange(B, pb)
    ensures Value(B, pa) == Value(B, a) && Value(B, pb) == Value(B, b)
    ensures forall k :: 0 <= k < |pa| ==> pa[k] == Digit(a, k) && pb[k] == Digit(b, k)
  {
    var m := Max(|a|, |b|);
    pa := a + Zeros(m - |a|);
    pb := b + Zeros(m - |b|);
    ValueZeroTail(B, a, Zeros(m - |a|));
    ValueZeroTail(B, b, Zeros(m - |b|));
  }

  /** The most-significant differing limb decides the order. */
  lemma {:induction false} DigitsDecide(B: int, a: seq<int>, b: seq<int>, i: nat)
    requires B >= 2 && InRange(B, a) && InRange(B, b)
    requires i < Max(|a|, |b|)
    requires forall k :: i < k < Max(|a|, |b|) ==> Digit(a, k) == Digit(b, k)
    requires Digit(a, i) < Digit(b, i)
    ensures Value(B, a) < Value(B, b)
  {
    var pa, pb := Padded(B, a, b);
    assert pa[i + 1..] == pb[i + 1..];
    ValueSplit(B, pa, i);
    ValueSplit(B, pb, i);
    assert pa[i..][1..] == pa[i + 1..] && pb[i..][1..] == pb[i + 1..];
    assert pa[i..][0] == pa[i] && pb[i..][0] == pb[i];
    var h := Value(B, pa[i + 1..]);
    assert Value(B, pa[i..]) == pa[i] + B * h;
    assert Value(B, pb[i..]) == pb[i] + B * h;
    assert pa[i] == Digit(a, i) && pb[i] == Digit(b, i);
    assert InRange(B, pa[..i]) && InRange(B, pb[..i]);
    ValueBounds(B, pa[..i]);
    ValueBounds(B, pb[..i]);
    LexStep(Value(B, pa), Value(B, pb), Value(B, pa[..i]), Value(B, pb[..i]), Exp(B, i),
            Value(B, pa[i..]), Value(B, pb[i..]), pa[i], pb[i], B, h);
  }

  /** Sequences that agree limb by limb (up to zero padding) are equal in value. */
  lemma {:induction false} DigitsEqual(B: int, a: seq<int>, b: seq<int>)
    requires B >= 2 && InRange(B, a) && InRange(B, b)
    requires forall k :: 0 <= k < Max(|a|, |b|) ==> Digit(a, k) == Digit(b, k)
    ensures Value(B, a) == Value(B, b)
  {
    var pa, pb := Padded(B, a, b);
    assert pa == pb;
  }

  /** Compares two limb arrays of possibly different lengths, treating limbs
      beyond either length as zero; the result is the sign of a - b. */
  method CompareDigits(B: int, a: seq<int>, b: seq<int>) returns (c: int)
    requires B >= 2 && InRange(B, a) && InRange(B, b)
    ensures c == -1 || c == 0 || c == 1
    ensures c == -1 <==> Value(B, a) < Value(B, b)
    ensures c == 0 <==> Value(B, a) == Value(B, b)
    ensures c == 1 <==> Value(B, a) > Value(B, b)
  {
    var m := Max(|a|, |b|);
    var i := m - 1;
    while i >= |b|
      invariant -1 <= i < m
      invariant forall k :: i < k < m ==> Digit(a, k) == Digit(b, k)
    {
      if a[i] > 0 {
        DigitsDecide(B, b, a, i);
        return 1;
      }
      i := i - 1;
    }
    while i >= |a|
      invariant -1 <= i < m && i < |b|
      invariant forall k :: i < k < m ==> Digit(a, k) == Digit(b, k)
    {
      if b[i] > 0 {
        DigitsDecide(B, a, b, i);
        return -1;
      }
      i := i - 1;
    }
    while i >= 0
      invariant -1 <= i < m && i < |a| && i < |b|
      invariant forall k :: i < k < m ==> Digit(a, k) == Digit(b, k)
    {
      if a[i] < b[i] {
        DigitsDecide(B, a, b, i);
        return -1;
      } else if a[i] > b[i] {
        DigitsDecide(B, b, a, i);
        return 1;
      }
      i := i - 1;
    }
    DigitsEqual(B, a, b);
    return 0;
  }

  /** Compares two PosInts: the shorter is smaller, equal lengths are
      compared limb by limb from the top. */
  method Compare(B: int, a: seq<int>, b: seq<int>) returns (c: int)
    requires B >= 2 && IsPosInt(B, a) && IsPosInt(B, b)
    ensures c == -1 || c == 0 || c == 1
    ensures c == -1 <==> Value(B, a) < Value(B, b)
    ensures c == 0 <==> Value(B, a) == Value(B, b)
    ensures c == 1 <==> Value(B, a) > Value(B, b)
  {
    if |a| < |b| {
      LengthOrder(B, a, b);
      return -1;
    } else if |a| > |b| {
      LengthOrder(B, b, a);
      return 1;
    } else if |a| == 0 {
      return 0;
    }
    c := CompareDigits(B, a, b);
  }
}
