/** Interval arithmetic as the runtime-error checks use it: bounds of sums,
    products, truncating quotients and remainders. */
module Intervals {
  import opened CIntegers

  /** Both ends included; empty when `lo > hi`. */
  datatype Interval = Interval(lo: int, hi: int)

  predicate Inside(v: int, r: Interval) {
    r.lo <= v <= r.hi
  }

  function Least(a: int, b: int): (m: int)
    ensures m <= a && m <= b && (m == a || m == b)
  {
    if a <= b then a else b
  }

  function Greatest(a: int, b: int): (m: int)
    ensures a <= m && b <= m && (m == a || m == b)
  {
    if a <= b then b else a
  }

  function Hull(a: Interval, b: Interval): Interval {
    Interval(Least(a.lo, b.lo), Greatest(a.hi, b.hi))
  }

  function Meet(a: Interval, b: Interval): Interval {
    Interval(Greatest(a.lo, b.lo), Least(a.hi, b.hi))
  }

  function RangeOf(t: IntType): Interval {
    Interval(Lo(t), Hi(t))
  }

  predicate Covers(outer: Interval, inner: Interval) {
    outer.lo <= inner.lo && inner.hi <= outer.hi
  }

  /** The hull of the four corners. */
  function Corners(p: int, q: int, r: int, s: int): Interval {
    Interval(Least(Least(p, q), Least(r, s)), Greatest(Greatest(p, q), Greatest(r, s)))
  }

  function AbsMax(r: Interval): int {
    Greatest(Abs(r.lo), Abs(r.hi))
  }

  function AddBounds(a: Interval, b: Interval): Interval {
    Interval(a.lo + b.lo, a.hi + b.hi)
  }

  function SubBounds(a: Interval, b: Interval): Interval {
    Interval(a.lo - b.hi, a.hi - b.lo)
  }

  function MulBounds(a: Interval, b: Interval): Interval {
    Corners(a.lo * b.lo, a.lo * b.hi, a.hi * b.lo, a.hi * b.hi)
  }

  function DivBounds(a: Interval, b: Interval): Interval {
    if b.lo > 0 || b.hi < 0 then
      Corners(Quotient(a.lo, b.lo), Quotient(a.lo, b.hi), Quotient(a.hi, b.lo), Quotient(a.hi, b.hi))
    else Interval(-AbsMax(a), AbsMax(a))
  }

  function ModBounds(a: Interval, b: Interval): Interval {
    var m := Least(AbsMax(a), Greatest(AbsMax(b) - 1, 0));
    Interval(if a.lo < 0 then -m else 0, if a.hi > 0 then m else 0)
  }

  lemma AbsBound(x: int, r: Interval)
    requires Inside(x, r)
    ensures Abs(x) <= AbsMax(r)
  {
  }

  // ---------------------------------------------------------------- no wider than need be

  /** Both ends are the values of an operation on operands in range. */
  ghost predicate Attained(op: (int, int) -> int, a: Interval, b: Interval, r: Interval) {
    (exists x, y :: Reaches(op, a, b, x, y, r.lo)) && (exists x, y :: Reaches(op, a, b, x, y, r.hi))
  }

  ghost predicate Reaches(op: (int, int) -> int, a: Interval, b: Interval, x: int, y: int, v: int) {
    Inside(x, a) && Inside(y, b) && op(x, y) == v
  }

  /** The intervals of sums, differences and products, and of quotients by
      divisors of one sign, have ends that occur. */
  lemma BoundsAttained(a: Interval, b: Interval)
    requires a.lo <= a.hi && b.lo <= b.hi
    ensures Attained((x, y) => x + y, a, b, AddBounds(a, b))
    ensures Attained((x, y) => x - y, a, b, SubBounds(a, b))
    ensures Attained((x, y) => x * y, a, b, MulBounds(a, b))
    ensures b.lo > 0 || b.hi < 0 ==> Attained((x, y) => Quotient(x, y), a, b, DivBounds(a, b))
  {
    EndsAttained((x, y) => x + y, a, b, AddBounds(a, b), a.lo, b.lo, a.hi, b.hi);
    EndsAttained((x, y) => x - y, a, b, SubBounds(a, b), a.lo, b.hi, a.hi, b.lo);
    CornersAttained((x, y) => x * y, a, b);
    CornersAttained((x, y) => Quotient(x, y), a, b);
  }

  lemma EndsAttained(op: (int, int) -> int, a: Interval, b: Interval, r: Interval, x: int, y: int, z: int, w: int)
    requires Reaches(op, a, b, x, y, r.lo) && Reaches(op, a, b, z, w, r.hi)
    ensures Attained(op, a, b, r)
  {
  }

  lemma CornersAttained(op: (int, int) -> int, a: Interval, b: Interval)
    requires a.lo <= a.hi && b.lo <= b.hi
    ensures Attained(op, a, b, Corners(op(a.lo, b.lo), op(a.lo, b.hi), op(a.hi, b.lo), op(a.hi, b.hi)))
  {
    var r := Corners(op(a.lo, b.lo), op(a.lo, b.hi), op(a.hi, b.lo), op(a.hi, b.hi));
    var x := if r.lo == op(a.lo, b.lo) || r.lo == op(a.lo, b.hi) then a.lo else a.hi;
    var y := if r.lo == op(x, b.lo) then b.lo else b.hi;
    var z := if r.hi == op(a.lo, b.lo) || r.hi == op(a.lo, b.hi) then a.lo else a.hi;
    var w := if r.hi == op(z, b.lo) then b.lo else b.hi;
    assert Reaches(op, a, b, x, y, r.lo) && Reaches(op, a, b, z, w, r.hi);
  }

  // ---------------------------------------------------------------- products

  /** `f(x)` lies between `f(l)` and `f(h)`. */
  predicate Between(v: int, p: int, q: int) {
    Least(p, q) <= v <= Greatest(p, q)
  }

  lemma MulBetween(x: int, l: int, h: int, y: int)
    requires l <= x <= h
    ensures Between(x * y, l * y, h * y)
  {
    if y >= 0 {
      MulMonotone(l, x, y);
      MulMonotone(x, h, y);
    } else {
      MulMonotone(l, x, -y);
      MulMonotone(x, h, -y);
      Negated(l, y);
      Negated(x, y);
      Negated(h, y);
    }
  }

  lemma Negated(x: int, y: int)
    ensures x * (-y) == -(x * y)
  {
  }

  lemma BetweenCorners(v: int, p: int, q: int, a: int, b: int, c: int, d: int)
    requires Between(v, p, q) && Between(p, a, b) && Between(q, c, d)
    ensures Inside(v, Corners(a, b, c, d))
  {
  }

  lemma MulSound(x: int, y: int, a: Interval, b: Interval)
    requires Inside(x, a) && Inside(y, b)
    ensures Inside(x * y, MulBounds(a, b))
  {
    MulBetween(x, a.lo, a.hi, y);
    MulBetween(y, b.lo, b.hi, a.lo);
    MulBetween(y, b.lo, b.hi, a.hi);
    Commute(y, a.lo);
    Commute(y, a.hi);
    Commute(b.lo, a.lo);
    Commute(b.hi, a.lo);
    Commute(b.lo, a.hi);
    Commute(b.hi, a.hi);
    BetweenCorners(x * y, a.lo * y, a.hi * y, a.lo * b.lo, a.lo * b.hi, a.hi * b.lo, a.hi * b.hi);
  }

  lemma Commute(x: int, y: int)
    ensures x * y == y * x
  {
  }

  // ---------------------------------------------------------------- quotients

  lemma FloorMonotone(x: int, y: int, d: int)
    requires 0 <= x <= y && d > 0
    ensures x / d <= y / d
  {
    DivideByPositive(x, d);
    DivideByPositive(y, d);
    if x / d > y / d { MulMonotone(y / d + 1, x / d, d); }
  }

  lemma FloorAntitone(x: int, c: int, d: int)
    requires 0 <= x && 0 < c <= d
    ensures x / d <= x / c
  {
    DivideByPositive(x, c);
    DivideByPositive(x, d);
    if x / d > x / c {
      QuotientNonNegative(x, d);
      MulMonotone(c, d, x / d);
      MulMonotone(x / c + 1, x / d, c);
    }
  }

  lemma QuotientNonNegative(x: int, d: int)
    requires 0 <= x && d > 0
    ensures 0 <= x / d <= x
  {
    DivideByPositive(x, d);
    if x / d < 0 { MulMonotone(x / d, -1, d); } else { MulMonotone(1, d, x / d); }
  }

  /** Truncating division, in the dividend. */
  lemma QuotientBetween(x: int, l: int, h: int, d: int)
    requires l <= x <= h && d != 0
    ensures Between(Quotient(x, d), Quotient(l, d), Quotient(h, d))
  {
    var e := Abs(d);
    QuotientNonNegative(Abs(x), e);
    QuotientNonNegative(Abs(l), e);
    QuotientNonNegative(Abs(h), e);
    if l >= 0 {
      FloorMonotone(l, x, e);
      FloorMonotone(x, h, e);
    } else if h <= 0 {
      FloorMonotone(-h, -x, e);
      FloorMonotone(-x, -l, e);
    } else if x >= 0 {
      FloorMonotone(x, h, e);
    } else {
      FloorMonotone(-x, -l, e);
    }
  }

  /** And in a divisor of one sign. */
  lemma DivisorBetween(x: int, d: int, l: int, h: int)
    requires l <= d <= h && (l > 0 || h < 0)
    ensures Between(Quotient(x, d), Quotient(x, l), Quotient(x, h))
  {
    var n := Abs(x);
    if l > 0 {
      FloorAntitone(n, l, d);
      FloorAntitone(n, d, h);
    } else {
      FloorAntitone(n, -h, -d);
      FloorAntitone(n, -d, -l);
    }
  }

  lemma DivSound(x: int, y: int, a: Interval, b: Interval)
    requires Inside(x, a) && Inside(y, b) && y != 0
    ensures Inside(Quotient(x, y), DivBounds(a, b))
  {
    if b.lo > 0 || b.hi < 0 {
      QuotientBetween(x, a.lo, a.hi, y);
      DivisorBetween(a.lo, y, b.lo, b.hi);
      DivisorBetween(a.hi, y, b.lo, b.hi);
      BetweenCorners(Quotient(x, y), Quotient(a.lo, y), Quotient(a.hi, y),
                     Quotient(a.lo, b.lo), Quotient(a.lo, b.hi), Quotient(a.hi, b.lo), Quotient(a.hi, b.hi));
    } else {
      QuotientAbs(x, y);
      QuotientNonNegative(Abs(x), Abs(y));
      AbsBound(x, a);
    }
  }

  lemma ModSound(x: int, y: int, a: Interval, b: Interval)
    requires Inside(x, a) && Inside(y, b) && y != 0
    ensures Inside(Remainder(x, y), ModBounds(a, b))
  {
    HelpersTruncate(x, y);
    AbsBound(x, a);
    AbsBound(y, b);
    RemainderSmall(x, y);
  }

  /** The remainder is no larger than the dividend. */
  lemma RemainderSmall(x: int, y: int)
    requires y != 0
    ensures Abs(Remainder(x, y)) <= Abs(x)
  {
    HelpersTruncate(x, y);
    QuotientAbs(x, y);
    DivideByPositive(Abs(x), Abs(y));
    QuotientNonNegative(Abs(x), Abs(y));
    var q, m := Abs(Quotient(x, y)), Abs(y);
    MulMonotone(0, q, m);
    RemainderAbs(x, y);
  }

  lemma RemainderAbs(x: int, y: int)
    requires y != 0
    ensures Abs(Remainder(x, y)) == Abs(x) % Abs(y)
  {
    DivideByPositive(Abs(x), Abs(y));
    SignsMultiply(Abs(y), Abs(x) / Abs(y));
    assert y * Quotient(x, y) == if x >= 0 then Abs(x) / Abs(y) * Abs(y) else -(Abs(x) / Abs(y) * Abs(y));
  }
}
