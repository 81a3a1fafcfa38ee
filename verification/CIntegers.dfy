/** C's fixed-width integers over the mathematical ones: ranges, promotions and
    conversions (ISO/IEC 9899:2011, sections 6.3.1.1, 6.3.1.3, 6.3.1.8 and
    6.5.5), and the helpers the prover's input uses for them. */
module CIntegers {

  datatype IntType = Int8 | Int16 | Int32 | Int64 | Uint8 | Uint16 | Uint32 | Uint64

  function Lo(t: IntType): int {
    match t
    case Int8 => -0x80
    case Int16 => -0x8000
    case Int32 => -0x8000_0000
    case Int64 => -0x8000_0000_0000_0000
    case _ => 0
  }

  function Hi(t: IntType): int {
    match t
    case Int8 => 0x7f
    case Int16 => 0x7fff
    case Int32 => 0x7fff_ffff
    case Int64 => 0x7fff_ffff_ffff_ffff
    case Uint8 => 0xff
    case Uint16 => 0xffff
    case Uint32 => 0xffff_ffff
    case Uint64 => 0xffff_ffff_ffff_ffff
  }

  predicate In(v: int, t: IntType) {
    Lo(t) <= v <= Hi(t)
  }

  predicate Signed(t: IntType) {
    t.Int8? || t.Int16? || t.Int32? || t.Int64?
  }

  predicate Narrow(t: IntType) {
    t.Int8? || t.Int16? || t.Uint8? || t.Uint16?
  }

  /** The integer promotions. */
  function Promoted(t: IntType): IntType {
    if Narrow(t) then Int32 else t
  }

  lemma PromotionKeeps(t: IntType, v: int)
    requires In(v, t)
    ensures In(v, Promoted(t))
  {
  }

  /** The usual arithmetic conversions of promoted operands, with a 64-bit `long`. */
  function Usual(a: IntType, b: IntType): IntType
    requires !Narrow(a) && !Narrow(b)
  {
    if a.Uint64? || b.Uint64? then Uint64
    else if a.Int64? || b.Int64? then Int64
    else if a.Uint32? || b.Uint32? then Uint32
    else Int32
  }

  // ---------------------------------------------------------------- conversion

  /** 2 to the number of bits. */
  function Modulus(t: IntType): (m: int)
    ensures m > 0 && m == Hi(t) - Lo(t) + 1
  {
    match t
    case Int8 => 0x100
    case Uint8 => 0x100
    case Int16 => 0x1_0000
    case Uint16 => 0x1_0000
    case Int32 => 0x1_0000_0000
    case Uint32 => 0x1_0000_0000
    case Int64 => 0x1_0000_0000_0000_0000
    case Uint64 => 0x1_0000_0000_0000_0000
  }

  /** The emitted `__ol_wrap_*` body; `mod` is Euclidean in the prover too. */
  function Wrap(t: IntType, x: int): int {
    var m := Modulus(t);
    if Signed(t) then ((x + m / 2) % m) - m / 2 else x % m
  }

  predicate Congruent(a: int, b: int, m: int)
    requires m > 0
  {
    (a - b) % m == 0
  }

  lemma DivideByPositive(x: int, m: int)
    requires m > 0
    ensures x == x / m * m + x % m && 0 <= x % m < m
  {
  }

  lemma MultipleMod(k: int, m: int)
    requires m > 0
    ensures (k * m) % m == 0
  {
    DivideByPositive(k * m, m);
    var q, r := k * m / m, k * m % m;
    assert (k - q) * m == r;
    if k - q > 0 { MulMonotone(1, k - q, m); } else if k - q < 0 { MulMonotone(k - q, -1, m); }
  }

  lemma MulMonotone(a: int, b: int, m: int)
    requires a <= b && m >= 0
    ensures a * m <= b * m
  {
  }

  /** `__ol_wrap_*` is C's conversion to a narrower type: the value in range
      that is congruent modulo 2 to the number of bits. */
  lemma WrapIsConversion(t: IntType, x: int)
    ensures In(Wrap(t, x), t) && Congruent(Wrap(t, x), x, Modulus(t))
  {
    var m := Modulus(t);
    var y := if Signed(t) then x + m / 2 else x;
    DivideByPositive(y, m);
    assert Wrap(t, x) - x == (0 - y / m) * m;
    MultipleMod(0 - y / m, m);
  }

  /** There is only one such value. */
  lemma ConversionUnique(t: IntType, x: int, v: int, w: int)
    requires In(v, t) && In(w, t)
    requires Congruent(v, x, Modulus(t)) && Congruent(w, x, Modulus(t))
    ensures v == w
  {
    var m := Modulus(t);
    DivideByPositive(v - x, m);
    DivideByPositive(w - x, m);
    var k := (v - x) / m - (w - x) / m;
    assert v - w == k * m;
    if k >= 1 { MulMonotone(1, k, m); } else if k <= -1 { MulMonotone(k, -1, m); }
  }

  /** Conversion keeps every value the target can hold: in particular leaving
      the wrap out where the target holds every source value changes nothing. */
  lemma WrapKeeps(t: IntType, v: int)
    requires In(v, t)
    ensures Wrap(t, v) == v
  {
    WrapIsConversion(t, v);
    MultipleMod(0, Modulus(t));
    ConversionUnique(t, v, Wrap(t, v), v);
  }

  /** When the prover's input omits the wrap. */
  predicate Widens(from: IntType, to: IntType) {
    Lo(to) <= Lo(from) && Hi(from) <= Hi(to)
  }

  /** Omitting it is right for every value exactly when the target holds the source's range. */
  lemma OmittedWrap(from: IntType, to: IntType)
    ensures Widens(from, to) <==> forall v | In(v, from) :: Wrap(to, v) == v
  {
    if Widens(from, to) {
      forall v | In(v, from) ensures Wrap(to, v) == v {
        WrapKeeps(to, v);
      }
    } else {
      var v := if Lo(from) < Lo(to) then Lo(from) else Hi(from);
      WrapIsConversion(to, v);
      assert In(v, from) && Wrap(to, v) != v;
    }
  }

  // ---------------------------------------------------------------- division

  function Abs(x: int): (a: int)
    ensures a >= 0
  {
    if x >= 0 then x else -x
  }

  /** `__ol_div`; a zero divisor is a check of its own. */
  function Quotient(a: int, b: int): int {
    if b == 0 then 0 else
    var m := Abs(a) / Abs(b);
    if (a >= 0) == (b >= 0) then m else -m
  }

  /** `__ol_mod`. */
  function Remainder(a: int, b: int): int {
    a - b * Quotient(a, b)
  }

  /** What C promises of `/` and `%`: they reconstruct the dividend, and the
      remainder is smaller than the divisor with the dividend's sign. */
  predicate Truncating(a: int, b: int, q: int, r: int) {
    && a == b * q + r && Abs(r) < Abs(b)
    && (r == 0 || (r > 0) == (a > 0))
  }

  lemma QuotientAbs(a: int, b: int)
    requires b != 0
    ensures Abs(Quotient(a, b)) == Abs(a) / Abs(b)
    ensures Abs(a) == Abs(b) * Abs(Quotient(a, b)) + Abs(a) % Abs(b)
  {
    DivideByPositive(Abs(a), Abs(b));
  }

  /** The helpers are C's division and remainder. */
  lemma HelpersTruncate(a: int, b: int)
    requires b != 0
    ensures Truncating(a, b, Quotient(a, b), Remainder(a, b))
  {
    DivideByPositive(Abs(a), Abs(b));
    SignsMultiply(Abs(b), Abs(a) / Abs(b));
    assert b * Quotient(a, b) == if a >= 0 then Abs(a) / Abs(b) * Abs(b) else -(Abs(a) / Abs(b) * Abs(b));
  }

  lemma SignsMultiply(x: int, y: int)
    ensures (-x) * y == -(y * x) && x * (-y) == -(y * x) && (-x) * (-y) == y * x
  {
  }

  /** No other quotient and remainder do that. */
  lemma TruncatingUnique(a: int, b: int, q: int, r: int)
    requires b != 0 && Truncating(a, b, q, r)
    ensures q == Quotient(a, b) && r == Remainder(a, b)
  {
    HelpersTruncate(a, b);
    SameDivision(a, b, q, r, Quotient(a, b), Remainder(a, b));
  }

  lemma SameDivision(a: int, b: int, q: int, r: int, q': int, r': int)
    requires b != 0 && Truncating(a, b, q, r) && Truncating(a, b, q', r')
    ensures q == q' && r == r'
  {
    Distribute(b, q, q');
    assert Abs(r' - r) < Abs(b);
    MultipleSmall(b, q - q');
  }

  lemma Distribute(b: int, x: int, y: int)
    ensures b * (x - y) == b * x - b * y
  {
  }

  lemma MultipleSmall(b: int, k: int)
    ensures b != 0 && Abs(b * k) < Abs(b) ==> k == 0
  {
    if b != 0 && k != 0 {
      assert Abs(b * k) == Abs(b) * Abs(k);
      MulMonotone(1, Abs(k), Abs(b));
    }
  }
}
