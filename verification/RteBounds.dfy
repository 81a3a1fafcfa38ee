/** The 128-bit integers the runtime-error analysis computes its intervals in:
    for which expressions none of its own operations overflows. */
module RteBounds {
  import opened Options
  import opened CIntegers
  import opened Intervals
  import opened Rte

  const I128_MAX := 0x7fff_ffff_ffff_ffff_ffff_ffff_ffff_ffff

  predicate Computable(v: int) {
    -I128_MAX - 1 <= v <= I128_MAX
  }

  predicate CornersComputable(p: int, q: int, r: int, s: int) {
    Computable(p) && Computable(q) && Computable(r) && Computable(s)
  }

  predicate AbsComputable(r: Interval) {
    Computable(Abs(r.lo)) && Computable(Abs(r.hi)) && Computable(-AbsMax(r))
  }

  /** Everything computed on the way to the interval of `a op b`. */
  predicate StepComputes(op: ArithOp, a: Interval, b: Interval) {
    match op
    case Add => Computable(a.lo + b.lo) && Computable(a.hi + b.hi)
    case Sub => Computable(a.lo - b.hi) && Computable(a.hi - b.lo)
    case Mul => CornersComputable(a.lo * b.lo, a.lo * b.hi, a.hi * b.lo, a.hi * b.hi)
    case Div =>
      if b.lo > 0 || b.hi < 0 then
        CornersComputable(Quotient(a.lo, b.lo), Quotient(a.lo, b.hi), Quotient(a.hi, b.lo), Quotient(a.hi, b.hi))
      else AbsComputable(a)
    case Mod => AbsComputable(a) && AbsComputable(b) && Computable(AbsMax(b) - 1)
  }

  /** No operation of the analyser overflows while it finds the interval of `e`. */
  predicate Computes(env: Env, e: Expr) {
    match e
    case Lit(v) => Computable(v)
    case Neg(a) =>
      var r := Bounds(env, a);
      Computes(env, a) && (r.Some? ==> Computable(-r.value.lo) && Computable(-r.value.hi))
    case Arith(op, a, b) =>
      var x, y := Bounds(env, a), Bounds(env, b);
      Computes(env, a) && Computes(env, b) && (x.Some? && y.Some? ==> StepComputes(op, x.value, y.value))
    case If(_, a, b) => Computes(env, a) && Computes(env, b)
    case Arrow(a, b) => Computes(env, a) && Computes(env, b)
    case _ => true
  }

  /** Nor while it looks for the checks of `e`: every interval asked for. */
  predicate WalkComputes(env: Env, e: Expr) {
    match e
    case Lit(_) => true
    case Bool(_) => true
    case Var(_) => true
    case Neg(a) => Computes(env, e) && WalkComputes(env, a)
    case Not(a) => WalkComputes(env, a)
    case Arith(op, a, b) => Computes(env, Subject(e)) && WalkComputes(env, a) && WalkComputes(env, b)
    case Compare(_, a, b) => WalkComputes(env, a) && WalkComputes(env, b)
    case Logic(_, a, b) => WalkComputes(env, a) && WalkComputes(env, b)
    case If(c, a, b) => WalkComputes(env, c) && WalkComputes(env, a) && WalkComputes(env, b)
    case Arrow(a, b) => WalkComputes(env, a) && WalkComputes(env, b)
    case Pre(a) => WalkComputes(env, a) && Computes(env, a)
    case Index(_, i) => Computes(env, i) && WalkComputes(env, i)
    case Cast(_, a) => WalkComputes(env, a)
    case Call(_, _, args) => forall i | 0 <= i < |args| :: Computes(env, args[i]) && WalkComputes(env, args[i])
    case Condact(act, _, _, args, d) =>
      && WalkComputes(env, act) && WalkComputes(env, d)
      && forall i | 0 <= i < |args| :: Computes(env, args[i]) && WalkComputes(env, args[i])
  }

  // ---------------------------------------------------------------- one step

  /** Within every 64-bit type, signed or not, and not empty. */
  predicate Wide(r: Interval) {
    -0x8000_0000_0000_0000 <= r.lo <= r.hi <= 0xffff_ffff_ffff_ffff
  }

  lemma SignedFactor(x: int, y: int)
    requires -0x8000_0000_0000_0000 <= x <= 0xffff_ffff_ffff_ffff
    requires -0x8000_0000_0000_0000 <= y <= 0x7fff_ffff_ffff_ffff
    ensures Computable(x * y)
  {
    MulBetween(x, -0x8000_0000_0000_0000, 0xffff_ffff_ffff_ffff, y);
    MulBetween(y, -0x8000_0000_0000_0000, 0x7fff_ffff_ffff_ffff, -0x8000_0000_0000_0000);
    MulBetween(y, -0x8000_0000_0000_0000, 0x7fff_ffff_ffff_ffff, 0xffff_ffff_ffff_ffff);
  }

  lemma CornerComputable(x: int, y: int, u: int, v: int)
    requires -0x8000_0000_0000_0000 <= x <= u <= 0xffff_ffff_ffff_ffff
    requires -0x8000_0000_0000_0000 <= y <= v <= 0xffff_ffff_ffff_ffff
    requires u * v <= I128_MAX
    ensures Computable(x * y)
  {
    if y <= 0x7fff_ffff_ffff_ffff {
      SignedFactor(x, y);
    } else if x <= 0x7fff_ffff_ffff_ffff {
      SignedFactor(y, x);
      Commute(x, y);
    } else {
      MulMonotone(x, u, y);
      MulMonotone(y, v, u);
      Commute(y, u);
      Commute(v, u);
      MulMonotone(0, x, y);
    }
  }

  lemma QuotientComputable(x: int, y: int)
    requires -0x8000_0000_0000_0000 <= x <= 0xffff_ffff_ffff_ffff && y != 0
    ensures Computable(Quotient(x, y))
  {
    QuotientAbs(x, y);
    QuotientNonNegative(Abs(x), Abs(y));
  }

  /** Only a product can overflow, and does exactly when its largest corner does. */
  lemma StepComputesWhen(op: ArithOp, a: Interval, b: Interval)
    requires Wide(a) && Wide(b)
    ensures StepComputes(op, a, b) <==> (op == Mul ==> a.hi * b.hi <= I128_MAX)
  {
    match op
    case Add =>
    case Sub =>
    case Mul =>
      if a.hi * b.hi <= I128_MAX {
        CornerComputable(a.lo, b.lo, a.hi, b.hi);
        CornerComputable(a.lo, b.hi, a.hi, b.hi);
        CornerComputable(a.hi, b.lo, a.hi, b.hi);
        CornerComputable(a.hi, b.hi, a.hi, b.hi);
      }
    case Div =>
      if b.lo > 0 || b.hi < 0 {
        QuotientComputable(a.lo, b.lo);
        QuotientComputable(a.lo, b.hi);
        QuotientComputable(a.hi, b.lo);
        QuotientComputable(a.hi, b.hi);
      }
    case Mod =>
  }

  // ---------------------------------------------------------------- whole expressions

  /** The operation has a type without a hint from its context, so its interval
      is cut to that type, and something is left of it. */
  predicate Firm(env: Env, e: Expr) {
    IntTypeOf(env, e).Some? && Bounds(env, e).Some? && Bounds(env, e).value.lo <= Bounds(env, e).value.hi
  }

  /** Literals are 64-bit, and operations firm, in all of `e`. */
  predicate Tame(env: Env, e: Expr) {
    match e
    case Lit(v) => In(v, Int64)
    case Bool(_) => true
    case Var(_) => true
    case Neg(a) => Firm(env, e) && Tame(env, a)
    case Not(a) => Tame(env, a)
    case Arith(_, a, b) => Firm(env, e) && Tame(env, a) && Tame(env, b)
    case Compare(_, a, b) => Tame(env, a) && Tame(env, b)
    case Logic(_, a, b) => Tame(env, a) && Tame(env, b)
    case If(c, a, b) => Tame(env, c) && Tame(env, a) && Tame(env, b)
    case Arrow(a, b) => Tame(env, a) && Tame(env, b)
    case Pre(a) => Tame(env, a)
    case Index(_, i) => Tame(env, i)
    case Cast(_, a) => Tame(env, a)
    case Call(_, _, args) => forall i | 0 <= i < |args| :: Tame(env, args[i])
    case Condact(act, _, _, args, d) =>
      Tame(env, act) && Tame(env, d) && forall i | 0 <= i < |args| :: Tame(env, args[i])
  }

  /** No product in `e` reaches beyond 128 bits at its largest corner. */
  predicate ProductsFit(env: Env, e: Expr) {
    match e
    case Lit(_) => true
    case Bool(_) => true
    case Var(_) => true
    case Neg(a) => ProductsFit(env, a)
    case Not(a) => ProductsFit(env, a)
    case Arith(op, a, b) => ProductsFit(env, a) && ProductsFit(env, b) && (op == Mul ==> ProductFits(env, a, b))
    case Compare(_, a, b) => ProductsFit(env, a) && ProductsFit(env, b)
    case Logic(_, a, b) => ProductsFit(env, a) && ProductsFit(env, b)
    case If(c, a, b) => ProductsFit(env, c) && ProductsFit(env, a) && ProductsFit(env, b)
    case Arrow(a, b) => ProductsFit(env, a) && ProductsFit(env, b)
    case Pre(a) => ProductsFit(env, a)
    case Index(_, i) => ProductsFit(env, i)
    case Cast(_, a) => ProductsFit(env, a)
    case Call(_, _, args) => forall i | 0 <= i < |args| :: ProductsFit(env, args[i])
    case Condact(act, _, _, args, d) =>
      ProductsFit(env, act) && ProductsFit(env, d) && forall i | 0 <= i < |args| :: ProductsFit(env, args[i])
  }

  predicate ProductFits(env: Env, a: Expr, b: Expr) {
    var x, y := Bounds(env, a), Bounds(env, b);
    x.Some? && y.Some? ==> x.value.hi * y.value.hi <= I128_MAX
  }

  lemma RangeWide(t: IntType)
    ensures Wide(RangeOf(t)) && Wide(RangeOf(Promoted(t)))
  {
  }

  lemma {:induction false} TameWide(env: Env, e: Expr)
    requires Tame(env, e) && Bounds(env, e).Some?
    ensures Wide(Bounds(env, e).value)
    decreases e
  {
    var t := IntTypeOf(env, e);
    if t.Some? { RangeWide(t.value); }
    match e
    case If(_, a, b) =>
      if Bounds(env, a).Some? { TameWide(env, a); }
      if Bounds(env, b).Some? { TameWide(env, b); }
    case Arrow(a, b) =>
      if Bounds(env, a).Some? { TameWide(env, a); }
      if Bounds(env, b).Some? { TameWide(env, b); }
    case _ =>
  }

  lemma StepFits(env: Env, op: ArithOp, a: Expr, b: Expr)
    requires Tame(env, a) && Tame(env, b)
    ensures
      var x, y := Bounds(env, a), Bounds(env, b);
      x.Some? && y.Some? ==> (StepComputes(op, x.value, y.value) <==> (op == Mul ==> ProductFits(env, a, b)))
  {
    var x, y := Bounds(env, a), Bounds(env, b);
    if x.Some? && y.Some? {
      TameWide(env, a);
      TameWide(env, b);
      StepComputesWhen(op, x.value, y.value);
    }
  }

  /** Finding an interval overflows nowhere if the products fit. */
  lemma {:induction false} FitComputes(env: Env, e: Expr)
    requires Tame(env, e) && ProductsFit(env, e)
    ensures Computes(env, e)
    decreases e
  {
    match e
    case Neg(a) =>
      FitComputes(env, a);
      if Bounds(env, a).Some? { TameWide(env, a); }
    case Arith(op, a, b) =>
      FitComputes(env, a);
      FitComputes(env, b);
      StepFits(env, op, a, b);
    case If(_, a, b) => FitComputes(env, a); FitComputes(env, b);
    case Arrow(a, b) => FitComputes(env, a); FitComputes(env, b);
    case _ =>
  }

  lemma SubjectComputes(env: Env, e: Expr)
    requires e.Arith? && Tame(env, e.lhs) && Tame(env, e.rhs)
    ensures Computes(env, Subject(e)) <==>
      Computes(env, e.lhs) && Computes(env, e.rhs) && (e.op == Mul ==> ProductFits(env, e.lhs, e.rhs))
  {
    StepFits(env, e.op, e.lhs, e.rhs);
    StepFits(env, Div, e.lhs, e.rhs);
  }

  /** With 64-bit literals and firm operations, the analysis of `e` overflows
      nowhere exactly when no product reaches beyond 128 bits at its largest corner. */
  lemma {:induction false} AnalysisComputes(env: Env, e: Expr)
    requires Tame(env, e)
    ensures WalkComputes(env, e) <==> ProductsFit(env, e)
    decreases e, 1
  {
    match e
    case Lit(_) =>
    case Bool(_) =>
    case Var(_) =>
    case Neg(a) =>
      AnalysisComputes(env, a);
      if ProductsFit(env, a) { FitComputes(env, e); }
    case Not(a) => AnalysisComputes(env, a);
    case Arith(_, a, b) =>
      AnalysisComputes(env, a);
      AnalysisComputes(env, b);
      SubjectComputes(env, e);
      if ProductsFit(env, a) { FitComputes(env, a); }
      if ProductsFit(env, b) { FitComputes(env, b); }
    case Compare(_, a, b) => AnalysisComputes(env, a); AnalysisComputes(env, b);
    case Logic(_, a, b) => AnalysisComputes(env, a); AnalysisComputes(env, b);
    case If(c, a, b) => AnalysisComputes(env, c); AnalysisComputes(env, a); AnalysisComputes(env, b);
    case Arrow(a, b) => AnalysisComputes(env, a); AnalysisComputes(env, b);
    case Pre(a) =>
      AnalysisComputes(env, a);
      if ProductsFit(env, a) { FitComputes(env, a); }
    case Index(_, i) =>
      AnalysisComputes(env, i);
      if ProductsFit(env, i) { FitComputes(env, i); }
    case Cast(_, a) => AnalysisComputes(env, a);
    case Call(_, _, args) => ArgumentsCompute(env, e, args);
    case Condact(act, _, _, args, d) =>
      AnalysisComputes(env, act);
      AnalysisComputes(env, d);
      ArgumentsCompute(env, e, args);
  }

  lemma {:induction false} ArgumentsCompute(env: Env, whole: Expr, args: seq<Expr>)
    requires forall i | 0 <= i < |args| :: args[i] < whole && Tame(env, args[i])
    ensures (forall i | 0 <= i < |args| :: Computes(env, args[i]) && WalkComputes(env, args[i]))
            <==> forall i | 0 <= i < |args| :: ProductsFit(env, args[i])
    decreases whole, 0
  {
    forall i | 0 <= i < |args|
      ensures Computes(env, args[i]) && WalkComputes(env, args[i]) <==> ProductsFit(env, args[i])
    {
      AnalysisComputes(env, args[i]);
      if ProductsFit(env, args[i]) { FitComputes(env, args[i]); }
    }
  }

  /** An equation is analysed without overflow exactly when its products fit. */
  lemma EquationComputes(env: Env, rhs: Expr)
    requires Tame(env, rhs)
    ensures WalkComputes(env, rhs) && Computes(env, rhs) <==> ProductsFit(env, rhs)
  {
    AnalysisComputes(env, rhs);
    if ProductsFit(env, rhs) { FitComputes(env, rhs); }
  }

  /** Some operand of every product stays within signed 64 bits. */
  predicate SomeFactorSigned(env: Env, a: Expr, b: Expr) {
    var x, y := Bounds(env, a), Bounds(env, b);
    x.Some? && y.Some? ==> x.value.hi <= Hi(Int64) || y.value.hi <= Hi(Int64)
  }

  lemma SignedProductFits(env: Env, a: Expr, b: Expr)
    requires Tame(env, a) && Tame(env, b) && SomeFactorSigned(env, a, b)
    ensures ProductFits(env, a, b)
  {
    var x, y := Bounds(env, a), Bounds(env, b);
    if x.Some? && y.Some? {
      TameWide(env, a);
      TameWide(env, b);
      if y.value.hi <= Hi(Int64) {
        SignedFactor(x.value.hi, y.value.hi);
      } else {
        SignedFactor(y.value.hi, x.value.hi);
        Commute(x.value.hi, y.value.hi);
      }
    }
  }

  lemma VariableBounds(env: Env, x: string, t: IntType)
    requires x in env.vars && env.vars[x] == IntTy(t)
    ensures Bounds(env, Var(x)) == Some(RangeOf(t))
  {
    assert TypeOf(env, Var(x), None) == Some(IntTy(t));
  }

  /** A product of two variables is analysed without overflow exactly when they
      are not both unsigned 64-bit. */
  lemma VariableProduct(env: Env, x: string, y: string, s: IntType, t: IntType)
    requires x in env.vars && env.vars[x] == IntTy(s) && y in env.vars && env.vars[y] == IntTy(t)
    ensures WalkComputes(env, Arith(Mul, Var(x), Var(y))) <==> !(s.Uint64? && t.Uint64?)
  {
    var e := Arith(Mul, Var(x), Var(y));
    VariableBounds(env, x, s);
    VariableBounds(env, y, t);
    RangeWide(s);
    RangeWide(t);
    StepComputesWhen(Mul, RangeOf(s), RangeOf(t));
    assert Subject(e) == e;
    assert Computes(env, Var(x)) && Computes(env, Var(y)) && WalkComputes(env, Var(x)) && WalkComputes(env, Var(y));
    if s.Uint64? && t.Uint64? {
    } else if t.Uint64? {
      SignedFactor(Hi(t), Hi(s));
      Commute(Hi(s), Hi(t));
    } else {
      SignedFactor(Hi(s), Hi(t));
    }
  }

  /** Firm operations are needed: in `x + 2*x * (2*x)` with `x` of 64 bits the
      products have no type of their own, so nothing cuts their intervals, and
      the corner of the outer one does not fit, though nothing is unsigned. */
  lemma UnhintedProductOverflows(env: Env)
    requires "x" in env.vars && env.vars["x"] == IntTy(Int64)
    ensures
      var double := Arith(Mul, Lit(2), Var("x"));
      var e := Arith(Add, Var("x"), Arith(Mul, double, double));
      IntTypeOf(env, e) == Some(Int64) && IntTypeOf(env, double) == None && !Computes(env, e) && !WalkComputes(env, e)
  {
    var x := Var("x");
    var double := Arith(Mul, Lit(2), x);
    var square := Arith(Mul, double, double);
    var e := Arith(Add, x, square);
    assert TypeOf(env, x, None) == Some(IntTy(Int64)) && TypeOf(env, Lit(2), None) == Some(IntTy(Int32));
    assert TypeOf(env, double, None) == None;
    assert Bounds(env, x) == Some(RangeOf(Int64)) && Bounds(env, Lit(2)) == Some(Interval(2, 2));
    var wide := Interval(2 * Lo(Int64), 2 * Hi(Int64));
    assert Bounds(env, double) == Some(wide);
    assert !StepComputes(Mul, wide, wide);
    assert TypeOf(env, double, Some(IntTy(Int64))) == Some(IntTy(Int64));
    assert TypeOf(env, square, Some(IntTy(Int64))) == Some(IntTy(Int64));
    assert Subject(e) == e;
  }
}
