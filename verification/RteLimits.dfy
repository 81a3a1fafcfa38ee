/** Where the runtime-error checks are not enough: expressions that owe the type
    of an operation or of a narrow store to their context. */
module RteLimits {
  import opened Options
  import opened CIntegers
  import opened Intervals
  import opened Rte
  import opened RteSound
  import opened COperators

  /** `n = 0 -> pre n + 1` over an 8-bit `n`: hinted by its variable, the sum
      types; by itself it does not, so neither the operation nor the store is
      checked. What C stores is right exactly while the counter has not reached
      its type's end. */
  lemma NarrowCounterUnchecked(env: Env, s: State)
    requires "n" in env.vars && env.vars["n"] == IntTy(Int8) && In(s.memory(Var("n")), Int8)
    ensures
      var rhs := Arrow(Lit(0), Arith(Add, Pre(Var("n")), Lit(1)));
      && TypeOf(env, rhs, Some(IntTy(Int8))) == Some(IntTy(Int8)) && TypeOf(env, rhs, None) == None
      && SteadyAt(env, rhs, IntTy(Int8)) && !StoreSeen(env, rhs, IntTy(Int8))
      && EquationChecks(env, "n", rhs) == []
      && (Wrap(Int8, Math(rhs, s)) == Math(rhs, s) <==> s.first || s.memory(Var("n")) < Hi(Int8))
  {
    var rhs := Arrow(Lit(0), Arith(Add, Pre(Var("n")), Lit(1)));
    var sum := Arith(Add, Pre(Var("n")), Lit(1));
    CounterTypes(env, sum, rhs);
    CounterChecks(env, sum);
    assert SteadyAt(env, Pre(Var("n")), IntTy(Int8)) && SteadyAt(env, Lit(1), IntTy(Int8));
    assert SteadyAt(env, sum, IntTy(Int8));
    assert Math(Pre(Var("n")), s) == s.memory(Var("n"));
    assert Math(sum, s) == s.memory(Var("n")) + 1;
    assert Math(rhs, s) == if s.first then 0 else Math(sum, s);
    assert IntTypeOf(env, rhs) == None;
    assert Walk(env, Lit(0), [Guard(FirstCycle(), false)]) == [];
    assert [] + [Guard(FirstCycle(), false)] == [Guard(FirstCycle(), false)];
    assert |Walk(env, sum, [] + [Guard(Not(FirstCycle()), false)])| == 0;
    WrapIsConversion(Int8, Math(rhs, s));
    if s.first || s.memory(Var("n")) < Hi(Int8) { WrapKeeps(Int8, Math(rhs, s)); }
  }

  lemma CounterTypes(env: Env, sum: Expr, rhs: Expr)
    requires "n" in env.vars && env.vars["n"] == IntTy(Int8)
    requires sum == Arith(Add, Pre(Var("n")), Lit(1)) && rhs == Arrow(Lit(0), sum)
    ensures forall hint: Option<Ty> :: TypeOf(env, sum, hint) == Some(IntTy(Int8))
    ensures TypeOf(env, rhs, Some(IntTy(Int8))) == Some(IntTy(Int8)) && TypeOf(env, rhs, None) == None
  {
    forall hint: Option<Ty> ensures TypeOf(env, sum, hint) == Some(IntTy(Int8)) {
      assert TypeOf(env, Var("n"), hint) == Some(IntTy(Int8));
      assert TypeOf(env, Pre(Var("n")), hint) == Some(IntTy(Int8));
    }
  }

  lemma CounterChecks(env: Env, sum: Expr)
    requires "n" in env.vars && env.vars["n"] == IntTy(Int8)
    requires sum == Arith(Add, Pre(Var("n")), Lit(1)) && TypeOf(env, sum, None) == Some(IntTy(Int8))
    ensures forall guards: seq<Guard> :: |Walk(env, sum, guards)| == 0
  {
    assert TypeOf(env, Var("n"), None) == Some(IntTy(Int8));
    assert Bounds(env, Var("n")) == Some(RangeOf(Int8));
    assert Bounds(env, Pre(Var("n"))) == Some(RangeOf(Int8));
    assert RawBounds(env, sum) == Some(AddBounds(RangeOf(Int8), Interval(1, 1)));
    forall guards: seq<Guard> ensures |Walk(env, sum, guards)| == 0 {
      assert Walk(env, Pre(Var("n")), guards) == [];
    }
  }

  lemma ProductInC(env: Env, c: nat, s: State)
    requires "x" in env.vars && env.vars["x"] == IntTy(Int64) && In(c, Int32) && In(s.vars("x"), Int64)
    ensures var e := Arith(Mul, Lit(c), Var("x")); CEval(env, e, s) == Some(Math(e, s)) <==> In(c * s.vars("x"), Int64)
  {
    var e := Arith(Mul, Lit(c), Var("x"));
    WrapKeeps(Int64, c);
    WrapKeeps(Int64, s.vars("x"));
    assert CType(env, e) == Int64;
    assert CEval(env, e, s) == Representable(Int64, c * s.vars("x"));
    if In(c * s.vars("x"), Int64) { WrapKeeps(Int64, c * s.vars("x")); }
  }

  lemma ProductUntyped(env: Env, c: nat)
    requires "x" in env.vars && env.vars["x"] == IntTy(Int64) && In(c, Int32)
    ensures
      var e := Arith(Mul, Lit(c), Var("x"));
      && TypeOf(env, e, Some(IntTy(Int64))) == Some(IntTy(Int64)) && TypeOf(env, e, None) == None
      && !SteadyAt(env, e, IntTy(Int64)) && Walk(env, e, []) == []
  {
  }

  /** `c * x` with the literal first, over a 64-bit `x`: the literal's own type
      differs from the operand's, so the product does not type without a hint
      and is not checked. It is safe for every `x` exactly when `c` is at most 1. */
  lemma UntypedProductUnchecked(env: Env, c: nat)
    requires "x" in env.vars && env.vars["x"] == IntTy(Int64) && In(c, Int32)
    ensures
      var e := Arith(Mul, Lit(c), Var("x"));
      && TypeOf(env, e, Some(IntTy(Int64))) == Some(IntTy(Int64)) && TypeOf(env, e, None) == None
      && !SteadyAt(env, e, IntTy(Int64)) && Walk(env, e, []) == []
      && ((forall s: State | In(s.vars("x"), Int64) :: CEval(env, e, s) == Some(Math(e, s))) <==> c <= 1)
  {
    var e := Arith(Mul, Lit(c), Var("x"));
    ProductUntyped(env, c);
    hide Walk, TypeOf, SteadyAt, CEval, Math;
    forall s: State | In(s.vars("x"), Int64)
      ensures CEval(env, e, s) == Some(Math(e, s)) <==> In(c * s.vars("x"), Int64)
    {
      ProductInC(env, c, s);
    }
    if c >= 2 {
      var s := State(x => Hi(Int64), (x, i) => 0, true, a => 0, (n, vs) => 0, n => 0);
      MulMonotone(2, c, Hi(Int64));
      assert !In(c * s.vars("x"), Int64);
    }
  }

  /** `x < 1 - 2` over an unsigned 64-bit `x`: hinted by `x` the literals count as
      unsigned, so the comparison types, and comparisons are never checked. C
      converts -1 to the largest value of the type; the integers do not. */
  lemma HintedComparisonDiffers(env: Env, s: State)
    requires "x" in env.vars && env.vars["x"] == IntTy(Uint64) && In(s.vars("x"), Uint64)
    ensures
      var e := Compare(Lt, Var("x"), Arith(Sub, Lit(1), Lit(2)));
      && TypeOf(env, e, None) == Some(BoolTy) && Walk(env, e, []) == []
      && !SteadyAt(env, e, BoolTy) && Math(e, s) == 0
      && (CEval(env, e, s) == Some(0) <==> s.vars("x") == Hi(Uint64))
  {
    var minus := Arith(Sub, Lit(1), Lit(2));
    var e := Compare(Lt, Var("x"), minus);
    ConstantDifference(env, minus, s);
    HintedTypes(env, minus);
    ComparisonValues(env, minus, s);
    assert Walk(env, Var("x"), []) == [];
  }

  lemma HintedTypes(env: Env, minus: Expr)
    requires "x" in env.vars && env.vars["x"] == IntTy(Uint64) && minus == Arith(Sub, Lit(1), Lit(2))
    ensures TypeOf(env, Compare(Lt, Var("x"), minus), None) == Some(BoolTy)
    ensures !SteadyAt(env, Compare(Lt, Var("x"), minus), BoolTy)
  {
    assert TypeOf(env, Var("x"), None) == Some(IntTy(Uint64));
    assert TypeOf(env, minus, Some(IntTy(Uint64))) == Some(IntTy(Uint64));
    assert TypeOf(env, Lit(1), None) == Some(IntTy(Int32)) && TypeOf(env, Lit(2), Some(IntTy(Int32))) == Some(IntTy(Int32));
    assert TypeOf(env, minus, None) == Some(IntTy(Int32));
  }

  lemma ComparisonInC(env: Env, op: CompareOp, a: Expr, b: Expr, s: State)
    requires CEval(env, a, s).Some? && CEval(env, b, s).Some?
    ensures
      var w := Usual(Promoted(CType(env, a)), Promoted(CType(env, b)));
      CEval(env, Compare(op, a, b), s)
        == Some(CNumber(CompareSymbol(op), Wrap(w, CEval(env, a, s).value), Wrap(w, CEval(env, b, s).value)))
  {
  }

  lemma ComparisonValues(env: Env, minus: Expr, s: State)
    requires "x" in env.vars && env.vars["x"] == IntTy(Uint64) && In(s.vars("x"), Uint64)
    requires Math(minus, s) == -1 && CType(env, minus) == Int32 && CEval(env, minus, s) == Some(-1)
    ensures
      var e := Compare(Lt, Var("x"), minus);
      Math(e, s) == 0 && (CEval(env, e, s) == Some(0) <==> s.vars("x") == Hi(Uint64))
  {
    var e := Compare(Lt, Var("x"), minus);
    WrapKeeps(Uint64, s.vars("x"));
    assert Wrap(Uint64, -1) == Hi(Uint64);
    assert CType(env, Var("x")) == Uint64;
    ComparisonInC(env, Lt, Var("x"), minus, s);
    assert CNumber(Less, s.vars("x"), Hi(Uint64)) == if s.vars("x") == Hi(Uint64) then 0 else 1;
    assert Math(e, s) == ApplyCompare(Lt, s.vars("x"), Math(minus, s));
  }

  lemma ConstantDifference(env: Env, minus: Expr, s: State)
    requires minus == Arith(Sub, Lit(1), Lit(2))
    ensures Walk(env, minus, []) == [] && Math(minus, s) == -1
    ensures CType(env, minus) == Int32 && CEval(env, minus, s) == Some(-1)
  {
    assert TypeOf(env, Lit(1), None) == Some(IntTy(Int32)) && TypeOf(env, Lit(2), Some(IntTy(Int32))) == Some(IntTy(Int32));
    assert TypeOf(env, minus, None) == Some(IntTy(Int32));
    DifferenceBounds(env, minus);
    assert Walk(env, Lit(1), []) == [] && Walk(env, Lit(2), []) == [];
    DifferenceInC(env, minus, s);
  }

  lemma DifferenceBounds(env: Env, minus: Expr)
    requires minus == Arith(Sub, Lit(1), Lit(2))
    ensures RawBounds(env, minus) == Some(Interval(-1, -1))
  {
    assert Bounds(env, Lit(1)) == Some(Interval(1, 1)) && Bounds(env, Lit(2)) == Some(Interval(2, 2));
  }

  lemma DifferenceInC(env: Env, minus: Expr, s: State)
    requires minus == Arith(Sub, Lit(1), Lit(2))
    ensures CType(env, minus) == Int32 && CEval(env, minus, s) == Some(-1)
  {
    assert CType(env, Lit(1)) == Int32 && CType(env, Lit(2)) == Int32;
    assert CEval(env, Lit(1), s) == Some(1) && CEval(env, Lit(2), s) == Some(2);
    WrapKeeps(Int32, 1);
    WrapKeeps(Int32, 2);
    WrapKeeps(Int32, -1);
    assert CArith(Sub, Int32, 1, 2) == Some(-1);
  }
}
