/** The constant folder for complex trees (src/parse_expr.c:140-253) against the code
    compiled for the same trees (src/codegen_addr.c:1287-1482). */
module ComplexFold {
  import opened ComplexGen
  import Align
  import opened Binary

  /** eval_complex: every operation in double, each node of element type float rounded
      once at its end. */
  function Fold<F>(p: Fpu<F>, env: Env<F>, e: Expr): Complex<F> {
    match e
    case Real(leaf, _) => Complex(env.flt(leaf), p.fromInt(Double, 0))
    case Make(re, im, w) => RoundTo(p, w, Complex(env.flt(re), env.flt(im)))
    case Load(a, w) => RoundTo(p, w, Complex(env.load(w, a), env.load(w, a + PartSize(w))))
    case Conj(x, w) => var z := Fold(p, env, x); RoundTo(p, w, Complex(z.re, p.neg(Double, z.im)))
    case Neg(x, w) => var z := Fold(p, env, x); RoundTo(p, w, Complex(p.neg(Double, z.re), p.neg(Double, z.im)))
    case CastComplex(x, w) => RoundTo(p, w, Fold(p, env, x))
    case CastReal(leaf, kind, w) => RoundTo(p, w, Complex(CastValue(p, env, leaf, kind, Double), p.fromInt(Double, 0)))
    case Bin(op, l, r, w) => RoundTo(p, w, ComplexOp(p, Double, op, Fold(p, env, l), Fold(p, env, r)))
  }

  /** What IEEE arithmetic adds: on floats, one addition, subtraction or negation in
      double followed by a narrowing is the operation in float. */
  ghost predicate Narrows<F(!new)>(p: Fpu<F>) {
    && (forall x, y :: p.round(x) == x && p.round(y) == y ==>
      p.bin(Single, Add, x, y) == p.round(p.bin(Double, Add, x, y)))
    && (forall x, y :: p.round(x) == x && p.round(y) == y ==>
      p.bin(Single, Sub, x, y) == p.round(p.bin(Double, Sub, x, y)))
    && (forall x :: p.round(x) == x ==> p.neg(Single, x) == p.neg(Double, x) == p.round(p.neg(Double, x)))
    && p.round(p.fromInt(Double, 0)) == p.fromInt(Double, 0)
  }

  // ---------- typed trees ----------

  /** x is a value of width w. */
  ghost predicate Holds<F>(p: Fpu<F>, w: Width, x: F) {
    w.Single? ==> p.round(x) == x
  }

  ghost predicate HoldsBoth<F>(p: Fpu<F>, w: Width, z: Complex<F>) {
    Holds(p, w, z.re) && Holds(p, w, z.im)
  }

  /** What add_type leaves (src/type.c:1290-1347): operands converted to the type of
      their node, leaves and memory holding values of their own type. */
  ghost predicate WellTyped<F>(p: Fpu<F>, env: Env<F>, e: Expr) {
    match e
    case Real(leaf, w) => Holds(p, w, env.flt(leaf))
    case Make(re, im, w) => Holds(p, w, env.flt(re)) && Holds(p, w, env.flt(im))
    case Load(a, w) => Holds(p, w, env.load(w, a)) && Holds(p, w, env.load(w, a + PartSize(w)))
    case Conj(x, w) => x.w == w && WellTyped(p, env, x)
    case Neg(x, w) => x.w == w && WellTyped(p, env, x)
    case CastComplex(x, _) => WellTyped(p, env, x)
    case CastReal(_, _, _) => true
    case Bin(_, l, r, w) => l.w == r.w == w && WellTyped(p, env, l) && WellTyped(p, env, r)
  }

  /** A node that rounds once in the folder and once in the code: not a product or
      quotient of floats, not an integer converted to float. */
  predicate OpAgrees(op: Op, w: Width) {
    w.Double? || op.Add? || op.Sub?
  }

  predicate CastAgrees(kind: Kind, w: Width) {
    w.Double? || kind.Floating?
  }

  predicate RoundsOnce(e: Expr) {
    match e
    case Conj(x, _) => RoundsOnce(x)
    case Neg(x, _) => RoundsOnce(x)
    case CastComplex(x, _) => RoundsOnce(x)
    case CastReal(_, kind, w) => CastAgrees(kind, w)
    case Bin(op, l, r, w) => OpAgrees(op, w) && RoundsOnce(l) && RoundsOnce(r)
    case _ => true
  }

  lemma NodeAgrees<F(!new)>(p: Fpu<F>, op: Op, w: Width, x: Complex<F>, y: Complex<F>)
    requires Lawful(p) && Narrows(p) && OpAgrees(op, w) && HoldsBoth(p, w, x) && HoldsBoth(p, w, y)
    ensures RoundTo(p, w, ComplexOp(p, Double, op, x, y)) == RoundTo(p, w, ComplexOp(p, w, op, x, y))
    ensures HoldsBoth(p, w, RoundTo(p, w, ComplexOp(p, w, op, x, y)))
  {
  }

  /** Every well-typed tree without such a node folds to its value. */
  lemma {:induction false} FoldIsEval<F(!new)>(p: Fpu<F>, env: Env<F>, e: Expr)
    requires Lawful(p) && Narrows(p) && WellTyped(p, env, e) && RoundsOnce(e)
    ensures Fold(p, env, e) == Eval(p, env, e) && HoldsBoth(p, e.w, Eval(p, env, e))
  {
    match e
    case Conj(x, _) => FoldIsEval(p, env, x);
    case Neg(x, _) => FoldIsEval(p, env, x);
    case CastComplex(x, _) => FoldIsEval(p, env, x);
    case Bin(op, l, r, w) =>
      FoldIsEval(p, env, l);
      FoldIsEval(p, env, r);
      NodeAgrees(p, op, w, Eval(p, env, l), Eval(p, env, r));
    case _ =>
  }

  /** ... which is what its compiled code computes. */
  lemma FoldAgrees<F(!new)>(p: Fpu<F>, env: Env<F>, e: Expr, rr: Reg, ri: Reg, used: set<Reg>, m: Machine<F>)
    requires Lawful(p) && Narrows(p) && WellTyped(p, env, e) && RoundsOnce(e)
    requires Ok(m) && rr != ri && rr != ZeroReg && Gen(e, rr, ri, used).Some?
    ensures Leaves(Run(p, env, Gen(e, rr, ri, used).value.0, m), rr, ri, Fold(p, env, e))
  {
    FoldIsEval(p, env, e);
    GenCorrect(p, env, e, rr, ri, used, m);
  }

  // ---------- on whole numbers, in the host's formats ----------

  function Bits(w: Width): (m: nat)
    ensures Format(m)
  {
    if w.Single? then Bits24 else Bits53
  }

  /** The result before rounding; a quotient counts only where it is whole. */
  function Exact(op: Op, x: int, y: int): int {
    match op
    case Add => x + y
    case Sub => x - y
    case Mul => x * y
    case Div => if y == 0 then 0 else x / y
  }

  function BinRound(w: Width, op: Op, x: int, y: int): int {
    Round(Bits(w), Exact(op, x, y))
  }

  /** float and double on whole numbers: each operation exact, then rounded. */
  function Ieee(): Fpu<int> {
    Fpu((w, op, x, y) => BinRound(w, op, x, y), (w, x) => -x, x => Round(Bits24, x),
        (w, n) => Round(Bits(w), n), (w, n) => Round(Bits(w), n),
        (w: Width, x) => if w.Single? then Round(Bits24, x) else x, (w, n) => n)
  }

  lemma RoundStays(m: nat, x: int)
    requires Format(m)
    ensures Round(m, Round(m, x)) == Round(m, x)
  {
    RoundFits(m, x);
    FitsRounds(m, Round(m, x));
  }

  lemma RoundedFits(m: nat, x: int)
    requires Format(m) && Round(m, x) == x
    ensures Fits(m, x) && Fits(m, -x)
  {
    RoundFits(m, x);
    RoundNegates(m, x);
    RoundFits(m, -x);
  }

  lemma AddNarrows(x: int, y: int)
    requires Round(Bits24, x) == x && Round(Bits24, y) == y
    ensures BinRound(Single, Add, x, y) == Round(Bits24, BinRound(Double, Add, x, y))
    ensures BinRound(Single, Sub, x, y) == Round(Bits24, BinRound(Double, Sub, x, y))
  {
    RoundedFits(Bits24, x);
    RoundedFits(Bits24, y);
    SumNarrows(x, y);
    SumNarrows(x, -y);
  }

  /** The formats obey the laws: an addition of floats carried out in double and
      narrowed is the addition in float, although it rounds twice. */
  lemma IeeeLaws()
    ensures Lawful(Ieee()) && Narrows(Ieee())
  {
    var p := Ieee();
    forall x ensures p.round(p.round(x)) == p.round(x) {
      RoundStays(Bits24, x);
    }
    forall x, y | p.round(x) == x && p.round(y) == y
      ensures p.bin(Single, Add, x, y) == p.round(p.bin(Double, Add, x, y))
      ensures p.bin(Single, Sub, x, y) == p.round(p.bin(Double, Sub, x, y))
    {
      AddNarrows(x, y);
    }
    forall x | p.round(x) == x
      ensures p.neg(Single, x) == p.neg(Double, x) == p.round(p.neg(Double, x))
    {
      RoundNegates(Bits24, x);
    }
    SmallFits(Bits53, 0);
    FitsRounds(Bits53, 0);
    SmallFits(Bits24, 0);
    FitsRounds(Bits24, 0);
  }

  /** A value of one format by its quotient and remainder. */
  lemma RoundsTo(m: nat, n: nat, y: nat, q: nat, r: nat)
    requires Format(m) && n == q * Spacing(m, y) + r && r < Spacing(m, y)
    requires var s := Spacing(m, y); n < m * s && (s == 1 || m * s <= 2 * n)
    ensures Round(m, n) == Up(q, r, Spacing(m, y))
  {
    SpacingIs(m, n, y);
    NearestAt(n, Spacing(m, y), q, r);
  }

  lemma Whole(n: int)
    requires Abs(n) < Bits24
    ensures Round(Bits24, n) == n && Round(Bits53, n) == n
  {
    SmallFits(Bits24, n);
    FitsRounds(Bits24, n);
    SmallFits(Bits53, n);
    FitsRounds(Bits53, n);
  }

  lemma Wide(n: int)
    requires Abs(n) < Bits53
    ensures Round(Bits53, n) == n
  {
    SmallFits(Bits53, n);
    FitsRounds(Bits53, n);
  }

  // ---------- where the folder and the code part ----------

  /** A tree of one operator over two constructed operands. */
  function Apply(op: Op, w: Width): Expr {
    Bin(op, Make(0, 1, w), Make(2, 3, w), w)
  }

  function Operands(x: Complex<int>, y: Complex<int>): Env<int> {
    Env((i: nat) => if i == 0 then x.re else if i == 1 then x.im else if i == 2 then y.re else y.im,
        (i: nat) => 0, (v: Width, a: int) => 0)
  }

  /** The folder and the code agree on x op y. */
  ghost predicate SameResult(op: Op, w: Width, x: Complex<int>, y: Complex<int>) {
    Fold(Ieee(), Operands(x, y), Apply(op, w)) == Eval(Ieee(), Operands(x, y), Apply(op, w))
  }

  lemma ApplyIs(op: Op, w: Width, x: Complex<int>, y: Complex<int>)
    requires HoldsBoth(Ieee(), w, x) && HoldsBoth(Ieee(), w, y)
    ensures WellTyped(Ieee(), Operands(x, y), Apply(op, w)) && (RoundsOnce(Apply(op, w)) <==> OpAgrees(op, w))
    ensures Fold(Ieee(), Operands(x, y), Apply(op, w)) == RoundTo(Ieee(), w, ComplexOp(Ieee(), Double, op, x, y))
    ensures Eval(Ieee(), Operands(x, y), Apply(op, w)) == RoundTo(Ieee(), w, ComplexOp(Ieee(), w, op, x, y))
  {
    var p, env, e := Ieee(), Operands(x, y), Apply(op, w);
    assert Fold(p, env, e.l) == x && Fold(p, env, e.r) == y;
    assert Eval(p, env, e.l) == x && Eval(p, env, e.r) == y;
  }

  /** (4097 + 4096i) squared folds to the real part 8193 and computes 8192. */
  lemma SquareDiffers()
    ensures var z := Complex(4097, 4096);
      HoldsBoth(Ieee(), Single, z) && RoundTo(Ieee(), Single, ComplexOp(Ieee(), Double, Mul, z, z)).re == 8193
      && RoundTo(Ieee(), Single, ComplexOp(Ieee(), Single, Mul, z, z)).re == 8192
  {
    assert Round(0x100_0000, 16785409) == 16785408;
    assert Round(0x100_0000, 16777216) == 16777216;
    Whole(4097);
    Whole(4096);
    Whole(8193);
    Whole(8192);
    Wide(16785409);
    Wide(16777216);
  }

  lemma ArithIs(w: Width, op: Op, x: int, y: int, v: int)
    requires Holds(Ieee(), w, x) && Holds(Ieee(), w, y) && BinRound(w, op, x, y) == v
    ensures Arith(Ieee(), w, op, x, y) == v && Holds(Ieee(), w, v)
  {
    RoundStays(Bits(w), Exact(op, x, y));
  }

  /** The real part of a quotient, step by step. */
  lemma QuotientIs(w: Width, x: Complex<int>, y: Complex<int>, d0: int, d1: int, d: int, n0: int, n1: int, n: int)
    requires HoldsBoth(Ieee(), w, x) && HoldsBoth(Ieee(), w, y)
    requires BinRound(w, Mul, y.re, y.re) == d0 && BinRound(w, Mul, y.im, y.im) == d1 && BinRound(w, Add, d0, d1) == d
    requires BinRound(w, Mul, x.re, y.re) == n0 && BinRound(w, Mul, x.im, y.im) == n1 && BinRound(w, Add, n0, n1) == n
    ensures ComplexOp(Ieee(), w, Div, x, y).re == BinRound(w, Div, n, d)
  {
    ArithIs(w, Mul, y.re, y.re, d0);
    ArithIs(w, Mul, y.im, y.im, d1);
    ArithIs(w, Add, d0, d1, d);
    ArithIs(w, Mul, x.re, y.re, n0);
    ArithIs(w, Mul, x.im, y.im, n1);
    ArithIs(w, Add, n0, n1, n);
    ArithIs(w, Div, n, d, BinRound(w, Div, n, d));
  }

  /** (47884932 + 8066714i) / (3 + i) folds to the real part 15172151 and computes
      15172152, every quotient being whole. */
  lemma QuotientDiffers()
    ensures var x, y := Complex(47884932, 8066714), Complex(3, 1);
      HoldsBoth(Ieee(), Single, x) && HoldsBoth(Ieee(), Single, y)
      && RoundTo(Ieee(), Single, ComplexOp(Ieee(), Double, Div, x, y)).re == 15172151
      && RoundTo(Ieee(), Single, ComplexOp(Ieee(), Single, Div, x, y)).re == 15172152
  {
    assert Round(0x100_0000, 47884932) == 47884932;
    Whole(8066714);
    Whole(3);
    Whole(1);
    Whole(15172151);
    Whole(15172152);
    var x, y := Complex(47884932, 8066714), Complex(3, 1);
    DoubleSteps();
    QuotientIs(Double, x, y, 9, 1, 10, 143654796, 8066714, 151721510);
    SingleSteps();
    QuotientIs(Single, x, y, 9, 1, 10, 143654800, 8066714, 151721520);
  }

  lemma DoubleSteps()
    ensures BinRound(Double, Mul, 3, 3) == 9 && BinRound(Double, Mul, 1, 1) == 1 && BinRound(Double, Add, 9, 1) == 10
    ensures BinRound(Double, Mul, 47884932, 3) == 143654796 && BinRound(Double, Mul, 8066714, 1) == 8066714
    ensures BinRound(Double, Add, 143654796, 8066714) == 151721510 && BinRound(Double, Div, 151721510, 10) == 15172151
  {
    Wide(9);
    Wide(1);
    Wide(10);
    Wide(143654796);
    Wide(8066714);
    Wide(151721510);
    Wide(15172151);
  }

  lemma SingleSteps()
    ensures BinRound(Single, Mul, 3, 3) == 9 && BinRound(Single, Mul, 1, 1) == 1 && BinRound(Single, Add, 9, 1) == 10
    ensures BinRound(Single, Mul, 47884932, 3) == 143654800 && BinRound(Single, Mul, 8066714, 1) == 8066714
    ensures BinRound(Single, Add, 143654800, 8066714) == 151721520 && BinRound(Single, Div, 151721520, 10) == 15172152
  {
    Whole(9);
    Whole(1);
    Whole(10);
    assert Round(0x100_0000, 143654796) == 143654800;
    Whole(8066714);
    assert Round(0x100_0000, 151721514) == 151721520;
    Whole(15172152);
  }

  function Pow2(k: nat): (n: nat)
    ensures n >= 1
  {
    if k == 0 then 1 else 2 * Pow2(k - 1)
  }

  lemma {:induction false} SpacingAtPower(m: nat, k: nat)
    requires Format(m)
    ensures Spacing(m, m * Pow2(k)) == 2 * Pow2(k)
  {
    if k == 0 {
      assert m * Pow2(0) == m;
    } else {
      Twice(m, Pow2(k - 1));
      Ordered(1, Pow2(k), m);
      SpacingAtPower(m, k - 1);
    }
  }

  lemma FiveMore(k: nat)
    ensures Pow2(k + 5) == 32 * Pow2(k)
  {
    assert Pow2(k + 1) == 2 * Pow2(k);
    assert Pow2(k + 2) == 2 * Pow2(k + 1);
    assert Pow2(k + 3) == 2 * Pow2(k + 2);
    assert Pow2(k + 4) == 2 * Pow2(k + 3);
    assert Pow2(k + 5) == 2 * Pow2(k + 4);
  }

  lemma PowerOf29()
    ensures Pow2(29) == 0x2000_0000
  {
    FiveMore(24);
    FiveMore(19);
    FiveMore(14);
    FiveMore(9);
    FiveMore(4);
    assert Pow2(4) == 16;
  }

  /** The integer 2^53 + 2^29 + 1 folds to 2^53 and converts to 2^53 + 2^30. */
  lemma ConversionDiffers()
    ensures var n := 0x20_0000_2000_0001;
      Round(Bits24, Round(Bits53, n)) == 0x20_0000_0000_0000 && Round(Bits24, n) == 0x20_0000_4000_0000
  {
    var n := 0x20_0000_2000_0001;
    FloatSpacing();
    RoundsTo(Bits24, n, Bits53, 0x80_0000, 0x2000_0001);
    RoundsTo(Bits24, n - 1, Bits53, 0x80_0000, 0x2000_0000);
    DoubleDrops();
  }

  lemma FloatSpacing()
    ensures Spacing(Bits24, Bits53) == 0x4000_0000
  {
    SpacingAtPower(Bits24, 29);
    PowerOf29();
  }

  lemma DoubleDrops()
    ensures Round(Bits53, 0x20_0000_2000_0001) == 0x20_0000_2000_0000
  {
    assert Spacing(0x20_0000_0000_0000, 0x20_0000_2000_0001) == 2;
    NearestAt(0x20_0000_2000_0001, 2, 0x10_0000_1000_0000, 1);
  }

  /** Exactly which operators fold to what their code computes, on all operands of
      their type. */
  lemma OperatorAgreesExactly(op: Op, w: Width)
    ensures OpAgrees(op, w)
      <==> forall x, y :: HoldsBoth(Ieee(), w, x) && HoldsBoth(Ieee(), w, y) ==> SameResult(op, w, x, y)
  {
    if OpAgrees(op, w) {
      IeeeLaws();
      forall x, y | HoldsBoth(Ieee(), w, x) && HoldsBoth(Ieee(), w, y) ensures SameResult(op, w, x, y) {
        ApplyIs(op, w, x, y);
        NodeAgrees(Ieee(), op, w, x, y);
      }
    } else {
      OperatorDiffers(op);
    }
  }

  lemma OperatorDiffers(op: Op)
    requires op.Mul? || op.Div?
    ensures exists x, y :: HoldsBoth(Ieee(), Single, x) && HoldsBoth(Ieee(), Single, y) && !SameResult(op, Single, x, y)
  {
    var x := if op.Mul? then Complex(4097, 4096) else Complex(47884932, 8066714);
    var y := if op.Mul? then x else Complex(3, 1);
    if op.Mul? { SquareDiffers(); } else { QuotientDiffers(); }
    ApplyIs(op, Single, x, y);
    assert !SameResult(op, Single, x, y);
  }

  /** A leaf converted to width w, in the folder and in the code. */
  ghost predicate SameConversion(kind: Kind, w: Width, n: int) {
    Fold(Ieee(), Constant(n), CastReal(0, kind, w)) == Eval(Ieee(), Constant(n), CastReal(0, kind, w))
  }

  function Constant(n: int): Env<int> {
    Env((i: nat) => n, (i: nat) => n, (v: Width, a: int) => 0)
  }

  lemma IntegerDiffers(kind: Kind)
    requires !kind.Floating?
    ensures !SameConversion(kind, Single, 0x20_0000_2000_0001)
  {
    var n := 0x20_0000_2000_0001;
    ConversionDiffers();
    RoundStays(Bits24, n);
    assert Fold(Ieee(), Constant(n), CastReal(0, kind, Single)).re == Round(Bits24, Round(Bits53, n));
    assert Eval(Ieee(), Constant(n), CastReal(0, kind, Single)).re == Round(Bits24, n);
  }

  /** Exactly which conversions agree on all operands. */
  lemma ConversionAgreesExactly(kind: Kind, w: Width)
    ensures CastAgrees(kind, w) <==> forall n :: SameConversion(kind, w, n)
  {
    if !CastAgrees(kind, w) { IntegerDiffers(kind); }
  }

  // ---------- without rounding ----------

  /** Arithmetic that never rounds; only its operations matter. */
  function Unrounded(): Fpu<int> {
    Fpu((w, op, x, y) => Exact(op, x, y), (w, x) => -x, x => x, (w, n) => n, (w, n) => n, (w, x) => x, (w, n) => n)
  }

  function Op2(op: Op, x: Complex<int>, y: Complex<int>): Complex<int> {
    ComplexOp(Unrounded(), Double, op, x, y)
  }

  lemma ProductParts(x: Complex<int>, y: Complex<int>)
    ensures Op2(Mul, x, y) == Complex(x.re * y.re - x.im * y.im, x.re * y.im + x.im * y.re)
  {
  }

  /** The product is the complex product: i is a square root of -1, real factors scale, and
      it commutes and distributes. */
  lemma ProductLaws(x: Complex<int>, y: Complex<int>, z: Complex<int>, r: int)
    ensures Op2(Mul, Complex(0, 1), Complex(0, 1)) == Complex(-1, 0)
    ensures Op2(Mul, Complex(r, 0), x) == Complex(r * x.re, r * x.im)
    ensures Op2(Mul, x, y) == Op2(Mul, y, x)
    ensures Op2(Mul, x, Op2(Add, y, z)) == Op2(Add, Op2(Mul, x, y), Op2(Mul, x, z))
  {
    ProductParts(Complex(r, 0), x);
    ProductParts(x, y);
    ProductParts(x, z);
    ProductParts(y, x);
    var s := Op2(Add, y, z);
    ProductParts(x, s);
    Distributes(x.re, x.im, y.re, y.im, z.re, z.im, s.re, s.im);
  }

  lemma Distributes(a: int, b: int, c: int, d: int, e: int, f: int, g: int, h: int)
    requires g == c + e && h == d + f
    ensures a * g - b * h == (a * c - b * d) + (a * e - b * f)
    ensures a * h + b * g == (a * d + b * c) + (a * f + b * e)
  {
    assert a * g == a * c + a * e;
    assert b * h == b * d + b * f;
    assert a * h == a * d + a * f;
    assert b * g == b * c + b * e;
  }

  lemma QuotientParts(x: Complex<int>, y: Complex<int>, n: int, u: int, v: int)
    requires n == y.re * y.re + y.im * y.im && n != 0
    requires u == x.re * y.re + x.im * y.im && v == x.im * y.re - x.re * y.im
    ensures Op2(Div, x, y) == Complex(u / n, v / n)
  {
  }

  /** Sums and differences undo each other, and so do products and quotients. */
  lemma QuotientLaw(x: Complex<int>, y: Complex<int>)
    requires y.re != 0 || y.im != 0
    ensures Op2(Sub, Op2(Add, x, y), y) == x && Op2(Div, Op2(Mul, x, y), y) == x
  {
    var n := Norm(y.re, y.im);
    var z := Op2(Mul, x, y);
    ProductParts(x, y);
    var u, v := z.re * y.re + z.im * y.im, z.im * y.re - z.re * y.im;
    Cancel(x.re, x.im, y.re, y.im, n, z.re, z.im, u, v);
    QuotientParts(z, y, n, u, v);
    Align.DivUnique(u, n, x.re, 0);
    Align.DivUnique(v, n, x.im, 0);
  }

  lemma Norm(c: int, d: int) returns (n: int)
    requires c != 0 || d != 0
    ensures n == c * c + d * d && n > 0
  {
    n := c * c + d * d;
    assert c * c >= 0 && d * d >= 0;
    assert c != 0 ==> c * c > 0;
    assert d != 0 ==> d * d > 0;
  }

  /** A product times the conjugate of one factor is the norm times the other. */
  lemma Cancel(a: int, b: int, c: int, d: int, n: int, p: int, q: int, u: int, v: int)
    requires n == c * c + d * d && p == a * c - b * d && q == a * d + b * c
    requires u == p * c + q * d && v == q * c - p * d
    ensures u == n * a && v == n * b
  {
    assert p * c == a * (c * c) - b * (d * c) && q * d == a * (d * d) + b * (c * d);
    assert q * c == a * (d * c) + b * (c * c) && p * d == a * (c * d) - b * (d * d);
    assert n * a == a * (c * c) + a * (d * d) && n * b == b * (c * c) + b * (d * d);
    assert c * d == d * c;
  }
}
