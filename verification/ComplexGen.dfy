/** Compiling complex arithmetic to the register machine
    (src/codegen_addr.c:1241-1482): the generator, the machine it targets, and
    the value every tree must leave in its two registers. */
module ComplexGen {
  import opened Common

  /** The element type of a complex type: float or double. */
  datatype Width = Single | Double
  datatype Op = Add | Sub | Mul | Div

  /** The host's floating point, abstractly. Single operations are given single
      operands; a register always holds a double. */
  datatype Fpu<!F> = Fpu(bin: (Width, Op, F, F) -> F, neg: (Width, F) -> F, round: F -> F,
                         fromInt: (Width, int) -> F, fromNat: (Width, int) -> F,
                         toBits: (Width, F) -> int, fromBits: (Width, int) -> F)

  /** Moving a value to an integer register and back: exact for a double, the
      narrowed value for a float. */
  ghost predicate Lawful<F(!new)>(p: Fpu<F>) {
    && (forall x :: p.fromBits(Double, p.toBits(Double, x)) == x)
    && (forall x :: p.fromBits(Single, p.toBits(Single, x)) == p.round(x))
    && (forall x :: p.round(p.round(x)) == p.round(x))
  }

  /** An operation of width w on registers: single operations narrow on read. */
  function Arith<F>(p: Fpu<F>, w: Width, op: Op, x: F, y: F): F {
    if w.Single? then p.bin(Single, op, p.round(x), p.round(y)) else p.bin(Double, op, x, y)
  }

  function Negate<F>(p: Fpu<F>, w: Width, x: F): F {
    if w.Single? then p.neg(Single, p.round(x)) else p.neg(Double, x)
  }

  // ---------- trees and their values ----------

  /** The kind of a real operand of a cast. */
  datatype Kind = Floating | Signed | Unsigned

  /** A complex-typed tree; a leaf names an operand evaluated by other code. */
  datatype Expr =
    | Real(leaf: nat, w: Width)
    | Make(re: nat, im: nat, w: Width)
    | Load(addr: int, w: Width)
    | Conj(e: Expr, w: Width)
    | Neg(e: Expr, w: Width)
    | CastComplex(e: Expr, w: Width)
    | CastReal(leaf: nat, kind: Kind, w: Width)
    | Bin(op: Op, l: Expr, r: Expr, w: Width)

  /** What leaves evaluate to and what memory holds. */
  datatype Env<!F> = Env(flt: nat -> F, integer: nat -> int, load: (Width, int) -> F)

  datatype Complex<F> = Complex(re: F, im: F)

  /** The bytes of one part: a float has 32 bits, a double 64. */
  function PartSize(w: Width): (n: int)
    ensures 8 * n == if w.Single? then 32 else 64
  {
    if w.Single? then 4 else 8
  }

  function RoundTo<F>(p: Fpu<F>, w: Width, z: Complex<F>): Complex<F> {
    if w.Single? then Complex(p.round(z.re), p.round(z.im)) else z
  }

  /** Textbook complex arithmetic in operations of width w. */
  function ComplexOp<F>(p: Fpu<F>, w: Width, op: Op, x: Complex<F>, y: Complex<F>): Complex<F> {
    match op
    case Add => Complex(Arith(p, w, Add, x.re, y.re), Arith(p, w, Add, x.im, y.im))
    case Sub => Complex(Arith(p, w, Sub, x.re, y.re), Arith(p, w, Sub, x.im, y.im))
    case Mul =>
      Complex(Arith(p, w, Sub, Arith(p, w, Mul, x.re, y.re), Arith(p, w, Mul, x.im, y.im)),
              Arith(p, w, Add, Arith(p, w, Mul, x.re, y.im), Arith(p, w, Mul, x.im, y.re)))
    case Div =>
      var denom := Arith(p, w, Add, Arith(p, w, Mul, y.re, y.re), Arith(p, w, Mul, y.im, y.im));
      Complex(Arith(p, w, Div, Arith(p, w, Add, Arith(p, w, Mul, x.re, y.re), Arith(p, w, Mul, x.im, y.im)), denom),
              Arith(p, w, Div, Arith(p, w, Sub, Arith(p, w, Mul, x.im, y.re), Arith(p, w, Mul, x.re, y.im)), denom))
  }

  function CastValue<F>(p: Fpu<F>, env: Env<F>, leaf: nat, kind: Kind, w: Width): F {
    match kind
    case Floating => env.flt(leaf)
    case Signed => p.fromInt(w, env.integer(leaf))
    case Unsigned => p.fromNat(w, env.integer(leaf))
  }

  /** The value of a tree. */
  function Eval<F>(p: Fpu<F>, env: Env<F>, e: Expr): Complex<F> {
    match e
    case Real(leaf, _) => Complex(env.flt(leaf), p.fromInt(Double, 0))
    case Make(re, im, _) => Complex(env.flt(re), env.flt(im))
    case Load(a, w) => Complex(env.load(w, a), env.load(w, a + PartSize(w)))
    case Conj(x, w) => var z := Eval(p, env, x); Complex(z.re, Negate(p, w, z.im))
    case Neg(x, w) => var z := Eval(p, env, x); Complex(Negate(p, w, z.re), Negate(p, w, z.im))
    case CastComplex(x, w) => RoundTo(p, w, Eval(p, env, x))
    case CastReal(leaf, kind, w) => RoundTo(p, w, Complex(CastValue(p, env, leaf, kind, w), p.fromInt(Double, 0)))
    case Bin(op, l, r, w) => RoundTo(p, w, ComplexOp(p, w, op, Eval(p, env, l), Eval(p, env, r)))
  }

  // ---------- the machine ----------

  /** Integer and float registers share their numbers; 0 is the zero register. */
  type Reg = r: nat | r < 32
  const ZeroReg: Reg := 0

  datatype Instr =
    | Leaf(fd: Reg, leaf: nat)
    | LeafInt(rd: Reg, leaf: nat)
    | Addr(rd: Reg, addr: int)
    | Li3(rd: Reg, n: int)
    | Addi3(rd: Reg, rs: Reg, n: int)
    | I2F3(w: Width, fd: Reg, rs: Reg)
    | U2F3(w: Width, fd: Reg, rs: Reg)
    | Fldr(w: Width, fd: Reg, rs: Reg)
    | FNeg(w: Width, fd: Reg, fs: Reg)
    | FRound(fd: Reg, fs: Reg)
    | FMov(fd: Reg, fs: Reg)
    | FBin(w: Width, op: Op, fd: Reg, fa: Reg, fb: Reg)
    | FR2R(w: Width, rd: Reg, fs: Reg)
    | R2FR(w: Width, fd: Reg, rs: Reg)
    | Psh3(rs: Reg)
    | Pop3(rd: Reg)

  datatype Machine<F> = Machine(regs: seq<int>, fregs: seq<F>, stack: seq<int>)

  predicate Ok<F>(m: Machine<F>) {
    |m.regs| == 32 && |m.fregs| == 32
  }

  function SetR<F>(m: Machine<F>, rd: Reg, v: int): Machine<F>
    requires Ok(m)
  {
    if rd == ZeroReg then m else m.(regs := m.regs[rd := v])
  }

  function SetF<F>(m: Machine<F>, fd: Reg, v: F): Machine<F>
    requires Ok(m)
  {
    m.(fregs := m.fregs[fd := v])
  }

  /** One instruction; popping an empty stack does not happen in generated code
      and leaves the machine unchanged here. */
  function Exec<F>(p: Fpu<F>, env: Env<F>, i: Instr, m: Machine<F>): (r: Machine<F>)
    requires Ok(m)
    ensures Ok(r)
  {
    match i
    case Leaf(fd, leaf) => SetF(m, fd, env.flt(leaf))
    case LeafInt(rd, leaf) => SetR(m, rd, env.integer(leaf))
    case Addr(rd, a) => SetR(m, rd, a)
    case Li3(rd, n) => SetR(m, rd, n)
    case Addi3(rd, rs, n) => SetR(m, rd, m.regs[rs] + n)
    case I2F3(w, fd, rs) => SetF(m, fd, p.fromInt(w, m.regs[rs]))
    case U2F3(w, fd, rs) => SetF(m, fd, p.fromNat(w, m.regs[rs]))
    case Fldr(w, fd, rs) => SetF(m, fd, env.load(w, m.regs[rs]))
    case FNeg(w, fd, fs) => SetF(m, fd, Negate(p, w, m.fregs[fs]))
    case FRound(fd, fs) => SetF(m, fd, p.round(m.fregs[fs]))
    case FMov(fd, fs) => SetF(m, fd, m.fregs[fs])
    case FBin(w, op, fd, fa, fb) => SetF(m, fd, Arith(p, w, op, m.fregs[fa], m.fregs[fb]))
    case FR2R(w, rd, fs) => SetR(m, rd, p.toBits(w, m.fregs[fs]))
    case R2FR(w, fd, rs) => SetF(m, fd, p.fromBits(w, m.regs[rs]))
    case Psh3(rs) => m.(stack := [m.regs[rs]] + m.stack)
    case Pop3(rd) => if m.stack == [] then m else SetR(m, rd, m.stack[0]).(stack := m.stack[1..])
  }

  function Run<F>(p: Fpu<F>, env: Env<F>, code: seq<Instr>, m: Machine<F>): (r: Machine<F>)
    requires Ok(m)
    ensures Ok(r)
  {
    if code == [] then m else Run(p, env, code[1..], Exec(p, env, code[0], m))
  }

  lemma {:induction false} RunSplits<F>(p: Fpu<F>, env: Env<F>, a: seq<Instr>, b: seq<Instr>, m: Machine<F>)
    requires Ok(m)
    ensures Run(p, env, a + b, m) == Run(p, env, b, Run(p, env, a, m))
  {
    if a == [] {
      assert a + b == b;
    } else {
      assert (a + b)[1..] == a[1..] + b;
      RunSplits(p, env, a[1..], b, Exec(p, env, a[0], m));
    }
  }

  // ---------- the generator ----------

  /** The temporary pool, in allocation order. */
  const Temps: seq<Reg> := [5, 6, 7, 8, 9, 26, 27, 28, 29, 30, 31]

  /** alloc_temp_reg: the first register not in use. */
  function AllocFrom(temps: seq<Reg>, used: set<Reg>): Option<Reg> {
    if temps == [] then None
    else if temps[0] !in used then Some(temps[0])
    else AllocFrom(temps[1..], used)
  }

  function Alloc(used: set<Reg>): Option<Reg> {
    AllocFrom(Temps, used)
  }

  /** mark_temp_reg_used: registers outside the pool are not tracked. */
  function Marked(used: set<Reg>, r: Reg): set<Reg> {
    if r in Temps then used + {r} else used
  }

  function RoundCode(w: Width, rr: Reg, ri: Reg): seq<Instr> {
    if w.Single? then [FRound(rr, rr), FRound(ri, ri)] else []
  }

  function ZeroCode(fd: Reg, t: Reg): seq<Instr> {
    [Li3(t, 0), I2F3(Double, fd, t)]
  }

  /** The left operand's bits, saved on the stack. */
  function SpillCode(w: Width, rr: Reg, ri: Reg, t: Reg): seq<Instr> {
    [FR2R(w, t, rr), Psh3(t), FR2R(w, t, ri), Psh3(t)]
  }

  /** The right operand moved aside and the left one restored. */
  function ReloadCode(w: Width, rr: Reg, ri: Reg, br: Reg, bi: Reg, t: Reg): seq<Instr> {
    [FMov(br, rr), FMov(bi, ri), Pop3(t), R2FR(w, ri, t), Pop3(t), R2FR(w, rr, t)]
  }

  function OpCode(op: Op, w: Width, rr: Reg, ri: Reg, br: Reg, bi: Reg, t0: Reg, t1: Reg, t2: Reg): seq<Instr> {
    match op
    case Add => [FBin(w, Add, rr, rr, br), FBin(w, Add, ri, ri, bi)]
    case Sub => [FBin(w, Sub, rr, rr, br), FBin(w, Sub, ri, ri, bi)]
    case Mul => [FBin(w, Mul, t0, rr, br), FBin(w, Mul, t1, ri, bi), FBin(w, Sub, t0, t0, t1), FBin(w, Mul, t1, rr, bi),
                 FBin(w, Mul, ri, ri, br), FBin(w, Add, ri, t1, ri), FMov(rr, t0)]
    case Div => [FBin(w, Mul, t0, br, br), FBin(w, Mul, t1, bi, bi), FBin(w, Add, t0, t0, t1), FBin(w, Mul, t1, rr, br),
                 FBin(w, Mul, t2, ri, bi), FBin(w, Add, t1, t1, t2), FBin(w, Div, t1, t1, t0), FBin(w, Mul, ri, ri, br),
                 FBin(w, Mul, t2, rr, bi), FBin(w, Sub, ri, ri, t2), FBin(w, Div, ri, ri, t0), FMov(rr, t1)]
  }

  /** The code after both operands, with the pool state used. */
  function BinTail(op: Op, w: Width, rr: Reg, ri: Reg, used: set<Reg>): Option<seq<Instr>> {
    var br :- Alloc(used);
    var bi :- Alloc(used + {br});
    var t :- Alloc(used + {br, bi});
    var scratch := used + {br, bi};
    var t0 :- if op.Mul? || op.Div? then Alloc(scratch) else Some(ZeroReg);
    var t1 :- if op.Mul? || op.Div? then Alloc(scratch + {t0}) else Some(ZeroReg);
    var t2 :- if op.Div? then Alloc(scratch + {t0, t1}) else Some(ZeroReg);
    Some(ReloadCode(w, rr, ri, br, bi, t) + OpCode(op, w, rr, ri, br, bi, t0, t1, t2) + RoundCode(w, rr, ri))
  }

  /** gen_complex_expr: the code for e and the pool afterwards, or None when the
      pool runs out. */
  function Gen(e: Expr, rr: Reg, ri: Reg, used: set<Reg>): Option<(seq<Instr>, set<Reg>)> {
    match e
    case Real(leaf, _) =>
      var t :- Alloc(used);
      Some(([Leaf(rr, leaf)] + ZeroCode(ri, t), used))
    case Make(re, im, _) => Some(([Leaf(rr, re), Leaf(ri, im)], used))
    case Load(a, w) =>
      var t :- Alloc(used);
      var t' :- Alloc(used + {t});
      Some(([Addr(t, a), Fldr(w, rr, t), Addi3(t', t, PartSize(w)), Fldr(w, ri, t')], used))
    case Conj(x, w) =>
      var (c, u) :- Gen(x, rr, ri, used);
      Some((c + [FNeg(w, ri, ri)], u))
    case Neg(x, w) =>
      var (c, u) :- Gen(x, rr, ri, used);
      Some((c + [FNeg(w, rr, rr), FNeg(w, ri, ri)], u))
    case CastComplex(x, w) =>
      var (c, u) :- Gen(x, rr, ri, used);
      Some((c + RoundCode(w, rr, ri), u))
    case CastReal(leaf, kind, w) =>
      var t :- Alloc(used);
      var c := match kind
        case Floating => [Leaf(rr, leaf)]
        case Signed => [LeafInt(rr, leaf), I2F3(w, rr, rr)]
        case Unsigned => [LeafInt(rr, leaf), U2F3(w, rr, rr)];
      Some((c + ZeroCode(ri, t) + RoundCode(w, rr, ri), used))
    case Bin(op, l, r, w) =>
      var (cl, ul) :- Gen(l, rr, ri, used);
      var um := Marked(Marked(ul, rr), ri);
      var (c, u) :- AfterLeft(op, w, rr, ri, um, Gen(r, rr, ri, um));
      Some((cl + c, u))
  }

  /** A binary operator after its left operand: the marked pool um, the code right
      of the right operand. */
  function AfterLeft(op: Op, w: Width, rr: Reg, ri: Reg, um: set<Reg>, right: Option<(seq<Instr>, set<Reg>)>)
    : Option<(seq<Instr>, set<Reg>)>
  {
    var t :- Alloc(um);
    var (cr, ur) :- right;
    var tail :- BinTail(op, w, rr, ri, ur);
    Some((SpillCode(w, rr, ri, t) + cr + tail, ur))
  }

  // ---------- allocation ----------

  lemma {:induction false} AllocFromFirst(temps: seq<Reg>, used: set<Reg>)
    ensures AllocFrom(temps, used).Some? ==>
        AllocFrom(temps, used).value in temps && AllocFrom(temps, used).value !in used
    ensures AllocFrom(temps, used).None? ==> forall t :: t in temps ==> t in used
  {
    if temps != [] && temps[0] in used {
      AllocFromFirst(temps[1..], used);
    }
  }

  lemma AllocFresh(used: set<Reg>)
    ensures Alloc(used).Some? ==>
        Alloc(used).value in Temps && Alloc(used).value !in used && Alloc(used).value != ZeroReg
    ensures Alloc(used).None? ==> forall t :: t in Temps ==> t in used
  {
    AllocFromFirst(Temps, used);
  }

  // ---------- correctness ----------

  /** The stack is back and no register outside the two results and the free part
      of the pool has changed. */
  ghost predicate Keeps<F>(m: Machine<F>, m': Machine<F>, rr: Reg, ri: Reg, used: set<Reg>)
    requires Ok(m) && Ok(m')
  {
    && m'.stack == m.stack
    && forall r: Reg :: r != rr && r != ri && (r in used || r !in Temps) ==>
      m'.regs[r] == m.regs[r] && m'.fregs[r] == m.fregs[r]
  }

  ghost predicate Leaves<F>(m: Machine<F>, rr: Reg, ri: Reg, z: Complex<F>)
    requires Ok(m)
  {
    m.fregs[rr] == z.re && m.fregs[ri] == z.im
  }

  lemma Run1<F>(p: Fpu<F>, env: Env<F>, a: Instr, m: Machine<F>)
    requires Ok(m)
    ensures Run(p, env, [a], m) == Exec(p, env, a, m)
  {
  }

  lemma Run2<F>(p: Fpu<F>, env: Env<F>, a: Instr, b: Instr, m: Machine<F>)
    requires Ok(m)
    ensures Run(p, env, [a, b], m) == Exec(p, env, b, Exec(p, env, a, m))
  {
    assert [a, b] == [a] + [b];
    RunSplits(p, env, [a], [b], m);
  }

  lemma RoundCorrect<F>(p: Fpu<F>, env: Env<F>, w: Width, rr: Reg, ri: Reg, m: Machine<F>, z: Complex<F>,
                        used: set<Reg>)
    requires Ok(m) && rr != ri && Leaves(m, rr, ri, z)
    ensures var m' := Run(p, env, RoundCode(w, rr, ri), m);
      Leaves(m', rr, ri, RoundTo(p, w, z)) && Keeps(m, m', rr, ri, used)
  {
    if w.Single? { Run2(p, env, FRound(rr, rr), FRound(ri, ri), m); }
  }

  lemma Run3<F>(p: Fpu<F>, env: Env<F>, a: Instr, b: Instr, c: Instr, m: Machine<F>)
    requires Ok(m)
    ensures Run(p, env, [a, b, c], m) == Exec(p, env, c, Exec(p, env, b, Exec(p, env, a, m)))
  {
    assert [a, b, c] == [a, b] + [c];
    RunSplits(p, env, [a, b], [c], m);
    Run2(p, env, a, b, m);
  }

  lemma Run4<F>(p: Fpu<F>, env: Env<F>, a: Instr, b: Instr, c: Instr, d: Instr, m: Machine<F>)
    requires Ok(m)
    ensures Run(p, env, [a, b, c, d], m) == Exec(p, env, d, Exec(p, env, c, Exec(p, env, b, Exec(p, env, a, m))))
  {
    assert [a, b, c, d] == [a, b] + [c, d];
    RunSplits(p, env, [a, b], [c, d], m);
    Run2(p, env, a, b, m);
    Run2(p, env, c, d, Run(p, env, [a, b], m));
  }

  lemma SpillCorrect<F>(p: Fpu<F>, env: Env<F>, w: Width, rr: Reg, ri: Reg, t: Reg, m: Machine<F>)
    requires Ok(m) && t != ZeroReg
    ensures var m' := Run(p, env, SpillCode(w, rr, ri, t), m);
      && m'.stack == [p.toBits(w, m.fregs[ri]), p.toBits(w, m.fregs[rr])] + m.stack
      && m'.fregs == m.fregs
      && forall r: Reg :: r != t ==> m'.regs[r] == m.regs[r]
  {
    Run4(p, env, FR2R(w, t, rr), Psh3(t), FR2R(w, t, ri), Psh3(t), m);
  }

  lemma ReloadCorrect<F>(p: Fpu<F>, env: Env<F>, w: Width, rr: Reg, ri: Reg, br: Reg, bi: Reg, t: Reg, m: Machine<F>)
    requires Ok(m) && t != ZeroReg && rr != ri && br != bi && br != rr && br != ri && bi != rr && bi != ri
    requires |m.stack| >= 2
    ensures var m' := Run(p, env, ReloadCode(w, rr, ri, br, bi, t), m);
      && m'.stack == m.stack[2..]
      && m'.fregs[br] == m.fregs[rr] && m'.fregs[bi] == m.fregs[ri]
      && m'.fregs[ri] == p.fromBits(w, m.stack[0]) && m'.fregs[rr] == p.fromBits(w, m.stack[1])
      && (forall r: Reg :: r != t ==> m'.regs[r] == m.regs[r])
      && forall r: Reg :: r != rr && r != ri && r != br && r != bi ==> m'.fregs[r] == m.fregs[r]
  {
    var a := [FMov(br, rr), FMov(bi, ri)];
    var b := [Pop3(t), R2FR(w, ri, t), Pop3(t), R2FR(w, rr, t)];
    assert ReloadCode(w, rr, ri, br, bi, t) == a + b;
    RunSplits(p, env, a, b, m);
    Run2(p, env, FMov(br, rr), FMov(bi, ri), m);
    Run4(p, env, Pop3(t), R2FR(w, ri, t), Pop3(t), R2FR(w, rr, t), Run(p, env, a, m));
  }

  /** Only the named float registers may differ. */
  ghost predicate OnlyF<F>(m: Machine<F>, m': Machine<F>, rs: set<Reg>)
    requires Ok(m) && Ok(m')
  {
    m'.regs == m.regs && m'.stack == m.stack && forall r: Reg :: r !in rs ==> m'.fregs[r] == m.fregs[r]
  }

  lemma AddSubCorrect<F>(p: Fpu<F>, env: Env<F>, op: Op, w: Width, rr: Reg, ri: Reg, br: Reg, bi: Reg, m: Machine<F>)
    requires Ok(m) && (op.Add? || op.Sub?)
    requires rr != ri && br != bi && br != rr && br != ri && bi != rr && bi != ri
    ensures var m' := Run(p, env, OpCode(op, w, rr, ri, br, bi, ZeroReg, ZeroReg, ZeroReg), m);
      && Leaves(m', rr, ri, ComplexOp(p, w, op, Complex(m.fregs[rr], m.fregs[ri]), Complex(m.fregs[br], m.fregs[bi])))
      && OnlyF(m, m', {rr, ri})
  {
    Run2(p, env, FBin(w, op, rr, rr, br), FBin(w, op, ri, ri, bi), m);
  }

  lemma MulCorrect<F>(p: Fpu<F>, env: Env<F>, w: Width, rr: Reg, ri: Reg, br: Reg, bi: Reg, t0: Reg, t1: Reg,
                      m: Machine<F>)
    requires Ok(m) && rr != ri && t0 != t1
    requires br != bi && br !in {rr, ri, t0, t1} && bi !in {rr, ri, t0, t1} && t0 !in {rr, ri} && t1 !in {rr, ri}
    ensures var m' := Run(p, env, OpCode(Mul, w, rr, ri, br, bi, t0, t1, ZeroReg), m);
      && Leaves(m', rr, ri, ComplexOp(p, w, Mul, Complex(m.fregs[rr], m.fregs[ri]), Complex(m.fregs[br], m.fregs[bi])))
      && OnlyF(m, m', {rr, ri, t0, t1})
  {
    var a := [FBin(w, Mul, t0, rr, br), FBin(w, Mul, t1, ri, bi), FBin(w, Sub, t0, t0, t1), FBin(w, Mul, t1, rr, bi)];
    var b := [FBin(w, Mul, ri, ri, br), FBin(w, Add, ri, t1, ri), FMov(rr, t0)];
    assert OpCode(Mul, w, rr, ri, br, bi, t0, t1, ZeroReg) == a + b;
    RunSplits(p, env, a, b, m);
    Run4(p, env, a[0], a[1], a[2], a[3], m);
    Run3(p, env, b[0], b[1], b[2], Run(p, env, a, m));
  }

  /** The first eight instructions of a division: the denominator in t0, the real
      part in t1, the first product of the imaginary part in ri. */
  lemma DivReal<F>(p: Fpu<F>, env: Env<F>, w: Width, rr: Reg, ri: Reg, br: Reg, bi: Reg, t0: Reg, t1: Reg, t2: Reg,
                   m: Machine<F>)
    requires Ok(m) && t0 != t1 && t0 != t2 && t1 != t2
    requires br !in {ri, t0, t1, t2} && bi !in {ri, t0, t1, t2} && rr !in {ri, t0, t1, t2} && ri !in {t0, t1, t2}
    ensures var m' := Run(p, env, OpCode(Div, w, rr, ri, br, bi, t0, t1, t2)[..8], m);
      var x, y := Complex(m.fregs[rr], m.fregs[ri]), Complex(m.fregs[br], m.fregs[bi]);
      var denom := Arith(p, w, Add, Arith(p, w, Mul, y.re, y.re), Arith(p, w, Mul, y.im, y.im));
      && m'.fregs[t0] == denom && m'.fregs[t1] == ComplexOp(p, w, Div, x, y).re
      && m'.fregs[ri] == Arith(p, w, Mul, x.im, y.re)
      && OnlyF(m, m', {ri, t0, t1, t2})
  {
    var a := [FBin(w, Mul, t0, br, br), FBin(w, Mul, t1, bi, bi), FBin(w, Add, t0, t0, t1), FBin(w, Mul, t1, rr, br)];
    var b := [FBin(w, Mul, t2, ri, bi), FBin(w, Add, t1, t1, t2), FBin(w, Div, t1, t1, t0), FBin(w, Mul, ri, ri, br)];
    assert OpCode(Div, w, rr, ri, br, bi, t0, t1, t2)[..8] == a + b;
    RunSplits(p, env, a, b, m);
    Run4(p, env, a[0], a[1], a[2], a[3], m);
    Run4(p, env, b[0], b[1], b[2], b[3], Run(p, env, a, m));
  }

  lemma DivCorrect<F>(p: Fpu<F>, env: Env<F>, w: Width, rr: Reg, ri: Reg, br: Reg, bi: Reg, t0: Reg, t1: Reg, t2: Reg,
                      m: Machine<F>)
    requires Ok(m) && rr != ri && t0 != t1 && t0 != t2 && t1 != t2
    requires br !in {rr, ri, t0, t1, t2} && bi !in {rr, ri, t0, t1, t2}
    requires t0 !in {rr, ri} && t1 !in {rr, ri} && t2 !in {rr, ri}
    ensures var m' := Run(p, env, OpCode(Div, w, rr, ri, br, bi, t0, t1, t2), m);
      && Leaves(m', rr, ri, ComplexOp(p, w, Div, Complex(m.fregs[rr], m.fregs[ri]), Complex(m.fregs[br], m.fregs[bi])))
      && OnlyF(m, m', {rr, ri, t0, t1, t2})
  {
    var code := OpCode(Div, w, rr, ri, br, bi, t0, t1, t2);
    var c := [FBin(w, Mul, t2, rr, bi), FBin(w, Sub, ri, ri, t2), FBin(w, Div, ri, ri, t0), FMov(rr, t1)];
    assert code == code[..8] + c;
    DivReal(p, env, w, rr, ri, br, bi, t0, t1, t2, m);
    RunSplits(p, env, code[..8], c, m);
    Run4(p, env, c[0], c[1], c[2], c[3], Run(p, env, code[..8], m));
  }

  /** The registers a binary operator draws from the pool. */
  ghost predicate Drawn(op: Op, used: set<Reg>, br: Reg, bi: Reg, t: Reg, t0: Reg, t1: Reg, t2: Reg) {
    && Alloc(used) == Some(br) && Alloc(used + {br}) == Some(bi) && Alloc(used + {br, bi}) == Some(t)
    && (if op.Mul? || op.Div? then Alloc(used + {br, bi}) == Some(t0) && Alloc(used + {br, bi} + {t0}) == Some(t1)
      else t0 == t1 == ZeroReg)
    && (if op.Div? then Alloc(used + {br, bi} + {t0, t1}) == Some(t2) else t2 == ZeroReg)
  }

  lemma DrawnFresh(op: Op, used: set<Reg>, br: Reg, bi: Reg, t: Reg, t0: Reg, t1: Reg, t2: Reg)
    requires Drawn(op, used, br, bi, t, t0, t1, t2)
    ensures br in Temps && bi in Temps && t in Temps && br !in used && bi !in used && t !in used && br != bi
        && t != ZeroReg
    ensures op.Mul? || op.Div? ==>
        t0 in Temps && t1 in Temps && t0 !in used + {br, bi} && t1 !in used + {br, bi} && t0 != t1
    ensures op.Div? ==> t2 in Temps && t2 !in used + {br, bi} && t2 != t0 && t2 != t1
  {
    AllocFresh(used);
    AllocFresh(used + {br});
    AllocFresh(used + {br, bi});
    AllocFresh(used + {br, bi} + {t0});
    AllocFresh(used + {br, bi} + {t0, t1});
  }

  lemma OpCorrect<F>(p: Fpu<F>, env: Env<F>, op: Op, w: Width, rr: Reg, ri: Reg, used: set<Reg>,
                     br: Reg, bi: Reg, t: Reg, t0: Reg, t1: Reg, t2: Reg, m: Machine<F>)
    requires Ok(m) && rr != ri && Drawn(op, used, br, bi, t, t0, t1, t2)
    requires (rr in Temps ==> rr in used) && (ri in Temps ==> ri in used)
    ensures var m' := Run(p, env, OpCode(op, w, rr, ri, br, bi, t0, t1, t2), m);
      && Leaves(m', rr, ri, ComplexOp(p, w, op, Complex(m.fregs[rr], m.fregs[ri]), Complex(m.fregs[br], m.fregs[bi])))
      && Keeps(m, m', rr, ri, used)
  {
    DrawnFresh(op, used, br, bi, t, t0, t1, t2);
    match op
    case Add => AddSubCorrect(p, env, op, w, rr, ri, br, bi, m);
    case Sub => AddSubCorrect(p, env, op, w, rr, ri, br, bi, m);
    case Mul => MulCorrect(p, env, w, rr, ri, br, bi, t0, t1, m);
    case Div => DivCorrect(p, env, w, rr, ri, br, bi, t0, t1, t2, m);
  }

  /** What one register trip through the stack does to an operand is invisible to
      an operation of the same width. */
  lemma SpillInvisible<F(!new)>(p: Fpu<F>, w: Width, op: Op, x: Complex<F>, y: Complex<F>)
    requires Lawful(p)
    ensures var x' := Complex(p.fromBits(w, p.toBits(w, x.re)), p.fromBits(w, p.toBits(w, x.im)));
      ComplexOp(p, w, op, x', y) == ComplexOp(p, w, op, x, y)
  {
  }

  lemma BinTailCorrect<F(!new)>(p: Fpu<F>, env: Env<F>, op: Op, w: Width, rr: Reg, ri: Reg, used: set<Reg>,
                                m: Machine<F>, x: Complex<F>, y: Complex<F>)
    requires Ok(m) && Lawful(p) && rr != ri && BinTail(op, w, rr, ri, used).Some?
    requires (rr in Temps ==> rr in used) && (ri in Temps ==> ri in used)
    requires Leaves(m, rr, ri, y) && |m.stack| >= 2
    requires m.stack[0] == p.toBits(w, x.im) && m.stack[1] == p.toBits(w, x.re)
    ensures var m' := Run(p, env, BinTail(op, w, rr, ri, used).value, m);
      && Leaves(m', rr, ri, RoundTo(p, w, ComplexOp(p, w, op, x, y)))
      && Keeps(m.(stack := m.stack[2..]), m', rr, ri, used)
  {
    var br, bi := Alloc(used).value, Alloc(used + {Alloc(used).value}).value;
    var t := Alloc(used + {br, bi}).value;
    var wide := op.Mul? || op.Div?;
    var t0 := if wide then Alloc(used + {br, bi}).value else ZeroReg;
    var t1 := if wide then Alloc(used + {br, bi} + {t0}).value else ZeroReg;
    var t2 := if op.Div? then Alloc(used + {br, bi} + {t0, t1}).value else ZeroReg;
    assert Drawn(op, used, br, bi, t, t0, t1, t2);
    DrawnFresh(op, used, br, bi, t, t0, t1, t2);
    var a, b, c := ReloadCode(w, rr, ri, br, bi, t), OpCode(op, w, rr, ri, br, bi, t0, t1, t2), RoundCode(w, rr, ri);
    assert BinTail(op, w, rr, ri, used).value == a + b + c;
    RunSplits(p, env, a + b, c, m);
    RunSplits(p, env, a, b, m);
    ReloadCorrect(p, env, w, rr, ri, br, bi, t, m);
    var m1 := Run(p, env, a, m);
    OpCorrect(p, env, op, w, rr, ri, used, br, bi, t, t0, t1, t2, m1);
    SpillInvisible(p, w, op, x, y);
    var m2 := Run(p, env, b, m1);
    RoundCorrect(p, env, w, rr, ri, m2, ComplexOp(p, w, op, x, y), used);
  }

  /** The pool comes back as it was, except that the two result registers may now
      be marked. */
  lemma {:induction false} GenPool(e: Expr, rr: Reg, ri: Reg, used: set<Reg>)
    requires Gen(e, rr, ri, used).Some?
    ensures var u := Gen(e, rr, ri, used).value.1;
      used <= u && forall r :: r in u ==> r in used || ((r == rr || r == ri) && r in Temps)
  {
    match e
    case Conj(x, w) => GenPool(x, rr, ri, used);
    case Neg(x, w) => GenPool(x, rr, ri, used);
    case CastComplex(x, w) => GenPool(x, rr, ri, used);
    case Bin(op, l, r, w) =>
      GenPool(l, rr, ri, used);
      GenPool(r, rr, ri, Marked(Marked(Gen(l, rr, ri, used).value.1, rr), ri));
    case _ =>
  }

  lemma LeafCorrect<F>(p: Fpu<F>, env: Env<F>, e: Expr, rr: Reg, ri: Reg, used: set<Reg>, m: Machine<F>)
    requires Ok(m) && rr != ri && rr != ZeroReg && (e.Real? || e.Make? || e.Load?)
    requires Gen(e, rr, ri, used).Some?
    ensures var m' := Run(p, env, Gen(e, rr, ri, used).value.0, m);
      Leaves(m', rr, ri, Eval(p, env, e)) && Keeps(m, m', rr, ri, used)
  {
    AllocFresh(used);
    var t := Alloc(used);
    match e
    case Real(leaf, _) =>
      var code := [Leaf(rr, leaf), Li3(t.value, 0), I2F3(Double, ri, t.value)];
      assert Gen(e, rr, ri, used).value.0 == code;
      Run3(p, env, code[0], code[1], code[2], m);
    case Make(re, im, _) =>
      Run2(p, env, Leaf(rr, re), Leaf(ri, im), m);
    case Load(a, w) =>
      AllocFresh(used + {t.value});
      var t' := Alloc(used + {t.value}).value;
      Run4(p, env, Addr(t.value, a), Fldr(w, rr, t.value), Addi3(t', t.value, PartSize(w)), Fldr(w, ri, t'), m);
  }

  lemma CastRealCorrect<F>(p: Fpu<F>, env: Env<F>, e: Expr, rr: Reg, ri: Reg, used: set<Reg>, m: Machine<F>)
    requires Ok(m) && rr != ri && rr != ZeroReg && e.CastReal?
    requires Gen(e, rr, ri, used).Some?
    ensures var m' := Run(p, env, Gen(e, rr, ri, used).value.0, m);
      Leaves(m', rr, ri, Eval(p, env, e)) && Keeps(m, m', rr, ri, used)
  {
    AllocFresh(used);
    var t := Alloc(used).value;
    var a := match e.kind
      case Floating => [Leaf(rr, e.leaf)]
      case Signed => [LeafInt(rr, e.leaf), I2F3(e.w, rr, rr)]
      case Unsigned => [LeafInt(rr, e.leaf), U2F3(e.w, rr, rr)];
    var b, c := ZeroCode(ri, t), RoundCode(e.w, rr, ri);
    assert Gen(e, rr, ri, used).value.0 == a + b + c;
    RunSplits(p, env, a + b, c, m);
    RunSplits(p, env, a, b, m);
    if e.kind.Floating? { Run1(p, env, a[0], m); } else { Run2(p, env, a[0], a[1], m); }
    Run2(p, env, Li3(t, 0), I2F3(Double, ri, t), Run(p, env, a, m));
    RoundCorrect(p, env, e.w, rr, ri, Run(p, env, b, Run(p, env, a, m)),
                 Complex(CastValue(p, env, e.leaf, e.kind, e.w), p.fromInt(Double, 0)), used);
  }

  /** Compiler correctness: for every tree, running the generated code leaves the
      tree's value in (rr, ri), restores the stack, and preserves every register
      that was in use or lies outside the pool. */
  lemma {:induction false} GenCorrect<F(!new)>(p: Fpu<F>, env: Env<F>, e: Expr, rr: Reg, ri: Reg, used: set<Reg>,
                                        m: Machine<F>)
    requires Ok(m) && Lawful(p) && rr != ri && rr != ZeroReg
    requires Gen(e, rr, ri, used).Some?
    ensures var m' := Run(p, env, Gen(e, rr, ri, used).value.0, m);
      Leaves(m', rr, ri, Eval(p, env, e)) && Keeps(m, m', rr, ri, used)
    decreases e
  {
    match e
    case Conj(x, w) =>
      GenCorrect(p, env, x, rr, ri, used, m);
      UnaryCorrect(p, env, x, rr, ri, used, m, [FNeg(w, ri, ri)]);
      Run1(p, env, FNeg(w, ri, ri), Run(p, env, Gen(x, rr, ri, used).value.0, m));
    case Neg(x, w) =>
      GenCorrect(p, env, x, rr, ri, used, m);
      UnaryCorrect(p, env, x, rr, ri, used, m, [FNeg(w, rr, rr), FNeg(w, ri, ri)]);
      Run2(p, env, FNeg(w, rr, rr), FNeg(w, ri, ri), Run(p, env, Gen(x, rr, ri, used).value.0, m));
    case CastComplex(x, w) =>
      GenCorrect(p, env, x, rr, ri, used, m);
      UnaryCorrect(p, env, x, rr, ri, used, m, RoundCode(w, rr, ri));
      RoundCorrect(p, env, w, rr, ri, Run(p, env, Gen(x, rr, ri, used).value.0, m), Eval(p, env, x), used);
    case CastReal(_, _, _) => CastRealCorrect(p, env, e, rr, ri, used, m);
    case Bin(op, l, r, w) =>
      GenCorrect(p, env, l, rr, ri, used, m);
      var (cl, ul) := Gen(l, rr, ri, used).value;
      GenPool(l, rr, ri, used);
      var um := Marked(Marked(ul, rr), ri);
      AllocFresh(um);
      var t := Alloc(um).value;
      var m1 := Run(p, env, cl, m);
      var m2 := Run(p, env, SpillCode(w, rr, ri, t), m1);
      SpillCorrect(p, env, w, rr, ri, t, m1);
      GenCorrect(p, env, r, rr, ri, um, m2);
      GenPool(r, rr, ri, um);
      BinCorrect(p, env, e, rr, ri, used, m);
    case _ => LeafCorrect(p, env, e, rr, ri, used, m);
  }

  lemma UnaryCorrect<F>(p: Fpu<F>, env: Env<F>, x: Expr, rr: Reg, ri: Reg, used: set<Reg>, m: Machine<F>,
                        tail: seq<Instr>)
    requires Ok(m) && Gen(x, rr, ri, used).Some?
    ensures Run(p, env, Gen(x, rr, ri, used).value.0 + tail, m) ==
        Run(p, env, tail, Run(p, env, Gen(x, rr, ri, used).value.0, m))
  {
    RunSplits(p, env, Gen(x, rr, ri, used).value.0, tail, m);
  }

  lemma BinCorrect<F(!new)>(p: Fpu<F>, env: Env<F>, e: Expr, rr: Reg, ri: Reg, used: set<Reg>, m: Machine<F>)
    requires Ok(m) && Lawful(p) && rr != ri && rr != ZeroReg && e.Bin? && Gen(e, rr, ri, used).Some?
    requires var (cl, ul) := Gen(e.l, rr, ri, used).value;
      var um := Marked(Marked(ul, rr), ri);
      var t := Alloc(um).value;
      var (cr, ur) := Gen(e.r, rr, ri, um).value;
      var m1 := Run(p, env, cl, m);
      var m2 := Run(p, env, SpillCode(e.w, rr, ri, t), m1);
      var m3 := Run(p, env, cr, m2);
      && used <= ul && um <= ur && t in Temps && t !in um
      && Leaves(m1, rr, ri, Eval(p, env, e.l)) && Keeps(m, m1, rr, ri, used)
      && m2.stack == [p.toBits(e.w, m1.fregs[ri]), p.toBits(e.w, m1.fregs[rr])] + m1.stack
      && m2.fregs == m1.fregs && (forall q: Reg :: q != t ==> m2.regs[q] == m1.regs[q])
      && Leaves(m3, rr, ri, Eval(p, env, e.r)) && Keeps(m2, m3, rr, ri, um)
    ensures var m' := Run(p, env, Gen(e, rr, ri, used).value.0, m);
      Leaves(m', rr, ri, Eval(p, env, e)) && Keeps(m, m', rr, ri, used)
  {
    var (cl, ul) := Gen(e.l, rr, ri, used).value;
    var um := Marked(Marked(ul, rr), ri);
    var t := Alloc(um).value;
    var spill := SpillCode(e.w, rr, ri, t);
    var (cr, ur) := Gen(e.r, rr, ri, um).value;
    var tail := BinTail(e.op, e.w, rr, ri, ur).value;
    assert Gen(e, rr, ri, used).value.0 == cl + (spill + cr + tail);
    var m1 := Run(p, env, cl, m);
    RunSplits(p, env, cl, spill + cr + tail, m);
    RunSplits(p, env, spill + cr, tail, m1);
    RunSplits(p, env, spill, cr, m1);
    var m3 := Run(p, env, cr, Run(p, env, spill, Run(p, env, cl, m)));
    BinTailCorrect(p, env, e.op, e.w, rr, ri, ur, m3, Eval(p, env, e.l), Eval(p, env, e.r));
  }

  // ---------- how many registers it takes ----------

  function FreeTemps(used: set<Reg>): set<Reg> {
    set t | t in Temps && t !in used
  }

  lemma AllocCounts(used: set<Reg>)
    ensures Alloc(used).Some? <==> |FreeTemps(used)| >= 1
    ensures Alloc(used).Some? ==> |FreeTemps(used + {Alloc(used).value})| == |FreeTemps(used)| - 1
  {
    AllocFresh(used);
    if Alloc(used).Some? {
      var t := Alloc(used).value;
      assert t in FreeTemps(used);
      assert FreeTemps(used + {t}) == FreeTemps(used) - {t};
    } else {
      assert FreeTemps(used) == {};
    }
  }

  function TailNeed(op: Op): nat {
    match op
    case Add => 3
    case Sub => 3
    case Mul => 4
    case Div => 5
  }

  /** The free registers a tree needs: a maximum over its nodes, not a sum. */
  function Need(e: Expr): (n: nat)
    ensures n <= 5
  {
    match e
    case Real(_, _) => 1
    case Make(_, _, _) => 0
    case Load(_, _) => 2
    case Conj(x, _) => Need(x)
    case Neg(x, _) => Need(x)
    case CastComplex(x, _) => Need(x)
    case CastReal(_, _, _) => 1
    case Bin(op, l, r, _) => Max(TailNeed(op), Max(Need(l), Need(r)))
  }

  lemma TailNeeds(op: Op, w: Width, rr: Reg, ri: Reg, used: set<Reg>)
    ensures BinTail(op, w, rr, ri, used).Some? <==> |FreeTemps(used)| >= TailNeed(op)
  {
    AllocCounts(used);
    if Alloc(used).Some? {
      var br := Alloc(used).value;
      AllocCounts(used + {br});
      if Alloc(used + {br}).Some? {
        var bi := Alloc(used + {br}).value;
        assert used + {br} + {bi} == used + {br, bi};
        AllocCounts(used + {br, bi});
        if Alloc(used + {br, bi}).Some? {
          var t := Alloc(used + {br, bi}).value;
          AllocCounts(used + {br, bi} + {t});
          if Alloc(used + {br, bi} + {t}).Some? {
            var t1 := Alloc(used + {br, bi} + {t}).value;
            assert used + {br, bi} + {t} + {t1} == used + {br, bi} + {t, t1};
            AllocCounts(used + {br, bi} + {t, t1});
          }
        }
      }
    }
  }

  /** With its result registers held, a tree of any depth compiles exactly when
      Need(e) registers are free, never more than five, and gives them all back. */
  lemma {:induction false} GenNeeds(e: Expr, rr: Reg, ri: Reg, used: set<Reg>)
    requires (rr in Temps ==> rr in used) && (ri in Temps ==> ri in used)
    ensures Gen(e, rr, ri, used).Some? <==> |FreeTemps(used)| >= Need(e)
    ensures Gen(e, rr, ri, used).Some? ==> Gen(e, rr, ri, used).value.1 == used
  {
    match e
    case Real(_, _) => AllocCounts(used);
    case Make(_, _, _) =>
    case Load(_, _) =>
      AllocCounts(used);
      if Alloc(used).Some? { AllocCounts(used + {Alloc(used).value}); }
    case Conj(x, _) => GenNeeds(x, rr, ri, used);
    case Neg(x, _) => GenNeeds(x, rr, ri, used);
    case CastComplex(x, _) => GenNeeds(x, rr, ri, used);
    case CastReal(_, _, _) => AllocCounts(used);
    case Bin(op, l, r, w) =>
      GenNeeds(l, rr, ri, used);
      assert Marked(Marked(used, rr), ri) == used;
      AllocCounts(used);
      GenNeeds(r, rr, ri, used);
      TailNeeds(op, w, rr, ri, used);
  }

  // ---------- as it runs ----------

  /** The state gen_complex_expr changes: the text it appends to and the pool. */
  class Codegen {
    var code: seq<Instr>
    var used: set<Reg>

    constructor ()
      ensures code == [] && used == {}
    {
      code, used := [], {};
    }

    method AllocTemp() returns (r: Option<Reg>)
      modifies this`used
      ensures r == Alloc(old(used))
      ensures used == if r.Some? then old(used) + {r.value} else old(used)
    {
      var i := 0;
      while i < |Temps|
        invariant 0 <= i <= |Temps| && used == old(used)
        invariant AllocFrom(Temps[i..], used) == Alloc(used)
      {
        if Temps[i] !in used {
          used := used + {Temps[i]};
          return Some(Temps[i]);
        }
        i := i + 1;
      }
      return None;
    }

    method FreeTemp(r: Reg)
      modifies this`used
      ensures used == old(used) - {r}
    {
      used := used - {r};
    }

    method MarkUsed(r: Reg)
      modifies this`used
      ensures used == Marked(old(used), r)
    {
      if r in Temps { used := used + {r}; }
    }

    /** The scratch registers of a multiplication or division, freed again: the code
        that uses them is emitted before anything else is allocated. */
    method DrawScratch(op: Op) returns (t0: Option<Reg>, t1: Option<Reg>, t2: Option<Reg>)
      modifies this`used
      ensures used == old(used) || t0.None? || t1.None? || t2.None?
      ensures t0 == if op.Mul? || op.Div? then Alloc(old(used)) else Some(ZeroReg)
      ensures t0.Some? ==> t1 == if op.Mul? || op.Div? then Alloc(old(used) + {t0.value}) else Some(ZeroReg)
      ensures t0.Some? && t1.Some? ==> t2 == if op.Div? then Alloc(old(used) + {t0.value, t1.value}) else Some(ZeroReg)
    {
      t0, t1, t2 := Some(ZeroReg), Some(ZeroReg), Some(ZeroReg);
      if !op.Mul? && !op.Div? { return; }
      ghost var u := used;
      AllocFresh(u);
      t0 := AllocTemp();
      if t0.None? { return; }
      AllocFresh(used);
      t1 := AllocTemp();
      if t1.None? { return; }
      assert used == u + {t0.value, t1.value};
      if op.Div? {
        AllocFresh(used);
        t2 := AllocTemp();
        if t2.None? { return; }
        FreeTemp(t2.value);
      }
      FreeTemp(t1.value);
      FreeTemp(t0.value);
      assert used == u;
    }

    /** The binary operator after its operands. */
    method GenBinTail(op: Op, w: Width, rr: Reg, ri: Reg) returns (ok: bool)
      modifies this
      ensures ok == BinTail(op, w, rr, ri, old(used)).Some?
      ensures ok ==> code == old(code) + BinTail(op, w, rr, ri, old(used)).value && used == old(used)
    {
      ghost var u := used;
      AllocFresh(u);
      var br := AllocTemp();
      if br.None? { return false; }
      AllocFresh(used);
      var bi := AllocTemp();
      if bi.None? { return false; }
      ghost var v := u + {br.value, bi.value};
      assert used == v;
      AllocFresh(v);
      var t := AllocTemp();
      if t.None? { return false; }
      FreeTemp(t.value);
      assert used == v;
      var t0, t1, t2 := DrawScratch(op);
      if t0.None? || t1.None? || t2.None? { return false; }
      code := code + (ReloadCode(w, rr, ri, br.value, bi.value, t.value)
                      + OpCode(op, w, rr, ri, br.value, bi.value, t0.value, t1.value, t2.value) + RoundCode(w, rr, ri));
      FreeTemp(bi.value);
      FreeTemp(br.value);
      assert used == u;
      ok := true;
    }

    /** Between the operands: mark the result registers, push the left value. */
    method GenSpill(w: Width, rr: Reg, ri: Reg) returns (ok: bool)
      modifies this
      ensures var um := Marked(Marked(old(used), rr), ri);
        && ok == Alloc(um).Some?
        && (ok ==> code == old(code) + SpillCode(w, rr, ri, Alloc(um).value) && used == um)
    {
      MarkUsed(rr);
      MarkUsed(ri);
      ghost var um := used;
      AllocFresh(um);
      var t := AllocTemp();
      if t.None? { return false; }
      code := code + SpillCode(w, rr, ri, t.value);
      FreeTemp(t.value);
      assert used == um;
      ok := true;
    }

    method GenBin(e: Expr, rr: Reg, ri: Reg) returns (ok: bool)
      requires e.Bin?
      modifies this
      ensures ok == Gen(e, rr, ri, old(used)).Some?
      ensures ok ==> code == old(code) + Gen(e, rr, ri, old(used)).value.0 && used == Gen(e, rr, ri, old(used)).value.1
      decreases e, 0
    {
      ok := GenComplexExpr(e.l, rr, ri);
      if !ok { return; }
      ghost var cl, um := Gen(e.l, rr, ri, old(used)).value.0, Marked(Marked(used, rr), ri);
      ok := GenAfterLeft(e.op, e.r, e.w, rr, ri);
      if ok {
        Assoc(old(code), cl, AfterLeft(e.op, e.w, rr, ri, um, Gen(e.r, rr, ri, um)).value.0);
      }
    }

    method GenAfterLeft(op: Op, r: Expr, w: Width, rr: Reg, ri: Reg) returns (ok: bool)
      modifies this
      ensures var um := Marked(Marked(old(used), rr), ri);
        var g := AfterLeft(op, w, rr, ri, um, Gen(r, rr, ri, um));
        ok == g.Some? && (ok ==> code == old(code) + g.value.0 && used == g.value.1)
      decreases r, 2
    {
      ghost var um, c0 := Marked(Marked(used, rr), ri), code;
      ok := GenSpill(w, rr, ri);
      if !ok { return; }
      ok := GenComplexExpr(r, rr, ri);
      if !ok { return; }
      ghost var ur := used;
      ok := GenBinTail(op, w, rr, ri);
      if ok {
        ghost var spill, cr := SpillCode(w, rr, ri, Alloc(um).value), Gen(r, rr, ri, um).value.0;
        Assoc(c0, spill, cr);
        Assoc(c0, spill + cr, BinTail(op, w, rr, ri, ur).value);
      }
    }

    /** An operand, then a few instructions on its result. */
    method GenThen(x: Expr, rr: Reg, ri: Reg, tail: seq<Instr>) returns (ok: bool)
      modifies this
      ensures ok == Gen(x, rr, ri, old(used)).Some?
      ensures ok ==> code == old(code) + (Gen(x, rr, ri, old(used)).value.0 + tail)
      ensures ok ==> used == Gen(x, rr, ri, old(used)).value.1
      decreases x, 2
    {
      ok := GenComplexExpr(x, rr, ri);
      code := code + tail;
    }

    /** gen_complex_expr appends exactly the code of Gen; false is the error that
        ends the compile when the pool runs out. */
    method GenComplexExpr(e: Expr, rr: Reg, ri: Reg) returns (ok: bool)
      modifies this
      ensures ok == Gen(e, rr, ri, old(used)).Some?
      ensures ok ==> code == old(code) + Gen(e, rr, ri, old(used)).value.0 && used == Gen(e, rr, ri, old(used)).value.1
      decreases e, 1
    {
      match e
      case Bin(_, _, _, _) => ok := GenBin(e, rr, ri);
      case Conj(x, w) => ok := GenThen(x, rr, ri, [FNeg(w, ri, ri)]);
      case Neg(x, w) => ok := GenThen(x, rr, ri, [FNeg(w, rr, rr), FNeg(w, ri, ri)]);
      case CastComplex(x, w) => ok := GenThen(x, rr, ri, RoundCode(w, rr, ri));
      case _ => ok := GenLeaf(e, rr, ri);
    }

    method GenLeaf(e: Expr, rr: Reg, ri: Reg) returns (ok: bool)
      requires e.Real? || e.Make? || e.Load? || e.CastReal?
      modifies this
      ensures ok == Gen(e, rr, ri, old(used)).Some?
      ensures ok ==> code == old(code) + Gen(e, rr, ri, old(used)).value.0 && used == old(used)
    {
      if e.Make? {
        code := code + [Leaf(rr, e.re), Leaf(ri, e.im)];
        return true;
      }
      ghost var u := used;
      AllocFresh(u);
      var t := AllocTemp();
      if t.None? { return false; }
      if e.Load? {
        var t' := AllocTemp();
        if t'.None? { return false; }
        AllocFresh(u + {t.value});
        code := code + [Addr(t.value, e.addr), Fldr(e.w, rr, t.value), Addi3(t'.value, t.value, PartSize(e.w)),
            Fldr(e.w, ri, t'.value)];
        FreeTemp(t'.value);
      } else if e.Real? {
        code := code + ([Leaf(rr, e.leaf)] + ZeroCode(ri, t.value));
      } else {
        var c := match e.kind
          case Floating => [Leaf(rr, e.leaf)]
          case Signed => [LeafInt(rr, e.leaf), I2F3(e.w, rr, rr)]
          case Unsigned => [LeafInt(rr, e.leaf), U2F3(e.w, rr, rr)];
        code := code + (c + ZeroCode(ri, t.value) + RoundCode(e.w, rr, ri));
      }
      FreeTemp(t.value);
      assert used == u;
      ok := true;
    }
  }
}
